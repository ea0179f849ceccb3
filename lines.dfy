/** The meaning of the program's input stage: a byte stream is cut on line
    feeds into segments, and the entries are the segments that are not empty.
    Everything here is a specification; the imperative code in input.dfy and
    program.dfy is proved against it. */
module LineSplit {

  newtype byte = x: int | 0 <= x < 256

  /** One entry: the bytes of a line, without its line feed. */
  type Line = seq<byte>

  /** The line feed, '\n'. */
  const NL: byte := 10

  predicate NoNewline(s: seq<byte>) {
    NL !in s
  }

  /** The line-feed-separated segments of `s`, left to right. There is always
      one more segment than there are line feeds; the last one is the bytes
      after the last line feed (empty when `s` ends in a line feed). */
  function Segments(s: seq<byte>): (r: seq<Line>)
    ensures |r| >= 1
    decreases |s|
  {
    if s == [] then [[]]
    else
      var prev := Segments(s[..|s| - 1]);
      var b := s[|s| - 1];
      if b == NL then prev + [[]]
      else prev[..|prev| - 1] + [prev[|prev| - 1] + [b]]
  }

  /** The inverse of `Segments`: the segments glued back with line feeds. */
  function Join(ss: seq<Line>): seq<byte>
    requires |ss| >= 1
  {
    if |ss| == 1 then ss[0]
    else Join(ss[..|ss| - 1]) + [NL] + ss[|ss| - 1]
  }

  /** The segments of `ss` that are not empty, in order. */
  function DropEmpty(ss: seq<Line>): (r: seq<Line>)
    ensures |r| <= |ss|
  {
    if ss == [] then []
    else
      var last := ss[|ss| - 1];
      DropEmpty(ss[..|ss| - 1]) + (if last == [] then [] else [last])
  }

  /** The entries the input stage yields for the whole input `s`. */
  function Lines(s: seq<byte>): seq<Line> {
    DropEmpty(Segments(s))
  }

  /** The bytes after the last line feed of `s`: the line still being
      collected when `s` is all that has been read. */
  function Pending(s: seq<byte>): Line {
    var segs := Segments(s);
    segs[|segs| - 1]
  }

  /** The non-empty segments of `s` that a line feed has already closed. */
  function Finished(s: seq<byte>): seq<Line> {
    var segs := Segments(s);
    DropEmpty(segs[..|segs| - 1])
  }

  /** What the program writes: every entry followed by a line feed. */
  function Echo(ls: seq<Line>): seq<byte> {
    if ls == [] then []
    else Echo(ls[..|ls| - 1]) + ls[|ls| - 1] + [NL]
  }

  /** The byte stream made of the chunks in order. */
  function Concat(chunks: seq<seq<byte>>): seq<byte> {
    if chunks == [] then []
    else Concat(chunks[..|chunks| - 1]) + chunks[|chunks| - 1]
  }

  predicate WellFormed(ls: seq<Line>) {
    forall i :: 0 <= i < |ls| ==> ls[i] != [] && NoNewline(ls[i])
  }

  // ---------------------------------------------------------------------------
  // Segments and Join are inverse to each other.

  /** Appending bytes to the last piece appends them to the joined string. */
  lemma JoinExtendLast(ss: seq<Line>, t: seq<byte>)
    requires |ss| >= 1
    ensures Join(ss[..|ss| - 1] + [ss[|ss| - 1] + t]) == Join(ss) + t
  {
    var n := |ss|;
    var ext := ss[..n - 1] + [ss[n - 1] + t];
    if n > 1 {
      assert ext[..n - 1] == ss[..n - 1];
    }
  }

  /** Gluing the segments back gives the input. */
  lemma {:induction false} JoinSegments(s: seq<byte>)
    ensures Join(Segments(s)) == s
    decreases |s|
  {
    if s != [] {
      var init, b := s[..|s| - 1], s[|s| - 1];
      JoinSegments(init);
      var prev := Segments(init);
      assert s == init + [b];
      if b == NL {
        SegmentsAppendNewline(init);
        JoinAppendEmpty(prev);
      } else {
        SegmentsAppendByte(init, b);
        JoinExtendLast(prev, [b]);
      }
    }
  }

  /** An empty last piece joins as a trailing line feed. */
  lemma JoinAppendEmpty(ss: seq<Line>)
    requires |ss| >= 1
    ensures Join(ss + [[]]) == Join(ss) + [NL]
  {
    assert (ss + [[]])[..|ss|] == ss;
  }

  /** A byte other than a line feed extends the last segment. */
  lemma SegmentsAppendByte(a: seq<byte>, b: byte)
    requires b != NL
    ensures var sa := Segments(a); Segments(a + [b]) == sa[..|sa| - 1] + [sa[|sa| - 1] + [b]]
  {
    assert (a + [b])[..|a|] == a;
  }

  /** No segment holds a line feed. */
  lemma {:induction false} SegmentsLineFree(s: seq<byte>)
    ensures forall i :: 0 <= i < |Segments(s)| ==> NoNewline(Segments(s)[i])
    decreases |s|
  {
    if s != [] {
      var init, b := s[..|s| - 1], s[|s| - 1];
      SegmentsLineFree(init);
      var prev := Segments(init);
      var segs := Segments(s);
      if b != NL {
        forall i | 0 <= i < |segs| ensures NoNewline(segs[i]) {
          if i < |prev| - 1 {
            assert segs[i] == prev[i];
          }
        }
      }
    }
  }

  /** A byte that does not occur in the input occurs in none of its segments. */
  lemma {:induction false} SegmentsAvoid(s: seq<byte>, x: byte)
    requires x !in s
    ensures forall i :: 0 <= i < |Segments(s)| ==> x !in Segments(s)[i]
    decreases |s|
  {
    if s != [] {
      var init, b := s[..|s| - 1], s[|s| - 1];
      assert forall j :: 0 <= j < |init| ==> init[j] == s[j];
      SegmentsAvoid(init, x);
      var prev := Segments(init);
      var segs := Segments(s);
      if b != NL {
        forall i | 0 <= i < |segs| ensures x !in segs[i] {
          if i < |prev| - 1 {
            assert segs[i] == prev[i];
          }
        }
      }
    }
  }

  /** A line-feed-free byte string is one segment. */
  lemma {:induction false} SegmentsOfLineFree(t: seq<byte>)
    requires NoNewline(t)
    ensures Segments(t) == [t]
    decreases |t|
  {
    if t != [] {
      SegmentsOfLineFree(t[..|t| - 1]);
      assert t[..|t| - 1] + [t[|t| - 1]] == t;
    }
  }

  /** Appending line-feed-free bytes extends only the last segment. */
  lemma SegmentsAppendFree(a: seq<byte>, t: seq<byte>)
    requires NoNewline(t)
    ensures var sa := Segments(a);
      Segments(a + t) == sa[..|sa| - 1] + [sa[|sa| - 1] + t]
  {
    SegmentsConcat(a, t);
    SegmentsOfLineFree(t);
    assert [t][1..] == [];
  }

  /** A line feed closes the last segment and opens an empty one. */
  lemma SegmentsAppendNewline(a: seq<byte>)
    ensures Segments(a + [NL]) == Segments(a) + [[]]
  {
    assert (a + [NL])[..|a|] == a;
  }

  /** Cutting the input anywhere: the segment under the cut is the last
      segment before it followed by the first segment after it; all other
      segments are those of the two sides. This is why a line that straddles
      two reads becomes one entry. */
  lemma {:induction false} SegmentsConcat(a: seq<byte>, b: seq<byte>)
    ensures Segments(a + b) == Glue(Segments(a), Segments(b))
    decreases |b|
  {
    if b == [] {
      assert a + b == a;
      GlueOntoEmpty(Segments(a));
    } else {
      var b', x := b[..|b| - 1], b[|b| - 1];
      SegmentsConcat(a, b');
      assert b == b' + [x];
      ConcatThenAnyByte(a, b', x);
    }
  }

  /** Gluing on the segments of the empty input changes nothing. */
  lemma GlueOntoEmpty(sa: seq<Line>)
    requires |sa| >= 1
    ensures Glue(sa, [[]]) == sa
  {
    assert sa[|sa| - 1] + [] == sa[|sa| - 1];
    assert sa == sa[..|sa| - 1] + [sa[|sa| - 1]];
  }

  lemma ConcatThenAnyByte(a: seq<byte>, b: seq<byte>, x: byte)
    requires Segments(a + b) == Glue(Segments(a), Segments(b))
    ensures Segments(a + (b + [x])) == Glue(Segments(a), Segments(b + [x]))
  {
    assert a + (b + [x]) == (a + b) + [x];
    if x == NL {
      ConcatThenNewline(a, b);
    } else {
      ConcatThenByte(a, b, x);
    }
  }

  lemma ConcatThenNewline(a: seq<byte>, b: seq<byte>)
    requires Segments(a + b) == Glue(Segments(a), Segments(b))
    ensures Segments((a + b) + [NL]) == Glue(Segments(a), Segments(b + [NL]))
  {
    SegmentsAppendNewline(a + b);
    SegmentsAppendNewline(b);
    GlueNewline(Segments(a), Segments(b));
  }

  lemma ConcatThenByte(a: seq<byte>, b: seq<byte>, x: byte)
    requires x != NL
    requires Segments(a + b) == Glue(Segments(a), Segments(b))
    ensures Segments((a + b) + [x]) == Glue(Segments(a), Segments(b + [x]))
  {
    SegmentsAppendByte(a + b, x);
    SegmentsAppendByte(b, x);
    GlueExtendLast(Segments(a), Segments(b), [x]);
  }

  /** Two segment lists joined at a cut: the last of `sa` meets the first of `sb`. */
  function Glue(sa: seq<Line>, sb: seq<Line>): seq<Line>
    requires |sa| >= 1 && |sb| >= 1
  {
    sa[..|sa| - 1] + [sa[|sa| - 1] + sb[0]] + sb[1..]
  }

  lemma GlueNewline(sa: seq<Line>, sb: seq<Line>)
    requires |sa| >= 1 && |sb| >= 1
    ensures Glue(sa, sb) + [[]] == Glue(sa, sb + [[]])
  {
    assert (sb + [[]])[1..] == sb[1..] + [[]];
  }

  lemma GlueExtendLast(sa: seq<Line>, sb: seq<Line>, t: seq<byte>)
    requires |sa| >= 1 && |sb| >= 1
    ensures var g := Glue(sa, sb);
      g[..|g| - 1] + [g[|g| - 1] + t] == Glue(sa, sb[..|sb| - 1] + [sb[|sb| - 1] + t])
  {
    var g := Glue(sa, sb);
    var m := |sb|;
    var sb2 := sb[..m - 1] + [sb[m - 1] + t];
    if m == 1 {
      assert g[..|g| - 1] == sa[..|sa| - 1];
      assert sa[|sa| - 1] + sb[0] + t == sa[|sa| - 1] + sb2[0];
    } else {
      assert sb2[0] == sb[0];
      assert sb2[1..] == sb[1..m - 1] + [sb[m - 1] + t];
      assert g[..|g| - 1] == sa[..|sa| - 1] + [sa[|sa| - 1] + sb[0]] + sb[1..m - 1];
    }
  }

  /** Segments is the unique split: well-formed pieces glued by Join are
      recovered exactly. */
  lemma {:induction false} SegmentsJoin(ss: seq<Line>)
    requires |ss| >= 1
    requires forall i :: 0 <= i < |ss| ==> NoNewline(ss[i])
    ensures Segments(Join(ss)) == ss
    decreases |ss|
  {
    var n := |ss|;
    if n == 1 {
      SegmentsOfLineFree(ss[0]);
    } else {
      var init := ss[..n - 1];
      assert init + [ss[n - 1]] == ss;
      assert forall i :: 0 <= i < n - 1 ==> init[i] == ss[i];
      SegmentsJoin(init);
      SegmentsAfterNewline(Join(init), ss[n - 1]);
    }
  }

  /** A line feed followed by line-feed-free bytes adds exactly one segment. */
  lemma SegmentsAfterNewline(a: seq<byte>, t: seq<byte>)
    requires NoNewline(t)
    ensures Segments(a + [NL] + t) == Segments(a) + [t]
  {
    SegmentsAppendNewline(a);
    SegmentsAppendFree(a + [NL], t);
    var s := Segments(a + [NL]);
    assert s[..|s| - 1] == Segments(a);
    assert [] + t == t;
  }

  // ---------------------------------------------------------------------------
  // DropEmpty

  lemma {:induction false} DropEmptyAppend(x: seq<Line>, y: seq<Line>)
    ensures DropEmpty(x + y) == DropEmpty(x) + DropEmpty(y)
    decreases |y|
  {
    if y == [] {
      assert x + y == x;
    } else {
      var y' := y[..|y| - 1];
      DropEmptyAppend(x, y');
      assert (x + y)[..|x + y| - 1] == x + y';
      assert (x + y)[|x + y| - 1] == y[|y| - 1];
    }
  }

  /** Dropping empty lines from lines that are all non-empty changes nothing. */
  lemma {:induction false} DropEmptyOfNonEmpty(ls: seq<Line>)
    requires forall i :: 0 <= i < |ls| ==> ls[i] != []
    ensures DropEmpty(ls) == ls
    decreases |ls|
  {
    if ls != [] {
      DropEmptyOfNonEmpty(ls[..|ls| - 1]);
      assert ls[..|ls| - 1] + [ls[|ls| - 1]] == ls;
    }
  }

  // ---------------------------------------------------------------------------
  // Lines: the entries of the input.

  /** Dropping empty segments keeps only non-empty segments of the list. */
  lemma {:induction false} DropEmptyMembers(ss: seq<Line>)
    ensures forall l :: l in DropEmpty(ss) ==> l != [] && l in ss
    decreases |ss|
  {
    if ss != [] {
      var init := ss[..|ss| - 1];
      DropEmptyMembers(init);
      forall l | l in DropEmpty(ss) ensures l != [] && l in ss {
        if l in DropEmpty(init) {
          var k :| 0 <= k < |init| && init[k] == l;
          assert ss[k] == l;
        }
      }
    }
  }

  /** Every entry is non-empty and holds no line feed. */
  lemma LinesWellFormed(s: seq<byte>)
    ensures WellFormed(Lines(s))
  {
    SegmentsLineFree(s);
    DropEmptyMembers(Segments(s));
    var ls := Lines(s);
    forall i | 0 <= i < |ls| ensures ls[i] != [] && NoNewline(ls[i]) {
      assert ls[i] in ls;
      var k :| 0 <= k < |Segments(s)| && Segments(s)[k] == ls[i];
    }
  }

  /** The entries are the closed lines followed by the unterminated last
      fragment, when that fragment is not empty. */
  lemma LinesIsFinishedThenPending(s: seq<byte>)
    ensures Lines(s) == Finished(s) + (if Pending(s) == [] then [] else [Pending(s)])
  {
    var segs := Segments(s);
    var n := |segs|;
    assert segs == segs[..n - 1] + [segs[n - 1]];
    DropEmptyAppend(segs[..n - 1], [segs[n - 1]]);
    assert [segs[n - 1]][..0] == [];
  }

  /** At the end of the input the pending line is handled as if one more
      line feed followed: the entries are the lines that feed would close. */
  lemma FinishedAfterLastLineFeed(s: seq<byte>)
    ensures Finished(s + [NL]) == Lines(s)
  {
    ScanNewline(s);
    LinesIsFinishedThenPending(s);
  }

  /** Cutting the input just after a line feed splits the entries there. */
  lemma LinesConcatAtNewline(a: seq<byte>, b: seq<byte>)
    ensures Lines(a + [NL] + b) == Lines(a) + Lines(b)
  {
    var sa, sb := Segments(a), Segments(b);
    SegmentsAppendNewline(a);
    SegmentsConcat(a + [NL], b);
    var s1 := Segments(a + [NL]);
    assert Segments(a + [NL] + b) == s1[..|s1| - 1] + [s1[|s1| - 1] + sb[0]] + sb[1..];
    assert s1[..|s1| - 1] == sa;
    assert s1[|s1| - 1] + sb[0] == sb[0];
    assert sb == [sb[0]] + sb[1..];
    assert Segments(a + [NL] + b) == sa + sb;
    DropEmptyAppend(sa, sb);
  }

  /** Reading more bytes never takes back a closed line: the closed lines
      of a prefix are a prefix of the closed lines of the whole. */
  lemma FinishedMonotone(p: seq<byte>, q: seq<byte>)
    ensures Finished(p) <= Finished(p + q)
  {
    var sp, sq := Segments(p), Segments(q);
    SegmentsConcat(p, q);
    var g := Segments(p + q);
    var x, y := sp[..|sp| - 1], g[..|g| - 1];
    GlueKeepsClosed(sp, sq);
    assert y == x + y[|x|..];
    DropEmptyAppend(x, y[|x|..]);
  }

  /** Gluing keeps every segment of the left side but its last one in place. */
  lemma GlueKeepsClosed(sa: seq<Line>, sb: seq<Line>)
    requires |sa| >= 1 && |sb| >= 1
    ensures var g := Glue(sa, sb); sa[..|sa| - 1] <= g[..|g| - 1]
  {
    var g := Glue(sa, sb);
    assert |g| == |sa| + |sb| - 1;
    forall i | 0 <= i < |sa| - 1 ensures g[i] == sa[i] {
      assert g[i] == sa[..|sa| - 1][i];
    }
  }

  /** Whatever has been closed after reading a prefix `p` of the input `s` is
      a prefix of the closed lines of `s`, and so of its entries. */
  lemma FinishedOfPrefix(p: seq<byte>, s: seq<byte>)
    requires p <= s
    ensures Finished(p) <= Finished(s) <= Lines(s)
  {
    assert s == p + s[|p|..];
    FinishedMonotone(p, s[|p|..]);
    LinesIsFinishedThenPending(s);
  }

  /** Reading bytes without a line feed extends the pending line. */
  lemma ScanFree(p: seq<byte>, t: seq<byte>)
    requires NoNewline(t)
    ensures Pending(p + t) == Pending(p) + t
    ensures Finished(p + t) == Finished(p)
  {
    SegmentsAppendFree(p, t);
    var sp := Segments(p);
    var s := Segments(p + t);
    assert s[..|s| - 1] == sp[..|sp| - 1];
  }

  /** Reading a line feed closes the pending line; it becomes an entry only
      if it is not empty. */
  lemma ScanNewline(p: seq<byte>)
    ensures Pending(p + [NL]) == []
    ensures Finished(p + [NL]) == Finished(p) + (if Pending(p) == [] then [] else [Pending(p)])
  {
    SegmentsAppendNewline(p);
    var sp := Segments(p);
    var n := |sp|;
    var s := Segments(p + [NL]);
    assert s[..|s| - 1] == sp;
    assert sp == sp[..n - 1] + [sp[n - 1]];
    DropEmptyAppend(sp[..n - 1], [sp[n - 1]]);
    assert [sp[n - 1]][..0] == [];
  }

  // ---------------------------------------------------------------------------
  // Echo: what the program writes back.

  /** The output of well-formed entries has exactly those entries as its
      segments, plus the empty segment after the final line feed. */
  lemma {:induction false} SegmentsOfEcho(ls: seq<Line>)
    requires WellFormed(ls)
    ensures Segments(Echo(ls)) == ls + [[]]
    decreases |ls|
  {
    if ls != [] {
      var init, l := ls[..|ls| - 1], ls[|ls| - 1];
      SegmentsOfEcho(init);
      var e := Echo(init);
      SegmentsAppendFree(e, l);
      var se := Segments(e);
      assert se[..|se| - 1] == init;
      assert [] + l == l;
      assert Segments(e + l) == ls;
      SegmentsAppendNewline(e + l);
    }
  }

  /** Reading back what the program writes yields the same entries. */
  lemma LinesOfEcho(ls: seq<Line>)
    requires WellFormed(ls)
    ensures Lines(Echo(ls)) == ls
  {
    SegmentsOfEcho(ls);
    DropEmptyAppend(ls, [[]]);
    DropEmptyOfNonEmpty(ls);
    assert DropEmpty([[]]) == [];
  }

  /** Running the program on its own output changes nothing. */
  lemma EchoIdempotent(s: seq<byte>)
    ensures Lines(Echo(Lines(s))) == Lines(s)
    ensures Echo(Lines(Echo(Lines(s)))) == Echo(Lines(s))
  {
    LinesWellFormed(s);
    LinesOfEcho(Lines(s));
  }

  /** The first `k` chunks read are a prefix of the whole stream. */
  lemma {:induction false} ConcatPrefix(chunks: seq<seq<byte>>, k: nat)
    requires k <= |chunks|
    ensures Concat(chunks[..k]) <= Concat(chunks)
    decreases |chunks|
  {
    if k < |chunks| {
      var init := chunks[..|chunks| - 1];
      ConcatPrefix(init, k);
      assert init[..k] == chunks[..k];
    } else {
      assert chunks[..k] == chunks;
    }
  }

  /** The chunks up to `k + 1` are those up to `k` followed by chunk `k`. */
  lemma ConcatStep(chunks: seq<seq<byte>>, k: nat)
    requires k < |chunks|
    ensures Concat(chunks[..k + 1]) == Concat(chunks[..k]) + chunks[k]
  {
    assert chunks[..k + 1][..k] == chunks[..k];
  }
}
