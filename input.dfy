/** `read_input`: reads standard input in blocks of at most 1024 bytes and
    appends one entry per non-empty line to a `Pvec`, carrying a partly read
    line from one block to the next. */
module Input {
  import opened LineSplit
  import opened Memory
  import opened PointerVector

  /** The size of the stack buffer each `read` fills. */
  const ReadBufSize: nat := 1024

  /** How the last `read` ends: end of file (0) or an error (-1). */
  datatype ReadEnd = Eof | ReadError

  /** Standard input as the program sees it: either `open` fails, or the
      successive `read` calls return the given chunks and then `end`. */
  datatype Stdin = Unopenable | Stream(chunks: seq<seq<byte>>, end: ReadEnd)

  /** Every successful `read` returns between 1 and 1024 bytes. */
  predicate ValidChunks(chunks: seq<seq<byte>>) {
    forall k :: 0 <= k < |chunks| ==> 1 <= |chunks[k]| <= ReadBufSize
  }

  /** All the bytes standard input delivers. */
  function Data(stdin: Stdin): seq<byte> {
    if stdin.Stream? then Concat(stdin.chunks) else []
  }

  /** The leftover buffer holds the line `pending` as a NUL-terminated
      string, and is null exactly when that line is empty. */
  ghost predicate HoldsPending(leftover: array?<byte>, leftoverSize: nat, pending: Line)
    reads leftover
  {
    (leftover == null <==> pending == [])
    && (leftover == null ==> leftoverSize == 0)
    && (leftover != null ==>
          leftoverSize == |pending| && leftoverSize < leftover.Length && leftover[..leftoverSize] == pending)
  }

  /** The state `read_input` keeps once it has read `input`: the vector
      holds `before` followed by the lines closed so far, and the leftover
      buffer holds the line still pending. */
  ghost predicate Tracks(dst: Pvec<Line>, leftover: array?<byte>, leftoverSize: nat,
                         before: seq<Line>, input: seq<byte>)
    reads dst, dst.vec, leftover
  {
    dst.Valid() && dst.Contents() == before + Finished(input) && HoldsPending(leftover, leftoverSize, Pending(input))
  }

  /** The state after a failure: the vector is valid and holds `before`
      followed by a prefix of `lines`. */
  ghost predicate KeptPrefix(dst: Pvec<Line>, before: seq<Line>, lines: seq<Line>)
    reads dst, dst.vec
  {
    dst.Valid() && before <= dst.Contents() && dst.Contents()[|before|..] <= lines
  }

  /** The causes a step of `read_input` can fail for, given that `realloc`
      had failed `failures` times before it: one more `realloc` failed, or
      `pvec_push` stored an entry at index `SIZE_MAX`, which its caller
      cannot tell from a failure. */
  ghost predicate FailedFor(mem: Allocator, failures: nat, dst: Pvec<Line>)
    reads mem, dst
  {
    mem.failures == failures + 1 || dst.size > SIZE_MAX
  }

  /** The `k`-th call of `read(fd, buf, 1024)`. */
  method Read(stdin: Stdin, k: nat, buf: array<byte>) returns (n: int)
    requires stdin.Stream? && ValidChunks(stdin.chunks) && k <= |stdin.chunks|
    requires buf.Length == ReadBufSize
    modifies buf
    ensures k < |stdin.chunks| ==> n == |stdin.chunks[k]| && buf[..n] == stdin.chunks[k]
    ensures k == |stdin.chunks| ==> n == (if stdin.end == Eof then 0 else -1)
  {
    if k == |stdin.chunks| {
      return if stdin.end == Eof then 0 else -1;
    }
    var c := stdin.chunks[k];
    forall i | 0 <= i < |c| {
      buf[i] := c[i];
    }
    n := |c|;
  }

  /** Grows the leftover buffer with `realloc` and copies `buf[from..to]`
      after the `leftoverSize` bytes it holds, then writes the NUL
      terminator. Returns null if the allocation fails. */
  method AppendToLeftover(mem: Allocator, leftover: array?<byte>, leftoverSize: nat, buf: array<byte>,
                          from: nat, to: nat, ghost pending: Line)
    returns (grown: array?<byte>, grownSize: nat)
    requires from < to <= buf.Length
    requires HoldsPending(leftover, leftoverSize, pending)
    modifies mem
    ensures mem.failures == old(mem.failures) + (if grown == null then 1 else 0)
    ensures grown != null ==> fresh(grown) && HoldsPending(grown, grownSize, pending + buf[from..to])
    ensures grown != null ==> grown[grownSize] == 0
  {
    grown := mem.Realloc(leftover, leftoverSize + (to - from) + 1);
    if grown == null {
      return null, 0;
    }
    var j := 0;
    assert pending + buf[from..from] == pending;
    while j < to - from
      invariant 0 <= j <= to - from
      invariant grown[..leftoverSize + j] == pending + buf[from..from + j]
      invariant mem.failures == old(mem.failures)
    {
      grown[leftoverSize + j] := buf[from + j];
      assert buf[from..from + j + 1] == buf[from..from + j] + [buf[from + j]];
      assert grown[..leftoverSize + j + 1] == grown[..leftoverSize + j] + [grown[leftoverSize + j]];
      j := j + 1;
    }
    grownSize := leftoverSize + (to - from);
    grown[grownSize] := 0;
  }

  /** The state after the line-feed-free run `c[from..to]` of the block `c`
      read after `done`: the run extends the pending line, and whatever was
      closed before the run is closed in the whole block too. */
  lemma ScanToBoundary(done: seq<byte>, c: seq<byte>, from: nat, to: nat)
    requires from <= to <= |c| && NoNewline(c[from..to])
    ensures Pending(done + c[..to]) == Pending(done + c[..from]) + c[from..to]
    ensures Finished(done + c[..to]) == Finished(done + c[..from])
    ensures Finished(done + c[..from]) <= Finished(done + c)
  {
    var p := done + c[..from];
    assert p + c[from..to] == done + c[..to] by {
      assert c[..to] == c[..from] + c[from..to];
    }
    ScanFree(p, c[from..to]);
    assert p + c[from..] == done + c by {
      assert c == c[..from] + c[from..];
    }
    FinishedMonotone(p, c[from..]);
  }

  /** The state after the line feed `c[i]` of the block `c` read after
      `done`: the pending line is closed, and the closed lines on either side
      of the line feed are closed in the whole block too. */
  lemma ScanLineFeed(done: seq<byte>, c: seq<byte>, i: nat)
    requires i < |c| && c[i] == NL
    ensures var q := done + c[..i];
      Pending(done + c[..i + 1]) == []
      && Finished(done + c[..i + 1]) == Finished(q) + (if Pending(q) == [] then [] else [Pending(q)])
      && Finished(q) <= Finished(done + c) && Finished(done + c[..i + 1]) <= Finished(done + c)
  {
    var q := done + c[..i];
    assert q + [NL] == done + c[..i + 1] by {
      assert c[..i + 1] == c[..i] + [NL];
    }
    ScanNewline(q);
    assert q + c[i..] == done + c by {
      assert c == c[..i] + c[i..];
    }
    assert q + [NL] + c[i + 1..] == done + c by {
      assert c == c[..i + 1] + c[i + 1..];
    }
    FinishedMonotone(q, c[i..]);
    FinishedMonotone(q + [NL], c[i + 1..]);
  }

  /** Pushes the pending line held by the leftover buffer onto `dst`.
      Returns false if `pvec_push` reports failure: its `realloc` failed, or
      the entry was stored at index `SIZE_MAX`, which the caller cannot tell
      from a failure. */
  method PushLeftover(dst: Pvec<Line>, mem: Allocator, leftover: array<byte>, leftoverSize: nat,
                      ghost prefix: seq<byte>, ghost before: seq<Line>)
    returns (pushed: bool)
    requires Tracks(dst, leftover, leftoverSize, before, prefix)
    modifies dst, dst.vec, mem
    ensures dst.vec == old(dst.vec) || fresh(dst.vec)
    ensures pushed ==> dst.Valid() && dst.Contents() == before + Finished(prefix) + [Pending(prefix)]
    ensures pushed ==> mem.failures == old(mem.failures)
    ensures !pushed ==> KeptPrefix(dst, before, Finished(prefix) + [Pending(prefix)])
    ensures !pushed ==> old(dst.size) == old(dst.capacity) || old(dst.size) == SIZE_MAX
    ensures !pushed ==> FailedFor(mem, old(mem.failures), dst)
  {
    var idx := dst.Push(leftover[..leftoverSize], mem);
    pushed := idx != SIZE_MAX;
  }

  /** What `read_input` does at a line feed after `prefix`, and once more
      at end of file: if there is a leftover buffer, it is pushed onto `dst`
      and dropped. Either way no line is pending afterwards. Returns false
      only if that push fails; without a leftover buffer nothing is pushed
      and nothing fails. */
  method FlushLeftover(dst: Pvec<Line>, mem: Allocator, leftover: array?<byte>, leftoverSize: nat,
                       ghost prefix: seq<byte>, ghost before: seq<Line>)
    returns (pushed: bool)
    requires Tracks(dst, leftover, leftoverSize, before, prefix)
    modifies dst, dst.vec, mem
    ensures dst.vec == old(dst.vec) || fresh(dst.vec)
    ensures leftover == null ==> pushed
    ensures pushed ==> Tracks(dst, null, 0, before, prefix + [NL]) && mem.failures == old(mem.failures)
    ensures !pushed ==> KeptPrefix(dst, before, Finished(prefix + [NL]))
    ensures !pushed ==> old(dst.size) == old(dst.capacity) || old(dst.size) == SIZE_MAX
    ensures !pushed ==> FailedFor(mem, old(mem.failures), dst)
  {
    ScanNewline(prefix);
    if leftover == null {
      return true;
    }
    pushed := PushLeftover(dst, mem, leftover, leftoverSize, prefix, before);
  }

  /** The first half of the work at position `i` of the block `c` held in
      `buf`: the run `c[lastNewline..i]`, which holds no line feed, is
      appended to the leftover buffer when it is not empty. The state is
      then the one for the bytes before position `i`. Returns false if the
      allocation fails; an empty run allocates nothing. */
  method AppendRun(dst: Pvec<Line>, mem: Allocator, buf: array<byte>, n: nat, lastNewline: nat, i: nat,
                   leftover: array?<byte>, leftoverSize: nat,
                   ghost c: seq<byte>, ghost done: seq<byte>, ghost before: seq<Line>)
    returns (ok: bool, rest: array?<byte>, restSize: nat)
    requires lastNewline <= i <= n <= buf.Length && c == buf[..n]
    requires NoNewline(c[lastNewline..i])
    requires Tracks(dst, leftover, leftoverSize, before, done + c[..lastNewline])
    modifies mem
    ensures mem.failures == old(mem.failures) + (if ok then 0 else 1)
    ensures i == lastNewline ==> ok && rest == leftover && restSize == leftoverSize
    ensures rest == null || rest == leftover || fresh(rest)
    ensures ok ==> Tracks(dst, rest, restSize, before, done + c[..i])
    ensures !ok ==> KeptPrefix(dst, before, Finished(done + c))
  {
    ghost var p := done + c[..lastNewline];
    ScanToBoundary(done, c, lastNewline, i);
    var additionalSize := i - lastNewline;
    if additionalSize == 0 {
      assert c[..i] == c[..lastNewline];
      return true, leftover, leftoverSize;
    }
    assert c[lastNewline..i] == buf[lastNewline..i];
    rest, restSize := AppendToLeftover(mem, leftover, leftoverSize, buf, lastNewline, i, Pending(p));
    if rest == null {
      assert dst.Contents()[|before|..] == Finished(p);
      return false, null, 0;
    }
    return true, rest, restSize;
  }

  /** The work of the inner loop of `read_input` at position `i` of the
      block `c` held in `buf`, where `i` is the end of the block or a line
      feed and `c[lastNewline..i]` holds no line feed: that run is appended
      to the leftover buffer, and at a line feed the pending line is pushed
      if it is not empty. Afterwards the state is the one for the bytes up
      to and including position `i`. Returns false only if an allocation
      fails or a push lands at index `SIZE_MAX`. */
  method CloseRun(dst: Pvec<Line>, mem: Allocator, buf: array<byte>, n: nat, lastNewline: nat, i: nat,
                  leftover: array?<byte>, leftoverSize: nat,
                  ghost c: seq<byte>, ghost done: seq<byte>, ghost before: seq<Line>)
    returns (ok: bool, rest: array?<byte>, restSize: nat)
    requires lastNewline <= i <= n <= buf.Length && c == buf[..n]
    requires i == n || c[i] == NL
    requires NoNewline(c[lastNewline..i])
    requires Tracks(dst, leftover, leftoverSize, before, done + c[..lastNewline])
    modifies dst, dst.vec, mem
    ensures dst.vec == old(dst.vec) || fresh(dst.vec)
    ensures rest == null || rest == leftover || fresh(rest)
    ensures i == lastNewline && (i == n || leftover == null) ==> ok
    ensures ok ==> mem.failures == old(mem.failures)
    ensures !ok ==> FailedFor(mem, old(mem.failures), dst)
    ensures ok ==> Tracks(dst, rest, restSize, before, done + c[..if i == n then n else i + 1])
    ensures !ok ==> KeptPrefix(dst, before, Finished(done + c))
  {
    ok, rest, restSize := AppendRun(dst, mem, buf, n, lastNewline, i, leftover, leftoverSize, c, done, before);
    if !ok || i == n {
      return;
    }
    ok := CloseLine(dst, mem, rest, restSize, c, done, i, before);
    return ok, null, 0;
  }

  /** The line feed at position `i` of the block `c` read after `done`: the
      pending line, held by the leftover buffer, is pushed if there is one,
      and afterwards the state is the one for the bytes up to and including
      the line feed. Returns false only if that push fails. */
  method CloseLine(dst: Pvec<Line>, mem: Allocator, leftover: array?<byte>, leftoverSize: nat,
                   ghost c: seq<byte>, ghost done: seq<byte>, ghost i: nat, ghost before: seq<Line>)
    returns (ok: bool)
    requires i < |c| && c[i] == NL
    requires Tracks(dst, leftover, leftoverSize, before, done + c[..i])
    modifies dst, dst.vec, mem
    ensures dst.vec == old(dst.vec) || fresh(dst.vec)
    ensures leftover == null ==> ok
    ensures ok ==> mem.failures == old(mem.failures) && Tracks(dst, null, 0, before, done + c[..i + 1])
    ensures !ok ==> FailedFor(mem, old(mem.failures), dst) && KeptPrefix(dst, before, Finished(done + c))
  {
    ghost var q := done + c[..i];
    assert q + [NL] == done + c[..i + 1] by {
      assert c[..i + 1] == c[..i] + [NL];
    }
    ok := FlushLeftover(dst, mem, leftover, leftoverSize, q, before);
    if !ok {
      assert Finished(q + [NL]) <= Finished(done + c) by {
        ScanLineFeed(done, c, i);
      }
    }
  }

  /** One step of the inner loop of `read_input`, at position `i < n` of
      the block `c` held in `buf`: a byte other than a line feed extends the
      current run `c[lastNewline..i]` and nothing else happens; a line feed
      closes the run, pushing the pending line if it is not empty, and the
      next run starts after it. Returns false only if an allocation fails or
      a push lands at index `SIZE_MAX`. */
  method ScanStep(dst: Pvec<Line>, mem: Allocator, buf: array<byte>, n: nat, lastNewline: nat, i: nat,
                  leftover: array?<byte>, leftoverSize: nat,
                  ghost c: seq<byte>, ghost done: seq<byte>, ghost before: seq<Line>)
    returns (ok: bool, last: nat, rest: array?<byte>, restSize: nat)
    requires lastNewline <= i < n <= buf.Length && c == buf[..n]
    requires NoNewline(c[lastNewline..i])
    requires Tracks(dst, leftover, leftoverSize, before, done + c[..lastNewline])
    modifies dst, dst.vec, mem
    ensures dst.vec == old(dst.vec) || fresh(dst.vec)
    ensures rest == null || rest == leftover || fresh(rest)
    ensures c[i] != NL ==> ok && last == lastNewline && rest == leftover && restSize == leftoverSize
    ensures c[i] == NL ==> last == i + 1
    ensures c[i] == NL && i == lastNewline && leftover == null ==> ok
    ensures ok ==> mem.failures == old(mem.failures)
    ensures !ok ==> FailedFor(mem, old(mem.failures), dst)
    ensures ok ==> last <= i + 1 && NoNewline(c[last..i + 1])
    ensures ok ==> Tracks(dst, rest, restSize, before, done + c[..last])
    ensures !ok ==> KeptPrefix(dst, before, Finished(done + c))
  {
    if buf[i] != NL {
      assert c[lastNewline..i + 1] == c[lastNewline..i] + [c[i]];
      return true, lastNewline, leftover, leftoverSize;
    }
    ok, rest, restSize := CloseRun(dst, mem, buf, n, lastNewline, i, leftover, leftoverSize, c, done, before);
    last := i + 1;
    assert c[last..i + 1] == [];
  }

  /** The inner loop of `read_input` over the block `c`, the `n` bytes just
      read into `buf`, given that `done` was read before them: every line
      feed closes the pending line, which is pushed if it is not empty, and
      the bytes after the last line feed stay in the leftover buffer.
      Returns false only if an allocation fails or a push lands at index
      `SIZE_MAX`. */
  method ScanBlock(dst: Pvec<Line>, mem: Allocator, buf: array<byte>, n: nat,
                   leftover: array?<byte>, leftoverSize: nat,
                   ghost c: seq<byte>, ghost done: seq<byte>, ghost before: seq<Line>)
    returns (ok: bool, rest: array?<byte>, restSize: nat)
    requires 0 < n <= buf.Length && c == buf[..n]
    requires Tracks(dst, leftover, leftoverSize, before, done)
    modifies dst, dst.vec, mem
    ensures dst.vec == old(dst.vec) || fresh(dst.vec)
    ensures rest == null || rest == leftover || fresh(rest)
    ensures ok ==> mem.failures == old(mem.failures)
    ensures !ok ==> FailedFor(mem, old(mem.failures), dst)
    ensures ok ==> Tracks(dst, rest, restSize, before, done + c)
    ensures !ok ==> KeptPrefix(dst, before, Finished(done + c))
  {
    rest, restSize := leftover, leftoverSize;
    var lastNewline := 0;
    var i := 0;
    assert done + c[..0] == done;
    while true
      invariant 0 <= lastNewline <= i <= n
      invariant NoNewline(c[lastNewline..i])
      invariant dst.vec == old(dst.vec) || fresh(dst.vec)
      invariant rest == null || rest == leftover || fresh(rest)
      invariant mem.failures == old(mem.failures)
      invariant Tracks(dst, rest, restSize, before, done + c[..lastNewline])
      decreases n - i
    {
      var stepped;
      if i == n {
        stepped, rest, restSize := CloseRun(dst, mem, buf, n, lastNewline, i, rest, restSize, c, done, before);
        if stepped {
          assert c[..n] == c;
        }
        return stepped, rest, restSize;
      }
      stepped, lastNewline, rest, restSize := ScanStep(dst, mem, buf, n, lastNewline, i, rest, restSize, c, done, before);
      if !stepped {
        return false, rest, restSize;
      }
      i := i + 1;
    }
  }

  /** The end of `read_input` once `read` has returned 0 after `data`: a
      pending line not closed by a line feed is still pushed. Returns 0, or
      -1 if that push fails; with no pending line nothing can fail. */
  method FinishInput(dst: Pvec<Line>, mem: Allocator, leftover: array?<byte>, leftoverSize: nat,
                     ghost data: seq<byte>, ghost before: seq<Line>)
    returns (r: int)
    requires Tracks(dst, leftover, leftoverSize, before, data)
    modifies dst, dst.vec, mem
    ensures dst.vec == old(dst.vec) || fresh(dst.vec)
    ensures r == 0 || r == -1
    ensures leftover == null ==> r == 0
    ensures r == 0 ==> dst.Valid() && dst.Contents() == before + Lines(data) && mem.failures == old(mem.failures)
    ensures r == -1 ==> KeptPrefix(dst, before, Lines(data))
    ensures r == -1 ==> FailedFor(mem, old(mem.failures), dst)
  {
    LinesIsFinishedThenPending(data);
    FinishedAfterLastLineFeed(data);
    var pushed := FlushLeftover(dst, mem, leftover, leftoverSize, data, before);
    r := if pushed then 0 else -1;
  }

  /** The inner loop of `read_input` over the `k`-th block read, stated
      in terms of all the blocks: afterwards the vector and the leftover
      buffer are those for the first `k + 1` blocks. On failure the vector
      holds only lines closed by a line feed somewhere in the data. */
  method ScanChunk(dst: Pvec<Line>, mem: Allocator, buf: array<byte>, n: nat,
                   leftover: array?<byte>, leftoverSize: nat,
                   ghost chunks: seq<seq<byte>>, ghost k: nat, ghost before: seq<Line>)
    returns (ok: bool, rest: array?<byte>, restSize: nat)
    requires k < |chunks| && 0 < n <= buf.Length && buf[..n] == chunks[k]
    requires Tracks(dst, leftover, leftoverSize, before, Concat(chunks[..k]))
    modifies dst, dst.vec, mem
    ensures dst.vec == old(dst.vec) || fresh(dst.vec)
    ensures rest == null || rest == leftover || fresh(rest)
    ensures ok ==> mem.failures == old(mem.failures)
    ensures !ok ==> FailedFor(mem, old(mem.failures), dst)
    ensures ok ==> Tracks(dst, rest, restSize, before, Concat(chunks[..k + 1]))
    ensures !ok ==> KeptPrefix(dst, before, Finished(Concat(chunks)))
  {
    ghost var done := Concat(chunks[..k]);
    assert done + chunks[k] == Concat(chunks[..k + 1]) <= Concat(chunks) by {
      ConcatStep(chunks, k);
      ConcatPrefix(chunks, k + 1);
    }
    ok, rest, restSize := ScanBlock(dst, mem, buf, n, leftover, leftoverSize, chunks[k], done, before);
    if !ok {
      assert Finished(done + chunks[k]) <= Finished(Concat(chunks)) by {
        FinishedOfPrefix(done + chunks[k], Concat(chunks));
      }
    }
  }

  /** The reading loop of `read_input`, once standard input is open:
      `chunks` are what the successive `read` calls return before `end`.
      Returns 0 at end of file, with the closed lines of all the data pushed
      and the line after the last line feed in the returned leftover buffer.
      Returns -1 if a `read` fails or the allocator or `pvec_push` reports a
      failure, having pushed only closed lines; when only the `read` fails,
      all of them. */
  method ReadBlocks(dst: Pvec<Line>, mem: Allocator, chunks: seq<seq<byte>>, end: ReadEnd, ghost before: seq<Line>)
    returns (r: int, leftover: array?<byte>, leftoverSize: nat)
    requires ValidChunks(chunks)
    requires dst.Valid() && dst.Contents() == before
    modifies dst, dst.vec, mem
    ensures dst.vec == old(dst.vec) || fresh(dst.vec)
    ensures r == 0 || r == -1
    ensures r == 0 ==> end == Eof && Tracks(dst, leftover, leftoverSize, before, Concat(chunks))
    ensures r == 0 ==> mem.failures == old(mem.failures)
    ensures r == -1 ==> KeptPrefix(dst, before, Finished(Concat(chunks)))
    ensures r == -1 ==> end == ReadError || FailedFor(mem, old(mem.failures), dst)
    ensures end == ReadError ==> r == -1
    ensures end == ReadError && mem.failures == old(mem.failures) && dst.size <= SIZE_MAX ==>
      dst.Contents() == before + Finished(Concat(chunks))
  {
    var stdin := Stream(chunks, end);
    var readBuf := new byte[ReadBufSize];
    leftover, leftoverSize := null, 0;
    var k := 0;
    assert before + Finished(Concat(chunks[..0])) == before;
    while true
      invariant 0 <= k <= |chunks|
      invariant dst.vec == old(dst.vec) || fresh(dst.vec)
      invariant mem.failures == old(mem.failures)
      invariant Tracks(dst, leftover, leftoverSize, before, Concat(chunks[..k]))
      invariant leftover != readBuf
      decreases |chunks| - k
    {
      var bytesRead := Read(stdin, k, readBuf);
      if bytesRead == -1 {
        assert chunks[..k] == chunks;
        assert KeptPrefix(dst, before, Finished(Concat(chunks))) by {
          assert dst.Contents()[|before|..] == Finished(Concat(chunks));
        }
        return -1, leftover, leftoverSize;
      }
      if bytesRead == 0 {
        assert chunks[..k] == chunks;
        return 0, leftover, leftoverSize;
      }
      var ok;
      ok, leftover, leftoverSize := ScanChunk(dst, mem, readBuf, bytesRead, leftover, leftoverSize, chunks, k, before);
      if !ok {
        return -1, leftover, leftoverSize;
      }
      k := k + 1;
    }
  }

  /** Appends to `dst` the non-empty lines of standard input, in order, and
      returns 0. Returns -1 if standard input cannot be opened, a `read`
      fails or an allocation fails (or a push lands at index `SIZE_MAX`),
      having appended only lines already closed by a line feed (or, at the
      very end, all of them); it fails for no other reason. */
  method ReadInput(dst: Pvec<Line>, mem: Allocator, stdin: Stdin) returns (r: int)
    requires dst.Valid()
    requires stdin.Stream? ==> ValidChunks(stdin.chunks)
    modifies dst, dst.vec, mem
    ensures dst.Valid()
    ensures r == 0 || r == -1
    ensures r == 0 ==>
      stdin.Stream? && stdin.end == Eof && dst.Contents() == old(dst.Contents()) + Lines(Data(stdin))
      && mem.failures == old(mem.failures)
    ensures r == -1 ==>
      old(dst.Contents()) <= dst.Contents() && dst.Contents()[|old(dst.Contents())|..] <= Lines(Data(stdin))
    ensures r == -1 ==>
      !stdin.Stream? || stdin.end == ReadError || FailedFor(mem, old(mem.failures), dst)
    ensures stdin.Stream? && stdin.end == ReadError ==>
      r == -1 && dst.Contents()[|old(dst.Contents())|..] <= Finished(Data(stdin))
    ensures stdin.Stream? && stdin.end == ReadError && mem.failures == old(mem.failures) && dst.size <= SIZE_MAX ==>
      dst.Contents() == old(dst.Contents()) + Finished(Data(stdin))
    ensures stdin.Unopenable? ==> r == -1 && dst.Contents() == old(dst.Contents()) && mem.failures == old(mem.failures)
  {
    if stdin.Unopenable? {
      return -1;
    }
    ghost var data := Data(stdin);
    var leftover, leftoverSize;
    r, leftover, leftoverSize := ReadBlocks(dst, mem, stdin.chunks, stdin.end, dst.Contents());
    if r == -1 {
      FinishedOfPrefix(data, data);
      return;
    }
    r := FinishInput(dst, mem, leftover, leftoverSize, data, old(dst.Contents()));
  }
}
