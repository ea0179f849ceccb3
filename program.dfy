/** `main`: reads the entries from standard input and prints each on its own
    line; a failure of the input stage makes the program exit with status 1. */
module Program {
  import opened LineSplit
  import opened PointerVector
  import opened Input
  import opened Memory

  /** The string terminator, '\0'. */
  const NUL: byte := 0

  /** What `%s` prints of a stored entry: its bytes up to the first NUL. */
  function CString(l: Line): (r: Line)
    ensures r <= l && NUL !in r
    ensures |r| < |l| ==> l[|r|] == NUL
    decreases |l|
  {
    if l == [] || l[0] == NUL then []
    else [l[0]] + CString(l[1..])
  }

  /** What the output loop writes for the entries `ls`: each as `%s`
      prints it, followed by a line feed. */
  function Printed(ls: seq<Line>): seq<byte> {
    if ls == [] then []
    else Printed(ls[..|ls| - 1]) + CString(ls[|ls| - 1]) + [NL]
  }

  /** An entry without NUL bytes is printed whole. */
  lemma CStringOfNulFree(l: Line)
    requires NUL !in l
    ensures CString(l) == l
  {
  }

  /** Without NUL bytes in the entries, the output is exactly `Echo`. */
  lemma {:induction false} PrintedNulFree(ls: seq<Line>)
    requires forall i :: 0 <= i < |ls| ==> NUL !in ls[i]
    ensures Printed(ls) == Echo(ls)
    decreases |ls|
  {
    if ls != [] {
      PrintedNulFree(ls[..|ls| - 1]);
      CStringOfNulFree(ls[|ls| - 1]);
    }
  }

  /** The entries of an input without NUL bytes hold no NUL byte. */
  lemma LinesNulFree(s: seq<byte>)
    requires NUL !in s
    ensures forall i :: 0 <= i < |Lines(s)| ==> NUL !in Lines(s)[i]
  {
    SegmentsAvoid(s, NUL);
    DropEmptyMembers(Segments(s));
    var ls := Lines(s);
    forall i | 0 <= i < |ls| ensures NUL !in ls[i] {
      assert ls[i] in ls;
    }
  }

  /** For input without NUL bytes, the output is the entries each followed
      by a line feed, and reading it back yields the same entries. */
  lemma OutputRoundTrip(s: seq<byte>)
    requires NUL !in s
    ensures Printed(Lines(s)) == Echo(Lines(s))
    ensures Lines(Printed(Lines(s))) == Lines(s)
  {
    LinesNulFree(s);
    PrintedNulFree(Lines(s));
    LinesWellFormed(s);
    LinesOfEcho(Lines(s));
  }

  /** The loop at the end of `main`: every entry in order, as `%s` prints
      it, each followed by a line feed. */
  method PrintEntries(input: Pvec<Line>) returns (stdout: seq<byte>)
    requires input.Valid()
    ensures stdout == Printed(input.Contents())
  {
    ghost var entries := input.Contents();
    stdout := [];
    var i := 0;
    while i < input.size
      invariant 0 <= i <= input.size
      invariant stdout == Printed(entries[..i])
    {
      assert entries[..i + 1][..i] == entries[..i];
      stdout := stdout + CString(input.vec[i]) + [NL];
      i := i + 1;
    }
    assert entries[..i] == entries;
  }

  /** The program run on `stdin`, with the C library's allocator `mem`: the
      exit status and what it writes to standard output (the message
      `perror` writes to standard error is not modelled). The status is 1
      exactly when reading fails: standard input cannot be opened, a `read`
      fails, `realloc` fails, or (only with more than `SIZE_MAX` entries) a
      push lands at index `SIZE_MAX`. On success the output is every entry
      on its own line, as `%s` prints it, and for input without NUL bytes
      reading the output back yields the same entries. */
  method Run(stdin: Stdin, mem: Allocator) returns (exitCode: int, stdout: seq<byte>)
    requires stdin.Stream? ==> ValidChunks(stdin.chunks)
    modifies mem
    ensures exitCode == 0 || exitCode == 1
    ensures exitCode == 1 ==> stdout == []
    ensures !stdin.Stream? || stdin.end == ReadError ==> exitCode == 1
    ensures mem.failures > old(mem.failures) ==> exitCode == 1
    ensures exitCode == 1 ==>
      !stdin.Stream? || stdin.end == ReadError || mem.failures > old(mem.failures) || |Lines(Data(stdin))| > SIZE_MAX
    ensures exitCode == 0 ==> stdin.Stream? && stdin.end == Eof && stdout == Printed(Lines(Data(stdin)))
    ensures exitCode == 0 && NUL !in Data(stdin) ==>
      stdout == Echo(Lines(Data(stdin))) && Lines(stdout) == Lines(Data(stdin))
  {
    var input := new Pvec<Line>();
    var r := ReadInput(input, mem, stdin);
    if r == -1 {
      return 1, [];
    }
    stdout := PrintEntries(input);
    if NUL !in Data(stdin) {
      OutputRoundTrip(Data(stdin));
    }
    return 0, stdout;
  }
}
