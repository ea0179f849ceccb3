# smenu input stage, modelled in Dafny

The repository's `main.c` reads standard input into a growable vector of
entries, one per non-empty line, and then prints every entry on its own line.
It has three parts:

- `Pvec` and `pvec_push`: a vector of pointers that grows by 1024 slots with
  `realloc` when it is full.
- `read_input`: reads standard input in blocks of at most 1024 bytes. It keeps
  the part of a line not yet closed by a line feed in a `realloc`-grown
  leftover buffer. It pushes that buffer at every line feed, if the buffer is
  not empty, and once more at end of file.
- `main`: exits with status 1 if `read_input` fails. Otherwise it prints each
  entry with `printf("%s\n", ...)`.

The model keeps this imperative shape:

- `Pvec` is a class with an array and `size`/`capacity` fields.
- The leftover buffer is an array regrown through a `Realloc` that may fail.
  The allocator counts its failures in a ghost field, so each contract can
  say which failures it reports and that it reports no others.
- The byte loops are `while` loops with invariants.

Each loop is proved against a specification in `lines.dfy`. There the input
is cut on line feeds into `Segments`, and the entries are `Lines`, the
non-empty segments. The proofs establish the following:

- When `read_input` returns 0, it has appended exactly `Lines` of everything
  it read, whatever the sizes of the blocks.
- It returns -1 only when standard input cannot be opened, a `read` fails,
  `realloc` fails, or a push stores an entry at index `SIZE_MAX`. Whenever
  none of these happens, it returns 0.
- A failing run has appended only a prefix of those lines. When only a
  `read` failed, it has appended every line closed by a line feed.
- The output of a successful run is every entry, printed up to its first
  NUL byte as `%s` does, followed by a line feed. For input without NUL
  bytes, reading that output back yields the same entries.
- `main` exits with status 1 only for the failures above, and always when
  `realloc` has failed.

Files:

- `lines.dfy` (module `LineSplit`): the specification functions and their
  lemmas.
- `memory.dfy` (module `Memory`): `realloc`, and a count of its failures.
- `pvec.dfy` (module `PointerVector`): `Pvec` and `pvec_push`.
- `input.dfy` (module `Input`): `read` and `read_input`.
- `program.dfy` (module `Program`): `main`.

## Model

| member | source | states |
|---|---|---|
| Memory.Allocator.constructor | main.c:18 | no allocation has failed yet |
| Memory.Allocator.Realloc | main.c:18 | a successful `realloc` returns a fresh block of the requested size that keeps the old contents up to the smaller length; it may instead return null, and exactly then one more failure is counted |
| PointerVector.Pvec.constructor | main.c:91 | `Pvec input = { 0 }` is a valid vector with capacity 0 and no elements |
| PointerVector.Pvec.PushAsWritten | main.c:13-27 | `pvec_push` as written. With room, `p` goes to the old `size`, that index is returned, and capacity and block are unchanged. When full, either the block grows by 1024 slots and the same happens, or `realloc` fails and `SIZE_MAX` is returned with the elements unchanged but the capacity already raised by 1024, so the vector no longer satisfies what the next push relies on |
| PointerVector.Pvec.Push | main.c:13-27 | `pvec_push` with the capacity raised only after `realloc` succeeds. It stores `p` at the old size and returns that index, leaving all earlier elements as they were. It grows by exactly 1024 slots, and only when `size == capacity`. `size <= capacity` is kept. It returns `SIZE_MAX` only when `realloc` failed, changing nothing, or when the entry was stored at index `SIZE_MAX` |
| Input.Read | main.c:43 | the k-th `read` fills the buffer with the k-th chunk and returns its length; after the last chunk it returns 0 at end of file or -1 on error |
| Input.AppendToLeftover | main.c:55-66 | the leftover buffer is regrown to hold its line plus `buf[from..to]` and a NUL terminator, and the bytes are copied after the old ones; null exactly when the allocation fails |
| Input.AppendRun | main.c:55-66 | the run since the last line feed, if not empty, is added to the pending line and nothing is pushed. An empty run allocates nothing and cannot fail. It fails only when `realloc` does; the vector then holds a prefix of the lines the whole block would close |
| Input.PushLeftover | main.c:71-73 | the pending line held by the leftover buffer becomes the next entry. A failed push happens only when the vector was full or its size was `SIZE_MAX`, and only when `realloc` failed or the entry went to index `SIZE_MAX` |
| Input.FlushLeftover | main.c:70-76 | at a line feed, and at end of file, the leftover buffer is pushed if there is one, which yields exactly the closed lines of the input read so far with that line feed; with no leftover buffer nothing is pushed and nothing fails; a failed push keeps a prefix of those lines |
| Input.CloseRun | main.c:55-76 | at a line feed or at the end of a block, the run since the last line feed joins the pending line, and a line feed pushes that line if it is not empty; the state matches the input read through that position. An empty run at the end of a block, or at a line feed with no pending line, cannot fail; any failure is a failed `realloc` or a push at index `SIZE_MAX` |
| Input.CloseLine | main.c:70-76 | a line feed closes the pending line: the leftover buffer, if any, is pushed and dropped, and the state matches the input through the line feed; with no leftover buffer it cannot fail |
| Input.ScanStep | main.c:51-54 | one step of the inner loop: a byte that is not a line feed extends the run, pushes nothing and cannot fail; a line feed closes the run and moves its start past the line feed |
| Input.ScanBlock | main.c:50-78 | after one block, the vector holds the closed lines of everything read so far, and the leftover buffer holds the line not yet closed. It fails only when `realloc` fails or a push lands at index `SIZE_MAX`, and then only a prefix of those closed lines was appended |
| Input.ScanChunk | main.c:50-78 | the same for the k-th chunk, stated over all the chunks: after it the state is the one for the first k + 1 chunks |
| Input.ReadBlocks | main.c:42-79 | the reading loop: at end of file the vector holds the closed lines of all the data and the leftover buffer the rest. It returns -1 only on a failed `read`, a failed `realloc` or a push at index `SIZE_MAX`, having pushed only closed lines; after a failed `read` alone, all of them |
| Input.FinishInput | main.c:80-87 | at end of file the pending line, if not empty, is pushed, so the vector gains exactly the lines of the whole input; with no pending line it returns 0; a failed push leaves a prefix of them |
| Input.ReadInput | main.c:29-88 | returns 0 or -1. On 0, standard input ended normally, no allocation failed, and exactly the non-empty line-feed-separated segments of all the data were appended, in order. It returns -1 only when standard input cannot be opened (nothing appended), a `read` fails, `realloc` fails or a push lands at index `SIZE_MAX`. After a failed `read` with nothing else failing, exactly the lines closed by a line feed were appended. Any -1 leaves a prefix of the lines appended |
| Input.ScanToBoundary | main.c:52-53 | bytes without a line feed only extend the pending line and close nothing; lines closed before them stay closed in the whole block |
| Input.ScanLineFeed | main.c:70-77 | a line feed closes the pending line (adding it to the closed lines if it is not empty) and leaves no pending line |
| LineSplit.JoinSegments | main.c:50-78 | splitting on line feeds loses no byte: the segments joined with line feeds are the input |
| LineSplit.SegmentsJoin | main.c:50-78 | the split is unique: pieces without line feeds, joined with line feeds, split back into exactly those pieces |
| LineSplit.SegmentsLineFree | main.c:52 | no segment contains a line feed |
| LineSplit.SegmentsAvoid | main.c:61-63 | a byte absent from the input is absent from every segment, because segments are copied from the input |
| LineSplit.SegmentsOfLineFree | main.c:52-53 | input without a line feed is a single segment |
| LineSplit.SegmentsAppendFree | main.c:55-66 | bytes without a line feed extend only the last segment |
| LineSplit.SegmentsAppendByte | main.c:52-53 | a byte other than a line feed extends the last segment |
| LineSplit.SegmentsAppendNewline | main.c:70-77 | a line feed closes the last segment and opens an empty one |
| LineSplit.SegmentsConcat | main.c:42-79 | cutting the input between two reads: the segment under the cut is the end of the first part glued to the start of the second, and all other segments are those of the two parts. So a line that straddles two reads becomes one entry |
| LineSplit.SegmentsAfterNewline | main.c:70-77 | a line feed followed by bytes without a line feed adds exactly one segment, those bytes |
| LineSplit.DropEmptyAppend | main.c:56 | dropping empty segments distributes over concatenation |
| LineSplit.DropEmptyMembers | main.c:56 | the entries are non-empty segments of the input |
| LineSplit.DropEmptyOfNonEmpty | main.c:56 | a list without empty segments is kept whole |
| LineSplit.LinesWellFormed | main.c:52-66 | every entry is non-empty and contains no line feed |
| LineSplit.LinesIsFinishedThenPending | main.c:80-86 | the entries are the closed lines followed by the trailing fragment when that is not empty |
| LineSplit.FinishedAfterLastLineFeed | main.c:80-86 | the final push at end of file acts as one more line feed would: the closed lines then are exactly the entries |
| LineSplit.LinesConcatAtNewline | main.c:70-77 | the entries of two parts separated by a line feed are the entries of the first then those of the second |
| LineSplit.FinishedMonotone | main.c:70-76 | reading more never takes back a closed line: those of a prefix are a prefix of those of the whole |
| LineSplit.FinishedOfPrefix | main.c:44-46 | when reading stops early, the lines already pushed are a prefix of the entries of the full input |
| LineSplit.ScanFree | main.c:52-66 | bytes without a line feed extend the pending line and leave the closed lines unchanged |
| LineSplit.ScanNewline | main.c:70-77 | a line feed empties the pending line and closes it if it was not empty |
| LineSplit.SegmentsOfEcho | main.c:97-99 | well-formed entries each followed by a line feed split back into those entries and a final empty segment |
| LineSplit.LinesOfEcho | main.c:97-99 | reading back the printed entries yields the same entries |
| LineSplit.EchoIdempotent | main.c:97-99 | feeding the program's output back to it gives the same entries and the same output |
| LineSplit.ConcatPrefix | main.c:42-49 | the bytes of the first k reads are a prefix of all the bytes read |
| LineSplit.ConcatStep | main.c:42-49 | one more read appends its chunk to the bytes read so far |
| Program.CString | main.c:98 | `%s` prints the entry up to, not including, its first NUL byte |
| Program.CStringOfNulFree | main.c:98 | an entry without a NUL byte is printed whole |
| Program.PrintedNulFree | main.c:97-99 | when no entry has a NUL byte, the output is every entry followed by a line feed |
| Program.LinesNulFree | main.c:61-63 | input without a NUL byte gives entries without a NUL byte |
| Program.OutputRoundTrip | main.c:93-99 | for input without NUL bytes, the output is the entries each followed by a line feed, and reading it back yields the same entries |
| Program.PrintEntries | main.c:97-99 | the output is every entry in order, as `%s` prints it, each followed by a line feed |
| Program.Run | main.c:90-100 | the exit status is 0 or 1. It is 1, with nothing on standard output, when standard input cannot be opened, a read fails or the allocator passed in reports a failure. It is 1 for no other reason, except when there are more than `SIZE_MAX` entries. On 0 the output is every entry in order, as `%s` prints it (up to its first NUL byte), each followed by a line feed. For input without NUL bytes, that output is the entries joined by line feeds, and splitting it back yields the same entries |

## Left out

- `ansi.h` is not part of this model. It defines only terminal control-sequence literals, and `main.c` does not use them.
- An interactive selector (raw mode, key decoding, pagination, rendering) is not part of this model. `main.c` does not implement one: it only reads and echoes the entries, and this model follows that code.
- `open`, `read`, `perror` and `printf` are operating-system I/O. Standard input is a parameter: either it cannot be opened, or it is a list of chunks of 1 to 1024 bytes ending in end of file or an error. Standard output is a returned byte string. The message `perror` writes to standard error is not modelled.
- `realloc` is modelled only as success or failure. The failure is chosen arbitrarily (any choice is allowed), so every proof covers both outcomes. The allocator exists before `main` runs, so `Run` takes it as a parameter.
- Memory ownership is not modelled. Entries are stored as byte-sequence values, not as pointers to the leftover buffers, so aliasing between entries and buffers does not arise. The buffers leaked on error paths are not modelled either.
- `size_t` and `ssize_t` are unbounded integers. With 8-byte pointers, `capacity * sizeof(void *)` overflows once `capacity` reaches 2^61, and `size` itself overflows after 2^64 pushes. Either needs far more entries than memory can hold.
- Input.ReadInput: uses the corrected `Push`. After a failed push, the vector's capacity is the old one, not the as-written one raised by 1024. `read_input` returns -1 immediately in that case, so nothing else it does is affected.
- Input.ReadInput: a push that returns `SIZE_MAX` is treated as a failure, as in the source. With unbounded sizes, a successful push can also return that index once the vector holds `SIZE_MAX` entries. So the contracts name this case next to a failed `realloc`, and promise only a prefix of the entries after any failure.

## Findings

| source | as written | input that shows it | evidently intended | confidence | as-written member | corrected member |
|---|---|---|---|---|---|---|
| main.c:16-21 | `pvec_push` adds 1024 to `capacity` before calling `realloc`, and returns `SIZE_MAX` on failure without undoing it | a push onto a full vector (`size == capacity`) whose `realloc` fails; `capacity` is now 1024 more than the slots allocated, so the next push sees `size < capacity`, skips growing and writes one past the end of the block | raise `capacity` only once the larger block is in hand | not executed; latent in this program, since `read_input` returns -1 at the first failed push | PointerVector.Pvec.PushAsWritten | PointerVector.Pvec.Push |
