# Round-robin file splitter, modelled in Dafny

The splitter is a small command-line tool with two commands:

- `split` reads one file a byte at a time and deals the bytes round-robin over
  `number` output files. Byte `i` goes to output `i mod number`.
- `merge` optionally sorts its list of file names. It then reads round-robin
  from those files into one output file. It counts the inputs that have hit
  end of file in `done` and stops when `done` reaches the number of inputs.

This project models both commands over byte sequences instead of files.
A file is its contents (`seq<byte>`, bytes 0..255). An input stream is its
contents plus a read position. `InputStream.read()` is `Streams.Read`: it
returns the next byte and advances, or returns -1 and stays put at the end.
The array of output streams of `split` is an `array<seq<byte>>` whose
elements are appended to in place. The input streams of `merge` are an
`array<nat>` of read positions.

Modules:

- `Interleave` (interleave.dfy) holds the specification functions.
  `Lane(s, n, j)` is what dealing `s` over `n` outputs sends to output `j`.
  `Deal(s, n)` is all `n` outputs. `IsMergeOf(inputs, output)` says what the
  merge loop writes: output byte `t` is byte `t div m` of input `t mod m`,
  and the output ends where the cursor first reaches an input that has no
  byte left. The lemmas about these are here.
- `Streams` (streams.dfy) holds the read operation, `Result` and the
  exceptions that escape a command (`Fault`).
- `Splitter` (splitter.dfy) holds the two loops as methods, `Split` and
  `Merge`, proved against `Interleave`. It also holds `MergeFiles`, which
  sorts, opens and merges named files, and `SplitThenMerge`, the round trip.
- `FileNames` (filenames.dfy) holds the sort step with Java's natural
  string order.
- `SkippingMerge` (skipping_merge.dfy) holds the merge discrepancy below
  and the intended merge, which passes over exhausted inputs.
- `Scenarios` (scenarios.dfy) holds the worked example 0..7 over three
  outputs.

The merge is modelled as the code is written. On end of file the cursor
`which` is not advanced, so every later read hits the same exhausted input.
The loop then ends after `m` such reads. The merge therefore stops at the
first exhausted input the cursor reaches. Bytes left in other inputs are
not written. The intended behaviour is round-robin over the inputs,
passing over exhausted inputs until all are used up. This model follows
the code and records the difference under "## Findings". For outputs of
`split` the two agree, and the round trip holds (`Interleave.MergeOfDeal`, `Splitter.SplitThenMerge`).

`split` has no check on `number`. The model follows the code here too.
A negative `number` fails when the handle array is created
(`NegativeArraySize`). `number == 0` with a non-empty input fails at the
first write (`IndexOutOfBounds`). `number == 0` with an empty input
succeeds with no outputs. Command-line parsing is not part of this model,
so whatever bounds the parser puts on `number` are not assumed here.

## Model

| member | source | states |
|---|---|---|
| Splitter.Split | src/main/java/at/pst/util/split/Splitter.java:36-56 | for number >= 1 the outputs are exactly the round-robin dealing `Deal(input, number)`; a negative number fails with NegativeArraySize; number 0 fails with IndexOutOfBounds on a non-empty input and yields no outputs on an empty one |
| Splitter.Merge | src/main/java/at/pst/util/split/Splitter.java:94-109 | with no inputs nothing is written; otherwise output byte t is byte t div m of input t mod m, and the output ends exactly where the cursor reaches an input with all its bytes read |
| Splitter.MergeFiles | src/main/java/at/pst/util/split/Splitter.java:79-92 | the output file is created first: when it cannot be created that is the failure, and otherwise it is emptied before any input is read, so naming it as an input reads nothing; then the names are opened in sorted order (given order when sort is off) and the merge fails exactly when some name is missing, naming the first missing one in that order; otherwise the output is the merge of the files' contents in that order |
| Splitter.SplitThenMerge | src/main/java/at/pst/util/split/Splitter.java:41-109 | splitting over any number >= 1 of outputs and merging them in generation order gives back the input exactly |
| Streams.Read | src/main/java/at/pst/util/split/Splitter.java:98 | `read()` on an input stream (also the read at line 50): at a byte it returns that byte, 0..255, and advances by one; at the end it returns -1 and stays put; -1 comes back exactly at the end |
| Interleave.DivModNext | src/main/java/at/pst/util/split/Splitter.java:52-55 | after one more byte the cursor moves to the next output, wrapping to 0 after number - 1, and the round count rises only on the wrap |
| Interleave.TurnsNext | src/main/java/at/pst/util/split/Splitter.java:104-107 | one more merge step adds one read to the input under the cursor and none to the others |
| Interleave.LaneExtend | src/main/java/at/pst/util/split/Splitter.java:50-51 | dealing one more byte appends it to the output the cursor stands on and leaves the other outputs as they were |
| Interleave.LaneLength | src/main/java/at/pst/util/split/Splitter.java:47-56 | output j of a split of L bytes over n outputs holds L div n bytes, plus one when j < L mod n |
| Interleave.LaneSizesBalanced | src/main/java/at/pst/util/split/Splitter.java:47-56 | every output holds L div n or L div n + 1 bytes, and exactly the outputs j < L mod n hold the extra byte |
| Interleave.LaneAt | src/main/java/at/pst/util/split/Splitter.java:47-56 | input byte k is written to output k mod n at position k div n |
| Interleave.LaneElement | src/main/java/at/pst/util/split/Splitter.java:47-56 | byte i of output j is input byte i * n + j, so an output holds nothing else |
| Interleave.DealTotal | src/main/java/at/pst/util/split/Splitter.java:47-56 | the output lengths add up to the input length |
| Interleave.MergeNotExhaustedBefore | src/main/java/at/pst/util/split/Splitter.java:97-101 | the merge does not stop early: before its end, every input the cursor reached still had a byte |
| Interleave.MergeDetermined | src/main/java/at/pst/util/split/Splitter.java:94-109 | the merge output is fully determined by the inputs and their order |
| Interleave.MergeTakesPrefixes | src/main/java/at/pst/util/split/Splitter.java:96-109 | every written byte was read from an input: dealing the output back over the m inputs gives a prefix of each input |
| Interleave.MergeLengthBound | src/main/java/at/pst/util/split/Splitter.java:96-109 | the merge writes at most as many bytes as the inputs hold together |
| Interleave.MergeOfDeal | src/main/java/at/pst/util/split/Splitter.java:94-109 | merging the n outputs of a split of s, in generation order, writes exactly s |
| FileNames.LexLeqTotal | src/main/java/at/pst/util/split/Splitter.java:80 | any two names are ordered one way or the other by the natural string order |
| FileNames.LexLeqReflexive | src/main/java/at/pst/util/split/Splitter.java:80 | every name is ordered before or equal to itself |
| FileNames.LexLeqTransitive | src/main/java/at/pst/util/split/Splitter.java:80 | the natural string order is transitive |
| FileNames.LexLeqAntisymmetric | src/main/java/at/pst/util/split/Splitter.java:80 | names ordered both ways are equal |
| FileNames.Insert | src/main/java/at/pst/util/split/Splitter.java:80 | inserting a name into a sorted list keeps it sorted and adds exactly that name |
| FileNames.Sort | src/main/java/at/pst/util/split/Splitter.java:80 | the sorted list is in ascending natural order and is a permutation of the given names |
| FileNames.SortNames | src/main/java/at/pst/util/split/Splitter.java:79-81 | with sort on, the names become a sorted permutation of themselves; with sort off, they stay as given |
| FileNames.SortedUnique | src/main/java/at/pst/util/split/Splitter.java:80 | a list of names has only one sorted order, so the result does not depend on the sorting algorithm |
| SkippingMerge.AsWrittenMergeDropsBytes | src/main/java/at/pst/util/split/Splitter.java:97-101 | merging [7], [] and [9] writes only [7]: the 9 of the third input is lost |
| SkippingMerge.RoundsKeepsEveryByte | src/main/java/at/pst/util/split/Splitter.java:94-109 | the intended merge writes every input byte exactly once: same bytes with multiplicity, length the sum of the input lengths |
| SkippingMerge.RoundsOfDeal | src/main/java/at/pst/util/split/Splitter.java:94-109 | the intended merge also gives back the input from the outputs of a split |
| Scenarios.SplitEightOverThree | src/main/java/at/pst/util/split/Splitter.java:47-56 | splitting 0..7 over three outputs gives [0, 3, 6], [1, 4, 7] and [2, 5] |
| Scenarios.MergeThreeGivesEight | src/main/java/at/pst/util/split/Splitter.java:94-109 | merging [0, 3, 6], [1, 4, 7] and [2, 5] in that order gives 0..7 |

## Left out

- File opening, buffering (`BufferedInputStream`, `BufferedOutputStream`, the 8192-byte block) and the closing in the `finally` blocks: these are I/O plumbing. Files are their contents, and streams are sources and sinks of bytes.
- Split's file handling: split opens its input before its outputs, and the outputs are created one by one. `Split` takes the input's contents and returns the outputs' contents, so a missing input file or an output that cannot be created is not modelled.
- Splitter.MergeFiles: the disk after the call is not modelled. It returns the merged bytes, not the new disk, so it does not state that a missing input leaves the output file existing and empty, nor that the output file holds the merged bytes on success.
- Output file naming with `String.format(outPattern, i + 1)`: it depends on Java format strings. `Split` returns the outputs in generation order, index 1 first.
- Command-line parsing, defaults, `--help` and `--version`, and `main`: these belong to the picocli library. That includes what `filenames` is when no names are given; `Merge` accepts an empty list and writes nothing.
- The `verbose` field and `log`: console output only.
- I/O errors (`IOException`) during the transfer: they only propagate.
- FileNames.LexLeq: compares Dafny characters (Unicode scalar values), where Java compares UTF-16 code units. The two orders differ only between supplementary characters and characters from U+E000 to U+FFFF.
- Integer width: `which` and `done` are unbounded integers here and 32-bit `int`s in Java. They never exceed the number of files, so no wrap-around can occur.

## Findings

| source | as written | input that shows it | evidently intended | confidence | as-written member | corrected member |
|---|---|---|---|---|---|---|
| src/main/java/at/pst/util/split/Splitter.java:97-101 | on end of file, `done` is incremented but the cursor `which` stays on the exhausted input, so the loop ends after `m` reads of that input and bytes left in later inputs are not written | merging three files holding [7], [] and [9] writes [7] | pass over an exhausted input and carry on until all inputs are used up, so that the output holds every input byte | medium, not executed: the code is right for outputs of split, which is its main use | SkippingMerge.AsWrittenMergeDropsBytes | SkippingMerge.RoundsKeepsEveryByte |

`Splitter.Merge` models the loop as written. `SkippingMerge.Rounds` is the
intended merge: round r writes byte r of every input longer than r, in
input order. `SkippingMerge.RoundsKeepsEveryByte` proves that it keeps every
byte, and `SkippingMerge.RoundsOfDeal` proves that it still inverts the split.
