# groupby in Dafny

A model of `GroupByKeyUtil`, an external-memory "group values by key" tool.
It reads whitespace-separated key-value pairs and writes one line per
distinct key: the key, then all of that key's values, keys ascending and
values ascending. Input larger than the memory budget is handled in three
steps:

1. **Build sorted files.** Pairs are read into a buffer. Whenever the memory
   estimate reaches the budget, the buffer is sorted and written to a fresh
   temporary file. The rest goes into one last file.
2. **Merge sorted files.** While more files are queued than can be open at
   once (`max_files`), the first `max_files` are merged into a fresh file,
   which is queued at the back.
3. **Group values by key.** One `SortedMergeIterator` over the remaining
   files feeds the grouping loop, which writes the output.

`SortedMergeIterator` is a k-way merge. A priority queue holds one node per
non-exhausted stream and is ordered by `HeapNode`'s reversed `operator<`.

The modules follow the program's structure:

| module | file | models |
|---|---|---|
| `Options` | options.dfy | the optional result of reads and writes |
| `Strings` | strings.dfy | `isspace`, tokens, `std::string::operator<` |
| `Pairs` | pairs.dfy | `KeyValuePair`: its order, `operator<<`, `size()` |
| `Extraction` | extraction.dfy | `operator>>` on text; the one-pair-per-line file format |
| `Sorting` | sorting.dfy | `std::sort` of the buffer |
| `MergeIterator` | merge_iterator.dfy | `SortedMergeIterator`: constructor, `HasNext`, `Next` |
| `Disks` | disk.dfy | temporary files, `NextFile`, file creation that can fail |
| `Spill` | spill.dfy | step 1: `BuildSortedFiles`, `WriteBuffer` |
| `MergeFiles` | merge_files.dfy | step 2: `MergeSortedFiles`, `WriteToFile` |
| `Grouping` | grouping.dfy | step 3: `GroupValuesByKey` |
| `GroupByKey` | group_by_key.dfy | `Run`, with the constructor's halving and the fan-in arithmetic |
| `Scenarios` | scenarios.dfy | the small cases of the test driver |

### Modelling choices

**Files and streams**
- A file is its text. The disk maps file numbers (the value `NextFile`'s
  counter had when the name was made) to texts.
- The disk also has a set of "broken" numbers, whose creation fails
  (`is_open()` is false).
- A stream opened on a file delivers exactly the pairs `ParseAll` reads
  from its text, one per successful `>>`.

**The merge iterator**
- The priority queue is a bag of nodes. `Next` pops a node that no other
  node beats under `HeapNode::operator<`.
- The choice among tied nodes does not matter: over sorted files the
  output is the same for every choice (`MergeIterator.MergeAllSpec`,
  `Sorting.SortedUnique`).

**Step 1**
- The memory estimate depends on capacities the allocator picks. The
  decision to spill is therefore an input: the set `flushes` of positions
  after which the buffer is written.
- Every property of step 1 and of `Run` holds for every such set.

**Step 2**
- The merge loop is written once for any `Writer` that fails exactly on a
  broken name and otherwise writes the merged batch.
- `WriteToFileIsMerger` shows that `WriteToFile` is such a writer.

**Size arithmetic**
- `max_files` is computed as the source does: truncating `int64_t`
  division, then conversion to `size_t` modulo 2^64.
- For a non-negative memory limit and a positive buffer size
  (`GroupByKey.FanInByBudget`):
  - below two buffers, `max_files` is -1 and the fan-in is 2^64 - 1, so
    step 2 hands every file on unchanged;
  - from two up to four buffers the fan-in is 0;
  - from four up to six buffers it is 1;
  - from six buffers on it is at least 2.
- With a fan-in of 0 or 1 and more files than that, the loop of step 2
  never shrinks the queue. `MergeSortedFiles` then ends in failure if some
  later creation fails, and otherwise never ends (`Diverges`, `Endless`).
  "Never ends" assumes an unbounded name counter. In the program the
  counter overflows first (see `Disks.NextFile` under "## Left out").

**The iterator's buffer size**
- `SortedMergeIterator` takes its buffer size as an `int`. The `int64_t`
  `buffer_size_` is converted modulo 2^32 (`GroupByKey.ToInt`).
- The constructor evaluates `new char[buffer_size]` once per file. For a
  negative size this throws `std::bad_array_new_length`, which nothing
  catches, so the process terminates. That is the outcome `Crashed`.
- The size is negative exactly when `buffer_size_` modulo 2^32 (taken
  non-negative) is at least 2^31 (`GroupByKey.ToIntNegative`). So some
  negative values of `buffer_size_`, such as -2^32 + 5, convert to a
  non-negative `int` and do not throw.
- Step 2 builds an iterator over `max_files` files in the first pass of
  its loop, before that pass creates its file. Step 3 builds one over the
  files step 2 hands on. A run crashes exactly when one of these has at
  least one file (`GroupByKey.RunCrashes`).

**Output of an empty input**
- An input without a single pair makes the program write one line break
  (`"\n"`), because the final `'\n'` of `GroupValuesByKey` is
  unconditional (`GroupByKey.RunEmpty`).

### Operations without a contract of their own

These members model source operations directly. Their meaning is stated
by the lemmas named here.

| operation | source | stated by |
|---|---|---|
| `Strings.StrLess` | sorted_merge_iterator.hpp:22 | `StrLessIrreflexive`, `StrLessTransitive`, `StrLessTotal` |
| `Pairs.Less` | sorted_merge_iterator.hpp:21-23 | `LessIsLexicographic`, `LessTrichotomy` |
| `MergeIterator.NodeLess` | sorted_merge_iterator.hpp:64-66 | `TopIndex`, `NextIsLeast` |
| `MergeIterator.HasNext` | sorted_merge_iterator.cpp:38-40 | `DrainCount`, `DrainDone` |
| `MergeIterator.Drain` | group_pairs_util.cpp:130-132 | `DrainKeepsAll`, `DrainSorted` |
| `MergeIterator.MergeAll` | sorted_merge_iterator.hpp:34-36 | `MergeAllSpec` |
| `Spill.Spill` | group_pairs_util.cpp:52-71 | `SpillGrows`, `SpillIssued`, `SpillKeepsAll`, `SpillSorted`, `SpillSucceeds`, `SpillFails` |
| `Extraction.RenderFile` | group_pairs_util.cpp:115-117 | `FileRoundTrip`, `Spill.WriteBuffer`, `MergeFiles.WriteToFile` |
| `MergeFiles.Rounds` | group_pairs_util.cpp:86-99 | `ReduceIsLoop`, `DegenerateRounds`, `DegenerateOutcome` |
| `Disks.Read` | sorted_merge_iterator.cpp:12 | `Disks.Write`, `Disks.ContentFrame` |
| `Disks.NextFile` | group_pairs_util.cpp:8-11 | `Spill.Flush`, `MergeFiles.Round`, `Spill.SpillIssued` |
| `Disks.Streams` | sorted_merge_iterator.cpp:7-13 | `Disks.StreamsAppend`, `Disks.ContentFrame` |
| `Grouping.GroupFrom` | group_pairs_util.cpp:138-150 | `GroupFromRuns`, `FirstLine`, `GroupValuesByKeyIsRender` |
| `GroupByKey.IteratorThrows` | sorted_merge_iterator.cpp:7-8 | `RunCrashes` |
| `GroupByKey.Run` | group_pairs_util.cpp:22-45 | `RunSpec`, `RunLines`, `RunSucceeds`, `RunCrashes`, `RunEndless` |

## Model

| member | source | states |
|---|---|---|
| Strings.StrLessIrreflexive | sorted_merge_iterator.hpp:21-23 | no string is below itself under `std::string`'s `<` |
| Strings.StrLessAsymmetric | sorted_merge_iterator.hpp:21-23 | string `<` is asymmetric |
| Strings.StrLessTransitive | sorted_merge_iterator.hpp:21-23 | string `<` is transitive |
| Strings.StrLessTotal | sorted_merge_iterator.hpp:21-23 | any two different strings are ordered one way or the other |
| Strings.StrLeIsLessOrEqual | sorted_merge_iterator.hpp:21-23 | "not greater" on strings is exactly "equal or less" |
| Strings.StrLeTransitive | sorted_merge_iterator.hpp:21-23 | "not greater" on strings is transitive |
| Pairs.Size | sorted_merge_iterator.hpp:15-19 | the footprint estimate is at least the pair's length, and exceeds it by exactly the unused capacity |
| Pairs.Serialize | sorted_merge_iterator.hpp:25-27 | a pair is written as its key, one space, then its value, and nothing else |
| Pairs.LessIsLexicographic | sorted_merge_iterator.hpp:21-23 | the pair order is lexicographic on (key, value) |
| Pairs.LessIrreflexive | sorted_merge_iterator.hpp:21-23 | no pair is below itself |
| Pairs.LessTransitive | sorted_merge_iterator.hpp:21-23 | the pair order is transitive |
| Pairs.LessTrichotomy | sorted_merge_iterator.hpp:21-23 | of two different pairs exactly one is smaller: a strict total order, as `std::sort` and the heap need |
| Pairs.LeIsLessOrEqual | sorted_merge_iterator.hpp:21-23 | "not greater" is "equal or smaller" |
| Pairs.LeTotal | sorted_merge_iterator.hpp:21-23 | any two pairs are comparable |
| Pairs.LeTransitive | sorted_merge_iterator.hpp:21-23 | "not greater" is transitive |
| Pairs.LeAntisymmetric | sorted_merge_iterator.hpp:21-23 | two pairs each not greater than the other are equal |
| Pairs.LeSameKey | sorted_merge_iterator.hpp:22 | with equal keys the values decide |
| Pairs.LeDifferentKeys | sorted_merge_iterator.hpp:22 | with different keys the keys alone decide |
| Extraction.SkipSpace | sorted_merge_iterator.hpp:29-31 | extraction's whitespace skip leaves a suffix that is empty or starts with a non-space |
| Extraction.SkipSpaceIsSuffix | sorted_merge_iterator.hpp:29-31 | exactly the leading whitespace is skipped; the rest of the text is kept |
| Extraction.TokenLength | sorted_merge_iterator.hpp:29-31 | a token extends to the first whitespace character or the end |
| Extraction.ReadToken | sorted_merge_iterator.hpp:29-31 | a successful `>>` into a string yields a non-empty whitespace-free token and consumes input |
| Extraction.ReadTokenSpec | sorted_merge_iterator.hpp:29-31 | `>>` fails exactly when only whitespace is left; otherwise the text is whitespace, then the token, then a rest starting with whitespace or empty |
| Extraction.ReadPair | sorted_merge_iterator.hpp:29-31 | a successful pair extraction yields two tokens and consumes input |
| Extraction.ParseAll | group_pairs_util.cpp:52 | every pair the read loop yields is made of tokens |
| Extraction.ParseAllIsPairUp | sorted_merge_iterator.hpp:29-31 | the read loop yields the text's tokens taken two at a time; an odd last token is dropped |
| Extraction.ParseAllCount | sorted_merge_iterator.hpp:29-31 | the read loop yields half as many pairs as the text has tokens, rounded down |
| Extraction.ReadTokenOf | sorted_merge_iterator.hpp:29-31 | a token followed by whitespace or the end is read back unchanged |
| Extraction.ReadPairOfLine | sorted_merge_iterator.hpp:25-31 | a written pair followed by a newline is read back as that pair |
| Extraction.LineRoundTrip | sorted_merge_iterator.hpp:25-31 | a one-pair line reads back as exactly that pair |
| Extraction.FileRoundTrip | group_pairs_util.cpp:115-117 | a file written one pair per line reads back as the same sequence of pairs |
| Sorting.Insert | group_pairs_util.cpp:114 | inserting into a sorted sequence keeps it sorted and adds exactly the new pair |
| Sorting.SortPairs | group_pairs_util.cpp:114 | the sorted buffer is in ascending order and is a permutation of the buffer |
| Sorting.SortedHeadIsLeast | group_pairs_util.cpp:114 | the first element of a sorted sequence is not greater than any of its elements |
| Sorting.SortedUnique | group_pairs_util.cpp:114 | a multiset of pairs has exactly one sorted arrangement, so an unstable sort still has a unique result |
| Sorting.SortDependsOnlyOnMultiset | group_pairs_util.cpp:114 | two buffers holding the same pairs sort to the same sequence |
| Sorting.SortSorted | group_pairs_util.cpp:114 | sorting a sorted sequence changes nothing |
| MergeIterator.TopIndex | sorted_merge_iterator.hpp:62-66 | `top()` picks a node that no other node exceeds under the reversed order, i.e. one with the smallest pair |
| MergeIterator.RemoveAt | sorted_merge_iterator.cpp:46 | `pop()` removes exactly one node and keeps the others |
| MergeIterator.HeapPairsRemove | sorted_merge_iterator.cpp:46 | popping a node takes exactly its pair out of the heap's contents |
| MergeIterator.PendingPop | sorted_merge_iterator.cpp:49 | reading a stream's first pair takes exactly that pair out of what the streams still hold |
| MergeIterator.Next | sorted_merge_iterator.cpp:42-54 | `Next` returns one pair, records it as emitted, and leaves one fewer pair to produce |
| MergeIterator.NextIsLeast | sorted_merge_iterator.cpp:43-46 | the pair `Next` returns is not greater than any pair left in the heap |
| MergeIterator.HasNodeRemove | sorted_merge_iterator.cpp:45-47 | after the pop, the popped stream has no node and every other stream keeps its node |
| MergeIterator.NextKeepsTidy | sorted_merge_iterator.cpp:47-52 | `Next` refills only from the popped stream, so every stream has at most one node, and a stream without one is exhausted |
| MergeIterator.NextKeepsInv | sorted_merge_iterator.cpp:42-54 | `Next` loses and duplicates nothing: emitted, heap and unread pairs together stay the files' pairs |
| MergeIterator.NextStreamsSorted | sorted_merge_iterator.hpp:41-42 | over sorted files, the unread part of every stream stays sorted |
| MergeIterator.NextRunsSorted | sorted_merge_iterator.cpp:47-52 | every node stays at the front of its stream's sorted remainder |
| MergeIterator.NextEmittedBelow | sorted_merge_iterator.hpp:50-51 | every pair emitted so far is not greater than any pair still in the heap |
| MergeIterator.NextKeepsOrdered | sorted_merge_iterator.hpp:50-51 | over sorted files, the pairs come out in non-decreasing order |
| MergeIterator.DrainCount | sorted_merge_iterator.cpp:38-40 | `HasNext` stays true for exactly as many `Next` calls as there are pairs left |
| MergeIterator.DrainStep | sorted_merge_iterator.cpp:38-54 | one `Next` moves one pair from what is still to come to what was emitted |
| MergeIterator.DrainDone | sorted_merge_iterator.cpp:38-40 | an empty heap means every pair of the files has been emitted |
| MergeIterator.DrainKeepsAll | sorted_merge_iterator.hpp:34-36 | draining emits every pair of every file exactly once |
| MergeIterator.DrainSorted | sorted_merge_iterator.hpp:34-36 | draining over sorted files emits a sorted sequence |
| MergeIterator.SeedSkip | sorted_merge_iterator.cpp:18-21 | a stream with nothing to read contributes no node |
| MergeIterator.SeedPush | sorted_merge_iterator.cpp:18-21 | a stream with a pair contributes one node holding its first pair |
| MergeIterator.Seed | sorted_merge_iterator.cpp:15-22 | the seeding loop builds an iterator over the same number of streams, with nodes naming existing streams |
| MergeIterator.SeedSpec | sorted_merge_iterator.cpp:15-22 | after seeding, each stream has a node exactly when its file has a pair, and that node holds the file's first pair |
| MergeIterator.Open | sorted_merge_iterator.cpp:4-23 | the constructor opens one stream per file and has emitted nothing |
| MergeIterator.OpenSpec | sorted_merge_iterator.cpp:4-23 | after construction the invariant holds, and a file has a node exactly when it has a pair, holding its first pair |
| MergeIterator.OpenOrdered | sorted_merge_iterator.hpp:41-42 | over sorted files, a new iterator satisfies the ordering invariant |
| MergeIterator.OpenEmpty | sorted_merge_iterator.cpp:38-40 | a new iterator has nothing exactly when every file is empty |
| MergeIterator.MergeAllSpec | sorted_merge_iterator.hpp:34-36 | the merge emits every pair of every file exactly once, and in sorted order when every file is sorted |
| MergeIterator.PendingConcat | sorted_merge_iterator.cpp:7-13 | the pairs of two groups of files side by side are the pairs of each group together |
| MergeIterator.MergeAllValid | sorted_merge_iterator.cpp:49 | merging files of token pairs yields token pairs |
| Disks.Write | group_pairs_util.cpp:109-113 | creating a file fails exactly on a broken name; otherwise the file holds the text and nothing else changes |
| Disks.ContentFrame | group_pairs_util.cpp:93-98 | only the named files matter to what the named files hold |
| Disks.WriteFrame | group_pairs_util.cpp:93-98 | writing a fresh name leaves every earlier file's pairs unchanged |
| Spill.BufferRoundTrip | group_pairs_util.cpp:114-117 | a sorted buffer written one pair per line reads back as itself |
| Spill.WriteBuffer | group_pairs_util.cpp:107-121 | fails exactly when the file cannot be created, then touching nothing; otherwise the file reads back as the sorted buffer, no other file changes, and the buffer is cleared |
| Spill.Flush | group_pairs_util.cpp:57-61 | a flush fails exactly when the next name cannot be created; otherwise it lists that name last and moves the counter past it |
| Spill.FlushSpec | group_pairs_util.cpp:57-61 | a flush takes the next name and succeeds exactly when that name can be created |
| Spill.FlushContent | group_pairs_util.cpp:57-61 | a successful flush adds one listed file holding exactly the buffer's pairs, sorted |
| Spill.SpillKeepsAll | group_pairs_util.cpp:52-71 | the listed files end up holding exactly the pairs read, for any spill schedule |
| Spill.SpillSorted | group_pairs_util.cpp:52-71 | every listed file holds a non-empty sorted run |
| Spill.FlushSorted | group_pairs_util.cpp:57-61 | flushing a non-empty buffer adds one non-empty sorted file |
| Spill.SpillGrows | group_pairs_util.cpp:52-71 | the read loop only appends to the file list (`push_back`) and only moves the name counter forward |
| Spill.SpillIssued | group_pairs_util.cpp:47-73 | every name the read loop lists is a counter value issued during the loop, in strictly increasing order |
| Spill.SpillSucceeds | group_pairs_util.cpp:52-71 | when no name from the counter's current value on is broken, the loop succeeds |
| Spill.BuildSortedFiles | group_pairs_util.cpp:47-73 | step 1 succeeds whenever no name from the counter's current value on is broken |
| Spill.BuildSortedFilesFails | group_pairs_util.cpp:47-73 | step 1 fails only when one of the at most as many names as the input has pairs, drawn from the counter's current value on, is broken |
| Spill.SpillFails | group_pairs_util.cpp:52-71 | the loop fails only on a broken name among the next (pairs left, plus one for a non-empty buffer) names the counter hands out |
| Spill.BuildSortedFilesSpec | group_pairs_util.cpp:47-73 | step 1: the files hold exactly the input's pairs, each a non-empty sorted run; their names were issued during the step, strictly increasing, so none repeats or predates it; only a broken name makes it fail; no input pair means no file |
| MergeFiles.WriteToFile | group_pairs_util.cpp:123-135 | fails exactly when the file cannot be created; otherwise the file reads back as the merge of the batch and nothing else changes |
| MergeFiles.WriteToFileSpec | group_pairs_util.cpp:123-135 | the written file holds every pair of the batch exactly once, sorted when the batch's files are sorted |
| MergeFiles.WriteToFileIsMerger | group_pairs_util.cpp:123-135 | `WriteToFile` fails only on broken names and, when it succeeds, writes the merged batch |
| MergeFiles.Round | group_pairs_util.cpp:88-98 | one pass of the loop turns `max_files` queued files into one; it fails exactly on a broken fresh name |
| MergeFiles.MergeIntoQueue | group_pairs_util.cpp:88-98 | merging the front of the queue into a file queued at the back keeps the queued pairs |
| MergeFiles.MergeIntoQueueSorted | group_pairs_util.cpp:88-98 | merging the front of a queue of sorted files keeps every queued file sorted |
| MergeFiles.RoundSpec | group_pairs_util.cpp:88-98 | a successful pass keeps the queued pairs and their sortedness, takes one fresh name, and keeps names fresh |
| MergeFiles.Reduce | group_pairs_util.cpp:86-99 | the loop for a fan-in of at least two ends, with at most `max_files` files |
| MergeFiles.ReduceBound | group_pairs_util.cpp:86-99 | the loop ends with at most `max_files` files, and hands a short enough queue on unchanged |
| MergeFiles.ReduceCount | group_pairs_util.cpp:86-99 | every pass takes `max_files - 1` files off the queue and one name from the counter |
| MergeFiles.ReduceKeepsAll | group_pairs_util.cpp:86-99 | the loop keeps the queued pairs and the sortedness of every queued file |
| MergeFiles.ReduceSucceeds | group_pairs_util.cpp:86-99 | when no name ahead is broken, the loop succeeds |
| MergeFiles.ReduceIsLoop | group_pairs_util.cpp:86-99 | for a fan-in of at least two, the terminating loop agrees with the loop run for any large enough number of passes |
| MergeFiles.DegenerateRounds | group_pairs_util.cpp:86-99 | for a fan-in of 0 or 1, `n` passes succeed exactly when the next `n` names are sound, and the queue never gets short enough to stop |
| MergeFiles.MergeSortedFiles | group_pairs_util.hpp:29-31 | step 2 never hands on more than `max_files` files, whatever the fan-in |
| MergeFiles.MergeSortedFilesSpec | group_pairs_util.cpp:75-105 | step 2: the files handed on hold exactly the pairs given, stay sorted, and number at most `max_files`; a short list passes unchanged; it diverges exactly for a fan-in below two with more files and no failing creation |
| MergeFiles.DegenerateOutcome | group_pairs_util.cpp:86-99 | for a fan-in below two, divergence means no number of passes ends the loop, and failure is reached after finitely many passes |
| Grouping.Runs | group_pairs_util.cpp:141-149 | the runs of equal adjacent keys are maximal, none empty, and there are none exactly when there are no pairs |
| Grouping.GroupFromRuns | group_pairs_util.cpp:139-150 | once a line is open, the loop writes the rest of it and then one line per following run |
| Grouping.FirstLine | group_pairs_util.cpp:138-150 | over non-empty input, the loop writes the runs' lines separated by line breaks |
| Grouping.GroupValuesByKey | group_pairs_util.cpp:151 | step 3's text always ends in a line break, and is exactly one line break when there are no pairs |
| Grouping.GroupValuesByKeyIsRender | group_pairs_util.cpp:137-153 | step 3 writes one line per maximal run of equal keys, the key then every value after one space, each line ended by a line break |
| Grouping.FlattenRuns | group_pairs_util.cpp:139-150 | the runs hold every pair in order: reading the lines back gives the input sequence |
| Grouping.RunsUnique | group_pairs_util.cpp:139-150 | any grouping of the pairs into maximal runs is the one the loop writes |
| Grouping.RunsOfFlatten | group_pairs_util.cpp:139-150 | re-grouping the pairs of maximal groups gives those groups back |
| Grouping.RunsPrefix | group_pairs_util.cpp:141-142 | a key's values in front of pairs with a different first key form one run of their own |
| Grouping.RunsOfSorted | group_pairs_util.hpp:35-37 | over sorted pairs, keys come out strictly ascending (one line per distinct key) and each line's values ascending |
| GroupByKey.CDiv | group_pairs_util.cpp:31 | C++ division: truncated quotient, whose remainder is zero or has the dividend's sign and is smaller than the divisor in magnitude |
| GroupByKey.ToSize | group_pairs_util.cpp:35 | converting `int64_t` to `size_t` keeps non-negative values and wraps negative ones modulo 2^64 |
| GroupByKey.MaxFiles | group_pairs_util.cpp:31 | `max_files` fits in the `int64_t` it is stored in, for every budget and buffer size |
| GroupByKey.CDivShrinks | group_pairs_util.cpp:31 | truncating division never grows the magnitude |
| GroupByKey.FanIn | group_pairs_util.cpp:31-35 | the fan-in step 2 receives is `max_files` when that is non-negative, and at least 2^63 when it is negative |
| GroupByKey.FanInByBudget | group_pairs_util.cpp:31-35 | for a non-negative budget and positive buffer size: below two buffers the fan-in is 2^64 - 1, from two to four buffers 0, from four to six 1, from six on at least 2 and equal to the buffers in half the budget less one |
| GroupByKey.ToInt | sorted_merge_iterator.hpp:43-44 | passing `buffer_size_` as `int` keeps values in `int` range and otherwise wraps modulo 2^32 into it |
| GroupByKey.ToIntNegative | sorted_merge_iterator.hpp:43-44 | the size the iterator receives is negative exactly when `buffer_size_` modulo 2^32 is at least 2^31; a negative `buffer_size_` such as -2^32 + 5 arrives as 5 |
| GroupByKey.MergedIsSorted | group_pairs_util.cpp:40-41 | merging sorted files that hold some pairs yields exactly those pairs sorted |
| GroupByKey.RunSpec | group_pairs_util.cpp:22-45 | whatever the budget, buffer size, spill schedule and disk, a run that writes output writes the grouping of the input's pairs in sorted order |
| GroupByKey.MergeStepSorted | group_pairs_util.cpp:75-105 | step 2, given sorted runs holding the input's pairs, hands on files whose merge is those pairs sorted |
| GroupByKey.RunLines | group_pairs_util.cpp:22-45 | the output is one line per distinct key, keys ascending, values ascending, the lines together holding every input pair, plus a final line break |
| GroupByKey.RunOrderIndependent | group_pairs_util.cpp:22-45 | two runs over inputs with the same pairs write the same text, whatever their order, budgets, spill schedules or disks |
| GroupByKey.RunSucceeds | group_pairs_util.cpp:22-45 | on a disk where every creation succeeds, a run never fails; with a fan-in of at least two it writes output or crashes in a merge iterator, and it writes output when the buffer size converts to a non-negative `int` |
| GroupByKey.NoMergeFailure | group_pairs_util.cpp:75-105 | on a disk where every creation succeeds, step 2 never fails |
| GroupByKey.RunEndless | group_pairs_util.cpp:31-37 | a run can only fail to end through a fan-in below two |
| GroupByKey.RunEndlessZero | group_pairs_util.cpp:31-37 | with a fan-in of zero, any input with a pair never ends on a disk where every creation succeeds, whatever the buffer size |
| GroupByKey.RunCrashes | sorted_merge_iterator.cpp:4-13 | a run crashes (the iterator built in step 2, group_pairs_util.cpp line 94, or in step 3, line 40, throws) exactly when step 1 succeeds on an input with a pair, the fan-in is at least one, and the buffer size converts to a negative `int` |
| GroupByKey.CrashStep | sorted_merge_iterator.cpp:4-13 | once step 1 has stored at least one pair, one of the two iterators is built over at least one file exactly when the fan-in is at least one, and then it throws exactly for a negative `int` size |
| GroupByKey.RunEmpty | group_pairs_util.cpp:151 | an input without pairs writes exactly one line break |
| Scenarios.TestFanIn | test.cpp:11-12 | the test settings (1 MB, 16 KB) give a fan-in of 31, and the buffer size reaches the iterator unchanged |
| Scenarios.Scenario | test.cpp:20-37 | any shuffle of sorted, well-formed pairs, written one per line, runs under the test settings to the grouping of those pairs |
| Scenarios.SinglePair | test.cpp:41-42 | `a a` gives `a a` |
| Scenarios.TwoPairsSameKey | test.cpp:43-44 | `a a` and `a b`, in either order, give `a a b` |
| Scenarios.TwoPairsDifferentKeys | test.cpp:45-46 | `a a` and `b b`, in either order, give `a a` and `b b` on two lines |
| Scenarios.NegativeBufferCrashes | sorted_merge_iterator.cpp:4-13 | with the test budget and a buffer size of -16 KB, the input `a a` crashes when step 3 builds its iterator, instead of writing output |

## Left out

**I/O and memory**
- Real file and stream I/O: `pubsetbuf`, the heap-allocated stream buffers
  and closing files. These do not affect the pairs read or written. Of
  the buffers, only the exception for a negative size is modelled.
- Creation failure is the only I/O failure modelled. Failed reads and
  writes after `is_open()` are not modelled.
- The messages written to `std::cerr` are not modelled.
- The allocator's capacity choices and the `read_bytes` counter of
  `BuildSortedFiles` are replaced by the arbitrary spill schedule
  `flushes`. This covers every possible schedule, including the one an
  overflow of the `int` counter would produce.

**Not part of this model**
- The command-line front end `main.cpp` is not part of this model.
- The test driver's `std::shuffle` is replaced by "every order", through
  the multiset requirement of `Scenarios`.
- The 26×26 and 500×500 test cases are not modelled.

**Naming and arithmetic**
- `NextFile`'s static counter and its `tempfileN.txt` names are modelled as
  the counter `Disk.next`. Names are compared as numbers, which is how they
  differ.
- Disks.NextFile: the counter is unbounded, while the source keeps it in a
  `static int` whose `file_id++` overflows after 2^31 names, which is
  undefined behaviour and not modelled. `Diverges` and `Endless`
  (`GroupByKey.RunEndlessZero`, `MergeFiles.DegenerateRounds`,
  `MergeFiles.DegenerateOutcome`) therefore mean "never ends while the
  counter has not overflowed"; a broken name at or above 2^31 is never
  reached by the program, although the model lets it end the loop.
- `std::bad_alloc` from `new char[buffer_size]` for a large positive size
  is not modelled. Whether it is thrown depends on the memory available.

**Weaker contracts**
- GroupByKey.Run: requires a non-zero buffer size, because the source
  divides by it and a zero divisor is undefined behaviour in C++.
- Grouping.GroupValuesByKeyIsRender: requires every key to be non-empty.
  An empty key would compare equal to the loop's initial "no key yet"
  value. Stream extraction never yields an empty key
  (`GroupByKey.ValidKeysNonEmpty`), so in a run this always holds.
- Grouping.GroupFromRuns: requires every key to be non-empty, for the same
  reason.
- Grouping.StartLine: requires the first key to be non-empty, for the same
  reason.
- Grouping.FirstLine: requires every key to be non-empty, for the same
  reason.
- Grouping.Members: states only the length of the pairs a group stands for.
  Their contents are stated through `Grouping.MembersCons`.
