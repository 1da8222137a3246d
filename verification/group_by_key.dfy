/** `GroupByKeyUtil::Run`: the three steps chained, with the fan-in of the
    merge step computed from the memory limit and the buffer size as the
    constructor and `Run` compute it in 64-bit arithmetic. */
module GroupByKey {
  import opened Pairs
  import opened Extraction
  import opened Sorting
  import opened MergeIterator
  import opened Disks
  import opened Spill
  import opened MergeFiles
  import opened Grouping

  const Two63: int := 0x8000_0000_0000_0000
  const Two64: int := 0x1_0000_0000_0000_0000

  /** `int64_t`. */
  type Int64 = x: int | -Two63 <= x < Two63

  /** C++ integer division, which truncates toward zero (Dafny's `/` is
      Euclidean). */
  function CDiv(a: int, b: int): (q: int)
    requires b != 0
    ensures var rem := a - q * b;
      && (rem == 0 || (rem < 0 <==> a < 0))
      && (if b > 0 then -b < rem < b else b < rem < -b)
  {
    var q := Abs(a) / Abs(b);
    if (a < 0) == (b < 0) then q else -q
  }

  /** The implicit conversion of a signed 64-bit value to `size_t`, which is
      taken modulo 2^64. */
  function ToSize(x: Int64): (r: nat)
    ensures r < Two64 && (r - x) % Two64 == 0
    ensures x >= 0 ==> r == x
  {
    if x >= 0 then x else x + Two64
  }

  /** `max_files` in `Run`: half the memory limit (the constructor keeps
      `memory_limit / 2`) divided by the buffer size, less one buffer for
      the output stream. The result fits the `int64_t` it is stored in. */
  function MaxFiles(memoryLimit: Int64, bufferSize: Int64): (r: int)
    requires bufferSize != 0
    ensures -Two63 <= r < Two63
  {
    CDivShrinks(memoryLimit, 2);
    CDivShrinks(CDiv(memoryLimit, 2), bufferSize);
    CDiv(CDiv(memoryLimit, 2), bufferSize) - 1
  }

  /** Truncating division never grows the magnitude. */
  lemma CDivShrinks(a: int, b: int)
    requires b != 0
    ensures Abs(CDiv(a, b)) <= Abs(a)
  {
    DivAtMost(Abs(a), Abs(b));
  }

  function Abs(x: int): (r: nat) {
    if x < 0 then -x else x
  }

  lemma DivAtMost(a: nat, b: nat)
    requires b > 0
    ensures a / b <= a
  {
    var q := a / b;
    assert q * b + a % b == a;
    assert q * b >= q by {
      MulAtLeast(q, b);
    }
  }

  lemma MulAtLeast(q: nat, b: nat)
    requires b > 0
    ensures q * b >= q
  {
    assert q * b == q * (b - 1) + q;
  }

  /** The fan-in as `MergeSortedFiles` receives it. */
  function FanIn(memoryLimit: Int64, bufferSize: Int64): (r: nat)
    requires bufferSize != 0
    ensures MaxFiles(memoryLimit, bufferSize) >= 0 ==> r == MaxFiles(memoryLimit, bufferSize)
    ensures MaxFiles(memoryLimit, bufferSize) < 0 ==> r >= Two63
  {
    ToSize(MaxFiles(memoryLimit, bufferSize))
  }

  /** The fan-in against the budget, for a non-negative memory limit and a
      positive buffer size: below two buffers `max_files` is -1 and its
      conversion to `size_t` the largest value; from two to four buffers
      the fan-in is 0, from four to six it is 1, and from six buffers on it
      is at least 2 and equals the number of buffers in half the limit,
      less one. */
  lemma FanInByBudget(memoryLimit: Int64, bufferSize: Int64)
    requires bufferSize > 0 && memoryLimit >= 0
    ensures memoryLimit < 2 * bufferSize <==> FanIn(memoryLimit, bufferSize) == Two64 - 1
    ensures 2 * bufferSize <= memoryLimit < 4 * bufferSize <==> FanIn(memoryLimit, bufferSize) == 0
    ensures 4 * bufferSize <= memoryLimit < 6 * bufferSize <==> FanIn(memoryLimit, bufferSize) == 1
    ensures 6 * bufferSize <= memoryLimit <==> 2 <= FanIn(memoryLimit, bufferSize) < Two63
    ensures 2 * bufferSize <= memoryLimit ==> FanIn(memoryLimit, bufferSize) == memoryLimit / 2 / bufferSize - 1
  {
    var q := memoryLimit / 2 / bufferSize;
    assert CDiv(memoryLimit, 2) == memoryLimit / 2;
    assert CDiv(memoryLimit / 2, bufferSize) == q;
    assert MaxFiles(memoryLimit, bufferSize) == q - 1;
    Bands(memoryLimit, bufferSize);
  }

  /** The number of buffers in half of `m`, by bands of two buffers. */
  lemma Bands(m: nat, b: nat)
    requires b > 0
    ensures var q := m / 2 / b;
      && (m < 2 * b <==> q == 0)
      && (2 * b <= m < 4 * b <==> q == 1)
      && (4 * b <= m < 6 * b <==> q == 2)
      && (6 * b <= m <==> q >= 3)
  {
    var q := m / 2 / b;
    var x := q * b;
    Bracket(m, b);
    if q >= 3 {
      MulMono(3, q, b);
    }
    Classify(m, b, q, x);
  }

  /** Which band of double buffers `m` falls in, once `x` stands for
      `q * b` (a linear restatement of the case split). */
  lemma Classify(m: int, b: int, q: int, x: int)
    requires b > 0 && q >= 0 && 2 * x <= m < 2 * x + 2 * b
    requires q == 0 ==> x == 0
    requires q == 1 ==> x == b
    requires q == 2 ==> x == 2 * b
    requires q >= 3 ==> x >= 3 * b
    ensures m < 2 * b <==> q == 0
    ensures 2 * b <= m < 4 * b <==> q == 1
    ensures 4 * b <= m < 6 * b <==> q == 2
    ensures 6 * b <= m <==> q >= 3
  {
  }

  /** Half of `m`, divided by `b`, counts the whole double buffers in `m`. */
  lemma Bracket(m: nat, b: nat)
    requires b > 0
    ensures var x := (m / 2 / b) * b; 2 * x <= m < 2 * x + 2 * b
  {
    var h := m / 2;
    assert h == (h / b) * b + h % b;
  }

  lemma MulMono(x: nat, y: nat, b: nat)
    requires x <= y
    ensures x * b <= y * b
  {
    assert y * b == x * b + (y - x) * b;
  }

  const Two31: int := 0x8000_0000
  const Two32: int := 0x1_0000_0000

  /** The implicit conversion of `buffer_size_` to the `int` parameter of
      the `SortedMergeIterator` constructor: the value modulo 2^32, read
      back into the range of a 32-bit `int`. */
  function ToInt(x: Int64): (r: int)
    ensures -Two31 <= r < Two31 && (r - x) % Two32 == 0
    ensures -Two31 <= x < Two31 ==> r == x
  {
    var m := x % Two32;
    if m < Two31 then m else m - Two32
  }

  /** The converted size is negative exactly when the value modulo 2^32,
      taken non-negative, reaches 2^31; so a negative `int64_t` such as
      -2^32 + 5 converts to a non-negative size. */
  lemma ToIntNegative(x: Int64)
    ensures ToInt(x) < 0 <==> x % Two32 >= Two31
    ensures ToInt(-Two32 + 5) == 5
  {
  }

  /** Constructing a `SortedMergeIterator` over `n` files evaluates
      `new char[buffer_size]` once per file, which throws
      `std::bad_array_new_length` for a negative size. Nothing in the
      program catches it, so the process terminates. */
  predicate IteratorThrows(bufferSize: Int64, n: nat) {
    n > 0 && ToInt(bufferSize) < 0
  }

  /** How a run ends: failure (`Run` returns false), the text written to
      the output stream, no end at all, or an uncaught exception from the
      construction of a merge iterator. */
  datatype Outcome = Aborted | Output(text: string) | Endless | Crashed

  /** `Run`: sorted files, merged down to at most the fan-in, then grouped
      onto the output stream. `flushes` stands for the allocator's say in
      when the buffer spills (see `Spill`). The merge step builds its first
      iterator, over `fan` files, before it creates any file, and only when
      its loop runs at all; step 3 builds one over the files step 2 hands
      on. */
  function Run(input: string, memoryLimit: Int64, bufferSize: Int64, flushes: set<nat>, d: Disk): (r: Outcome)
    requires bufferSize != 0
  {
    match BuildSortedFiles(input, flushes, d)
    case Failed => Aborted
    case Done(files, d1) =>
      var fan := FanIn(memoryLimit, bufferSize);
      if |files| > fan && IteratorThrows(bufferSize, fan) then
        Crashed
      else
        match MergeSortedFiles(fan, files, d1)
        case MergeFailed => Aborted
        case Diverges => Endless
        case Merged(names, d2) =>
          if IteratorThrows(bufferSize, |names|) then Crashed
          else Output(GroupValuesByKey(MergeAll(Streams(d2, names))))
  }

  /** Sorted non-empty runs are in particular sorted streams. */
  lemma SortedRunsAreSorted(ss: seq<seq<Pair>>)
    requires SortedRunsOf(ss)
    ensures AllSorted(ss)
  {
  }

  /** Merging sorted streams that hold the pairs `ps` yields `ps` sorted. */
  lemma MergedIsSorted(ps: seq<Pair>, ss: seq<seq<Pair>>)
    requires Pending(ss) == multiset(ps) && AllSorted(ss)
    ensures MergeAll(ss) == SortPairs(ps)
  {
    MergeAllSpec(ss);
    SortedUnique(MergeAll(ss), SortPairs(ps));
  }

  /** What the program promises: whatever the memory limit, buffer size,
      spill schedule and disk, a run that writes anything writes the pairs
      of the input grouped as if they had been sorted in memory. */
  lemma RunSpec(input: string, memoryLimit: Int64, bufferSize: Int64, flushes: set<nat>, d: Disk)
    requires bufferSize != 0
    ensures var r := Run(input, memoryLimit, bufferSize, flushes, d);
      r.Output? ==> r.text == GroupValuesByKey(SortPairs(ParseAll(input)))
  {
    var s1 := BuildSortedFiles(input, flushes, d);
    if s1.Done? {
      BuildSortedFilesSpec(input, flushes, d);
      var fan := FanIn(memoryLimit, bufferSize);
      var m := MergeSortedFiles(fan, s1.names, s1.disk);
      if m.Merged? {
        MergeStepSorted(ParseAll(input), fan, s1.names, s1.disk);
      }
    }
  }

  /** Step 2 applied to sorted runs holding `ps` hands on files whose merge
      is `ps` sorted. */
  lemma MergeStepSorted(ps: seq<Pair>, fan: nat, files: seq<nat>, d: Disk)
    requires Content(d, files) == multiset(ps) && SortedRuns(d, files) && Below(files, d.next)
    requires MergeSortedFiles(fan, files, d).Merged?
    ensures var m := MergeSortedFiles(fan, files, d);
      MergeAll(Streams(m.disk, m.names)) == SortPairs(ps)
  {
    var m := MergeSortedFiles(fan, files, d);
    MergeSortedFilesSpec(fan, files, d);
    SortedRunsAreSorted(Streams(d, files));
    MergedIsSorted(ps, Streams(m.disk, m.names));
  }

  /** Keys read by stream extraction are tokens, hence never empty. */
  lemma ValidKeysNonEmpty(ps: seq<Pair>)
    requires AllValid(ps)
    ensures KeysNonEmpty(ps)
  {
    forall i | 0 <= i < |ps|
      ensures ps[i].key != ""
    {
      assert ValidPair(ps[i]);
    }
  }

  /** The output line by line: one line per distinct key of the input, keys
      ascending, each line holding the key's values in ascending order, and
      a line break after every line. */
  lemma RunLines(input: string, memoryLimit: Int64, bufferSize: Int64, flushes: set<nat>, d: Disk)
    requires bufferSize != 0
    ensures var r := Run(input, memoryLimit, bufferSize, flushes, d);
      var rs := Runs(SortPairs(ParseAll(input)));
      r.Output? ==>
        && r.text == Render(rs) + "\n"
        && Flatten(rs) == SortPairs(ParseAll(input))
        && KeysAscending(rs)
        && (forall i :: 0 <= i < |rs| ==> ValuesSorted(rs[i].values))
  {
    var ps := ParseAll(input);
    var sorted := SortPairs(ps);
    RunSpec(input, memoryLimit, bufferSize, flushes, d);
    AllValidPermutation(ps, sorted);
    ValidKeysNonEmpty(sorted);
    GroupValuesByKeyIsRender(sorted);
    FlattenRuns(sorted);
    RunsOfSorted(sorted);
  }

  /** The output depends only on which pairs the input holds: reordering
      the input, or changing the memory limit, the buffer size, the spill
      schedule or the disk, never changes what is written. */
  lemma RunOrderIndependent(input: string, input': string, memoryLimit: Int64, memoryLimit': Int64,
                            bufferSize: Int64, bufferSize': Int64, flushes: set<nat>, flushes': set<nat>,
                            d: Disk, d': Disk)
    requires bufferSize != 0 && bufferSize' != 0
    requires multiset(ParseAll(input)) == multiset(ParseAll(input'))
    ensures var r := Run(input, memoryLimit, bufferSize, flushes, d);
      var r' := Run(input', memoryLimit', bufferSize', flushes', d');
      r.Output? && r'.Output? ==> r.text == r'.text
  {
    RunSpec(input, memoryLimit, bufferSize, flushes, d);
    RunSpec(input', memoryLimit', bufferSize', flushes', d');
    SortDependsOnlyOnMultiset(ParseAll(input), ParseAll(input'));
  }

  /** Creating files fails only on a broken name: on a disk where every
      creation succeeds, a run never fails, and whenever the fan-in is at
      least two it writes its output unless a merge iterator throws; with
      a buffer size that converts to a non-negative `int` none does. */
  lemma RunSucceeds(input: string, memoryLimit: Int64, bufferSize: Int64, flushes: set<nat>, d: Disk)
    requires bufferSize != 0 && Healthy(d)
    ensures !Run(input, memoryLimit, bufferSize, flushes, d).Aborted?
    ensures FanIn(memoryLimit, bufferSize) >= 2 ==>
      Run(input, memoryLimit, bufferSize, flushes, d).Output? || Run(input, memoryLimit, bufferSize, flushes, d).Crashed?
    ensures FanIn(memoryLimit, bufferSize) >= 2 && ToInt(bufferSize) >= 0 ==> Run(input, memoryLimit, bufferSize, flushes, d).Output?
  {
    BuildSortedFilesSpec(input, flushes, d);
    var s1 := BuildSortedFiles(input, flushes, d);
    HealthyLater(d, s1.disk);
    var fan := FanIn(memoryLimit, bufferSize);
    MergeSortedFilesSpec(fan, s1.names, s1.disk);
    NoMergeFailure(fan, s1.names, s1.disk);
  }

  lemma HealthyLater(d: Disk, d': Disk)
    requires Healthy(d) && d.next <= d'.next && d'.broken == d.broken
    ensures Healthy(d')
  {
  }

  /** On a healthy disk the merge step never fails. */
  lemma NoMergeFailure(maxFiles: nat, files: seq<nat>, d: Disk)
    requires Healthy(d) && Below(files, d.next)
    ensures !MergeSortedFiles(maxFiles, files, d).MergeFailed?
  {
    MergeSortedFilesSpec(maxFiles, files, d);
  }

  /** A run never ends only through a fan-in below two. */
  lemma RunEndless(input: string, memoryLimit: Int64, bufferSize: Int64, flushes: set<nat>, d: Disk)
    requires bufferSize != 0
    ensures Run(input, memoryLimit, bufferSize, flushes, d).Endless? ==> FanIn(memoryLimit, bufferSize) <= 1
  {
    BuildSortedFilesSpec(input, flushes, d);
    var s1 := BuildSortedFiles(input, flushes, d);
    if s1.Done? {
      MergeSortedFilesSpec(FanIn(memoryLimit, bufferSize), s1.names, s1.disk);
    }
  }

  /** With a fan-in of zero (a memory limit of at least two and below four
      buffers, see `FanInByBudget`) any input holding a pair loops forever
      on a healthy disk: every batch is empty, so no iterator is built. */
  lemma RunEndlessZero(input: string, memoryLimit: Int64, bufferSize: Int64, flushes: set<nat>, d: Disk)
    requires bufferSize != 0 && Healthy(d) && FanIn(memoryLimit, bufferSize) == 0 && ParseAll(input) != []
    ensures Run(input, memoryLimit, bufferSize, flushes, d).Endless?
  {
    BuildSortedFilesSpec(input, flushes, d);
    var s1 := BuildSortedFiles(input, flushes, d);
    HealthyLater(d, s1.disk);
    SomeFile(s1.disk, s1.names, ParseAll(input));
    MergeSortedFilesSpec(0, s1.names, s1.disk);
  }

  /** Files holding at least one pair are at least one file. */
  lemma SomeFile(d: Disk, names: seq<nat>, ps: seq<Pair>)
    requires Content(d, names) == multiset(ps) && ps != []
    ensures |names| > 0
  {
  }

  /** An input without a single pair gives one empty line, whatever else
      holds: step 1 creates no file, step 2 passes the empty list on, and
      step 3 writes only the closing line break. */
  lemma RunEmpty(input: string, memoryLimit: Int64, bufferSize: Int64, flushes: set<nat>, d: Disk)
    requires bufferSize != 0
    requires ParseAll(input) == []
    ensures Run(input, memoryLimit, bufferSize, flushes, d) == Output("\n")
  {
    BuildSortedFilesSpec(input, flushes, d);
    var fan := FanIn(memoryLimit, bufferSize);
    assert MergeSortedFiles(fan, [], d) == Merged([], d);
    MergeAllSpec([]);
    assert Streams(d, []) == [];
  }

  /** A run crashes exactly when step 1 succeeds on an input holding a
      pair, the fan-in is at least one, and the buffer size converts to a
      negative `int`: then either the first merge round or step 3 builds an
      iterator over at least one file. With a fan-in of zero no round reads
      a file, and an input without pairs reaches step 3 with no file. */
  lemma RunCrashes(input: string, memoryLimit: Int64, bufferSize: Int64, flushes: set<nat>, d: Disk)
    requires bufferSize != 0
    ensures Run(input, memoryLimit, bufferSize, flushes, d).Crashed? <==>
      && BuildSortedFiles(input, flushes, d).Done?
      && ParseAll(input) != []
      && FanIn(memoryLimit, bufferSize) >= 1
      && ToInt(bufferSize) < 0
  {
    BuildSortedFilesSpec(input, flushes, d);
    var s1 := BuildSortedFiles(input, flushes, d);
    if ParseAll(input) == [] {
      RunEmpty(input, memoryLimit, bufferSize, flushes, d);
    } else if s1.Done? {
      var fan := FanIn(memoryLimit, bufferSize);
      var m := MergeSortedFiles(fan, s1.names, s1.disk);
      CrashStep(ParseAll(input), fan, bufferSize, s1.names, s1.disk);
      assert Run(input, memoryLimit, bufferSize, flushes, d).Crashed? <==>
        (|s1.names| > fan && IteratorThrows(bufferSize, fan)) || (m.Merged? && IteratorThrows(bufferSize, |m.names|));
    }
  }

  /** After step 1 has put the pairs `ps`, at least one, into `files`: one
      of the two iterators is built over at least one file exactly when the
      fan-in is at least one, and then it throws exactly for a negative
      size. */
  lemma CrashStep(ps: seq<Pair>, fan: nat, bufferSize: Int64, files: seq<nat>, d: Disk)
    requires ps != [] && Content(d, files) == multiset(ps) && Below(files, d.next)
    ensures var m := MergeSortedFiles(fan, files, d);
      ((|files| > fan && IteratorThrows(bufferSize, fan)) || (m.Merged? && IteratorThrows(bufferSize, |m.names|)))
      <==> fan >= 1 && ToInt(bufferSize) < 0
  {
    var m := MergeSortedFiles(fan, files, d);
    SomeFile(d, files, ps);
    MergeSortedFilesSpec(fan, files, d);
    if m.Merged? {
      SomeFile(m.disk, m.names, ps);
    }
  }

}
