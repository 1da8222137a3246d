/** Step 2 of the pipeline, `MergeSortedFiles` with `WriteToFile`: while
    more than `max_files` files are queued, take `max_files` of them from
    the front, merge them into a fresh file and queue that file at the
    back. */
module MergeFiles {
  import opened Options
  import opened Pairs
  import opened Extraction
  import opened MergeIterator
  import opened Disks

  /** `WriteToFile` on an iterator opened on the files `batch`: it fails
      when the file cannot be created; otherwise the file receives every
      pair the iterator produces, one per line, and reads back as exactly
      that sequence. No other file changes. */
  function WriteToFile(batch: seq<nat>, id: nat, d: Disk): (r: Option<Disk>)
    ensures r.None? <==> id in d.broken
    ensures r.Some? ==> forall n :: n != id ==> Read(r.value, n) == Read(d, n)
    ensures r.Some? ==> r.value.next == d.next && r.value.broken == d.broken
    ensures r.Some? ==> ParseAll(Read(r.value, id)) == MergeAll(Streams(d, batch))
  {
    var out := MergeAll(Streams(d, batch));
    MergeAllValid(Streams(d, batch));
    FileRoundTrip(out);
    Write(d, id, RenderFile(out))
  }

  /** What the written file holds: every pair of the batch, each once, and
      in order when every file of the batch is sorted. */
  lemma WriteToFileSpec(batch: seq<nat>, id: nat, d: Disk)
    requires WriteToFile(batch, id, d).Some?
    ensures var text := Read(WriteToFile(batch, id, d).value, id);
      && multiset(ParseAll(text)) == Content(d, batch)
      && |ParseAll(text)| == |Content(d, batch)|
      && (AllSorted(Streams(d, batch)) ==> Sorted(ParseAll(text)))
  {
    MergeAllSpec(Streams(d, batch));
  }

  /** One round's writer: given the batch, the fresh name and the disk, it
      writes the merged batch into that name or fails. `MergeSortedFiles`
      uses `WriteToFile`; the loop below is stated for any writer that
      behaves like it, which keeps the loop's reasoning apart from the
      merge's. */
  type Writer = (seq<nat>, nat, Disk) -> Option<Disk>

  /** A writer that fails exactly on a broken name and otherwise leaves the
      name counter and the broken names as they were. */
  ghost predicate Creates(write: Writer) {
    forall batch: seq<nat>, id: nat, d: Disk ::
      && (write(batch, id, d).None? <==> id in d.broken)
      && (write(batch, id, d).Some? ==>
            write(batch, id, d).value.next == d.next && write(batch, id, d).value.broken == d.broken)
  }

  /** `d'` is `d` after file `id` received the merged `batch`: no other file
      changed, and the new file holds every pair of the batch, in order when
      every file of the batch was sorted. */
  ghost predicate HoldsMerge(batch: seq<nat>, id: nat, d: Disk, d': Disk) {
    && (forall n :: n != id ==> Read(d', n) == Read(d, n))
    && multiset(ParseAll(Read(d', id))) == Content(d, batch)
    && (AllSorted(Streams(d, batch)) ==> Sorted(ParseAll(Read(d', id))))
  }

  /** A writer that, when it succeeds, writes the merged batch. */
  ghost predicate Merges(write: Writer) {
    forall batch: seq<nat>, id: nat, d: Disk ::
      write(batch, id, d).Some? ==> HoldsMerge(batch, id, d, write(batch, id, d).value)
  }

  /** `WriteToFile` is such a writer. */
  lemma WriteToFileIsMerger()
    ensures Creates(WriteToFile) && Merges(WriteToFile)
  {
    forall batch: seq<nat>, id: nat, d: Disk
      ensures WriteToFile(batch, id, d).Some? ==> HoldsMerge(batch, id, d, WriteToFile(batch, id, d).value)
    {
      if WriteToFile(batch, id, d).Some? {
        WriteToFileSpec(batch, id, d);
      }
    }
  }

  /** One pass of the loop body: the merged file gets the next name. */
  function Round(write: Writer, maxFiles: nat, q: seq<nat>, d: Disk): (r: Stage)
    requires maxFiles < |q|
    ensures r.Done? ==> |r.names| + maxFiles == |q| + 1
    ensures Creates(write) ==> (r.Done? <==> d.next !in d.broken)
    ensures Creates(write) && r.Done? ==> r.disk.next == d.next + 1 && r.disk.broken == d.broken
  {
    var (id, d1) := NextFile(d);
    match write(q[..maxFiles], id, d1)
    case None => Failed
    case Some(d2) => Done(q[maxFiles..] + [id], d2)
  }

  /** Merging the front of a queue into a fresh file queued at the back
      keeps the queued content. */
  lemma MergeIntoQueue(batch: seq<nat>, rest: seq<nat>, id: nat, d: Disk, d': Disk)
    requires Below(batch + rest, id) && HoldsMerge(batch, id, d, d')
    ensures Content(d', rest + [id]) == Content(d, batch + rest)
  {
    BelowSuffix(batch, rest, id);
    var A, B := Content(d, batch), Content(d, rest);
    ContentFrame(d, d', rest);
    ContentAppend(d', rest, [id]);
    ContentSingle(d', id);
    ContentAppend(d, batch, rest);
    calc {
      Content(d', rest + [id]);
      Content(d', rest) + Content(d', [id]);
      B + A;
      A + B;
      Content(d, batch + rest);
    }
  }

  /** Merging the front of a queue of sorted files yields a queue of sorted
      files. */
  lemma MergeIntoQueueSorted(batch: seq<nat>, rest: seq<nat>, id: nat, d: Disk, d': Disk)
    requires Below(batch + rest, id) && HoldsMerge(batch, id, d, d')
    requires AllSorted(Streams(d, batch + rest))
    ensures AllSorted(Streams(d', rest + [id]))
  {
    SortedSplit(d, batch, rest);
    BelowSuffix(batch, rest, id);
    ContentFrame(d, d', rest);
    StreamsSnoc(d', rest, id);
    AllSortedAppend(Streams(d', rest), ParseAll(Read(d', id)));
  }

  /** Both parts of a queue of sorted files are queues of sorted files. */
  lemma SortedSplit(d: Disk, a: seq<nat>, b: seq<nat>)
    requires AllSorted(Streams(d, a + b))
    ensures AllSorted(Streams(d, a)) && AllSorted(Streams(d, b))
  {
    StreamsAppend(d, a, b);
    AllSortedSplit(Streams(d, a), Streams(d, b));
  }

  lemma AllSortedSplit(x: seq<seq<Pair>>, y: seq<seq<Pair>>)
    requires AllSorted(x + y)
    ensures AllSorted(x) && AllSorted(y)
  {
    assert forall t :: 0 <= t < |x| ==> x[t] == (x + y)[t];
    assert forall t :: 0 <= t < |y| ==> y[t] == (x + y)[|x| + t];
  }

  lemma AllSortedAppend(ss: seq<seq<Pair>>, s: seq<Pair>)
    requires AllSorted(ss) && Sorted(s)
    ensures AllSorted(ss + [s])
  {
    assert forall t :: 0 <= t < |ss| ==> (ss + [s])[t] == ss[t];
  }

  /** What a successful round consists of. */
  lemma RoundShape(write: Writer, maxFiles: nat, q: seq<nat>, d: Disk)
    requires maxFiles < |q| && Round(write, maxFiles, q, d).Done?
    ensures var d1 := d.(next := d.next + 1);
      && write(q[..maxFiles], d.next, d1).Some?
      && Round(write, maxFiles, q, d) == Done(q[maxFiles..] + [d.next], write(q[..maxFiles], d.next, d1).value)
  {
  }

  /** A round keeps the queued content, keeps every queued file sorted when
      all were, and queues only names already handed out. */
  lemma RoundSpec(write: Writer, maxFiles: nat, q: seq<nat>, d: Disk)
    requires Creates(write) && Merges(write) && maxFiles < |q| && Below(q, d.next)
    ensures var r := Round(write, maxFiles, q, d);
      r.Done? ==>
        && r.names == q[maxFiles..] + [d.next]
        && Below(r.names, r.disk.next)
        && Content(r.disk, r.names) == Content(d, q)
        && (AllSorted(Streams(d, q)) ==> AllSorted(Streams(r.disk, r.names)))
  {
    if Round(write, maxFiles, q, d).Done? {
      RoundShape(write, maxFiles, q, d);
      var d1 := d.(next := d.next + 1);
      var d2 := write(q[..maxFiles], d.next, d1).value;
      assert HoldsMerge(q[..maxFiles], d.next, d1, d2);
      RoundKeeps(maxFiles, q, d, d2);
    }
  }

  /** The queue after a round, given what the writer left behind. */
  lemma RoundKeeps(maxFiles: nat, q: seq<nat>, d: Disk, d2: Disk)
    requires maxFiles < |q| && Below(q, d.next) && d2.next == d.next + 1
    requires HoldsMerge(q[..maxFiles], d.next, d.(next := d.next + 1), d2)
    ensures Below(q[maxFiles..] + [d.next], d2.next)
    ensures Content(d2, q[maxFiles..] + [d.next]) == Content(d, q)
    ensures AllSorted(Streams(d, q)) ==> AllSorted(Streams(d2, q[maxFiles..] + [d.next]))
  {
    var d1 := d.(next := d.next + 1);
    var batch, rest := q[..maxFiles], q[maxFiles..];
    assert q == batch + rest;
    BelowSuffix(batch, rest, d.next);
    BelowSnoc(rest, d.next, d2.next);
    ContentFrame(d, d1, q);
    MergeIntoQueue(batch, rest, d.next, d1, d2);
    if AllSorted(Streams(d, q)) {
      MergeIntoQueueSorted(batch, rest, d.next, d1, d2);
    }
  }

  /** The loop of `MergeSortedFiles` for a fan-in of at least two: every
      round shortens the queue by `maxFiles - 1`, so it ends, and it ends
      with at most `maxFiles` files. */
  function Reduce(write: Writer, maxFiles: nat, q: seq<nat>, d: Disk): (r: Stage)
    requires maxFiles >= 2
    ensures r.Done? ==> |r.names| <= maxFiles
    decreases |q|
  {
    if |q| <= maxFiles then
      Done(q, d)
    else
      match Round(write, maxFiles, q, d)
      case Failed => Failed
      case Done(q', d') => Reduce(write, maxFiles, q', d')
  }

  /** A loop that runs goes on from where its first round left off. */
  lemma ReduceStep(write: Writer, maxFiles: nat, q: seq<nat>, d: Disk)
    requires Creates(write) && maxFiles >= 2 && |q| > maxFiles && Round(write, maxFiles, q, d).Done?
    ensures var o := Round(write, maxFiles, q, d);
      && Reduce(write, maxFiles, q, d) == Reduce(write, maxFiles, o.names, o.disk)
      && |o.names| + maxFiles == |q| + 1
      && o.disk.next == d.next + 1 && o.disk.broken == d.broken
  {
  }

  /** The loop's bound: it ends with at most `maxFiles` files, with at least
      two when it ran at all, and only moves the name counter forward. */
  lemma {:induction false} ReduceBound(write: Writer, maxFiles: nat, q: seq<nat>, d: Disk)
    requires Creates(write) && maxFiles >= 2
    ensures var r := Reduce(write, maxFiles, q, d);
      r.Done? ==>
        && |r.names| <= maxFiles
        && (|q| > maxFiles ==> 2 <= |r.names|)
        && d.next <= r.disk.next && r.disk.broken == d.broken
    ensures |q| <= maxFiles ==> Reduce(write, maxFiles, q, d) == Done(q, d)
    decreases |q|
  {
    if |q| > maxFiles {
      var o := Round(write, maxFiles, q, d);
      if o.Done? {
        ReduceBound(write, maxFiles, o.names, o.disk);
        ReduceStep(write, maxFiles, q, d);
      }
    }
  }

  /** The number of files `k` rounds of fan-in `maxFiles` take off the
      queue: each merges `maxFiles` files into one. */
  function Removed(k: nat, maxFiles: nat): (r: int)
    ensures r == k * (maxFiles - 1)
  {
    if k == 0 then 0 else Removed(k - 1, maxFiles) + maxFiles - 1
  }

  /** The loop runs as many rounds as names it takes from the counter, and
      each round removes `maxFiles - 1` files from the queue. */
  lemma {:induction false} ReduceCount(write: Writer, maxFiles: nat, q: seq<nat>, d: Disk)
    requires Creates(write) && maxFiles >= 2
    ensures var r := Reduce(write, maxFiles, q, d);
      r.Done? ==> d.next <= r.disk.next && |r.names| + Removed(r.disk.next - d.next, maxFiles) == |q|
    decreases |q|
  {
    if |q| <= maxFiles {
      assert Reduce(write, maxFiles, q, d) == Done(q, d);
      assert Removed(0, maxFiles) == 0;
    } else {
      var o := Round(write, maxFiles, q, d);
      if o.Done? {
        ReduceCount(write, maxFiles, o.names, o.disk);
        ReduceStep(write, maxFiles, q, d);
        var r := Reduce(write, maxFiles, o.names, o.disk);
        if r.Done? {
          var k := r.disk.next - o.disk.next;
          assert r.disk.next - d.next == k + 1;
          assert Removed(k + 1, maxFiles) == Removed(k, maxFiles) + maxFiles - 1;
        }
      }
    }
  }

  /** The loop keeps the queued content and the sortedness of every queued
      file. */
  lemma {:induction false} ReduceKeepsAll(write: Writer, maxFiles: nat, q: seq<nat>, d: Disk)
    requires Creates(write) && Merges(write) && maxFiles >= 2 && Below(q, d.next)
    ensures var r := Reduce(write, maxFiles, q, d);
      r.Done? ==>
        && Below(r.names, r.disk.next)
        && Content(r.disk, r.names) == Content(d, q)
        && (AllSorted(Streams(d, q)) ==> AllSorted(Streams(r.disk, r.names)))
    decreases |q|
  {
    if |q| > maxFiles {
      RoundSpec(write, maxFiles, q, d);
      var o := Round(write, maxFiles, q, d);
      if o.Done? {
        ReduceKeepsAll(write, maxFiles, o.names, o.disk);
        ReduceStep(write, maxFiles, q, d);
      }
    }
  }

  /** With no broken name ahead, the loop succeeds. */
  lemma {:induction false} ReduceSucceeds(write: Writer, maxFiles: nat, q: seq<nat>, d: Disk)
    requires Creates(write) && maxFiles >= 2 && Healthy(d)
    ensures Reduce(write, maxFiles, q, d).Done?
    decreases |q|
  {
    if |q| > maxFiles {
      var o := Round(write, maxFiles, q, d);
      ReduceSucceeds(write, maxFiles, o.names, o.disk);
      ReduceStep(write, maxFiles, q, d);
    }
  }

  /** The loop as written, for any fan-in, run for at most `n` rounds:
      `Done` means it has not failed so far (it may still be running). */
  function Rounds(write: Writer, maxFiles: nat, q: seq<nat>, d: Disk, n: nat): (r: Stage)
    decreases n
  {
    if |q| <= maxFiles || n == 0 then
      Done(q, d)
    else
      match Round(write, maxFiles, q, d)
      case Failed => Failed
      case Done(q', d') => Rounds(write, maxFiles, q', d', n - 1)
  }

  /** One round of the loop, when it runs. */
  lemma RoundsStep(write: Writer, maxFiles: nat, q: seq<nat>, d: Disk, n: nat)
    requires Creates(write) && |q| > maxFiles && n > 0
    ensures Round(write, maxFiles, q, d).Failed? ==> Rounds(write, maxFiles, q, d, n) == Failed
    ensures var o := Round(write, maxFiles, q, d);
      o.Done? ==> Rounds(write, maxFiles, q, d, n) == Rounds(write, maxFiles, o.names, o.disk, n - 1)
  {
  }

  /** For a fan-in of at least two, `Reduce` is the loop run to its end:
      as many rounds as there are queued files are always enough. */
  lemma {:induction false} ReduceIsLoop(write: Writer, maxFiles: nat, q: seq<nat>, d: Disk, n: nat)
    requires Creates(write) && maxFiles >= 2 && n >= |q|
    ensures Reduce(write, maxFiles, q, d) == Rounds(write, maxFiles, q, d, n)
    decreases n
  {
    if |q| > maxFiles && Round(write, maxFiles, q, d).Done? {
      var o := Round(write, maxFiles, q, d);
      ReduceIsLoop(write, maxFiles, o.names, o.disk, n - 1);
      ReduceStep(write, maxFiles, q, d);
      RoundsStep(write, maxFiles, q, d, n);
    } else if |q| <= maxFiles {
      assert Reduce(write, maxFiles, q, d) == Done(q, d);
      assert Rounds(write, maxFiles, q, d, n) == Done(q, d);
    } else {
      RoundsStep(write, maxFiles, q, d, n);
      assert Reduce(write, maxFiles, q, d) == Failed;
    }
  }

  /** No name from `from` up to (not including) `to` is broken. */
  predicate Clear(d: Disk, from: nat, to: nat) {
    forall id :: from <= id < to ==> id !in d.broken
  }

  /** For a fan-in of 0 or 1 the loop never ends by itself: a round takes
      at most one file and queues one, so after any number of rounds the
      queue is still longer than `maxFiles`. The rounds only stop when a
      name turns out to be broken. */
  lemma {:induction false} DegenerateRounds(write: Writer, maxFiles: nat, q: seq<nat>, d: Disk, n: nat)
    requires Creates(write) && maxFiles <= 1 && |q| > maxFiles
    ensures Rounds(write, maxFiles, q, d, n).Done? <==> Clear(d, d.next, d.next + n)
    ensures Rounds(write, maxFiles, q, d, n).Done? ==> |Rounds(write, maxFiles, q, d, n).names| > maxFiles
    decreases n
  {
    if n == 0 {
      assert Rounds(write, maxFiles, q, d, n) == Done(q, d);
    } else {
      RoundsStep(write, maxFiles, q, d, n);
      var o := Round(write, maxFiles, q, d);
      if o.Done? {
        DegenerateRounds(write, maxFiles, o.names, o.disk, n - 1);
        ClearStep(d, o.disk, n);
      } else {
        assert d.next in d.broken;
      }
    }
  }

  lemma ClearStep(d: Disk, d': Disk, n: nat)
    requires n > 0 && d'.next == d.next + 1 && d'.broken == d.broken && d.next !in d.broken
    ensures Clear(d, d.next, d.next + n) <==> Clear(d', d'.next, d'.next + (n - 1))
  {
    if Clear(d', d'.next, d'.next + (n - 1)) {
      forall id | d.next <= id < d.next + n
        ensures id !in d.broken
      {
        if id > d.next {
          assert d'.next <= id < d'.next + (n - 1);
        }
      }
    }
  }

  /** How step 2 ends: with the list of files to read, with a failure, or
      not at all. */
  datatype Merge = MergeFailed | Merged(names: seq<nat>, disk: Disk) | Diverges

  /** `MergeSortedFiles`. The early return hands the files on unchanged
      when fewer than `maxFiles` are given. With a fan-in of 0 or 1 and more
      files than that, the loop runs until a file cannot be created, and
      forever if none fails (`DegenerateRounds`). Whatever the fan-in, the
      files handed on are never more than `maxFiles`. */
  function MergeSortedFiles(maxFiles: nat, files: seq<nat>, d: Disk): (r: Merge)
    ensures r.Merged? ==> |r.names| <= maxFiles
  {
    if maxFiles > |files| then
      Merged(files, d)
    else if maxFiles >= 2 then
      match Reduce(WriteToFile, maxFiles, files, d)
      case Failed => MergeFailed
      case Done(q, d') => Merged(q, d')
    else if |files| <= maxFiles then
      Merged(files, d)
    else if exists b :: b in d.broken && b >= d.next then
      MergeFailed
    else
      Diverges
  }

  /** What step 2 promises: the files it hands on hold exactly the pairs the
      given files held, each of them sorted when all given files were; at
      most `maxFiles` of them when the fan-in is at least two; the given
      list itself when it is short enough. It diverges exactly for a fan-in
      below two with more files than that and no failing creation. */
  lemma MergeSortedFilesSpec(maxFiles: nat, files: seq<nat>, d: Disk)
    requires Below(files, d.next)
    ensures var r := MergeSortedFiles(maxFiles, files, d);
      r.Merged? ==>
        && Content(r.disk, r.names) == Content(d, files)
        && (AllSorted(Streams(d, files)) ==> AllSorted(Streams(r.disk, r.names)))
        && Below(r.names, r.disk.next) && d.next <= r.disk.next && r.disk.broken == d.broken
        && (maxFiles >= 2 ==> |r.names| <= maxFiles)
    ensures |files| <= maxFiles ==> MergeSortedFiles(maxFiles, files, d) == Merged(files, d)
    ensures Healthy(d) && maxFiles >= 2 ==> MergeSortedFiles(maxFiles, files, d).Merged?
    ensures MergeSortedFiles(maxFiles, files, d).Diverges? <==> maxFiles <= 1 && |files| > maxFiles && Healthy(d)
  {
    WriteToFileIsMerger();
    if maxFiles >= 2 {
      ReduceBound(WriteToFile, maxFiles, files, d);
      ReduceKeepsAll(WriteToFile, maxFiles, files, d);
      if Healthy(d) {
        ReduceSucceeds(WriteToFile, maxFiles, files, d);
      }
    }
  }

  /** The degenerate outcomes agree with the loop: a failure is reached
      after finitely many rounds, and divergence means no number of rounds
      ever fails or empties the queue far enough to stop. */
  lemma DegenerateOutcome(maxFiles: nat, files: seq<nat>, d: Disk)
    requires maxFiles <= 1 && |files| > maxFiles
    ensures MergeSortedFiles(maxFiles, files, d).Diverges? ==>
      forall n :: Rounds(WriteToFile, maxFiles, files, d, n).Done? && |Rounds(WriteToFile, maxFiles, files, d, n).names| > maxFiles
    ensures MergeSortedFiles(maxFiles, files, d).MergeFailed? ==>
      exists n :: Rounds(WriteToFile, maxFiles, files, d, n).Failed?
  {
    WriteToFileIsMerger();
    if MergeSortedFiles(maxFiles, files, d).Diverges? {
      forall n
        ensures Rounds(WriteToFile, maxFiles, files, d, n).Done? && |Rounds(WriteToFile, maxFiles, files, d, n).names| > maxFiles
      {
        DegenerateRounds(WriteToFile, maxFiles, files, d, n);
      }
    } else {
      var b :| b in d.broken && b >= d.next;
      DegenerateRounds(WriteToFile, maxFiles, files, d, b - d.next + 1);
    }
  }
}
