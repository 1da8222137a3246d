/** Step 1 of the pipeline, `BuildSortedFiles` with `WriteBuffer`: read
    pairs into a buffer and, whenever the memory estimate reaches the
    budget, sort the buffer into a fresh file and start over; whatever is
    left at the end goes into one more file.

    The memory estimate depends on string and vector capacities, which the
    allocator chooses, so the model takes the decision as an input: the
    set `flushes` holds the positions (counting pairs from 0) after whose
    read the estimate reached the budget. Every property below holds for
    any such set. */
module Spill {
  import opened Pairs
  import opened Extraction
  import opened Sorting
  import opened MergeIterator
  import opened Disks

  /** What `WriteBuffer` leaves behind: whether it succeeded, the caller's
      buffer afterwards, and the disk. */
  datatype Written = Written(ok: bool, buffer: seq<Pair>, disk: Disk)

  /** A sorted buffer of token pairs, written one pair per line, reads
      back as itself. */
  lemma BufferRoundTrip(buffer: seq<Pair>)
    ensures AllValid(buffer) ==> ParseAll(RenderFile(SortPairs(buffer))) == SortPairs(buffer)
  {
    if AllValid(buffer) {
      AllValidPermutation(buffer, SortPairs(buffer));
      FileRoundTrip(SortPairs(buffer));
    }
  }

  /** `WriteBuffer`: when the file cannot be created it fails and leaves
      both the buffer and the disk alone (the sort comes after the check).
      Otherwise the file holds the buffer's pairs in ascending order, one
      per line, so that reading it back yields the sorted buffer; no other
      file changes; and the buffer is cleared. */
  function WriteBuffer(buffer: seq<Pair>, id: nat, d: Disk): (r: Written)
    ensures r.ok <==> id !in d.broken
    ensures !r.ok ==> r.buffer == buffer && r.disk == d
    ensures r.ok ==> r.buffer == [] && r.disk.next == d.next && r.disk.broken == d.broken
    ensures r.ok ==> forall n :: n != id ==> Read(r.disk, n) == Read(d, n)
    ensures r.ok && AllValid(buffer) ==> ParseAll(Read(r.disk, id)) == SortPairs(buffer)
  {
    BufferRoundTrip(buffer);
    match Write(d, id, RenderFile(SortPairs(buffer)))
    case None => Written(false, buffer, d)
    case Some(d') => Written(true, [], d')
  }

  /** One flush: take the next file name, list it, and write the buffer to
      it. It fails exactly when that name cannot be created, and otherwise
      appends that name and advances the counter past it. */
  function Flush(buffer: seq<Pair>, names: seq<nat>, d: Disk): (r: Stage)
    ensures r.Done? <==> d.next !in d.broken
    ensures r.Done? ==> r.names == names + [d.next] && r.disk.next == d.next + 1 && r.disk.broken == d.broken
  {
    var (id, d1) := NextFile(d);
    var w := WriteBuffer(buffer, id, d1);
    if w.ok then Done(names + [id], w.disk) else Failed
  }

  /** The loop of `BuildSortedFiles` from the pair at position `i` on, with
      the current buffer and the files listed so far. */
  function Spill(ps: seq<Pair>, i: nat, flushes: set<nat>, buffer: seq<Pair>, names: seq<nat>, d: Disk): (r: Stage)
    requires i <= |ps|
    decreases |ps| - i
  {
    if i == |ps| then
      if |buffer| > 0 then Flush(buffer, names, d) else Done(names, d)
    else
      var buffer' := buffer + [ps[i]];
      if i in flushes then
        match Flush(buffer', names, d)
        case Failed => Failed
        case Done(names', d') => Spill(ps, i + 1, flushes, [], names', d')
      else
        Spill(ps, i + 1, flushes, buffer', names, d)
  }

  /** `BuildSortedFiles`: every pair the input yields ends up in a file
      (`BuildSortedFilesSpec`). It succeeds whenever no name from the
      counter's current value on is broken. */
  function BuildSortedFiles(input: string, flushes: set<nat>, d: Disk): (r: Stage)
    ensures Healthy(d) ==> r.Done?
  {
    SpillSucceeds(ParseAll(input), 0, flushes, [], [], d);
    Spill(ParseAll(input), 0, flushes, [], [], d)
  }

  /** Step 1 flushes at most once per pair read, so it draws at most that
      many names, and it fails only when one of the names it draws is
      broken. */
  lemma BuildSortedFilesFails(input: string, flushes: set<nat>, d: Disk)
    ensures BuildSortedFiles(input, flushes, d).Failed? ==>
      exists n :: d.next <= n < d.next + |ParseAll(input)| && n in d.broken
  {
    SpillFails(ParseAll(input), 0, flushes, [], [], d);
  }

  /** Names the spill loop may still draw from `i` on: one per pair left,
      plus one for a buffer that already holds pairs. */
  function Budget(ps: seq<Pair>, i: nat, buffer: seq<Pair>): (r: nat)
    requires i <= |ps|
  {
    |ps| - i + (if |buffer| > 0 then 1 else 0)
  }

  /** The spill loop fails only on a broken name among the next `Budget`
      ones the counter hands out: a flush fails exactly on the counter's
      current value, and each flush uses up a pair or the final buffer. */
  lemma {:induction false} SpillFails(ps: seq<Pair>, i: nat, flushes: set<nat>, buffer: seq<Pair>, names: seq<nat>, d: Disk)
    requires i <= |ps|
    ensures Spill(ps, i, flushes, buffer, names, d).Failed? ==>
      exists n :: d.next <= n < d.next + Budget(ps, i, buffer) && n in d.broken
    decreases |ps| - i
  {
    if i == |ps| {
      if |buffer| > 0 && Flush(buffer, names, d).Failed? {
        assert d.next in d.broken;
      }
    } else {
      var buffer' := buffer + [ps[i]];
      if i in flushes {
        var f := Flush(buffer', names, d);
        if f.Failed? {
          assert d.next in d.broken;
        } else {
          SpillFails(ps, i + 1, flushes, [], f.names, f.disk);
          if Spill(ps, i + 1, flushes, [], f.names, f.disk).Failed? {
            var n :| f.disk.next <= n < f.disk.next + Budget(ps, i + 1, []) && n in f.disk.broken;
            assert d.next <= n < d.next + Budget(ps, i, buffer) && n in d.broken;
          }
        }
      } else {
        SpillFails(ps, i + 1, flushes, buffer', names, d);
      }
    }
  }

  /** One flush takes the next name, succeeds exactly when that name is not
      broken, leaves the files already listed alone, and appends a file
      holding the sorted buffer; so the listed content grows by exactly the
      buffer's pairs. */
  lemma FlushSpec(buffer: seq<Pair>, names: seq<nat>, d: Disk)
    requires Below(names, d.next) && AllValid(buffer)
    ensures Flush(buffer, names, d).Done? <==> d.next !in d.broken
    ensures var r := Flush(buffer, names, d);
      r.Done? ==>
        && r.names == names + [d.next]
        && r.disk.next == d.next + 1 && r.disk.broken == d.broken
        && Below(r.names, r.disk.next)
        && Streams(r.disk, r.names) == Streams(d, names) + [SortPairs(buffer)]
        && Content(r.disk, r.names) == Content(d, names) + multiset(buffer)
  {
    var r := Flush(buffer, names, d);
    if r.Done? {
      FlushStreams(buffer, names, d);
      FlushContent(buffer, names, d, r);
    }
  }

  lemma FlushStreams(buffer: seq<Pair>, names: seq<nat>, d: Disk)
    requires Below(names, d.next) && AllValid(buffer) && Flush(buffer, names, d).Done?
    ensures var r := Flush(buffer, names, d);
      && r.names == names + [d.next]
      && r.disk.next == d.next + 1 && r.disk.broken == d.broken
      && (forall i :: 0 <= i < |names| ==> Read(r.disk, names[i]) == Read(d, names[i]))
      && ParseAll(Read(r.disk, d.next)) == SortPairs(buffer)
  {
    var id := d.next;
    var w := WriteBuffer(buffer, id, d.(next := id + 1));
    assert Flush(buffer, names, d) == Done(names + [id], w.disk);
    assert forall i :: 0 <= i < |names| ==> names[i] != id;
  }

  lemma FlushContent(buffer: seq<Pair>, names: seq<nat>, d: Disk, r: Stage)
    requires Below(names, d.next) && r.Done?
    requires r.names == names + [d.next] && r.disk.next == d.next + 1
    requires forall i :: 0 <= i < |names| ==> Read(r.disk, names[i]) == Read(d, names[i])
    requires ParseAll(Read(r.disk, d.next)) == SortPairs(buffer)
    ensures Below(r.names, r.disk.next)
    ensures Streams(r.disk, r.names) == Streams(d, names) + [SortPairs(buffer)]
    ensures Content(r.disk, r.names) == Content(d, names) + multiset(buffer)
  {
    BelowSnoc(names, d.next, d.next + 1);
    ContentFrame(d, r.disk, names);
    StreamsSnoc(r.disk, names, d.next);
    ContentAppend(r.disk, names, [d.next]);
    ContentSingle(r.disk, d.next);
  }

  lemma MultisetStep(ps: seq<Pair>, i: nat)
    requires i < |ps|
    ensures multiset(ps[i..]) == multiset{ps[i]} + multiset(ps[i + 1..])
  {
    assert ps[i..] == [ps[i]] + ps[i + 1..];
  }

  /** Moving one pair from the unread input into the buffer keeps the sum
      of listed content, buffer and unread input. */
  lemma Regroup(c: multiset<Pair>, buffer: seq<Pair>, ps: seq<Pair>, i: nat)
    requires i < |ps|
    ensures c + multiset(buffer + [ps[i]]) + multiset(ps[i + 1..]) == c + multiset(buffer) + multiset(ps[i..])
  {
    MultisetStep(ps, i);
    var x := multiset{ps[i]};
    assert multiset(buffer + [ps[i]]) == multiset(buffer) + x;
    calc {
      c + multiset(buffer + [ps[i]]) + multiset(ps[i + 1..]);
      c + (multiset(buffer) + x) + multiset(ps[i + 1..]);
      c + multiset(buffer) + (x + multiset(ps[i + 1..]));
    }
  }

  /** The spill loop loses and invents nothing: the listed files end up
      holding what they held, plus the buffer, plus every pair still to be
      read. */
  lemma {:induction false} SpillKeepsAll(ps: seq<Pair>, i: nat, flushes: set<nat>, buffer: seq<Pair>, names: seq<nat>, d: Disk)
    requires i <= |ps| && AllValid(ps) && AllValid(buffer) && Below(names, d.next)
    ensures var r := Spill(ps, i, flushes, buffer, names, d);
      r.Done? ==>
        && Content(r.disk, r.names) == Content(d, names) + multiset(buffer) + multiset(ps[i..])
        && Below(r.names, r.disk.next) && d.next <= r.disk.next && r.disk.broken == d.broken
    decreases |ps| - i
  {
    if i == |ps| {
      assert multiset(ps[i..]) == multiset{};
      if |buffer| > 0 {
        FlushSpec(buffer, names, d);
      }
    } else if i in flushes {
      SpillKeepsAllFlush(ps, i, flushes, buffer, names, d);
    } else {
      Regroup(Content(d, names), buffer, ps, i);
      SpillKeepsAll(ps, i + 1, flushes, buffer + [ps[i]], names, d);
    }
  }

  lemma {:induction false} SpillKeepsAllFlush(ps: seq<Pair>, i: nat, flushes: set<nat>, buffer: seq<Pair>, names: seq<nat>, d: Disk)
    requires i < |ps| && i in flushes && AllValid(ps) && AllValid(buffer) && Below(names, d.next)
    ensures var r := Spill(ps, i, flushes, buffer, names, d);
      r.Done? ==>
        && Content(r.disk, r.names) == Content(d, names) + multiset(buffer) + multiset(ps[i..])
        && Below(r.names, r.disk.next) && d.next <= r.disk.next && r.disk.broken == d.broken
    decreases |ps| - i, 0
  {
    var buffer' := buffer + [ps[i]];
    FlushSpec(buffer', names, d);
    var f := Flush(buffer', names, d);
    if f.Done? {
      var empty: seq<Pair> := [];
      SpillKeepsAll(ps, i + 1, flushes, empty, f.names, f.disk);
      assert multiset(empty) == multiset{};
      Regroup(Content(d, names), buffer, ps, i);
    }
  }

  /** Sequences that are each sorted and non-empty. */
  predicate SortedRunsOf(ss: seq<seq<Pair>>) {
    forall s :: 0 <= s < |ss| ==> Sorted(ss[s]) && ss[s] != []
  }

  /** Every listed file holds a non-empty sorted run of pairs. */
  predicate SortedRuns(d: Disk, names: seq<nat>) {
    SortedRunsOf(Streams(d, names))
  }

  lemma SortedRunsAppend(ss: seq<seq<Pair>>, run: seq<Pair>)
    requires SortedRunsOf(ss) && Sorted(run) && run != []
    ensures SortedRunsOf(ss + [run])
  {
    assert forall s :: 0 <= s < |ss| ==> (ss + [run])[s] == ss[s];
  }

  /** Every file the spill loop writes is sorted and non-empty: a flush
      happens right after a pair is added, or at the end only when the
      buffer is not empty. */
  lemma {:induction false} SpillSorted(ps: seq<Pair>, i: nat, flushes: set<nat>, buffer: seq<Pair>, names: seq<nat>, d: Disk)
    requires i <= |ps| && AllValid(ps) && AllValid(buffer) && Below(names, d.next)
    requires SortedRuns(d, names)
    ensures var r := Spill(ps, i, flushes, buffer, names, d);
      r.Done? ==> SortedRuns(r.disk, r.names)
    decreases |ps| - i
  {
    if i == |ps| {
      if |buffer| > 0 {
        FlushSorted(buffer, names, d);
      }
    } else if i in flushes {
      SpillSortedFlush(ps, i, flushes, buffer, names, d);
    } else {
      SpillSorted(ps, i + 1, flushes, buffer + [ps[i]], names, d);
    }
  }

  lemma {:induction false} SpillSortedFlush(ps: seq<Pair>, i: nat, flushes: set<nat>, buffer: seq<Pair>, names: seq<nat>, d: Disk)
    requires i < |ps| && i in flushes && AllValid(ps) && AllValid(buffer) && Below(names, d.next)
    requires SortedRuns(d, names)
    ensures var r := Spill(ps, i, flushes, buffer, names, d);
      r.Done? ==> SortedRuns(r.disk, r.names)
    decreases |ps| - i, 0
  {
    var buffer' := buffer + [ps[i]];
    FlushSorted(buffer', names, d);
    var f := Flush(buffer', names, d);
    if f.Done? {
      BelowSnoc(names, d.next, d.next + 1);
      assert Spill(ps, i, flushes, buffer, names, d) == Spill(ps, i + 1, flushes, [], f.names, f.disk);
      SpillSorted(ps, i + 1, flushes, [], f.names, f.disk);
    }
  }

  /** A flush of a non-empty buffer adds one non-empty sorted file. */
  lemma FlushSorted(buffer: seq<Pair>, names: seq<nat>, d: Disk)
    requires Below(names, d.next) && AllValid(buffer) && |buffer| > 0
    requires SortedRuns(d, names)
    ensures var r := Flush(buffer, names, d); r.Done? ==> SortedRuns(r.disk, r.names)
  {
    FlushSpec(buffer, names, d);
    var r := Flush(buffer, names, d);
    if r.Done? {
      SortedRunsAppend(Streams(d, names), SortPairs(buffer));
    }
  }

  /** With no broken name ahead, the spill loop succeeds. */
  lemma SpillSucceeds(ps: seq<Pair>, i: nat, flushes: set<nat>, buffer: seq<Pair>, names: seq<nat>, d: Disk)
    requires i <= |ps|
    ensures Healthy(d) ==> Spill(ps, i, flushes, buffer, names, d).Done?
  {
    SpillFails(ps, i, flushes, buffer, names, d);
  }


  /** The list of files only grows at its end, and the name counter only
      moves forward. */
  lemma {:induction false} SpillGrows(ps: seq<Pair>, i: nat, flushes: set<nat>, buffer: seq<Pair>, names: seq<nat>, d: Disk)
    requires i <= |ps|
    ensures var r := Spill(ps, i, flushes, buffer, names, d);
      r.Done? ==>
        && |names| <= |r.names| && r.names[..|names|] == names
        && d.next <= r.disk.next && r.disk.broken == d.broken
    decreases |ps| - i
  {
    if i < |ps| {
      var buffer' := buffer + [ps[i]];
      if i in flushes {
        var f := Flush(buffer', names, d);
        if f.Done? {
          SpillGrows(ps, i + 1, flushes, [], f.names, f.disk);
          var r := Spill(ps, i + 1, flushes, [], f.names, f.disk);
          if r.Done? {
            assert r.names[..|names|] == r.names[..|f.names|][..|names|];
          }
        }
      } else {
        SpillGrows(ps, i + 1, flushes, buffer', names, d);
      }
    }
  }

  /** With the names listed so far issued from `lo` on, the spill loop
      lists only names issued from `lo` on: each new name is the counter's
      value at its flush, so the list stays strictly increasing. */
  lemma {:induction false} SpillIssued(ps: seq<Pair>, i: nat, flushes: set<nat>, buffer: seq<Pair>, names: seq<nat>, d: Disk, lo: nat)
    requires i <= |ps| && lo <= d.next && Issued(names, lo, d.next)
    ensures var r := Spill(ps, i, flushes, buffer, names, d);
      r.Done? ==> Issued(r.names, lo, r.disk.next)
    decreases |ps| - i
  {
    if i == |ps| {
      if |buffer| > 0 {
        IssuedSnoc(names, lo, d.next);
      }
    } else {
      var buffer' := buffer + [ps[i]];
      if i in flushes {
        var f := Flush(buffer', names, d);
        if f.Done? {
          IssuedSnoc(names, lo, d.next);
          SpillIssued(ps, i + 1, flushes, [], f.names, f.disk, lo);
        }
      } else {
        SpillIssued(ps, i + 1, flushes, buffer', names, d, lo);
      }
    }
  }

  /** Step 1's promise: the created files together hold exactly the pairs
      read, each file is a non-empty sorted run, all of them are fresh
      names (issued by the counter during this step, in increasing order,
      so none is listed twice), and only a broken name can make the step
      fail. An input with no pair creates no file. */
  lemma BuildSortedFilesSpec(input: string, flushes: set<nat>, d: Disk)
    ensures var r := BuildSortedFiles(input, flushes, d);
      r.Done? ==>
        && Content(r.disk, r.names) == multiset(ParseAll(input))
        && SortedRuns(r.disk, r.names)
        && Below(r.names, r.disk.next) && d.next <= r.disk.next && r.disk.broken == d.broken
        && Issued(r.names, d.next, r.disk.next)
    ensures Healthy(d) ==> BuildSortedFiles(input, flushes, d).Done?
    ensures ParseAll(input) == [] ==> BuildSortedFiles(input, flushes, d) == Done([], d)
  {
    var ps := ParseAll(input);
    SpillKeepsAll(ps, 0, flushes, [], [], d);
    SpillSorted(ps, 0, flushes, [], [], d);
    SpillIssued(ps, 0, flushes, [], [], d, d.next);
    assert ps[0..] == ps;
    assert Content(d, []) == multiset{};
    if Healthy(d) {
      SpillSucceeds(ps, 0, flushes, [], [], d);
    }
  }
}
