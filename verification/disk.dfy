/** The temporary files of the pipeline. A file is named by the number the
    name counter handed out for it, and holds text. Creating a file can
    fail; which creations fail is fixed in advance by the set `broken`, so
    a failure is an input of the model rather than an effect of it. */
module Disks {
  import opened Options
  import opened Pairs
  import opened Extraction
  import opened MergeIterator

  /** `files` maps names to contents, `next` is the value of the name
      counter, `broken` the names whose creation fails. */
  datatype Disk = Disk(files: map<nat, string>, next: nat, broken: set<nat>)

  /** Either a stage failed, or it succeeded with a list of file names and
      the disk it leaves behind. */
  datatype Stage = Failed | Done(names: seq<nat>, disk: Disk)

  /** Opening a file that does not exist gives a stream whose first read
      fails, which reads like an empty file. */
  function Read(d: Disk, id: nat): (r: string) {
    if id in d.files then d.files[id] else ""
  }

  /** `NextFile()`: hand out the counter's value and advance it. */
  function NextFile(d: Disk): (r: (nat, Disk)) {
    (d.next, d.(next := d.next + 1))
  }

  /** `std::ofstream fout(name)` followed by writing `text`: creation fails
      for a broken name; otherwise the file is created or truncated and
      then holds exactly `text`, and no other file changes. */
  function Write(d: Disk, id: nat, text: string): (r: Option<Disk>)
    ensures r.None? <==> id in d.broken
    ensures r.Some? ==> Read(r.value, id) == text
    ensures r.Some? ==> forall n :: n != id ==> Read(r.value, n) == Read(d, n)
    ensures r.Some? ==> r.value.next == d.next && r.value.broken == d.broken
  {
    if id in d.broken then None else Some(d.(files := d.files[id := text]))
  }

  /** The pairs one stream opened on each named file delivers. */
  function Streams(d: Disk, names: seq<nat>): (ss: seq<seq<Pair>>)
    ensures |ss| == |names|
    ensures forall i :: 0 <= i < |names| ==> ss[i] == ParseAll(Read(d, names[i]))
  {
    seq(|names|, i requires 0 <= i < |names| => ParseAll(Read(d, names[i])))
  }

  /** Every pair held by the named files, with multiplicity. */
  function Content(d: Disk, names: seq<nat>): (r: multiset<Pair>) {
    Pending(Streams(d, names))
  }

  /** Every named file was handed out before the counter reached `n`. */
  predicate Below(names: seq<nat>, n: nat) {
    forall i :: 0 <= i < |names| ==> names[i] < n
  }

  /** `names` were handed out one after another while the counter went
      from `lo` to `hi`: each lies in `[lo, hi)`, and they strictly
      increase, so no name is listed twice and none predates `lo`. */
  predicate Issued(names: seq<nat>, lo: nat, hi: nat) {
    && (forall i :: 0 <= i < |names| ==> lo <= names[i] < hi)
    && (forall i, j :: 0 <= i < j < |names| ==> names[i] < names[j])
  }

  /** Handing out the counter's value `n` extends a run of issued names. */
  lemma IssuedSnoc(names: seq<nat>, lo: nat, n: nat)
    requires Issued(names, lo, n) && lo <= n
    ensures Issued(names + [n], lo, n + 1)
  {
  }

  /** No name the counter has yet to hand out is broken: every creation
      from now on succeeds. */
  predicate Healthy(d: Disk) {
    forall b :: b in d.broken ==> b < d.next
  }

  lemma StreamsAppend(d: Disk, a: seq<nat>, b: seq<nat>)
    ensures Streams(d, a + b) == Streams(d, a) + Streams(d, b)
  {
  }

  lemma StreamsSnoc(d: Disk, names: seq<nat>, id: nat)
    ensures Streams(d, names + [id]) == Streams(d, names) + [ParseAll(Read(d, id))]
  {
  }

  /** The names at the back of a list handed out below `n` were too. */
  lemma BelowSuffix(a: seq<nat>, b: seq<nat>, n: nat)
    requires Below(a + b, n)
    ensures Below(b, n)
  {
    assert forall i :: 0 <= i < |b| ==> b[i] == (a + b)[|a| + i];
  }

  lemma BelowSnoc(names: seq<nat>, id: nat, n: nat)
    requires Below(names, id) && id < n
    ensures Below(names + [id], n)
  {
  }

  lemma ContentAppend(d: Disk, a: seq<nat>, b: seq<nat>)
    ensures Content(d, a + b) == Content(d, a) + Content(d, b)
  {
    StreamsAppend(d, a, b);
    PendingConcat(Streams(d, a), Streams(d, b));
  }

  lemma ContentSingle(d: Disk, n: nat)
    ensures Content(d, [n]) == multiset(ParseAll(Read(d, n)))
  {
    var ss := Streams(d, [n]);
    assert ss[1..] == [];
    assert Pending(ss) == multiset(ss[0]) + Pending([]);
  }

  /** Only the named files matter to their content. */
  lemma ContentFrame(d: Disk, d': Disk, names: seq<nat>)
    requires forall i :: 0 <= i < |names| ==> Read(d', names[i]) == Read(d, names[i])
    ensures Content(d', names) == Content(d, names)
    ensures Streams(d', names) == Streams(d, names)
  {
    assert Streams(d', names) == Streams(d, names);
  }

  /** Writing a file the list does not name leaves the list's streams as
      they were. */
  lemma WriteFrame(d: Disk, id: nat, text: string, names: seq<nat>)
    requires Below(names, id) && Write(d, id, text).Some?
    ensures Streams(Write(d, id, text).value, names) == Streams(d, names)
    ensures Content(Write(d, id, text).value, names) == Content(d, names)
  {
    ContentFrame(d, Write(d, id, text).value, names);
  }
}
