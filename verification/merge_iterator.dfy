/** `SortedMergeIterator`: a k-way merge over sorted files. Each open stream
    is modelled by the pairs it still has to deliver (the text of a file
    read pair by pair with `operator>>` delivers exactly `ParseAll` of that
    text, one pair per successful read); the priority queue is
    modelled as a bag of heap nodes (a sequence whose order carries no
    meaning) from which the maximum under `HeapNode::operator<` is taken.
    The iterator also records the pairs it has emitted so far, which lets
    the invariants speak about the whole run. */
module MergeIterator {
  import opened Options
  import opened Pairs
  import opened Extraction

  /** `HeapNode`: a pair and the index of the stream it came from. */
  datatype Node = Node(pair: Pair, stream: nat)

  /** `HeapNode::operator<` reverses the pair order, so the largest node of
      the max-heap `std::priority_queue` carries the smallest pair. */
  predicate NodeLess(a: Node, b: Node) {
    Less(b.pair, a.pair)
  }

  datatype Iter = Iter(streams: seq<seq<Pair>>, heap: seq<Node>, emitted: seq<Pair>)

  /** Every heap node names an existing stream (`streams_.at` never throws). */
  predicate WellFormed(it: Iter) {
    forall i :: 0 <= i < |it.heap| ==> it.heap[i].stream < |it.streams|
  }

  predicate HasNode(heap: seq<Node>, s: nat) {
    exists i :: 0 <= i < |heap| && heap[i].stream == s
  }

  predicate DistinctStreams(heap: seq<Node>) {
    forall i, j :: 0 <= i < j < |heap| ==> heap[i].stream != heap[j].stream
  }

  /** The pairs held by a bag of heap nodes, with multiplicity. */
  function HeapPairs(heap: seq<Node>): (r: multiset<Pair>) {
    if |heap| == 0 then multiset{} else multiset{heap[0].pair} + HeapPairs(heap[1..])
  }

  /** The pairs the given streams have yet to deliver, with multiplicity. */
  function Pending(streams: seq<seq<Pair>>): (r: multiset<Pair>)
  {
    if |streams| == 0 then multiset{} else multiset(streams[0]) + Pending(streams[1..])
  }

  /** How many pairs the given streams have yet to deliver. */
  function Remaining(streams: seq<seq<Pair>>): (r: nat)
  {
    if |streams| == 0 then 0 else |streams[0]| + Remaining(streams[1..])
  }

  /** How many pairs the iterator can still produce: the heap plus the
      unread part of every stream. */
  function Count(it: Iter): (r: nat) {
    |it.heap| + Remaining(it.streams)
  }

  predicate AllSorted(files: seq<seq<Pair>>) {
    forall s :: 0 <= s < |files| ==> Sorted(files[s])
  }

  /** The heap discipline: at most one node per stream, and a stream
      without a node has nothing left to read. */
  predicate Tidy(it: Iter) {
    && WellFormed(it)
    && DistinctStreams(it.heap)
    && (forall s :: 0 <= s < |it.streams| && !HasNode(it.heap, s) ==> it.streams[s] == [])
  }

  /** The invariant of an iterator opened on the file contents `origin`:
      the heap discipline, and emitted + heap + unread = everything the
      files held. */
  predicate Inv(it: Iter, origin: seq<seq<Pair>>) {
    && Tidy(it)
    && |it.streams| == |origin|
    && multiset(it.emitted) + HeapPairs(it.heap) + Pending(it.streams) == Pending(origin)
  }

  /** The ordering invariant, maintained when every input file is sorted:
      the unread part of each stream is sorted and starts no lower than that
      stream's heap node, and nothing emitted exceeds anything in the heap. */
  predicate Ordered(it: Iter)
    requires WellFormed(it)
  {
    && (forall s :: 0 <= s < |it.streams| ==> Sorted(it.streams[s]))
    && (forall i :: 0 <= i < |it.heap| ==> Sorted([it.heap[i].pair] + it.streams[it.heap[i].stream]))
    && Sorted(it.emitted)
    && (forall e, i :: 0 <= e < |it.emitted| && 0 <= i < |it.heap| ==> Le(it.emitted[e], it.heap[i].pair))
  }

  lemma {:induction false} TopStep(h: seq<Node>, k: nat)
    requires 1 < |h| && k < |h| - 1
    requires forall j :: 0 <= j < |h| - 1 ==> !NodeLess(h[k], h[j])
    requires NodeLess(h[k], h[|h| - 1])
    ensures forall j :: 0 <= j < |h| ==> !NodeLess(h[|h| - 1], h[j])
  {
    forall j | 0 <= j < |h|
      ensures !NodeLess(h[|h| - 1], h[j])
    {
      if j == |h| - 1 {
        LessIrreflexive(h[j].pair);
      } else if Less(h[j].pair, h[|h| - 1].pair) {
        LessTransitive(h[j].pair, h[|h| - 1].pair, h[k].pair);
      }
    }
  }

  /** `min_heap_.top()`: a node no other node is greater than under
      `HeapNode::operator<`. Among equal pairs the first one is taken; any
      choice yields the same pair. */
  function TopIndex(h: seq<Node>): (k: nat)
    requires |h| > 0
    ensures k < |h|
    ensures forall j :: 0 <= j < |h| ==> !NodeLess(h[k], h[j])
  {
    if |h| == 1 then
      LessIrreflexive(h[0].pair);
      0
    else
      var k := TopIndex(h[..|h| - 1]);
      assert forall j :: 0 <= j < |h| - 1 ==> h[..|h| - 1][j] == h[j];
      if NodeLess(h[k], h[|h| - 1]) then
        TopStep(h, k);
        |h| - 1
      else
        k
  }

  /** The heap after `pop()` of the node at index `k`. */
  function RemoveAt(h: seq<Node>, k: nat): (r: seq<Node>)
    requires k < |h|
    ensures |r| + 1 == |h|
    ensures forall i :: 0 <= i < |r| ==> r[i] == (if i < k then h[i] else h[i + 1])
  {
    h[..k] + h[k + 1..]
  }

  /** Removing one node takes its pair out of the heap's contents. */
  lemma {:induction false} HeapPairsRemove(h: seq<Node>, k: nat)
    requires k < |h|
    ensures HeapPairs(h[..k] + h[k + 1..]) + multiset{h[k].pair} == HeapPairs(h)
    decreases |h|
  {
    if k == 0 {
      assert h[..k] + h[k + 1..] == h[1..];
    } else {
      var t := h[1..][..k - 1] + h[1..][k..];
      HeapPairsRemove(h[1..], k - 1);
      assert h[..k] + h[k + 1..] == [h[0]] + t;
      assert ([h[0]] + t)[1..] == t;
    }
  }

  lemma {:induction false} HeapPairsAppend(h: seq<Node>, n: Node)
    ensures HeapPairs(h + [n]) == HeapPairs(h) + multiset{n.pair}
    decreases |h|
  {
    if |h| > 0 {
      HeapPairsAppend(h[1..], n);
      assert (h + [n])[1..] == h[1..] + [n];
    }
  }

  /** Replacing what one stream holds changes the pending pairs by what
      that stream holds before and after. */
  lemma {:induction false} PendingUpdate(ss: seq<seq<Pair>>, k: nat, t: seq<Pair>)
    requires k < |ss|
    ensures Pending(ss[k := t]) + multiset(ss[k]) == Pending(ss) + multiset(t)
    decreases |ss|
  {
    if k == 0 {
      assert ss[k := t][1..] == ss[1..];
    } else {
      var ss' := ss[k := t];
      assert ss'[1..] == ss[1..][k - 1 := t];
      assert ss'[0] == ss[0] && ss[1..][k - 1] == ss[k];
      PendingUpdate(ss[1..], k - 1, t);
      calc {
        Pending(ss') + multiset(ss[k]);
        multiset(ss[0]) + Pending(ss[1..][k - 1 := t]) + multiset(ss[k]);
        multiset(ss[0]) + (Pending(ss[1..][k - 1 := t]) + multiset(ss[1..][k - 1]));
        multiset(ss[0]) + (Pending(ss[1..]) + multiset(t));
        Pending(ss) + multiset(t);
      }
    }
  }

  /** Reading the first pair of a stream takes exactly that pair out of the
      pending pairs. */
  lemma PendingPop(ss: seq<seq<Pair>>, k: nat)
    requires k < |ss| && |ss[k]| > 0
    ensures Pending(ss[k := ss[k][1..]]) + multiset{ss[k][0]} == Pending(ss)
  {
    var st := ss[k];
    var A := Pending(ss[k := st[1..]]);
    PendingUpdate(ss, k, st[1..]);
    assert st == [st[0]] + st[1..];
    assert multiset(st) == multiset{st[0]} + multiset(st[1..]);
    forall z
      ensures (A + multiset{st[0]})[z] == Pending(ss)[z]
    {
      assert (A + multiset(st))[z] == (Pending(ss) + multiset(st[1..]))[z];
    }
  }

  lemma {:induction false} RemainingUpdate(ss: seq<seq<Pair>>, k: nat, t: seq<Pair>)
    requires k < |ss|
    ensures Remaining(ss[k := t]) + |ss[k]| == Remaining(ss) + |t|
    decreases |ss|
  {
    var ss' := ss[k := t];
    if k == 0 {
      assert ss'[1..] == ss[1..];
    } else {
      assert ss'[1..] == ss[1..][k - 1 := t];
      assert ss'[0] == ss[0] && ss[1..][k - 1] == ss[k];
      RemainingUpdate(ss[1..], k - 1, t);
    }
  }

  /** The count of pending pairs is the number of pairs left in the streams. */
  lemma {:induction false} PendingSize(ss: seq<seq<Pair>>)
    ensures |Pending(ss)| == Remaining(ss)
    decreases |ss|
  {
    if |ss| > 0 {
      PendingSize(ss[1..]);
    }
  }

  lemma {:induction false} PendingNone(ss: seq<seq<Pair>>)
    requires forall s :: 0 <= s < |ss| ==> ss[s] == []
    ensures Pending(ss) == multiset{}
    ensures Remaining(ss) == 0
    decreases |ss|
  {
    if |ss| > 0 {
      PendingNone(ss[1..]);
    }
  }

  function HasNext(it: Iter): (r: bool) {
    |it.heap| > 0
  }

  /** `Next()`: pop the top node, refill from that node's stream only, and
      return the popped pair. The pair returned is no greater than any pair
      in the heap, and one fewer pair remains to be produced. */
  function Next(it: Iter): (r: (Pair, Iter))
    requires WellFormed(it) && HasNext(it)
    ensures WellFormed(r.1)
    ensures r.1.emitted == it.emitted + [r.0]
    ensures Count(r.1) + 1 == Count(it)
  {
    var k := TopIndex(it.heap);
    var node := it.heap[k];
    var heap' := RemoveAt(it.heap, k);
    var st := it.streams[node.stream];
    if |st| == 0 then
      // `stream >> pair` fails: the stream is exhausted.
      (node.pair, Iter(it.streams, heap', it.emitted + [node.pair]))
    else
      // `stream >> pair` delivers the stream's next pair.
      var streams' := it.streams[node.stream := st[1..]];
      RemainingUpdate(it.streams, node.stream, st[1..]);
      (node.pair, Iter(streams', heap' + [Node(st[0], node.stream)], it.emitted + [node.pair]))
  }

  /** The pair `Next` returns is no greater than any pair in the heap. */
  lemma NextIsLeast(it: Iter)
    requires WellFormed(it) && HasNext(it)
    ensures forall j :: 0 <= j < |it.heap| ==> Le(Next(it).0, it.heap[j].pair)
  {
    NextShape(it);
  }

  lemma HasNodeAppend(h: seq<Node>, n: Node, s: nat)
    ensures HasNode(h + [n], s) <==> HasNode(h, s) || n.stream == s
  {
    if HasNode(h, s) {
      var i :| 0 <= i < |h| && h[i].stream == s;
      assert (h + [n])[i].stream == s;
    }
    if n.stream == s {
      assert (h + [n])[|h|].stream == s;
    }
    if HasNode(h + [n], s) && n.stream != s {
      var i :| 0 <= i < |h| + 1 && (h + [n])[i].stream == s;
      assert h[i].stream == s;
    }
  }

  lemma DistinctAppend(h: seq<Node>, n: Node)
    requires DistinctStreams(h) && !HasNode(h, n.stream)
    ensures DistinctStreams(h + [n])
  {
    var h' := h + [n];
    forall i, j | 0 <= i < j < |h'|
      ensures h'[i].stream != h'[j].stream
    {
      if j == |h| {
        assert h'[i] == h[i];
      }
    }
  }

  /** Popping one node leaves every other stream's node in place and, with
      one node per stream, leaves none for the popped node's stream. */
  lemma HasNodeRemove(h: seq<Node>, k: nat, s: nat)
    requires k < |h| && DistinctStreams(h)
    ensures HasNode(RemoveAt(h, k), s) <==> HasNode(h, s) && s != h[k].stream
    ensures DistinctStreams(RemoveAt(h, k))
  {
    var r := RemoveAt(h, k);
    if HasNode(h, s) && s != h[k].stream {
      var i :| 0 <= i < |h| && h[i].stream == s;
      assert r[if i < k then i else i - 1].stream == s;
    }
    if HasNode(r, s) {
      var i :| 0 <= i < |r| && r[i].stream == s;
      var j := if i < k then i else i + 1;
      assert h[j].stream == s && j != k;
    }
    forall i, j | 0 <= i < j < |r|
      ensures r[i].stream != r[j].stream
    {
      var i' := if i < k then i else i + 1;
      var j' := if j < k then j else j + 1;
      assert r[i] == h[i'] && r[j] == h[j'] && i' < j';
    }
  }

  /** `Next` keeps the heap discipline: it reads only from the popped
      node's stream, so the heap keeps at most one node per stream. */
  lemma NextKeepsTidy(it: Iter)
    requires Tidy(it) && HasNext(it)
    ensures Tidy(Next(it).1)
  {
    var k := TopIndex(it.heap);
    var id := it.heap[k].stream;
    var heap' := RemoveAt(it.heap, k);
    var st := it.streams[id];
    var it' := Next(it).1;
    forall s | 0 <= s < |it.streams|
      ensures HasNode(heap', s) <==> HasNode(it.heap, s) && s != id
    {
      HasNodeRemove(it.heap, k, s);
    }
    HasNodeRemove(it.heap, k, id);
    if |st| > 0 {
      var n := Node(st[0], id);
      assert it'.heap == heap' + [n];
      DistinctAppend(heap', n);
      forall s | 0 <= s < |it'.streams|
        ensures HasNode(it'.heap, s) <==> HasNode(heap', s) || s == id
      {
        HasNodeAppend(heap', n, s);
      }
    }
  }

  /** What `Next` does to each component, spelled out. */
  lemma NextShape(it: Iter)
    requires WellFormed(it) && HasNext(it)
    ensures var k := TopIndex(it.heap);
      var n := it.heap[k];
      var st := it.streams[n.stream];
      var it' := Next(it).1;
      && Next(it).0 == n.pair
      && it'.emitted == it.emitted + [n.pair]
      && (|st| == 0 ==> it'.streams == it.streams && it'.heap == RemoveAt(it.heap, k))
      && (|st| > 0 ==> it'.streams == it.streams[n.stream := st[1..]]
                       && it'.heap == RemoveAt(it.heap, k) + [Node(st[0], n.stream)])
  {
  }

  /** The bookkeeping of one step on multisets: moving the popped pair to
      the output and the stream's next pair into the heap conserves the
      total. */
  lemma ConserveStep(E: multiset<Pair>, H: multiset<Pair>, H': multiset<Pair>, P: multiset<Pair>,
                     P': multiset<Pair>, m: Pair, x: Pair)
    requires H' + multiset{m} == H
    requires P' + multiset{x} == P
    ensures (E + multiset{m}) + (H' + multiset{x}) + P' == E + H + P
  {
  }

  lemma ConserveLast(E: multiset<Pair>, H: multiset<Pair>, H': multiset<Pair>, P: multiset<Pair>, m: Pair)
    requires H' + multiset{m} == H
    ensures (E + multiset{m}) + H' + P == E + H + P
  {
  }

  /** `Next` keeps the full invariant: no pair is lost or duplicated. */
  lemma NextKeepsInv(it: Iter, origin: seq<seq<Pair>>)
    requires Inv(it, origin) && HasNext(it)
    ensures Inv(Next(it).1, origin)
  {
    NextKeepsTidy(it);
    NextShape(it);
    var k := TopIndex(it.heap);
    var m := it.heap[k].pair;
    var id := it.heap[k].stream;
    var heap' := RemoveAt(it.heap, k);
    var it' := Next(it).1;
    HeapPairsRemove(it.heap, k);
    assert multiset(it'.emitted) == multiset(it.emitted) + multiset{m};
    var st := it.streams[id];
    if |st| > 0 {
      PendingPop(it.streams, id);
      HeapPairsAppend(heap', Node(st[0], id));
      ConserveStep(multiset(it.emitted), HeapPairs(it.heap), HeapPairs(heap'),
                   Pending(it.streams), Pending(it'.streams), m, st[0]);
      assert multiset(it'.emitted) + HeapPairs(it'.heap) + Pending(it'.streams) == Pending(origin);
    } else {
      ConserveLast(multiset(it.emitted), HeapPairs(it.heap), HeapPairs(heap'), Pending(it.streams), m);
      assert multiset(it'.emitted) + HeapPairs(it'.heap) + Pending(it'.streams) == Pending(origin);
    }
    assert Tidy(it');
    assert |it'.streams| == |origin|;
  }

  /** The unread part of the popped node's stream is still sorted and no
      lower than the popped pair. */
  lemma PopRun(m: Pair, st: seq<Pair>)
    requires Sorted([m] + st) && |st| > 0
    ensures Sorted(st) && Sorted(st[1..]) && Le(m, st[0])
  {
    var run := [m] + st;
    assert run[0] == m && run[1] == st[0];
    assert st == run[1..] && st[1..] == run[2..];
  }

  lemma NextStreamsSorted(it: Iter)
    requires Tidy(it) && Ordered(it) && HasNext(it)
    ensures forall s :: 0 <= s < |Next(it).1.streams| ==> Sorted(Next(it).1.streams[s])
  {
    NextShape(it);
    var k := TopIndex(it.heap);
    var st := it.streams[it.heap[k].stream];
    if |st| > 0 {
      PopRun(it.heap[k].pair, st);
    }
  }

  lemma NextRunsSorted(it: Iter)
    requires Tidy(it) && Ordered(it) && HasNext(it)
    ensures var it' := Next(it).1;
      forall i :: 0 <= i < |it'.heap| ==> Sorted([it'.heap[i].pair] + it'.streams[it'.heap[i].stream])
  {
    NextShape(it);
    var k := TopIndex(it.heap);
    var id := it.heap[k].stream;
    var heap' := RemoveAt(it.heap, k);
    OthersSorted(it, k);
    var st := it.streams[id];
    if |st| > 0 {
      RefillSorted(it, k, Next(it).1);
    }
  }

  /** The nodes left after removing the top belong to other streams, whose
      runs are untouched. */
  lemma OthersSorted(it: Iter, k: nat)
    requires Tidy(it) && Ordered(it) && k < |it.heap|
    ensures var heap' := RemoveAt(it.heap, k);
      forall i :: 0 <= i < |heap'| ==>
        heap'[i].stream != it.heap[k].stream && Sorted([heap'[i].pair] + it.streams[heap'[i].stream])
  {
    var heap' := RemoveAt(it.heap, k);
    forall i | 0 <= i < |heap'|
      ensures heap'[i].stream != it.heap[k].stream && Sorted([heap'[i].pair] + it.streams[heap'[i].stream])
    {
      var j := if i < k then i else i + 1;
      assert heap'[i] == it.heap[j] && j != k;
    }
  }

  /** The refill node starts the rest of its stream's run. */
  lemma RefillSorted(it: Iter, k: nat, it': Iter)
    requires Tidy(it) && Ordered(it) && k < |it.heap|
    requires var id := it.heap[k].stream; var st := it.streams[id];
      && |st| > 0
      && it'.streams == it.streams[id := st[1..]]
      && it'.heap == RemoveAt(it.heap, k) + [Node(st[0], id)]
    requires var heap' := RemoveAt(it.heap, k);
      forall i :: 0 <= i < |heap'| ==>
        heap'[i].stream != it.heap[k].stream && Sorted([heap'[i].pair] + it.streams[heap'[i].stream])
    ensures forall i :: 0 <= i < |it'.heap| ==> Sorted([it'.heap[i].pair] + it'.streams[it'.heap[i].stream])
  {
    var id := it.heap[k].stream;
    var st := it.streams[id];
    var heap' := RemoveAt(it.heap, k);
    PopRun(it.heap[k].pair, st);
    assert it'.heap[|heap'|] == Node(st[0], id);
    assert [st[0]] + st[1..] == st;
    forall i | 0 <= i < |it'.heap|
      ensures Sorted([it'.heap[i].pair] + it'.streams[it'.heap[i].stream])
    {
      if i < |heap'| {
        assert it'.heap[i] == heap'[i];
      }
    }
  }

  lemma NextEmittedBelow(it: Iter)
    requires Tidy(it) && Ordered(it) && HasNext(it)
    ensures var it' := Next(it).1;
      && Sorted(it'.emitted)
      && forall e, i :: 0 <= e < |it'.emitted| && 0 <= i < |it'.heap| ==> Le(it'.emitted[e], it'.heap[i].pair)
  {
    NextShape(it);
    var k := TopIndex(it.heap);
    var m := it.heap[k].pair;
    var id := it.heap[k].stream;
    var heap' := RemoveAt(it.heap, k);
    var st := it.streams[id];
    var it' := Next(it).1;
    SortedAppend(it.emitted, m);
    forall i | 0 <= i < |heap'|
      ensures Le(m, heap'[i].pair) && forall e :: 0 <= e < |it.emitted| ==> Le(it.emitted[e], heap'[i].pair)
    {
      var j := if i < k then i else i + 1;
      assert heap'[i] == it.heap[j];
    }
    var below := forall e :: 0 <= e < |it'.emitted| ==> Le(it'.emitted[e], m);
    assert below by {
      LeIsLessOrEqual(m, m);
      forall e | 0 <= e < |it'.emitted|
        ensures Le(it'.emitted[e], m)
      {
        if e < |it.emitted| {
          assert it'.emitted[e] == it.emitted[e];
        }
      }
    }
    forall e, i | 0 <= e < |it'.emitted| && 0 <= i < |it'.heap|
      ensures Le(it'.emitted[e], it'.heap[i].pair)
    {
      if i < |heap'| {
        assert it'.heap[i] == heap'[i];
        LeTransitive(it'.emitted[e], m, heap'[i].pair);
      } else {
        PopRun(m, st);
        assert it'.heap[i].pair == st[0];
        LeTransitive(it'.emitted[e], m, st[0]);
      }
    }
  }

  /** `Next` keeps the ordering invariant, so emitted pairs never decrease. */
  lemma NextKeepsOrdered(it: Iter)
    requires Tidy(it) && Ordered(it) && HasNext(it)
    ensures Ordered(Next(it).1)
  {
    NextStreamsSorted(it);
    NextRunsSorted(it);
    NextEmittedBelow(it);
  }

  /** Drains the iterator: the `while (HasNext()) Next()` loop, collecting
      every pair produced. It yields exactly as many pairs as remain. */
  function Drain(it: Iter): (r: seq<Pair>)
    requires WellFormed(it)
    decreases Count(it)
  {
    if !HasNext(it) then
      []
    else
      var (p, it') := Next(it);
      [p] + Drain(it')
  }

  /** `Next` is called exactly as many times as there are pairs left. */
  lemma {:induction false} DrainCount(it: Iter)
    requires Tidy(it)
    ensures |Drain(it)| == Count(it)
    decreases Count(it)
  {
    if !HasNext(it) {
      PendingNone(it.streams);
    } else {
      NextKeepsTidy(it);
      DrainCount(Next(it).1);
    }
  }

  /** One step of the drain moves the produced pair from the output still
      to come onto the record of what was emitted. */
  lemma DrainStep(it: Iter)
    requires Tidy(it) && HasNext(it)
    ensures Tidy(Next(it).1)
    ensures it.emitted + Drain(it) == Next(it).1.emitted + Drain(Next(it).1)
  {
    NextKeepsTidy(it);
  }

  /** An iterator with an empty heap has nothing left anywhere. */
  lemma DrainDone(it: Iter, origin: seq<seq<Pair>>)
    requires Inv(it, origin) && !HasNext(it)
    ensures multiset(it.emitted + Drain(it)) == Pending(origin)
  {
    PendingNone(it.streams);
    assert it.emitted + Drain(it) == it.emitted;
  }

  /** Draining emits every pair the files held, each exactly once. */
  lemma {:induction false} DrainKeepsAll(it: Iter, origin: seq<seq<Pair>>)
    requires Inv(it, origin)
    ensures multiset(it.emitted + Drain(it)) == Pending(origin)
    decreases Count(it)
  {
    if !HasNext(it) {
      DrainDone(it, origin);
    } else {
      NextKeepsInv(it, origin);
      DrainKeepsAll(Next(it).1, origin);
      DrainStep(it);
    }
  }

  /** Draining an ordered iterator emits a sorted sequence. */
  lemma {:induction false} DrainSorted(it: Iter, origin: seq<seq<Pair>>)
    requires Inv(it, origin) && Ordered(it)
    ensures Sorted(it.emitted + Drain(it))
    decreases Count(it)
  {
    if HasNext(it) {
      NextKeepsInv(it, origin);
      NextKeepsOrdered(it);
      DrainSorted(Next(it).1, origin);
      DrainStep(it);
    } else {
      assert it.emitted + Drain(it) == it.emitted;
    }
  }

  /** The seeding loop's invariant after streams `0 .. i-1`, part one: the
      streams from `i` on are untouched and the heap holds at most one node
      for each stream already visited. */
  predicate SeedShape(files: seq<seq<Pair>>, streams: seq<seq<Pair>>, heap: seq<Node>, i: nat) {
    && i <= |streams| == |files|
    && (forall s :: i <= s < |streams| ==> streams[s] == files[s])
    && (forall j :: 0 <= j < |heap| ==> heap[j].stream < i)
    && DistinctStreams(heap)
  }

  /** Part two: a visited stream without a node was empty from the start,
      and a visited stream with a node gave it exactly its first pair. */
  predicate SeedHeads(files: seq<seq<Pair>>, streams: seq<seq<Pair>>, heap: seq<Node>, i: nat)
    requires |streams| == |files|
    requires forall j :: 0 <= j < |heap| ==> heap[j].stream < |files|
  {
    && (forall s :: 0 <= s < i <= |files| && !HasNode(heap, s) ==> files[s] == [] && streams[s] == [])
    && (forall j :: 0 <= j < |heap| ==> files[heap[j].stream] == [heap[j].pair] + streams[heap[j].stream])
  }

  predicate SeedInv(files: seq<seq<Pair>>, streams: seq<seq<Pair>>, heap: seq<Node>, i: nat) {
    && SeedShape(files, streams, heap, i)
    && SeedHeads(files, streams, heap, i)
    && HeapPairs(heap) + Pending(streams) == Pending(files)
  }

  /** A stream with nothing to read gives no node. */
  lemma SeedSkip(files: seq<seq<Pair>>, streams: seq<seq<Pair>>, heap: seq<Node>, i: nat)
    requires SeedInv(files, streams, heap, i) && i < |streams| && streams[i] == []
    ensures SeedInv(files, streams, heap, i + 1)
  {
    forall s | 0 <= s < i + 1 && !HasNode(heap, s)
      ensures files[s] == [] && streams[s] == []
    {
    }
  }

  lemma SeedPushShape(files: seq<seq<Pair>>, streams: seq<seq<Pair>>, heap: seq<Node>, i: nat)
    requires SeedShape(files, streams, heap, i) && i < |streams| && streams[i] != []
    ensures var st := streams[i];
      SeedShape(files, streams[i := st[1..]], heap + [Node(st[0], i)], i + 1)
  {
    var n := Node(streams[i][0], i);
    assert !HasNode(heap, i);
    DistinctAppend(heap, n);
  }

  lemma SeedPushHeads(files: seq<seq<Pair>>, streams: seq<seq<Pair>>, heap: seq<Node>, i: nat)
    requires SeedShape(files, streams, heap, i) && SeedHeads(files, streams, heap, i)
    requires i < |streams| && streams[i] != []
    ensures var st := streams[i];
      SeedHeads(files, streams[i := st[1..]], heap + [Node(st[0], i)], i + 1)
  {
    var st := streams[i];
    var n := Node(st[0], i);
    var streams' := streams[i := st[1..]];
    var heap' := heap + [n];
    forall s | 0 <= s < i + 1 && !HasNode(heap', s)
      ensures files[s] == [] && streams'[s] == []
    {
      HasNodeAppend(heap, n, s);
    }
    forall j | 0 <= j < |heap'|
      ensures files[heap'[j].stream] == [heap'[j].pair] + streams'[heap'[j].stream]
    {
      if j < |heap| {
        assert heap'[j] == heap[j];
      } else {
        assert [st[0]] + st[1..] == st;
      }
    }
  }

  /** A stream with a first pair gives one node holding it. */
  lemma SeedPush(files: seq<seq<Pair>>, streams: seq<seq<Pair>>, heap: seq<Node>, i: nat)
    requires SeedInv(files, streams, heap, i) && i < |streams| && streams[i] != []
    ensures var st := streams[i];
      SeedInv(files, streams[i := st[1..]], heap + [Node(st[0], i)], i + 1)
  {
    var st := streams[i];
    SeedPushShape(files, streams, heap, i);
    SeedPushHeads(files, streams, heap, i);
    HeapPairsAppend(heap, Node(st[0], i));
    PendingPop(streams, i);
  }

  /** The seeding loop of the constructor, from stream `i` on: read one pair
      from each stream that has one and push it with the stream's index. */
  function Seed(streams: seq<seq<Pair>>, heap: seq<Node>, i: nat): (it: Iter)
    requires i <= |streams|
    requires forall j :: 0 <= j < |heap| ==> heap[j].stream < i
    ensures |it.streams| == |streams| && WellFormed(it) && it.emitted == []
    decreases |streams| - i
  {
    if i == |streams| then
      Iter(streams, heap, [])
    else if streams[i] == [] then
      Seed(streams, heap, i + 1)
    else
      var st := streams[i];
      Seed(streams[i := st[1..]], heap + [Node(st[0], i)], i + 1)
  }

  /** The seeding loop establishes its invariant for all streams. */
  lemma {:induction false} SeedSpec(files: seq<seq<Pair>>, streams: seq<seq<Pair>>, heap: seq<Node>, i: nat)
    requires SeedInv(files, streams, heap, i)
    ensures var it := Seed(streams, heap, i); SeedInv(files, it.streams, it.heap, |files|)
    decreases |streams| - i
  {
    if i < |streams| {
      if streams[i] == [] {
        SeedSkip(files, streams, heap, i);
        SeedSpec(files, streams, heap, i + 1);
      } else {
        var st := streams[i];
        SeedPush(files, streams, heap, i);
        SeedSpec(files, streams[i := st[1..]], heap + [Node(st[0], i)], i + 1);
      }
    }
  }

  /** The constructor: open every file and seed the heap with the first pair
      of each non-empty one, tagged with the file's index. */
  function Open(files: seq<seq<Pair>>): (it: Iter)
    ensures |it.streams| == |files| && WellFormed(it) && it.emitted == []
  {
    Seed(files, [], 0)
  }

  /** After construction the heap holds one node for each file that has a
      pair, carrying that file's first pair, and the stream keeps the rest;
      nothing has been emitted and nothing is lost. */
  lemma OpenSpec(files: seq<seq<Pair>>)
    ensures Inv(Open(files), files)
    ensures Open(files).emitted == []
    ensures forall s :: 0 <= s < |files| ==> (HasNode(Open(files).heap, s) <==> files[s] != [])
    ensures var it := Open(files);
      forall j :: 0 <= j < |it.heap| ==> files[it.heap[j].stream] == [it.heap[j].pair] + it.streams[it.heap[j].stream]
  {
    SeedSpec(files, files, [], 0);
    var it := Open(files);
    forall s | 0 <= s < |files| && HasNode(it.heap, s)
      ensures files[s] != []
    {
      var j :| 0 <= j < |it.heap| && it.heap[j].stream == s;
    }
  }

  /** An opened iterator keeps the ordering invariant when the files are
      sorted. */
  lemma OpenOrdered(files: seq<seq<Pair>>)
    requires AllSorted(files)
    ensures Ordered(Open(files))
  {
    OpenSpec(files);
    var it := Open(files);
    forall s | 0 <= s < |it.streams|
      ensures Sorted(it.streams[s])
    {
      if HasNode(it.heap, s) {
        var j :| 0 <= j < |it.heap| && it.heap[j].stream == s;
        assert it.streams[s] == files[s][1..];
      }
    }
  }

  /** With no files, or only files holding no pair, nothing is produced. */
  lemma OpenEmpty(files: seq<seq<Pair>>)
    ensures !HasNext(Open(files)) <==> forall s :: 0 <= s < |files| ==> files[s] == []
  {
    OpenSpec(files);
    var it := Open(files);
    if HasNext(it) {
      assert HasNode(it.heap, it.heap[0].stream);
    }
  }

  /** Everything one iterator produces over the given files. */
  function MergeAll(files: seq<seq<Pair>>): (r: seq<Pair>) {
    Drain(Open(files))
  }

  /** The merge emits every pair of every file exactly once, as many pairs
      as the files hold, and in non-decreasing order when every file is
      sorted. */
  lemma MergeAllSpec(files: seq<seq<Pair>>)
    ensures multiset(MergeAll(files)) == Pending(files)
    ensures |MergeAll(files)| == Remaining(files)
    ensures AllSorted(files) ==> Sorted(MergeAll(files))
  {
    MergeAllKeeps(files);
    if AllSorted(files) {
      MergeAllSorted(files);
    }
  }

  lemma MergeAllKeeps(files: seq<seq<Pair>>)
    ensures multiset(MergeAll(files)) == Pending(files)
    ensures |MergeAll(files)| == Remaining(files)
  {
    var it := Open(files);
    OpenSpec(files);
    DrainKeepsAll(it, files);
    PendingSize(files);
    assert it.emitted + Drain(it) == Drain(it);
    assert |multiset(Drain(it))| == |Drain(it)|;
  }

  lemma MergeAllSorted(files: seq<seq<Pair>>)
    requires AllSorted(files)
    ensures Sorted(MergeAll(files))
  {
    var it := Open(files);
    OpenSpec(files);
    OpenOrdered(files);
    DrainSorted(it, files);
    assert it.emitted + Drain(it) == Drain(it);
  }

  /** The pending pairs of two groups of streams side by side. */
  lemma {:induction false} PendingConcat(a: seq<seq<Pair>>, b: seq<seq<Pair>>)
    ensures Pending(a + b) == Pending(a) + Pending(b)
    decreases |a|
  {
    if |a| > 0 {
      assert (a + b)[0] == a[0] && (a + b)[1..] == a[1..] + b;
      PendingConcat(a[1..], b);
    } else {
      assert a + b == b;
    }
  }

  /** Every pending pair comes from one of the streams. */
  lemma {:induction false} PendingValid(ss: seq<seq<Pair>>)
    requires forall s :: 0 <= s < |ss| ==> AllValid(ss[s])
    ensures forall x :: x in Pending(ss) ==> ValidPair(x)
    decreases |ss|
  {
    if |ss| > 0 {
      PendingValid(ss[1..]);
      forall x | x in multiset(ss[0])
        ensures ValidPair(x)
      {
        var j :| 0 <= j < |ss[0]| && ss[0][j] == x;
      }
    }
  }

  /** Merging streams of well-formed pairs yields well-formed pairs. */
  lemma MergeAllValid(files: seq<seq<Pair>>)
    requires forall s :: 0 <= s < |files| ==> AllValid(files[s])
    ensures AllValid(MergeAll(files))
  {
    var out := MergeAll(files);
    MergeAllSpec(files);
    PendingValid(files);
    forall i | 0 <= i < |out|
      ensures ValidPair(out[i])
    {
      assert out[i] in multiset(out);
    }
  }
}
