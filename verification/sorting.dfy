/** `std::sort` over key-value pairs. The library's algorithm is not stable,
    but under a total order whose ties are identical pairs every correct
    sort yields the same sequence; `SortedUnique` proves this, so one
    insertion sort stands for all of them. */
module Sorting {
  import opened Pairs

  function Insert(x: Pair, s: seq<Pair>): (r: seq<Pair>)
    requires Sorted(s)
    ensures Sorted(r)
    ensures multiset(r) == multiset(s) + multiset{x}
    ensures |r| == |s| + 1
    ensures r[0] == x || (|s| > 0 && r[0] == s[0])
  {
    if |s| == 0 then
      [x]
    else if Le(x, s[0]) then
      SortedPrepend(x, s);
      [x] + s
    else
      var r' := Insert(x, s[1..]);
      assert Le(s[0], r'[0]) by {
        LeIsLessOrEqual(s[0], x);
        LeTotal(x, s[0]);
      }
      SortedPrepend(s[0], r');
      assert s == [s[0]] + s[1..];
      [s[0]] + r'
  }

  /** The buffer arranged in ascending order, with every pair kept. */
  function SortPairs(s: seq<Pair>): (r: seq<Pair>)
    ensures Sorted(r)
    ensures multiset(r) == multiset(s)
    ensures |r| == |s|
  {
    if |s| == 0 then
      []
    else
      assert s == [s[0]] + s[1..];
      Insert(s[0], SortPairs(s[1..]))
  }

  /** The first element of a sorted sequence is below every element in it. */
  lemma SortedHeadIsLeast(s: seq<Pair>, x: Pair)
    requires Sorted(s) && x in multiset(s)
    ensures Le(s[0], x)
  {
    var j :| 0 <= j < |s| && s[j] == x;
    if j > 0 {
      assert Le(s[0], s[j]);
    } else {
      LeIsLessOrEqual(x, x);
    }
  }

  /** A multiset has only one sorted arrangement. */
  lemma {:induction false} SortedUnique(a: seq<Pair>, b: seq<Pair>)
    requires Sorted(a) && Sorted(b)
    requires multiset(a) == multiset(b)
    ensures a == b
    decreases |a|
  {
    assert |a| == |b| by {
      assert |multiset(a)| == |a| && |multiset(b)| == |b|;
    }
    if |a| > 0 {
      SameHead(a, b);
      SameTail(a, b);
      SortedUnique(a[1..], b[1..]);
      assert a == [a[0]] + a[1..] && b == [b[0]] + b[1..];
    }
  }

  /** Two sorted arrangements of one multiset start alike. */
  lemma SameHead(a: seq<Pair>, b: seq<Pair>)
    requires Sorted(a) && Sorted(b) && |a| > 0 && |b| > 0
    requires multiset(a) == multiset(b)
    ensures a[0] == b[0]
  {
    assert a[0] in multiset(b) && b[0] in multiset(a);
    SortedHeadIsLeast(b, a[0]);
    SortedHeadIsLeast(a, b[0]);
    LeAntisymmetric(a[0], b[0]);
  }

  /** Removing equal heads leaves equal multisets. */
  lemma SameTail(a: seq<Pair>, b: seq<Pair>)
    requires |a| > 0 && |b| > 0 && a[0] == b[0]
    requires multiset(a) == multiset(b)
    ensures multiset(a[1..]) == multiset(b[1..])
  {
    assert a == [a[0]] + a[1..] && b == [b[0]] + b[1..];
    assert multiset(a) == multiset{a[0]} + multiset(a[1..]);
    assert multiset(b) == multiset{a[0]} + multiset(b[1..]);
    assert multiset(a[1..]) == multiset(a) - multiset{a[0]};
    assert multiset(b[1..]) == multiset(b) - multiset{a[0]};
  }

  /** Sorting depends only on the multiset of pairs: two buffers holding the
      same pairs in any order sort to the same sequence. */
  lemma SortDependsOnlyOnMultiset(s: seq<Pair>, t: seq<Pair>)
    requires multiset(s) == multiset(t)
    ensures SortPairs(s) == SortPairs(t)
  {
    SortedUnique(SortPairs(s), SortPairs(t));
  }

  /** A sorted sequence is its own sort. */
  lemma SortSorted(s: seq<Pair>)
    requires Sorted(s)
    ensures SortPairs(s) == s
  {
    SortedUnique(SortPairs(s), s);
  }
}
