/** The record model: `KeyValuePair`, its ordering, its footprint estimate
    and its serialised form. */
module Pairs {
  import opened Strings

  datatype Pair = Pair(key: string, value: string)

  /** `KeyValuePair::operator<`: keys decide unless they are equal, in which
      case values decide. */
  predicate Less(a: Pair, b: Pair) {
    if a.key == b.key then StrLess(a.value, b.value) else StrLess(a.key, b.key)
  }

  /** "Not greater": the order sorted files and merge output respect. */
  predicate Le(a: Pair, b: Pair) {
    !Less(b, a)
  }

  predicate Sorted(s: seq<Pair>) {
    forall i, j :: 0 <= i < j < |s| ==> Le(s[i], s[j])
  }

  /** A pair that stream extraction can produce and serialisation preserves:
      both fields are tokens. */
  predicate ValidPair(p: Pair) {
    IsToken(p.key) && IsToken(p.value)
  }

  predicate AllValid(s: seq<Pair>) {
    forall i :: 0 <= i < |s| ==> ValidPair(s[i])
  }

  /** `KeyValuePair::size()`: the allocated capacities of both strings. The
      capacities are whatever the allocator chose, never below the lengths. */
  function Size(p: Pair, keyCapacity: nat, valueCapacity: nat): (r: nat)
    requires |p.key| <= keyCapacity && |p.value| <= valueCapacity
    ensures |p.key| + |p.value| <= r
    ensures r - (|p.key| + |p.value|) == (keyCapacity - |p.key|) + (valueCapacity - |p.value|)
  {
    keyCapacity + valueCapacity
  }

  /** `operator<<`: key, one space, value. */
  function Serialize(p: Pair): (r: string)
    ensures |r| == |p.key| + 1 + |p.value|
    ensures r[..|p.key|] == p.key && r[|p.key|] == ' ' && r[|p.key| + 1..] == p.value
  {
    p.key + " " + p.value
  }

  /** The order is lexicographic on (key, value): a smaller key wins outright,
      and values are only consulted between equal keys. */
  lemma LessIsLexicographic(a: Pair, b: Pair)
    ensures Less(a, b) <==> StrLess(a.key, b.key) || (a.key == b.key && StrLess(a.value, b.value))
  {
    if StrLess(a.key, b.key) {
      StrLessIrreflexive(a.key);
    }
  }

  lemma LessIrreflexive(a: Pair)
    ensures !Less(a, a)
  {
    StrLessIrreflexive(a.value);
  }

  lemma LessTransitive(a: Pair, b: Pair, c: Pair)
    requires Less(a, b) && Less(b, c)
    ensures Less(a, c)
  {
    if a.key == b.key && b.key == c.key {
      StrLessTransitive(a.value, b.value, c.value);
    } else if a.key == b.key {
      assert StrLess(b.key, c.key);
    } else if b.key == c.key {
      assert StrLess(a.key, b.key);
    } else {
      StrLessTransitive(a.key, b.key, c.key);
      if a.key == c.key {
        StrLessIrreflexive(a.key);
      }
    }
  }

  /** Strict total order: for two different pairs exactly one is smaller. */
  lemma LessTrichotomy(a: Pair, b: Pair)
    requires a != b
    ensures Less(a, b) != Less(b, a)
  {
    if a.key == b.key {
      StrLessTotal(a.value, b.value);
      if StrLess(a.value, b.value) {
        StrLessAsymmetric(a.value, b.value);
      }
    } else {
      StrLessTotal(a.key, b.key);
      if StrLess(a.key, b.key) {
        StrLessAsymmetric(a.key, b.key);
      }
    }
  }

  /** `Le` is "equal or smaller". */
  lemma LeIsLessOrEqual(a: Pair, b: Pair)
    ensures Le(a, b) <==> (a == b || Less(a, b))
  {
    if a == b {
      LessIrreflexive(a);
    } else {
      LessTrichotomy(a, b);
    }
  }

  lemma LeTotal(a: Pair, b: Pair)
    ensures Le(a, b) || Le(b, a)
  {
    if a != b {
      LessTrichotomy(a, b);
    } else {
      LessIrreflexive(a);
    }
  }

  lemma LeTransitive(a: Pair, b: Pair, c: Pair)
    requires Le(a, b) && Le(b, c)
    ensures Le(a, c)
  {
    LeIsLessOrEqual(a, b);
    LeIsLessOrEqual(b, c);
    LeIsLessOrEqual(a, c);
    if a != b && b != c {
      LessTransitive(a, b, c);
    }
  }

  lemma LeAntisymmetric(a: Pair, b: Pair)
    requires Le(a, b) && Le(b, a)
    ensures a == b
  {
    if a != b {
      LessTrichotomy(a, b);
    }
  }

  /** Between pairs with the same key, the order is the order of the values. */
  lemma LeSameKey(a: Pair, b: Pair)
    requires a.key == b.key
    ensures Le(a, b) <==> StrLe(a.value, b.value)
  {
  }

  /** Between pairs with different keys, the order is the order of the keys. */
  lemma LeDifferentKeys(a: Pair, b: Pair)
    requires a.key != b.key
    ensures Le(a, b) <==> StrLess(a.key, b.key)
  {
    StrLessTotal(a.key, b.key);
    if StrLess(a.key, b.key) {
      StrLessAsymmetric(a.key, b.key);
    }
  }

  /** Appending an element no smaller than the last keeps a sequence sorted. */
  lemma SortedAppend(s: seq<Pair>, x: Pair)
    requires Sorted(s)
    requires |s| > 0 ==> Le(s[|s| - 1], x)
    ensures Sorted(s + [x])
  {
    forall i | 0 <= i < |s|
      ensures Le(s[i], x)
    {
      if i < |s| - 1 {
        LeTransitive(s[i], s[|s| - 1], x);
      }
    }
  }

  /** Prepending an element no greater than the first keeps a sequence sorted. */
  lemma SortedPrepend(x: Pair, s: seq<Pair>)
    requires Sorted(s)
    requires |s| > 0 ==> Le(x, s[0])
    ensures Sorted([x] + s)
  {
    forall i | 0 <= i < |s|
      ensures Le(x, s[i])
    {
      if i > 0 {
        LeTransitive(x, s[0], s[i]);
      }
    }
    var t := [x] + s;
    forall i, j | 0 <= i < j < |t|
      ensures Le(t[i], t[j])
    {
      if i > 0 {
        assert t[i] == s[i - 1] && t[j] == s[j - 1];
      } else {
        assert t[j] == s[j - 1];
      }
    }
  }

  /** Validity is a property of each pair, so any rearrangement keeps it. */
  lemma AllValidPermutation(a: seq<Pair>, b: seq<Pair>)
    requires AllValid(a) && multiset(a) == multiset(b)
    ensures AllValid(b)
  {
    forall i | 0 <= i < |b|
      ensures ValidPair(b[i])
    {
      assert b[i] in multiset(a);
      var j :| 0 <= j < |a| && a[j] == b[i];
    }
  }
}
