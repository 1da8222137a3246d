/** The small cases of the repository's test driver, stated for every order
    the driver's shuffle can produce, with its memory limit of 1 MB and
    buffer size of 16 KB. */
module Scenarios {
  import opened Strings
  import opened Pairs
  import opened Extraction
  import opened Sorting
  import opened Disks
  import opened Grouping
  import opened GroupByKey

  const KMemoryLimit: Int64 := 1024 * 1024
  const KBufferSize: Int64 := 16 * 1024

  /** The test settings leave room to merge 31 files at once, and the
      buffer size reaches the merge iterator unchanged. */
  lemma TestFanIn()
    ensures MaxFiles(KMemoryLimit, KBufferSize) == 31
    ensures FanIn(KMemoryLimit, KBufferSize) == 31
    ensures ToInt(KBufferSize) == KBufferSize
  {
    assert CDiv(KMemoryLimit, 2) == 524288;
    assert CDiv(524288, KBufferSize) == 32;
  }

  /** Any arrangement of the sorted pairs `expected`, written one pair per
      line, runs to the grouping of `expected` on a healthy disk. */
  lemma Scenario(ps: seq<Pair>, expected: seq<Pair>, flushes: set<nat>, d: Disk)
    requires AllValid(expected) && Sorted(expected) && multiset(ps) == multiset(expected)
    requires Healthy(d)
    ensures Run(RenderFile(ps), KMemoryLimit, KBufferSize, flushes, d) == Output(GroupValuesByKey(expected))
  {
    AllValidPermutation(expected, ps);
    FileRoundTrip(ps);
    SortSorted(expected);
    SortDependsOnlyOnMultiset(ps, expected);
    TestFanIn();
    RunSucceeds(RenderFile(ps), KMemoryLimit, KBufferSize, flushes, d);
    RunSpec(RenderFile(ps), KMemoryLimit, KBufferSize, flushes, d);
  }

  /** "Single pair": `a a` gives `a a`. */
  lemma SinglePair(flushes: set<nat>, d: Disk)
    requires Healthy(d)
    ensures Run("a a\n", KMemoryLimit, KBufferSize, flushes, d) == Output("a a\n")
  {
    var e := [Pair("a", "a")];
    OnePairText();
    Scenario(e, e, flushes, d);
  }

  lemma OnePairText()
    ensures RenderFile([Pair("a", "a")]) == "a a\n"
    ensures AllValid([Pair("a", "a")]) && Sorted([Pair("a", "a")])
    ensures GroupValuesByKey([Pair("a", "a")]) == "a a\n"
  {
    assert ValidPair(Pair("a", "a"));
    assert GroupFrom([], "a") == "";
  }

  /** "Two pairs with same key": `a a` and `a b`, in either order, give the
      one line `a a b`. */
  lemma TwoPairsSameKey(ps: seq<Pair>, flushes: set<nat>, d: Disk)
    requires multiset(ps) == multiset{Pair("a", "a"), Pair("a", "b")}
    requires Healthy(d)
    ensures Run(RenderFile(ps), KMemoryLimit, KBufferSize, flushes, d) == Output("a a b\n")
  {
    SameKeyFacts();
    Scenario(ps, SameKey, flushes, d);
  }

  const SameKey := [Pair("a", "a"), Pair("a", "b")]

  lemma SameKeyFacts()
    ensures multiset(SameKey) == multiset{Pair("a", "a"), Pair("a", "b")}
    ensures AllValid(SameKey) && Sorted(SameKey)
    ensures GroupValuesByKey(SameKey) == "a a b\n"
  {
    var e := SameKey;
    assert ValidPair(e[0]) && ValidPair(e[1]);
    assert StrLess("a", "b");
    assert Le(e[0], e[1]);
    assert e[1..] == [Pair("a", "b")];
    assert GroupFrom(e[1..], "a") == " b" + GroupFrom([], "a");
  }

  /** "Two pairs with different key": `a a` and `b b`, in either order,
      give the lines `a a` and `b b`. */
  lemma TwoPairsDifferentKeys(ps: seq<Pair>, flushes: set<nat>, d: Disk)
    requires multiset(ps) == multiset{Pair("a", "a"), Pair("b", "b")}
    requires Healthy(d)
    ensures Run(RenderFile(ps), KMemoryLimit, KBufferSize, flushes, d) == Output("a a\nb b\n")
  {
    TwoKeysFacts();
    Scenario(ps, TwoKeys, flushes, d);
  }

  const TwoKeys := [Pair("a", "a"), Pair("b", "b")]

  lemma TwoKeysFacts()
    ensures multiset(TwoKeys) == multiset{Pair("a", "a"), Pair("b", "b")}
    ensures AllValid(TwoKeys) && Sorted(TwoKeys)
    ensures GroupValuesByKey(TwoKeys) == "a a\nb b\n"
  {
    var e := TwoKeys;
    assert ValidPair(e[0]) && ValidPair(e[1]);
    assert StrLess("a", "b");
    assert Le(e[0], e[1]);
    assert e[1..] == [Pair("b", "b")];
    assert GroupFrom(e[1..], "a") == "\n" + "b b" + GroupFrom([], "b");
  }

  /** The test settings with the buffer size negated: the pair reaches
      step 3, whose iterator cannot allocate a buffer of negative size, so
      the run crashes instead of writing `a a`. */
  lemma NegativeBufferCrashes(flushes: set<nat>, d: Disk)
    requires Healthy(d)
    ensures Run("a a\n", KMemoryLimit, -KBufferSize, flushes, d) == Crashed
  {
    OnePairText();
    FileRoundTrip([Pair("a", "a")]);
    assert CDiv(KMemoryLimit, 2) == 524288;
    assert CDiv(524288, -KBufferSize) == -32;
    RunCrashes("a a\n", KMemoryLimit, -KBufferSize, flushes, d);
  }
}
