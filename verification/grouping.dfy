/** Step 3 of the pipeline, `GroupValuesByKey`: write the merged pairs as
    lines, one line per run of equal keys, holding the key followed by every
    value of the run. */
module Grouping {
  import opened Strings
  import opened Pairs

  /** The loop of `GroupValuesByKey` from the first of `ps` on, where `cur`
      is the key of the line being written ("" before the first line). A
      pair with the current key adds its value to the line; any other pair
      ends the line (unless none was started) and starts a new one. */
  function GroupFrom(ps: seq<Pair>, cur: string): (r: string)
    decreases |ps|
  {
    if |ps| == 0 then
      ""
    else if ps[0].key == cur then
      " " + ps[0].value + GroupFrom(ps[1..], cur)
    else
      (if cur != "" then "\n" else "") + Serialize(ps[0]) + GroupFrom(ps[1..], ps[0].key)
  }

  /** `GroupValuesByKey`: the loop, then one final line break, written
      whatever the loop wrote, so that no pair at all gives one empty
      line. */
  function GroupValuesByKey(ps: seq<Pair>): (r: string)
    ensures |r| > 0 && r[|r| - 1] == '\n'
    ensures |ps| == 0 ==> r == "\n"
  {
    GroupFrom(ps, "") + "\n"
  }

  /** One output line's worth: a key and the values found with it. */
  datatype Group = Group(key: string, values: seq<string>)

  /** The pairs a group stands for, in order. */
  function Members(key: string, values: seq<string>): (r: seq<Pair>)
    ensures |r| == |values|
  {
    if |values| == 0 then [] else [Pair(key, values[0])] + Members(key, values[1..])
  }

  function Flatten(rs: seq<Group>): (r: seq<Pair>) {
    if |rs| == 0 then [] else Members(rs[0].key, rs[0].values) + Flatten(rs[1..])
  }

  /** Groups as the output shows them: none is empty and no two neighbours
      share a key. */
  predicate Maximal(rs: seq<Group>) {
    && (forall i :: 0 <= i < |rs| ==> |rs[i].values| > 0)
    && (forall i :: 0 < i < |rs| ==> rs[i - 1].key != rs[i].key)
  }

  /** The maximal runs of equal adjacent keys. */
  function Runs(ps: seq<Pair>): (rs: seq<Group>)
    ensures Maximal(rs)
    ensures |rs| == 0 <==> |ps| == 0
    ensures |ps| > 0 ==> rs[0].key == ps[0].key && rs[0].values[0] == ps[0].value
    decreases |ps|
  {
    if |ps| == 0 then
      []
    else
      var rs := Runs(ps[1..]);
      if |rs| > 0 && rs[0].key == ps[0].key then
        [Group(ps[0].key, [ps[0].value] + rs[0].values)] + rs[1..]
      else
        [Group(ps[0].key, [ps[0].value])] + rs
  }

  /** A group's line without its key: every value, each after one space. */
  function Values(values: seq<string>): (r: string) {
    if |values| == 0 then "" else " " + values[0] + Values(values[1..])
  }

  function Line(g: Group): (r: string) {
    g.key + Values(g.values)
  }

  /** Lines, each preceded by a line break. */
  function Lines(rs: seq<Group>): (r: string) {
    if |rs| == 0 then "" else "\n" + Line(rs[0]) + Lines(rs[1..])
  }

  /** Lines separated by line breaks. */
  function Render(rs: seq<Group>): (r: string) {
    if |rs| == 0 then "" else Line(rs[0]) + Lines(rs[1..])
  }

  predicate KeysNonEmpty(ps: seq<Pair>) {
    forall i :: 0 <= i < |ps| ==> ps[i].key != ""
  }

  /** What the loop still writes when the line of `cur` is open: the rest of
      that line if the next run continues it, then the other lines. */
  function Continue(rs: seq<Group>, cur: string): (r: string) {
    if |rs| > 0 && rs[0].key == cur then Values(rs[0].values) + Lines(rs[1..]) else Lines(rs)
  }

  lemma ValuesCons(v: string, vs: seq<string>)
    ensures Values([v] + vs) == " " + v + Values(vs)
  {
    assert ([v] + vs)[1..] == vs;
  }

  /** The runs of a sequence, built from those of its tail: either the first
      pair joins the first run, or it starts one. */
  lemma RunsCons(ps: seq<Pair>)
    requires |ps| > 0
    ensures var rs' := Runs(ps[1..]);
      if |rs'| > 0 && rs'[0].key == ps[0].key then
        && Runs(ps)[0] == Group(ps[0].key, [ps[0].value] + rs'[0].values)
        && Runs(ps)[1..] == rs'[1..]
      else
        && Runs(ps)[0] == Group(ps[0].key, [ps[0].value])
        && Runs(ps)[1..] == rs'
  {
  }

  /** The part of a line after the first value, continued. */
  lemma ContinueCons(p: Pair, rs': seq<Group>, rs: seq<Group>)
    requires |rs| > 0
    requires if |rs'| > 0 && rs'[0].key == p.key then
        rs[0] == Group(p.key, [p.value] + rs'[0].values) && rs[1..] == rs'[1..]
      else
        rs[0] == Group(p.key, [p.value]) && rs[1..] == rs'
    ensures Values(rs[0].values) + Lines(rs[1..]) == " " + p.value + Continue(rs', p.key)
  {
    if |rs'| > 0 && rs'[0].key == p.key {
      ValuesCons(p.value, rs'[0].values);
      SeqAssoc(" " + p.value, Values(rs'[0].values), Lines(rs'[1..]));
    } else {
      ValuesCons(p.value, []);
      assert Values([]) == "";
      assert " " + p.value + "" == " " + p.value;
    }
  }

  lemma KeysNonEmptyTail(ps: seq<Pair>)
    requires |ps| > 0 && KeysNonEmpty(ps)
    ensures KeysNonEmpty(ps[1..]) && ps[0].key != ""
  {
    assert forall i :: 0 <= i < |ps[1..]| ==> ps[1..][i] == ps[i + 1];
  }

  /** The grouping loop, once a line is open, writes the runs of the
      remaining pairs. */
  lemma {:induction false} GroupFromRuns(ps: seq<Pair>, cur: string)
    requires cur != "" && KeysNonEmpty(ps)
    ensures GroupFrom(ps, cur) == Continue(Runs(ps), cur)
    decreases |ps|
  {
    if |ps| > 0 {
      var p, t := ps[0], ps[1..];
      KeysNonEmptyTail(ps);
      RunsCons(ps);
      var rs := Runs(ps);
      ContinueCons(p, Runs(t), rs);
      if p.key == cur {
        GroupFromRuns(t, cur);
        SameKeyStep(ps, cur);
      } else {
        GroupFromRuns(t, p.key);
        NewKeyStep(ps, cur);
      }
    }
  }

  lemma SameKeyStep(ps: seq<Pair>, cur: string)
    requires |ps| > 0 && ps[0].key == cur
    requires GroupFrom(ps[1..], cur) == Continue(Runs(ps[1..]), cur)
    requires Values(Runs(ps)[0].values) + Lines(Runs(ps)[1..]) == " " + ps[0].value + Continue(Runs(ps[1..]), cur)
    ensures GroupFrom(ps, cur) == Continue(Runs(ps), cur)
  {
    SeqAssoc(" ", ps[0].value, GroupFrom(ps[1..], cur));
  }

  lemma NewKeyStep(ps: seq<Pair>, cur: string)
    requires |ps| > 0 && ps[0].key != cur && ps[0].key != "" && cur != ""
    requires GroupFrom(ps[1..], ps[0].key) == Continue(Runs(ps[1..]), ps[0].key)
    requires Values(Runs(ps)[0].values) + Lines(Runs(ps)[1..]) == " " + ps[0].value + Continue(Runs(ps[1..]), ps[0].key)
    ensures GroupFrom(ps, cur) == Continue(Runs(ps), cur)
  {
    var p, rs := ps[0], Runs(ps);
    var rest := GroupFrom(ps[1..], p.key);
    calc {
      GroupFrom(ps, cur);
      "\n" + Serialize(p) + rest;
      "\n" + (p.key + " " + p.value) + rest;
      { SeqAssoc(p.key, " ", p.value); }
      "\n" + (p.key + (" " + p.value)) + rest;
      { SeqAssoc(p.key, " " + p.value, rest); SeqAssoc("\n", p.key + (" " + p.value), rest); }
      "\n" + (p.key + (" " + p.value + rest));
      "\n" + (p.key + (Values(rs[0].values) + Lines(rs[1..])));
      { SeqAssoc(p.key, Values(rs[0].values), Lines(rs[1..])); }
      "\n" + (Line(rs[0]) + Lines(rs[1..]));
      { SeqAssoc("\n", Line(rs[0]), Lines(rs[1..])); }
      Lines(rs);
    }
  }

  /** What `GroupValuesByKey` writes is the maximal runs of equal keys, one
      line each, each line ended by a line break; nothing but "\n" for no
      pairs. */
  lemma GroupValuesByKeyIsRender(ps: seq<Pair>)
    requires KeysNonEmpty(ps)
    ensures GroupValuesByKey(ps) == Render(Runs(ps)) + "\n"
  {
    if |ps| > 0 {
      FirstLine(ps);
    }
  }

  /** The first pair opens the first line, with no line break before it. */
  lemma StartLine(ps: seq<Pair>)
    requires |ps| > 0 && ps[0].key != ""
    ensures GroupFrom(ps, "") == Serialize(ps[0]) + GroupFrom(ps[1..], ps[0].key)
  {
    assert "" + Serialize(ps[0]) == Serialize(ps[0]);
  }

  lemma FirstLine(ps: seq<Pair>)
    requires |ps| > 0 && KeysNonEmpty(ps)
    ensures GroupFrom(ps, "") == Render(Runs(ps))
  {
    var p, rs := ps[0], Runs(ps);
    KeysNonEmptyTail(ps);
    RunsCons(ps);
    ContinueCons(p, Runs(ps[1..]), rs);
    GroupFromRuns(ps[1..], p.key);
    var rest := GroupFrom(ps[1..], p.key);
    StartLine(ps);
    calc {
      GroupFrom(ps, "");
      (p.key + " " + p.value) + rest;
      { SeqAssoc(p.key, " ", p.value); }
      (p.key + (" " + p.value)) + rest;
      { SeqAssoc(p.key, " " + p.value, rest); }
      p.key + (" " + p.value + rest);
      p.key + (Values(rs[0].values) + Lines(rs[1..]));
      { SeqAssoc(p.key, Values(rs[0].values), Lines(rs[1..])); }
      Line(rs[0]) + Lines(rs[1..]);
    }
  }

  /** The runs hold every pair, in order: reading the groups back gives the
      pairs. */
  lemma {:induction false} FlattenRuns(ps: seq<Pair>)
    ensures Flatten(Runs(ps)) == ps
    decreases |ps|
  {
    if |ps| > 0 {
      var p, t := ps[0], ps[1..];
      FlattenRuns(t);
      var rs' := Runs(t);
      if |rs'| > 0 && rs'[0].key == p.key {
        var g := rs'[0];
        assert Members(p.key, [p.value] + g.values) == [p] + Members(g.key, g.values) by {
          assert ([p.value] + g.values)[1..] == g.values;
        }
        assert rs' == [g] + rs'[1..];
        assert Flatten(rs') == Members(g.key, g.values) + Flatten(rs'[1..]);
      }
      assert ps == [p] + t;
    }
  }

  /** Grouping is determined by the pairs: any maximal grouping of `ps` is
      the one `Runs` builds. */
  lemma RunsUnique(rs: seq<Group>, ps: seq<Pair>)
    requires Maximal(rs) && Flatten(rs) == ps
    ensures rs == Runs(ps)
  {
    RunsOfFlatten(rs);
  }

  lemma {:induction false} RunsOfFlatten(rs: seq<Group>)
    requires Maximal(rs)
    ensures Runs(Flatten(rs)) == rs
    decreases |rs|
  {
    if |rs| > 0 {
      var g, rest := rs[0], rs[1..];
      MaximalDrop(rs);
      RunsOfFlatten(rest);
      if |rest| > 0 {
        assert rest[0] == rs[1];
      }
      RunsPrefix(g.key, g.values, Flatten(rest));
      assert rs == [g] + rest;
    }
  }

  /** The values of one key put in front of pairs whose runs start with
      another key form a run of their own. */
  lemma {:induction false} RunsPrefix(key: string, values: seq<string>, t: seq<Pair>)
    requires |values| > 0
    requires |Runs(t)| == 0 || Runs(t)[0].key != key
    ensures Runs(Members(key, values) + t) == [Group(key, values)] + Runs(t)
    decreases |values|
  {
    if |values| == 1 {
      RunsSingle(key, values, t);
    } else {
      RunsPrefix(key, values[1..], t);
      RunsJoin(key, values, t);
    }
  }

  /** Splits the first pair off a group's pairs followed by `t`. */
  lemma MembersSplit(key: string, values: seq<string>, t: seq<Pair>)
    requires |values| > 0
    ensures var ps := Members(key, values) + t;
      |ps| > 0 && ps[0] == Pair(key, values[0]) && ps[1..] == Members(key, values[1..]) + t
  {
    MembersCons(key, values);
    var m := Members(key, values[1..]);
    SeqAssoc([Pair(key, values[0])], m, t);
    DropCons(Pair(key, values[0]), m + t);
  }

  lemma SeqAssoc<T>(a: seq<T>, b: seq<T>, c: seq<T>)
    ensures (a + b) + c == a + (b + c)
  {
  }

  lemma DropCons<T>(x: T, s: seq<T>)
    ensures ([x] + s)[0] == x && ([x] + s)[1..] == s
  {
  }

  lemma RunsSingle(key: string, values: seq<string>, t: seq<Pair>)
    requires |values| == 1
    requires |Runs(t)| == 0 || Runs(t)[0].key != key
    ensures Runs(Members(key, values) + t) == [Group(key, values)] + Runs(t)
  {
    var ps := Members(key, values) + t;
    MembersSplit(key, values, t);
    assert Members(key, values[1..]) == [];
    assert ps[1..] == t;
    RunsCons(ps);
    assert values == [values[0]];
  }

  lemma RunsJoin(key: string, values: seq<string>, t: seq<Pair>)
    requires |values| > 1
    requires Runs(Members(key, values[1..]) + t) == [Group(key, values[1..])] + Runs(t)
    ensures Runs(Members(key, values) + t) == [Group(key, values)] + Runs(t)
  {
    var ps := Members(key, values) + t;
    MembersSplit(key, values, t);
    RunsCons(ps);
    assert [values[0]] + values[1..] == values;
  }

  lemma MembersCons(key: string, values: seq<string>)
    requires |values| > 0
    ensures Members(key, values) == [Pair(key, values[0])] + Members(key, values[1..])
  {
  }

  lemma MaximalDrop(rs: seq<Group>)
    requires Maximal(rs) && |rs| > 0
    ensures Maximal(rs[1..])
  {
    assert forall i :: 0 <= i < |rs[1..]| ==> rs[1..][i] == rs[i + 1];
  }

  /** Strictly ascending keys: a key never comes back once its line ends. */
  predicate KeysAscending(rs: seq<Group>) {
    forall i, j :: 0 <= i < j < |rs| ==> StrLess(rs[i].key, rs[j].key)
  }

  predicate ValuesSorted(values: seq<string>) {
    forall i, j :: 0 <= i < j < |values| ==> StrLe(values[i], values[j])
  }

  /** On sorted pairs the runs have ascending keys, so every key gets one
      line, and within a line the values ascend. */
  lemma {:induction false} RunsOfSorted(ps: seq<Pair>)
    requires Sorted(ps)
    ensures KeysAscending(Runs(ps))
    ensures forall i :: 0 <= i < |Runs(ps)| ==> ValuesSorted(Runs(ps)[i].values)
    decreases |ps|
  {
    if |ps| > 1 {
      var p, t := ps[0], ps[1..];
      assert Sorted(t) by {
        assert forall i :: 0 <= i < |t| ==> t[i] == ps[i + 1];
      }
      RunsOfSorted(t);
      var rs' := Runs(t);
      assert Le(p, t[0]) by {
        assert ps[1] == t[0];
      }
      if rs'[0].key == p.key {
        RunsMergeSorted(p, rs');
      } else {
        LeDifferentKeys(p, t[0]);
        RunsPrependSorted(p, rs');
      }
    }
  }

  /** The first pair joins the first run: keys stay ascending and the run's
      values stay sorted. */
  lemma RunsMergeSorted(p: Pair, rs: seq<Group>)
    requires |rs| > 0 && rs[0].key == p.key && |rs[0].values| > 0
    requires Le(p, Pair(rs[0].key, rs[0].values[0]))
    requires KeysAscending(rs) && forall i :: 0 <= i < |rs| ==> ValuesSorted(rs[i].values)
    ensures var r := [Group(p.key, [p.value] + rs[0].values)] + rs[1..];
      KeysAscending(r) && forall i :: 0 <= i < |r| ==> ValuesSorted(r[i].values)
  {
    var vs := [p.value] + rs[0].values;
    LeSameKey(p, Pair(rs[0].key, rs[0].values[0]));
    forall i, j | 0 <= i < j < |vs|
      ensures StrLe(vs[i], vs[j])
    {
      if i == 0 && j > 1 {
        StrLeTransitive(p.value, rs[0].values[0], vs[j]);
      }
    }
    var r := [Group(p.key, vs)] + rs[1..];
    assert forall i :: 0 < i < |r| ==> r[i] == rs[i];
  }

  /** The first pair starts a run of its own below all others. */
  lemma RunsPrependSorted(p: Pair, rs: seq<Group>)
    requires |rs| > 0 && StrLess(p.key, rs[0].key)
    requires KeysAscending(rs) && forall i :: 0 <= i < |rs| ==> ValuesSorted(rs[i].values)
    ensures var r := [Group(p.key, [p.value])] + rs;
      KeysAscending(r) && forall i :: 0 <= i < |r| ==> ValuesSorted(r[i].values)
  {
    var r := [Group(p.key, [p.value])] + rs;
    forall i, j | 0 <= i < j < |r|
      ensures StrLess(r[i].key, r[j].key)
    {
      if i == 0 && j > 1 {
        StrLessTransitive(p.key, rs[0].key, rs[j - 1].key);
      }
    }
  }
}
