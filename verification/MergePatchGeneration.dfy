/** `generate_merge_patch`: the merge patch that turns one document into another. */
module MergePatchGeneration {
  import opened Sequences
  import opened CStrings
  import opened Json
  import opened KeySort
  import opened SortedCompare

  // What is generated

  /** The patch, or nothing when there is nothing to do. There may be no target document. */
  ghost function MergeDiff(from: Json, to: Option<Json>, cs: bool): Option<Json>
    decreases Nesting(from), 0
  {
    if to.None? then Some(Null)
    else if !to.value.Object? || !from.Object? then to
    else
      SortNesting(from.members, cs);
      var ps := MergeWalk(Sort(from.members, cs), Sort(to.value.members, cs), cs);
      if ps == [] then None else Some(Object(ps))
  }

  /** The walk over both member lists. Whatever the case mode, it compares keys with `strcmp`. */
  ghost function MergeWalk(s: Members, t: Members, cs: bool): Members
    decreases DeepestMember(s), |s| + |t|
  {
    if s == [] && t == [] then []
    else
      var diff := MergeOrder(s, t);
      if diff < 0 then [Keyed(s[0].key, Null)] + MergeWalk(s[1..], t, cs)
      else if diff > 0 then [t[0]] + MergeWalk(s, t[1..], cs)
      else MergeBoth(s[0], t[0], cs) + MergeWalk(s[1..], t[1..], cs)
  }

  function MergeOrder(s: Members, t: Members): (diff: int)
    requires s != [] || t != []
    ensures s == [] ==> diff > 0
    ensures t == [] ==> diff < 0
  {
    if s == [] then 1 else if t == [] then -1 else Diff(s[0].key, t[0].key)
  }

  /** A key that both have: the comparison settles both values in place, and the patch for the two
      is then generated without regard to case. */
  ghost function MergeBoth(m: Keyed<Json>, n: Keyed<Json>, cs: bool): Members
    decreases Nesting(m.item), 1
  {
    if SortedEqual(m.item, n.item, cs) then []
    else
      SettledShape(m.item, n.item, cs);
      var p := MergeDiff(Settled(m.item, n.item, cs), Some(Settled(n.item, m.item, cs)), false);
      if p.None? then [] else [Keyed(n.key, p.value)]
  }

  lemma {:induction false} DeepestBound(ms: Members, n: nat)
    requires forall i :: 0 <= i < |ms| ==> Nesting(ms[i].item) <= n
    ensures DeepestMember(ms) <= n
  {
    if ms != [] {
      assert Nesting(ms[0].item) <= n;
      DeepestBound(ms[1..], n);
    }
  }

  lemma {:induction false} DeepestElementBound(es: seq<Json>, n: nat)
    requires forall i :: 0 <= i < |es| ==> Nesting(es[i]) <= n
    ensures DeepestElement(es) <= n
  {
    if es != [] {
      assert Nesting(es[0]) <= n;
      DeepestElementBound(es[1..], n);
    }
  }

  lemma SortNesting(ms: Members, cs: bool)
    ensures DeepestMember(Sort(ms, cs)) <= DeepestMember(ms)
  {
    hide DeepestMember, Nesting, Sort;
    var s := Sort(ms, cs);
    SortMembership(ms, cs);
    forall i | 0 <= i < |s| ensures Nesting(s[i].item) <= DeepestMember(ms) {
      assert s[i] in ms;
    }
    DeepestBound(s, DeepestMember(ms));
  }

  /** Sorting in place nests no deeper. */
  lemma {:induction false} SettledShape(a: Json, b: Json, cs: bool)
    ensures Nesting(Settled(a, b, cs)) <= Nesting(a)
    decreases a
  {
    hide Sort, DeepestElement, DeepestMember, SortedEqual, KeyOrder, SameMember;
    if a.Array? && b.Array? {
      var es, fs, r := a.elems, b.elems, Settled(a, b, cs).elems;
      forall i | 0 <= i < |es| ensures Nesting(r[i]) <= DeepestElement(es) {
        if ElementReached(es, fs, i, cs) {
          SettledShape(es[i], fs[i], cs);
        }
      }
      DeepestElementBound(r, DeepestElement(es));
    } else if a.Object? && b.Object? {
      var s, t, r := Sort(a.members, cs), Sort(b.members, cs), Settled(a, b, cs).members;
      SortMembership(a.members, cs);
      forall i | 0 <= i < |s| ensures Nesting(r[i].item) <= DeepestMember(a.members) {
        assert s[i] in a.members;
        if MemberReached(s, t, i, cs) {
          SettledShape(s[i].item, t[i].item, cs);
          assert r[i] == SettledMember(s[i], t[i], cs);
        } else {
          assert r[i] == s[i];
        }
      }
      DeepestBound(r, DeepestMember(a.members));
    }
  }

  // Generating as it runs

  /** What the sorting underneath leaves of a document: in a case mode in which its keys are distinct
      they still are, and the value is the same. */
  ghost predicate Keeps(a: Json, a': Json) {
    forall mode: bool :: WellKeyed(a, mode) ==> KeepsValue(a, a', mode)
  }

  ghost predicate KeepsAll(s: Members, s': Members) {
    |s'| == |s| && forall k :: 0 <= k < |s| ==> s'[k].key == s[k].key && Keeps(s[k].item, s'[k].item)
  }

  lemma KeepsItsMembers(s: Members)
    ensures KeepsAll(s, s)
  {
    forall k, mode: bool | 0 <= k < |s| && WellKeyed(s[k].item, mode) ensures KeepsValue(s[k].item, s[k].item, mode) {
      KeepsItself(s[k].item, mode);
    }
  }

  lemma KeepsObject(j: Json, s': Members, cs: bool)
    requires j.Object? && KeepsAll(Sort(j.members, cs), s')
    ensures Keeps(j, Object(s'))
  {
    hide Sort, KeepsValue;
    var s := Sort(j.members, cs);
    SortMembership(j.members, cs);
    forall mode: bool | WellKeyed(j, mode) ensures KeepsValue(j, Object(s'), mode) {
      forall i | 0 <= i < |s| ensures KeepsValue(s[i].item, s'[i].item, mode) {
        assert s[i] in j.members && Keeps(s[i].item, s'[i].item);
      }
      MembersKeepValue(j.members, s', cs, mode);
    }
  }

  method GenerateMergePatch(from: Json, to: Option<Json>, cs: bool) returns (patch: Option<Json>, from': Json, to': Option<Json>)
    ensures patch == MergeDiff(from, to, cs)
    ensures Keeps(from, from') && to'.Some? == to.Some? && (to.Some? ==> Keeps(to.value, to'.value))
    decreases Nesting(from), 0
  {
    hide KeepsAll, KeepsValue;
    from', to' := from, to;
    KeepsAsItIs(from);
    if to.None? {
      return Some(Null), from', to';
    }
    KeepsAsItIs(to.value);
    if !to.value.Object? || !from.Object? {
      return to, from', to';
    }
    var s, t := Sort(from.members, cs), Sort(to.value.members, cs);
    SortNesting(from.members, cs);
    var ps, s', t' := WalkForMerge(s, t, cs);
    KeepsObject(from, s', cs);
    KeepsObject(to.value, t', cs);
    return if ps == [] then None else Some(Object(ps)), Object(s'), Some(Object(t'));
  }

  lemma KeepsAsItIs(j: Json)
    ensures Keeps(j, j)
  {
    forall mode: bool | WellKeyed(j, mode) ensures KeepsValue(j, j, mode) {
      KeepsItself(j, mode);
    }
  }

  method WalkForMerge(s: Members, t: Members, cs: bool) returns (ps: Members, s': Members, t': Members)
    ensures ps == MergeWalk(s, t, cs) && KeepsAll(s, s') && KeepsAll(t, t')
    decreases DeepestMember(s), 2
  {
    hide MergeWalk, MergeDiff, Keeps, Settled, SortedEqual, Nesting, DeepestMember;
    KeepsItsMembers(s);
    KeepsItsMembers(t);
    ps, s', t' := [], s, t;
    var i, j := 0, 0;
    assert s[0..] == s && t[0..] == t && [] + MergeWalk(s, t, cs) == MergeWalk(s, t, cs);
    while i < |s| || j < |t|
      invariant i <= |s| && j <= |t|
      invariant ps + MergeWalk(s[i..], t[j..], cs) == MergeWalk(s, t, cs)
      invariant KeepsAll(s, s') && KeepsAll(t, t')
      decreases |s| - i + |t| - j
    {
      WalkTurn(ps, s, i, t, j, cs);
      var diff := 1;
      if j == |t| {
        diff := -1;
      } else if i < |s| {
        diff := Diff(s[i].key, t[j].key);
      }
      if diff < 0 {
        ps := ps + [Keyed(s[i].key, Null)];
        i := i + 1;
      } else if diff > 0 {
        ps := ps + [t[j]];
        j := j + 1;
      } else {
        var added, x, y := MergePair(s[i], t[j], cs);
        ps, s', t' := ps + added, s'[i := Keyed(s[i].key, x)], t'[j := Keyed(t[j].key, y)];
        i, j := i + 1, j + 1;
      }
    }
    NothingLeft(ps, cs);
  }

  /** A key that both lists have. */
  method MergePair(m: Keyed<Json>, n: Keyed<Json>, cs: bool) returns (added: Members, x: Json, y: Json)
    ensures added == MergeBoth(m, n, cs) && Keeps(m.item, x) && Keeps(n.item, y)
    decreases Nesting(m.item), 1
  {
    hide MergeDiff, Settled, SortedEqual, Keeps;
    added := [];
    var same;
    same, x, y := CompareJson(m.item, n.item, cs);
    SettledKeeps(m.item, n.item, cs);
    SettledKeeps(n.item, m.item, cs);
    if !same {
      SettledShape(m.item, n.item, cs);
      ghost var x', y' := x, y;
      var nested, z;
      nested, x, z := GenerateMergePatch(x, Some(y), false);
      y := z.value;
      KeepsOn(m.item, x', x);
      KeepsOn(n.item, y', y);
      if nested.Some? {
        added := [Keyed(n.key, nested.value)];
      }
    }
  }

  lemma KeepsOn(a: Json, b: Json, c: Json)
    requires Keeps(a, b) && Keeps(b, c)
    ensures Keeps(a, c)
  {
    forall mode: bool | WellKeyed(a, mode) ensures KeepsValue(a, c, mode) {
      assert KeepsValue(a, b, mode) && KeepsValue(b, c, mode);
    }
  }

  lemma SettledKeeps(a: Json, b: Json, cs: bool)
    ensures Keeps(a, Settled(a, b, cs))
  {
    hide Settled;
    forall mode: bool | WellKeyed(a, mode) ensures KeepsValue(a, Settled(a, b, cs), mode) {
      SettledKeepsValue(a, b, cs, mode);
    }
  }

  lemma NothingLeft(ps: Members, cs: bool)
    ensures ps + MergeWalk([], [], cs) == ps
  {
  }

  /** What one turn of the walk adds. */
  lemma WalkTurn(ps: Members, s: Members, i: nat, t: Members, j: nat, cs: bool)
    requires i <= |s| && j <= |t| && (i < |s| || j < |t|)
    ensures var all := ps + MergeWalk(s[i..], t[j..], cs);
            var diff := MergeOrder(s[i..], t[j..]);
            if diff < 0 then all == ps + [Keyed(s[i].key, Null)] + MergeWalk(s[i+1..], t[j..], cs)
            else if diff > 0 then all == ps + [t[j]] + MergeWalk(s[i..], t[j+1..], cs)
            else all == ps + MergeBoth(s[i], t[j], cs) + MergeWalk(s[i+1..], t[j+1..], cs)
  {
    hide MergeBoth, Diff;
    assert i < |s| ==> s[i..][0] == s[i] && s[i..][1..] == s[i+1..];
    assert j < |t| ==> t[j..][0] == t[j] && t[j..][1..] == t[j+1..];
    var diff := MergeOrder(s[i..], t[j..]);
    if diff < 0 {
      Regroup(ps, [Keyed(s[i].key, Null)], MergeWalk(s[i+1..], t[j..], cs));
    } else if diff > 0 {
      Regroup(ps, [t[j]], MergeWalk(s[i..], t[j+1..], cs));
    } else {
      Regroup(ps, MergeBoth(s[i], t[j], cs), MergeWalk(s[i+1..], t[j+1..], cs));
    }
  }
}
