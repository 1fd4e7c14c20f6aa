/** Documents that differ in nothing but the order of their members, and the two case modes side by side. */
module Reordering {
  import opened CStrings
  import opened Json
  import opened KeySort
  import opened Compare
  import opened SortedCompare

  /** No raw or invalid node, and keys that differ by more than case. */
  ghost predicate Proper(j: Json) {
    Plain(j) && WellKeyed(j, false)
  }

  lemma DistinctInBoth<T>(ms: seq<Keyed<T>>, mode: bool)
    requires DistinctKeys(ms, false)
    ensures DistinctKeys(ms, mode)
  {
    forall i, k | 0 <= i < k < |ms| ensures Fold(ms[i].key, mode) != Fold(ms[k].key, mode) {
      assert Fold(ms[i].key, false) != Fold(ms[k].key, false);
    }
  }

  lemma {:induction false} WellKeyedInBoth(j: Json, mode: bool)
    requires WellKeyed(j, false)
    ensures WellKeyed(j, mode)
    decreases j
  {
    match j
    case Array(es) => forall i | 0 <= i < |es| ensures WellKeyed(es[i], mode) { WellKeyedInBoth(es[i], mode); }
    case Object(ms) =>
      DistinctInBoth(ms, mode);
      forall i | 0 <= i < |ms| ensures WellKeyed(ms[i].item, mode) { WellKeyedInBoth(ms[i].item, mode); }
    case _ =>
  }

  /** The same members place by place, up to the order of members further down. */
  ghost predicate SameRow(s: Members, t: Members) {
    |s| == |t| && forall i :: 0 <= i < |s| ==> s[i].key == t[i].key && Canon(s[i].item, true) == Canon(t[i].item, true)
  }

  /** The first members of two sorted lists of the same members. */
  lemma SameFirst(s: Members, t: Members, cs: bool)
    requires s != [] && t != [] && StrictlySorted(s, cs) && StrictlySorted(t, cs)
    requires ToMap(s, true) == ToMap(t, true)
    ensures s[0].key == t[0].key && Canon(s[0].item, true) == Canon(t[0].item, true)
  {
    hide ToMap, KeyOrder, Canon;
    ToMapFirst(s, true, 0);
    ToMapFirst(t, true, 0);
    ToMapKeys(s, true, t[0].key);
    ToMapKeys(t, true, s[0].key);
    var i :| 0 <= i < |s| && s[i].key == t[0].key;
    var k :| 0 <= k < |t| && t[k].key == s[0].key;
    if i > 0 && k > 0 {
      assert KeyLess(s[0].key, s[i].key, cs) && KeyLess(t[0].key, t[k].key, cs);
      KeyOrderIsTotal(s[0].key, t[0].key, t[0].key, cs);
      assert false;
    }
  }

  lemma {:induction false} SortedRows(s: Members, t: Members, cs: bool)
    requires StrictlySorted(s, cs) && StrictlySorted(t, cs) && DistinctKeys(s, true) && DistinctKeys(t, true)
    requires ToMap(s, true) == ToMap(t, true)
    ensures SameRow(s, t)
  {
    hide ToMap, Canon, KeyLess, Fold;
    if s == [] || t == [] {
      if s != [] { ToMapFirst(s, true, 0); NoMembers(t); }
      if t != [] { ToMapFirst(t, true, 0); NoMembers(s); }
    } else {
      hide StrictlySorted, DistinctKeys, SameRow;
      SameFirst(s, t, cs);
      WithoutFirst(s, cs);
      WithoutFirst(t, cs);
      SortedRows(s[1..], t[1..], cs);
      RowCons(s, t);
    }
  }

  lemma WithoutFirst(s: Members, cs: bool)
    requires s != [] && StrictlySorted(s, cs) && DistinctKeys(s, true)
    ensures StrictlySorted(s[1..], cs) && DistinctKeys(s[1..], true)
    ensures ToMap(s[1..], true) == ToMap(s, true) - {Fold(s[0].key, true)}
  {
    hide ToMap, Fold, KeyLess;
    TailInOrder(s, cs);
    hide StrictlySorted, DistinctKeys;
    ToMapRemove(s, true, 0);
    assert RemoveAt(s, 0) == s[1..];
  }

  lemma TailInOrder(s: Members, cs: bool)
    requires s != [] && StrictlySorted(s, cs) && DistinctKeys(s, true)
    ensures StrictlySorted(s[1..], cs) && DistinctKeys(s[1..], true)
  {
    hide Fold, KeyLess;
  }

  lemma NoMembers(s: Members)
    requires s == []
    ensures ToMap(s, true) == map[]
  {
  }

  lemma RowCons(s: Members, t: Members)
    requires s != [] && t != [] && SameRow(s[1..], t[1..])
    requires s[0].key == t[0].key && Canon(s[0].item, true) == Canon(t[0].item, true)
    ensures SameRow(s, t)
  {
    hide Canon;
    forall i | 0 < i < |s| ensures s[i].key == t[i].key && Canon(s[i].item, true) == Canon(t[i].item, true) {
      assert s[i] == s[1..][i-1] && t[i] == t[1..][i-1];
    }
  }

  /** Sorting, by either order, brings the same members to the same places. */
  lemma SameSorted(ms: Members, ns: Members, cs: bool)
    requires DistinctKeys(ms, false) && DistinctKeys(ns, false) && ToMap(ms, true) == ToMap(ns, true)
    ensures SameRow(Sort(ms, cs), Sort(ns, cs))
  {
    hide Sort, ToMap, SameRow, StrictlySorted, DistinctKeys;
    DistinctInBoth(ms, cs);
    DistinctInBoth(ns, cs);
    DistinctInBoth(ms, true);
    DistinctInBoth(ns, true);
    SortedDistinct(ms, cs);
    SortedDistinct(ns, cs);
    SortKeepsMap(ms, cs, true);
    SortKeepsMap(ns, cs, true);
    SortedRows(Sort(ms, cs), Sort(ns, cs), cs);
  }

  /** One tree, but for the order of members. */
  ghost predicate SameTree(a: Json, b: Json) {
    Proper(a) && Proper(b) && Canon(a, true) == Canon(b, true)
  }

  /** With distinct keys, the same value exactly is the same value without regard to case. */
  lemma {:induction false} SameValueInBoth(a: Json, b: Json, mode: bool)
    requires WellKeyed(a, false) && WellKeyed(b, false) && Canon(a, true) == Canon(b, true)
    ensures Canon(a, mode) == Canon(b, mode)
    decreases a
  {
    if a.Array? && b.Array? {
      var es, fs := a.elems, b.elems;
      assert CanonSeq(es, true) == CanonSeq(fs, true);
      forall i | 0 <= i < |es| ensures Canon(es[i], mode) == Canon(fs[i], mode) {
        assert CanonSeq(es, true)[i] == CanonSeq(fs, true)[i];
        SameValueInBoth(es[i], fs[i], mode);
      }
      assert CanonSeq(es, mode) == CanonSeq(fs, mode);
    } else if a.Object? && b.Object? {
      hide Sort, ToMap;
      var s, t := Sort(a.members, true), Sort(b.members, true);
      SameSorted(a.members, b.members, true);
      SortMembership(a.members, true);
      SortMembership(b.members, true);
      forall i | 0 <= i < |s| ensures Fold(s[i].key, mode) == Fold(t[i].key, mode) && Canon(s[i].item, mode) == Canon(t[i].item, mode) {
        assert s[i] in a.members && t[i] in b.members;
        SameValueInBoth(s[i].item, t[i].item, mode);
      }
      SameItemsSameMap(s, t, mode);
      DistinctInBoth(a.members, mode);
      DistinctInBoth(b.members, mode);
      SortKeepsMap(a.members, true, mode);
      SortKeepsMap(b.members, true, mode);
    }
  }

  /** The comparison that sorts leaves the tree it found, but for the order of members. */
  lemma SettledSameTree(a: Json, b: Json, cs: bool)
    requires Proper(a)
    ensures SameTree(a, Settled(a, b, cs))
  {
    hide Settled, Canon, WellKeyed, Plain;
    WellKeyedInBoth(a, true);
    SettledKeepsValue(a, b, cs, false);
    SettledKeepsValue(a, b, cs, true);
  }

  lemma ProperInBoth(j: Json, mode: bool)
    requires Proper(j)
    ensures Printable(j) && WellKeyed(j, mode)
  {
    PlainIsPrintable(j);
    WellKeyedInBoth(j, mode);
  }

  lemma EqualToItself(j: Json, mode: bool)
    requires Proper(j)
    ensures WellKeyed(j, mode) && Equal(j, j, mode)
  {
    ProperInBoth(j, mode);
    EqualByValue(j, j, mode);
  }

  /** A document with the keys of another one: if those differ by more than case, so do its own. */
  lemma {:induction false} KeyedAlike(a: Json, b: Json)
    requires WellKeyed(a, true) && WellKeyed(b, false) && Canon(a, true) == Canon(b, true)
    ensures WellKeyed(a, false)
    decreases a
  {
    match a
    case Array(es) =>
      forall i | 0 <= i < |es| ensures WellKeyed(es[i], false) {
        assert CanonSeq(es, true)[i] == CanonSeq(b.elems, true)[i];
        KeyedAlike(es[i], b.elems[i]);
      }
    case Object(ms) =>
      hide ToMap, Canon;
      var ns := b.members;
      DistinctInBoth(ns, true);
      forall i | 0 <= i < |ms| ensures WellKeyed(ms[i].item, false) {
        var n := SameMemberOf(ms, ns, i);
        KeyedAlike(ms[i].item, ns[n].item);
      }
      forall i, k | 0 <= i < k < |ms| ensures Fold(ms[i].key, false) != Fold(ms[k].key, false) {
        var n := SameMemberOf(ms, ns, i);
        var o := SameMemberOf(ms, ns, k);
        assert Fold(ms[i].key, true) != Fold(ms[k].key, true);
      }
    case _ =>
  }

  lemma SameMemberOf(ms: Members, ns: Members, i: nat) returns (n: nat)
    requires i < |ms| && DistinctKeys(ms, true) && DistinctKeys(ns, true) && ToMap(ms, true) == ToMap(ns, true)
    ensures n < |ns| && ns[n].key == ms[i].key && Canon(ns[n].item, true) == Canon(ms[i].item, true)
  {
    hide ToMap, Canon;
    ToMapFirst(ms, true, i);
    ToMapKeys(ns, true, ms[i].key);
    n :| 0 <= n < |ns| && Fold(ns[n].key, true) == ms[i].key;
    ToMapFirst(ns, true, n);
  }
}
