/** `compare_json`: the comparison that sorts the members of both objects in place and then walks
    them in lock step. */
module SortedCompare {
  import opened CStrings
  import opened Json
  import opened KeySort
  import opened Compare

  /** What the walk decides, for any two documents. */
  ghost predicate SortedEqual(a: Json, b: Json, cs: bool)
    decreases a
  {
    SameType(a, b) &&
    match a
    case Number(n) => Saturated(n) == Saturated(b.n) && n == b.n
    case Text(s) => s == b.s
    case Array(es) => |es| == |b.elems| && forall i :: 0 <= i < |es| ==> SortedEqual(es[i], b.elems[i], cs)
    case Object(ms) =>
      SortMembership(ms, cs);
      var s, t := Sort(ms, cs), Sort(b.members, cs);
      |s| == |t| && forall i :: 0 <= i < |s| ==> SameMember(s[i], t[i], cs)
    case _ => true
  }

  ghost predicate SameMember(m: Keyed<Json>, n: Keyed<Json>, cs: bool)
    decreases m
  {
    KeyOrder(m.key, n.key, cs) == 0 && SortedEqual(m.item, n.item, cs)
  }

  /** The walk over elements gets to index `i` and compares there. */
  ghost predicate ElementReached(es: seq<Json>, fs: seq<Json>, i: nat, cs: bool) {
    i < |es| && i < |fs| && forall k :: 0 <= k < i ==> SortedEqual(es[k], fs[k], cs)
  }

  /** The walk over sorted members gets to index `i`, finds the same key and compares there. */
  ghost predicate MemberReached(s: Members, t: Members, i: nat, cs: bool) {
    i < |s| && i < |t| && KeyOrder(s[i].key, t[i].key, cs) == 0 &&
    forall k :: 0 <= k < i ==> SameMember(s[k], t[k], cs)
  }

  /** What is left of `a` after it has been compared with `b`. */
  ghost function Settled(a: Json, b: Json, cs: bool): (r: Json)
    decreases a
  {
    if a.Array? && b.Array? then
      var es, fs := a.elems, b.elems;
      Array(seq(|es|, i requires 0 <= i < |es| =>
        if ElementReached(es, fs, i, cs) then Settled(es[i], fs[i], cs) else es[i]))
    else if a.Object? && b.Object? then
      SortMembership(a.members, cs);
      var s, t := Sort(a.members, cs), Sort(b.members, cs);
      Object(seq(|s|, i requires 0 <= i < |s| =>
        if MemberReached(s, t, i, cs) then SettledMember(s[i], t[i], cs) else s[i]))
    else a
  }

  ghost function SettledMember(m: Keyed<Json>, n: Keyed<Json>, cs: bool): Keyed<Json>
    decreases m
  {
    Keyed(m.key, Settled(m.item, n.item, cs))
  }

  lemma {:induction false} SortedEqualSymmetric(a: Json, b: Json, cs: bool)
    ensures SortedEqual(a, b, cs) == SortedEqual(b, a, cs)
    decreases a
  {
    if a.Array? && b.Array? {
      forall i | 0 <= i < |a.elems| && i < |b.elems|
        ensures SortedEqual(a.elems[i], b.elems[i], cs) == SortedEqual(b.elems[i], a.elems[i], cs)
      {
        SortedEqualSymmetric(a.elems[i], b.elems[i], cs);
      }
    } else if a.Object? && b.Object? {
      SortMembership(a.members, cs);
      var s, t := Sort(a.members, cs), Sort(b.members, cs);
      forall i | 0 <= i < |s| && i < |t|
        ensures SortedEqual(s[i].item, t[i].item, cs) == SortedEqual(t[i].item, s[i].item, cs)
        ensures KeyOrder(s[i].key, t[i].key, cs) == -KeyOrder(t[i].key, s[i].key, cs)
      {
        SortedEqualSymmetric(s[i].item, t[i].item, cs);
        KeyOrderIsTotal(s[i].key, t[i].key, t[i].key, cs);
      }
    }
  }

  lemma SameMemberSymmetric(m: Keyed<Json>, n: Keyed<Json>, cs: bool)
    ensures SameMember(m, n, cs) == SameMember(n, m, cs)
    ensures KeyOrder(m.key, n.key, cs) == 0 <==> KeyOrder(n.key, m.key, cs) == 0
  {
    SortedEqualSymmetric(m.item, n.item, cs);
    KeyOrderIsTotal(m.key, n.key, n.key, cs);
  }

  lemma MemberReachedSymmetric(s: Members, t: Members, i: nat, cs: bool)
    ensures MemberReached(s, t, i, cs) == MemberReached(t, s, i, cs)
  {
    forall k | 0 <= k < |s| && k < |t|
      ensures SameMember(s[k], t[k], cs) == SameMember(t[k], s[k], cs)
      ensures KeyOrder(s[k].key, t[k].key, cs) == 0 <==> KeyOrder(t[k].key, s[k].key, cs) == 0
    {
      SameMemberSymmetric(s[k], t[k], cs);
    }
  }

  lemma ElementReachedSymmetric(es: seq<Json>, fs: seq<Json>, i: nat, cs: bool)
    ensures ElementReached(es, fs, i, cs) == ElementReached(fs, es, i, cs)
  {
    forall k | 0 <= k < |es| && k < |fs| ensures SortedEqual(es[k], fs[k], cs) == SortedEqual(fs[k], es[k], cs) {
      SortedEqualSymmetric(es[k], fs[k], cs);
    }
  }

  /** The comparison with its effect on both arguments. */
  method CompareJson(a: Json, b: Json, cs: bool) returns (same: bool, a': Json, b': Json)
    ensures same == SortedEqual(a, b, cs)
    ensures a' == Settled(a, b, cs) && b' == Settled(b, a, cs)
    decreases a
  {
    a', b' := a, b;
    if !SameType(a, b) {
      return false, a', b';
    }
    match a
    case Number(n) =>
      same := !(Saturated(n) != Saturated(b.n) || n != b.n);
    case Text(s) =>
      same := s == b.s;
    case Array(es) =>
      var es', fs';
      same, es', fs' := CompareElements(es, b.elems, cs);
      a', b' := Array(es'), Array(fs');
      assert a' == Settled(a, b, cs) && b' == Settled(b, a, cs);
    case Object(ms) =>
      var s, t := Sort(ms, cs), Sort(b.members, cs);
      SortMembership(ms, cs);
      var s', t';
      same, s', t' := WalkMembers(a, s, t, cs);
      a', b' := Object(s'), Object(t');
      assert a' == Settled(a, b, cs) && b' == Settled(b, a, cs);
    case _ =>
      same := true;
  }

  method CompareElements(es: seq<Json>, fs: seq<Json>, cs: bool) returns (same: bool, es': seq<Json>, fs': seq<Json>)
    ensures same == (|es| == |fs| && forall i :: 0 <= i < |es| ==> SortedEqual(es[i], fs[i], cs))
    ensures |es'| == |es| && |fs'| == |fs|
    ensures forall i :: 0 <= i < |es| ==> es'[i] == if ElementReached(es, fs, i, cs) then Settled(es[i], fs[i], cs) else es[i]
    ensures forall i :: 0 <= i < |fs| ==> fs'[i] == if ElementReached(fs, es, i, cs) then Settled(fs[i], es[i], cs) else fs[i]
    decreases es
  {
    forall i: nat ensures ElementReached(es, fs, i, cs) == ElementReached(fs, es, i, cs) {
      ElementReachedSymmetric(es, fs, i, cs);
    }
    es', fs' := es, fs;
    var i := 0;
    while i < |es| && i < |fs|
      invariant i <= |es| && i <= |fs| && |es'| == |es| && |fs'| == |fs|
      invariant forall k :: 0 <= k < i ==> SortedEqual(es[k], fs[k], cs)
      invariant forall k :: 0 <= k < |es| ==> es'[k] == if k < i then Settled(es[k], fs[k], cs) else es[k]
      invariant forall k :: 0 <= k < |fs| ==> fs'[k] == if k < i then Settled(fs[k], es[k], cs) else fs[k]
    {
      var identical, x, y := CompareJson(es[i], fs[i], cs);
      es', fs' := es'[i := x], fs'[i := y];
      if !identical {
        return false, es', fs';
      }
      i := i + 1;
    }
    return i == |es| && i == |fs|, es', fs';
  }

  /** The walk stopped in front of index `i`, or behind it. */
  lemma WalkEnds(s: Members, t: Members, i: nat, cs: bool)
    requires i <= |s| && i <= |t| && forall k :: 0 <= k < i ==> SameMember(s[k], t[k], cs)
    requires i < |s| && i < |t| ==> KeyOrder(s[i].key, t[i].key, cs) != 0
    ensures forall k: nat :: MemberReached(s, t, k, cs) <==> k < i
    ensures forall k: nat :: MemberReached(t, s, k, cs) <==> k < i
  {
    forall k: nat ensures (MemberReached(s, t, k, cs) <==> k < i) && (MemberReached(t, s, k, cs) <==> k < i) {
      MemberReachedSymmetric(s, t, k, cs);
    }
  }

  lemma WalkStops(s: Members, t: Members, i: nat, cs: bool)
    requires i < |s| && i < |t| && forall k :: 0 <= k < i ==> SameMember(s[k], t[k], cs)
    requires KeyOrder(s[i].key, t[i].key, cs) == 0 && !SameMember(s[i], t[i], cs)
    ensures forall k: nat :: MemberReached(s, t, k, cs) <==> k <= i
    ensures forall k: nat :: MemberReached(t, s, k, cs) <==> k <= i
  {
    forall k: nat ensures (MemberReached(s, t, k, cs) <==> k <= i) && (MemberReached(t, s, k, cs) <==> k <= i) {
      MemberReachedSymmetric(s, t, k, cs);
    }
  }

  method WalkMembers(ghost a: Json, s: Members, t: Members, cs: bool) returns (same: bool, s': Members, t': Members)
    requires forall i :: 0 <= i < |s| ==> s[i].item < a
    ensures same == (|s| == |t| && forall i :: 0 <= i < |s| ==> SameMember(s[i], t[i], cs))
    ensures |s'| == |s| && |t'| == |t|
    ensures forall i :: 0 <= i < |s| ==> s'[i] == if MemberReached(s, t, i, cs) then SettledMember(s[i], t[i], cs) else s[i]
    ensures forall i :: 0 <= i < |t| ==> t'[i] == if MemberReached(t, s, i, cs) then SettledMember(t[i], s[i], cs) else t[i]
    decreases a, 0
  {
    s', t' := s, t;
    var i := 0;
    while i < |s| && i < |t|
      invariant i <= |s| && i <= |t| && |s'| == |s| && |t'| == |t|
      invariant forall k :: 0 <= k < i ==> SameMember(s[k], t[k], cs)
      invariant forall k :: 0 <= k < |s| ==> s'[k] == if k < i then SettledMember(s[k], t[k], cs) else s[k]
      invariant forall k :: 0 <= k < |t| ==> t'[k] == if k < i then SettledMember(t[k], s[k], cs) else t[k]
    {
      var order := CompareStrings(Some(s[i].key), Some(t[i].key), cs);
      if order != 0 {
        WalkEnds(s, t, i, cs);
        return false, s', t';
      }
      var identical, x, y := CompareJson(s[i].item, t[i].item, cs);
      assert Keyed(s[i].key, x) == SettledMember(s[i], t[i], cs) && Keyed(t[i].key, y) == SettledMember(t[i], s[i], cs);
      s', t' := s'[i := Keyed(s[i].key, x)], t'[i := Keyed(t[i].key, y)];
      if !identical {
        WalkStops(s, t, i, cs);
        return false, s', t';
      }
      i := i + 1;
    }
    WalkEnds(s, t, i, cs);
    return i == |s| && i == |t|, s', t';
  }

  lemma {:induction false} SameItemsSameMap(s: Members, t: Members, cs: bool)
    requires |s| == |t|
    requires forall i :: 0 <= i < |s| ==> Fold(s[i].key, cs) == Fold(t[i].key, cs) && Canon(s[i].item, cs) == Canon(t[i].item, cs)
    ensures ToMap(s, cs) == ToMap(t, cs)
  {
    if s != [] {
      SameItemsSameMap(s[1..], t[1..], cs);
    }
  }

  ghost predicate KeepsValue(a: Json, a': Json, cs: bool) {
    Canon(a', cs) == Canon(a, cs) && WellKeyed(a', cs) && (Plain(a) ==> Plain(a'))
  }

  lemma ElementsKeepValue(es: seq<Json>, es': seq<Json>, cs: bool)
    requires |es| == |es'|
    requires forall i :: 0 <= i < |es| ==> KeepsValue(es[i], es'[i], cs)
    ensures KeepsValue(Array(es), Array(es'), cs)
  {
    assert CanonSeq(es, cs) == CanonSeq(es', cs);
  }

  lemma MembersKeepValue(ms: Members, s: Members, cs: bool, mode: bool)
    requires DistinctKeys(ms, mode) && |s| == |ms|
    requires forall i :: 0 <= i < |s| ==> Sort(ms, cs)[i].key == s[i].key && KeepsValue(Sort(ms, cs)[i].item, s[i].item, mode)
    ensures KeepsValue(Object(ms), Object(s), mode)
  {
    hide Sort, ToMap, Fold;
    var t := Sort(ms, cs);
    SortMembership(ms, cs);
    SortKeepsMap(ms, cs, mode);
    SameItemsSameMap(t, s, mode);
    forall i | 0 <= i < |ms| && Plain(Object(ms)) ensures Plain(s[i].item) {
      assert t[i] in ms;
    }
    forall i, j | 0 <= i < j < |s| ensures Fold(s[i].key, mode) != Fold(s[j].key, mode) {
      assert Fold(t[i].key, mode) != Fold(t[j].key, mode);
    }
  }

  /** Sorting in place, by either order, keeps the value of a document in either case mode, and every
      property the library relies on. */
  lemma {:induction false} SettledKeepsValue(a: Json, b: Json, cs: bool, mode: bool)
    requires WellKeyed(a, mode)
    ensures KeepsValue(a, Settled(a, b, cs), mode)
    decreases a
  {
    if a.Array? && b.Array? {
      hide ElementReached, KeepsValue;
      var es, fs := a.elems, b.elems;
      forall i | 0 <= i < |es| ensures KeepsValue(es[i], Settled(a, b, cs).elems[i], mode) {
        if ElementReached(es, fs, i, cs) {
          SettledKeepsValue(es[i], fs[i], cs, mode);
        } else {
          KeepsItself(es[i], mode);
        }
      }
      ElementsKeepValue(es, Settled(a, b, cs).elems, mode);
    } else if a.Object? && b.Object? {
      hide MemberReached, KeepsValue, Sort;
      SortMembership(a.members, cs);
      var s, t, u := Sort(a.members, cs), Sort(b.members, cs), Settled(a, b, cs).members;
      forall i | 0 <= i < |s| ensures s[i].key == u[i].key && KeepsValue(s[i].item, u[i].item, mode) {
        assert s[i] in a.members;
        if MemberReached(s, t, i, cs) {
          SettledKeepsValue(s[i].item, t[i].item, cs, mode);
          assert u[i] == SettledMember(s[i], t[i], cs);
        } else {
          KeepsItself(s[i].item, mode);
          assert u[i] == s[i];
        }
      }
      MembersKeepValue(a.members, u, cs, mode);
    } else {
      KeepsItself(a, mode);
    }
  }

  lemma KeepsItself(a: Json, mode: bool)
    requires WellKeyed(a, mode)
    ensures KeepsValue(a, a, mode)
  {
  }

  ghost predicate SamePlaces(s: Members, t: Members, cs: bool) {
    |s| == |t| &&
    forall i :: 0 <= i < |s| ==> Fold(s[i].key, cs) == Fold(t[i].key, cs) && Canon(s[i].item, cs) == Canon(t[i].item, cs)
  }

  lemma SamePlacesCons(s: Members, t: Members, cs: bool)
    requires s != [] && t != [] && SamePlaces(s[1..], t[1..], cs)
    requires Fold(s[0].key, cs) == Fold(t[0].key, cs) && Canon(s[0].item, cs) == Canon(t[0].item, cs)
    ensures SamePlaces(s, t, cs)
  {
    forall i | 0 < i < |s| ensures Fold(s[i].key, cs) == Fold(t[i].key, cs) && Canon(s[i].item, cs) == Canon(t[i].item, cs) {
      assert s[i] == s[1..][i-1] && t[i] == t[1..][i-1];
    }
  }

  lemma SameHeads(s: Members, t: Members, cs: bool)
    requires s != [] && t != []
    requires StrictlySorted(s, cs) && StrictlySorted(t, cs) && DistinctKeys(s, cs) && DistinctKeys(t, cs)
    requires ToMap(s, cs) == ToMap(t, cs)
    ensures Fold(s[0].key, cs) == Fold(t[0].key, cs) && Canon(s[0].item, cs) == Canon(t[0].item, cs)
    ensures ToMap(s[1..], cs) == ToMap(t[1..], cs)
  {
    HeadNotAbove(s, t, cs);
    HeadNotAbove(t, s, cs);
    KeyOrderIsTotal(s[0].key, t[0].key, t[0].key, cs);
    ToMapFirst(s, cs, 0);
    ToMapFirst(t, cs, 0);
    ToMapRemove(s, cs, 0);
    ToMapRemove(t, cs, 0);
    assert RemoveAt(s, 0) == s[1..] && RemoveAt(t, 0) == t[1..];
  }

  /** Two strictly sorted lists are the same map only when they agree place by place. */
  lemma {:induction false} SameMapSamePlaces(s: Members, t: Members, cs: bool)
    requires StrictlySorted(s, cs) && StrictlySorted(t, cs) && DistinctKeys(s, cs) && DistinctKeys(t, cs)
    requires ToMap(s, cs) == ToMap(t, cs)
    ensures SamePlaces(s, t, cs)
  {
    if s == [] || t == [] {
      if s != [] { ToMapFirst(s, cs, 0); }
      if t != [] { ToMapFirst(t, cs, 0); }
    } else {
      SameHeads(s, t, cs);
      SameMapSamePlaces(s[1..], t[1..], cs);
      SamePlacesCons(s, t, cs);
    }
  }

  lemma HeadNotAbove(s: Members, t: Members, cs: bool)
    requires s != [] && t != [] && StrictlySorted(s, cs) && ToMap(s, cs) == ToMap(t, cs)
    ensures KeyOrder(s[0].key, t[0].key, cs) <= 0
  {
    ToMapFirst(t, cs, 0);
    ToMapKeys(s, cs, Fold(t[0].key, cs));
    var i :| 0 <= i < |s| && Fold(s[i].key, cs) == Fold(t[0].key, cs);
    KeyOrderIsTotal(s[0].key, s[i].key, t[0].key, cs);
    KeyOrderIsTotal(s[i].key, t[0].key, t[0].key, cs);
  }

  /** On plain documents with distinct keys the walk decides equality of the values. */
  lemma {:induction false} SortedEqualIffSameValue(a: Json, b: Json, cs: bool)
    requires Plain(a) && Plain(b) && WellKeyed(a, cs) && WellKeyed(b, cs)
    ensures SortedEqual(a, b, cs) <==> Canon(a, cs) == Canon(b, cs)
    decreases a
  {
    if a.Array? && b.Array? {
      var es, fs := a.elems, b.elems;
      forall i | 0 <= i < |es| && i < |fs| ensures SortedEqual(es[i], fs[i], cs) <==> Canon(es[i], cs) == Canon(fs[i], cs) {
        SortedEqualIffSameValue(es[i], fs[i], cs);
      }
      assert Canon(a, cs) == Canon(b, cs) <==> CanonSeq(es, cs) == CanonSeq(fs, cs);
    } else if a.Object? && b.Object? {
      SortedObjectIffSameValue(a, b, cs);
    }
  }

  lemma {:induction false} SortedObjectIffSameValue(a: Json, b: Json, cs: bool)
    requires a.Object? && b.Object? && Plain(a) && Plain(b) && WellKeyed(a, cs) && WellKeyed(b, cs)
    ensures SortedEqual(a, b, cs) <==> Canon(a, cs) == Canon(b, cs)
    decreases a, 0
  {
    var s, t := Sort(a.members, cs), Sort(b.members, cs);
    SortedDistinct(a.members, cs);
    SortedDistinct(b.members, cs);
    SortMembership(a.members, cs);
    SortMembership(b.members, cs);
    SortKeepsMap(a.members, cs, cs);
    SortKeepsMap(b.members, cs, cs);
    forall i | 0 <= i < |s| && i < |t|
      ensures SortedEqual(s[i].item, t[i].item, cs) <==> Canon(s[i].item, cs) == Canon(t[i].item, cs)
      ensures KeyOrder(s[i].key, t[i].key, cs) == 0 <==> Fold(s[i].key, cs) == Fold(t[i].key, cs)
    {
      SortedEqualIffSameValue(s[i].item, t[i].item, cs);
      KeyOrderIsTotal(s[i].key, t[i].key, t[i].key, cs);
    }
    if SortedEqual(a, b, cs) {
      forall i | 0 <= i < |s| ensures Fold(s[i].key, cs) == Fold(t[i].key, cs) && Canon(s[i].item, cs) == Canon(t[i].item, cs) {
        assert SameMember(s[i], t[i], cs);
      }
      SameItemsSameMap(s, t, cs);
    } else if ToMap(s, cs) == ToMap(t, cs) {
      SameMapSamePlaces(s, t, cs);
      forall i | 0 <= i < |s| ensures SameMember(s[i], t[i], cs) {
      }
      assert false;
    }
  }

  /** The sort-then-walk comparison refines the quadratic one. */
  lemma SortedEqualIffEqual(a: Json, b: Json, cs: bool)
    requires Plain(a) && Plain(b) && WellKeyed(a, cs) && WellKeyed(b, cs)
    ensures SortedEqual(a, b, cs) <==> Equal(a, b, cs)
  {
    SortedEqualIffSameValue(a, b, cs);
    PlainIsPrintable(a);
    PlainIsPrintable(b);
    EqualIffSameValue(a, b, cs);
  }
}
