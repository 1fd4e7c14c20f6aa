/** Where a generated merge patch leads to its target, and where it does not. */
module MergeRoundTrip {
  import opened CStrings
  import opened Json
  import opened KeySort
  import opened Compare
  import opened SortedCompare
  import opened Reordering
  import opened MergePatch
  import opened MergePatchGeneration

  // When the patch leads to the target

  /** No object reached through objects only has a null member. */
  ghost predicate NoNullMembers(j: Json) {
    j.Object? ==> forall i :: 0 <= i < |j.members| ==> !j.members[i].item.Null? && NoNullMembers(j.members[i].item)
  }

  /** The patch generated with the key order of one case mode does what it should when it is merged in
      another one. Both lists are walked as the generator walks them. */
  ghost predicate Harmless(from: Json, to: Json, cs: bool, mode: bool)
    decreases Nesting(from), 0
  {
    if !to.Object? then true
    else if !from.Object? then NoNullMembers(to)
    else
      SortNesting(from.members, cs);
      HarmlessWalk(Sort(from.members, cs), Sort(to.members, cs), cs, mode)
  }

  ghost predicate HarmlessWalk(s: Members, t: Members, cs: bool, mode: bool)
    decreases DeepestMember(s), |s| + |t|
  {
    if s == [] && t == [] then true
    else
      var diff := MergeOrder(s, t);
      if diff < 0 then HarmlessWalk(s[1..], t, cs, mode)
      else if diff > 0 then HarmlessAlone(s, t[0], mode) && HarmlessWalk(s, t[1..], cs, mode)
      else HarmlessBoth(s[0], t[0], cs, mode) && HarmlessWalk(s[1..], t[1..], cs, mode)
  }

  /** A member of the target that the walk passes alone holds no null, and no key of the source that is
      still to come, and to be removed, is the same to the merge. */
  ghost predicate HarmlessAlone(s: Members, n: Keyed<Json>, mode: bool) {
    !n.item.Null? && NoNullMembers(n.item) && FindKey(s, n.key, mode) == |s|
  }

  /** Where both have the key, values that are found equal are equal to the merge too, and others can be patched. */
  ghost predicate HarmlessBoth(m: Keyed<Json>, n: Keyed<Json>, cs: bool, mode: bool)
    decreases Nesting(m.item), 1
  {
    if SortedEqual(m.item, n.item, cs) then SortedEqual(m.item, n.item, mode)
    else !n.item.Null? && Harmless(m.item, n.item, false, mode)
  }

  // It does not depend on the order of members

  lemma {:induction false} NoNullByValue(j: Json, mode: bool)
    requires WellKeyed(j, mode)
    ensures NoNullMembers(j) <==> NoNullValues(Canon(j, mode))
    decreases j
  {
    if j.Object? {
      hide WellKeyed, ToMap;
      var ms, m := j.members, ToMap(j.members, mode);
      MembersWellKeyed(j, mode);
      forall i | 0 <= i < |ms|
        ensures Fold(ms[i].key, mode) in m && m[Fold(ms[i].key, mode)] == Canon(ms[i].item, mode)
        ensures ms[i].item.Null? <==> Canon(ms[i].item, mode).VNull?
        ensures NoNullMembers(ms[i].item) <==> NoNullValues(Canon(ms[i].item, mode))
      {
        ToMapFirst(ms, mode, i);
        NoNullByValue(ms[i].item, mode);
      }
      forall k | k in m ensures exists i :: 0 <= i < |ms| && Fold(ms[i].key, mode) == k {
        ToMapKeys(ms, mode, k);
      }
    }
  }

  lemma MembersWellKeyed(j: Json, mode: bool)
    requires j.Object? && WellKeyed(j, mode)
    ensures DistinctKeys(j.members, mode) && forall i :: 0 <= i < |j.members| ==> WellKeyed(j.members[i].item, mode)
  {
  }

  ghost predicate NoNullValues(v: Val) {
    v.VObject? ==> forall k :: k in v.entries ==> !v.entries[k].VNull? && NoNullValues(v.entries[k])
  }

  ghost predicate ProperMembers(ms: Members) {
    DistinctKeys(ms, false) && forall i :: 0 <= i < |ms| ==> Proper(ms[i].item)
  }

  lemma SortedProper(ms: Members, cs: bool)
    requires ProperMembers(ms)
    ensures ProperMembers(Sort(ms, cs))
  {
    hide Sort, ToMap, Proper;
    SortMembership(ms, cs);
    SortKeepsMap(ms, cs, false);
    forall i | 0 <= i < |ms| ensures Proper(Sort(ms, cs)[i].item) {
      assert Sort(ms, cs)[i] in ms;
    }
  }

  lemma ProperTail(ms: Members)
    requires ms != [] && ProperMembers(ms)
    ensures Proper(ms[0].item) && ProperMembers(ms[1..])
  {
    hide Proper, Fold;
  }

  lemma RowTail(s: Members, t: Members)
    requires s != [] && SameRow(s, t)
    ensures t != [] && s[0].key == t[0].key && Canon(s[0].item, true) == Canon(t[0].item, true) && SameRow(s[1..], t[1..])
  {
    hide Canon;
  }

  lemma {:induction false} SameFindInRow(s: Members, t: Members, key: CStr, mode: bool)
    requires SameRow(s, t)
    ensures FindKey(s, key, mode) == FindKey(t, key, mode)
  {
    if s != [] {
      hide SameRow, Fold;
      RowTail(s, t);
      SameFindInRow(s[1..], t[1..], key, mode);
    }
  }

  lemma {:induction false} HarmlessInOrder(a: Json, b: Json, c: Json, d: Json, cs: bool, mode: bool)
    requires SameTree(a, c) && SameTree(b, d)
    ensures Harmless(a, b, cs, mode) <==> Harmless(c, d, cs, mode)
    decreases Nesting(a), 0
  {
    hide Sort, ToMap, HarmlessWalk, Plain, WellKeyed, NoNullMembers, SameRow, DeepestMember;
    if b.Object? {
      if a.Object? {
        ProperObject(a);
        ProperObject(b);
        ProperObject(c);
        ProperObject(d);
        SameSorted(a.members, c.members, cs);
        SameSorted(b.members, d.members, cs);
        SortedProper(a.members, cs);
        SortedProper(b.members, cs);
        SortedProper(c.members, cs);
        SortedProper(d.members, cs);
        SortNesting(a.members, cs);
        WalkInOrder(Sort(a.members, cs), Sort(b.members, cs), Sort(c.members, cs), Sort(d.members, cs), cs, mode);
      } else {
        NoNullInOrder(b, d);
      }
    }
  }

  lemma ProperObject(j: Json)
    requires j.Object? && Proper(j)
    ensures ProperMembers(j.members)
  {
  }

  lemma NoNullInOrder(b: Json, d: Json)
    requires SameTree(b, d)
    ensures NoNullMembers(b) <==> NoNullMembers(d)
  {
    hide NoNullMembers, NoNullValues, WellKeyed, Canon, Plain;
    SameValueInBoth(b, d, false);
    NoNullByValue(b, false);
    NoNullByValue(d, false);
  }

  ghost predicate Rows(s: Members, t: Members) {
    SameRow(s, t) && ProperMembers(s) && ProperMembers(t)
  }

  lemma RowsTail(s: Members, t: Members)
    requires s != [] && Rows(s, t)
    ensures t != [] && s[0].key == t[0].key && SameTree(s[0].item, t[0].item) && Rows(s[1..], t[1..])
  {
    hide SameRow, ProperMembers, Plain, WellKeyed, Canon;
    RowTail(s, t);
    ProperTail(s);
    ProperTail(t);
  }

  lemma {:induction false} WalkInOrder(s: Members, t: Members, u: Members, v: Members, cs: bool, mode: bool)
    requires Rows(s, u) && Rows(t, v)
    ensures HarmlessWalk(s, t, cs, mode) <==> HarmlessWalk(u, v, cs, mode)
    decreases DeepestMember(s), |s| + |t|
  {
    hide Rows, HarmlessBoth, Diff, FindKey, NoNullMembers, Canon, Nesting;
    RowsLength(s, u);
    RowsLength(t, v);
    if s != [] {
      RowsTail(s, u);
    }
    if t != [] {
      RowsTail(t, v);
    }
    if s != [] || t != [] {
      var diff := MergeOrder(s, t);
      if diff < 0 {
        WalkInOrder(s[1..], t, u[1..], v, cs, mode);
      } else if diff > 0 {
        SameNull(t[0].item, v[0].item);
        NoNullInOrder(t[0].item, v[0].item);
        SameFindInRow(s, u, t[0].key, mode);
        WalkInOrder(s, t[1..], u, v[1..], cs, mode);
      } else {
        BothInOrder(s[0], t[0], u[0], v[0], cs, mode);
        WalkInOrder(s[1..], t[1..], u[1..], v[1..], cs, mode);
      }
    }
  }

  lemma RowsLength(s: Members, t: Members)
    requires Rows(s, t)
    ensures |s| == |t| && SameRow(s, t)
  {
  }

  lemma {:induction false} BothInOrder(m: Keyed<Json>, n: Keyed<Json>, o: Keyed<Json>, p: Keyed<Json>, cs: bool, mode: bool)
    requires SameTree(m.item, o.item) && SameTree(n.item, p.item)
    ensures HarmlessBoth(m, n, cs, mode) <==> HarmlessBoth(o, p, cs, mode)
    decreases Nesting(m.item), 1
  {
    hide SortedEqual, Harmless, SameTree;
    SameComparison(m.item, n.item, o.item, p.item, cs);
    SameComparison(m.item, n.item, o.item, p.item, mode);
    SameNull(n.item, p.item);
    HarmlessInOrder(m.item, n.item, o.item, p.item, false, mode);
  }

  lemma SameNull(a: Json, b: Json)
    requires SameTree(a, b)
    ensures a.Null? <==> b.Null?
  {
  }

  lemma SameComparison(a: Json, b: Json, c: Json, d: Json, cs: bool)
    requires SameTree(a, c) && SameTree(b, d)
    ensures SortedEqual(a, b, cs) <==> SortedEqual(c, d, cs)
  {
    hide SortedEqual, Canon, WellKeyed, Plain;
    SameValueInBoth(a, c, cs);
    SameValueInBoth(b, d, cs);
    WellKeyedInBoth(a, cs);
    WellKeyedInBoth(b, cs);
    WellKeyedInBoth(c, cs);
    WellKeyedInBoth(d, cs);
    SortedEqualIffSameValue(a, b, cs);
    SortedEqualIffSameValue(c, d, cs);
  }

  // What the generated patch does

  lemma {:induction false} MergeIntoNothing(target: Option<Val>, v: Val)
    requires target.Some? ==> !target.value.VObject?
    ensures MergeValue(target, v) == v <==> NoNullValues(v)
    decreases v
  {
    if v.VObject? {
      forall k | k in v.entries ensures MergeValue(None, v.entries[k]) == v.entries[k] <==> NoNullValues(v.entries[k]) {
        MergeIntoNothing(None, v.entries[k]);
      }
      var r := MergeValue(target, v).entries;
      if MergeValue(target, v) == v {
        forall k | k in v.entries ensures !v.entries[k].VNull? && NoNullValues(v.entries[k]) {
          assert k in r && r[k] == MergeValue(None, v.entries[k]);
        }
      }
    }
  }

  /** A value copied into the patch arrives as it is exactly when it has no null member. */
  lemma AddedValue(target: Option<Val>, j: Json, mode: bool)
    requires WellKeyed(j, mode) && (target.Some? ==> !target.value.VObject?)
    ensures PatchValue(target, j, mode) == Canon(j, mode) <==> NoNullMembers(j)
  {
    hide PatchValue, MergeValue, NoNullMembers, NoNullValues, WellKeyed, Canon;
    PatchValueMeaning(target, j, mode);
    MergeIntoNothing(target, Canon(j, mode));
    NoNullByValue(j, mode);
  }

  lemma {:induction false} PatchesInTurn(base: map<CStr, Val>, a: Members, b: Members, mode: bool)
    ensures PatchEntries(base, a + b, mode) == PatchEntries(PatchEntries(base, a, mode), b, mode)
    decreases |a|
  {
    if a == [] {
      assert a + b == b;
    } else {
      hide PatchEntry;
      assert (a + b)[1..] == a[1..] + b;
      PatchesInTurn(PatchEntry(base, a[0], mode), a[1..], b, mode);
    }
  }

  lemma OnePatch(base: map<CStr, Val>, p: Keyed<Json>, rest: Members, mode: bool)
    ensures PatchEntries(base, [p] + rest, mode) == PatchEntries(PatchEntry(base, p, mode), rest, mode)
  {
    hide PatchEntry;
    assert ([p] + rest)[1..] == rest;
  }

  /** The map after the members generated for two lists have been merged in. */
  ghost function Walked(base: map<CStr, Val>, s: Members, t: Members, cs: bool, mode: bool): map<CStr, Val> {
    PatchEntries(base, MergeWalk(s, t, cs), mode)
  }

  /** And after what is generated for the first key. */
  ghost function Turned(base: map<CStr, Val>, s: Members, t: Members, cs: bool, mode: bool): map<CStr, Val>
    requires s != [] || t != []
  {
    var diff := MergeOrder(s, t);
    if diff < 0 then base - {Fold(s[0].key, mode)}
    else if diff > 0 then PatchEntry(base, t[0], mode)
    else PatchEntries(base, MergeBoth(s[0], t[0], cs), mode)
  }

  lemma WalkOneTurn(base: map<CStr, Val>, s: Members, t: Members, cs: bool, mode: bool)
    requires s != [] || t != []
    ensures var diff, next := MergeOrder(s, t), Turned(base, s, t, cs, mode);
            Walked(base, s, t, cs, mode) ==
            if diff < 0 then Walked(next, s[1..], t, cs, mode)
            else if diff > 0 then Walked(next, s, t[1..], cs, mode)
            else Walked(next, s[1..], t[1..], cs, mode)
  {
    hide MergeBoth, PatchEntries, Diff;
    var diff := MergeOrder(s, t);
    if diff < 0 {
      OnePatch(base, Keyed(s[0].key, Null), MergeWalk(s[1..], t, cs), mode);
    } else if diff > 0 {
      OnePatch(base, t[0], MergeWalk(s, t[1..], cs), mode);
    } else {
      PatchesInTurn(base, MergeBoth(s[0], t[0], cs), MergeWalk(s[1..], t[1..], cs), mode);
    }
  }

  lemma OtherEntry(base: map<CStr, Val>, p: Keyed<Json>, mode: bool, k: CStr)
    requires k != Fold(p.key, mode)
    ensures EntryUnder(PatchEntry(base, p, mode), k) == EntryUnder(base, k)
  {
    hide PatchValue, Fold;
  }

  lemma BothKey(m: Keyed<Json>, n: Keyed<Json>, cs: bool)
    ensures var b := MergeBoth(m, n, cs); |b| <= 1 && forall i :: 0 <= i < |b| ==> b[i].key == n.key
  {
    hide MergeDiff, Settled, SortedEqual;
  }

  /** One turn changes nothing but the entry of its key. */
  lemma TurnLeavesAlone(base: map<CStr, Val>, s: Members, t: Members, cs: bool, mode: bool, k: CStr)
    requires s != [] || t != []
    requires MergeOrder(s, t) < 0 ==> k != Fold(s[0].key, mode)
    requires MergeOrder(s, t) >= 0 ==> k != Fold(t[0].key, mode)
    ensures EntryUnder(Turned(base, s, t, cs, mode), k) == EntryUnder(base, k)
  {
    hide MergeBoth, PatchEntry, Fold, Diff;
    if MergeOrder(s, t) > 0 {
      OtherEntry(base, t[0], mode, k);
    } else if MergeOrder(s, t) == 0 {
      BothKey(s[0], t[0], cs);
      var b := MergeBoth(s[0], t[0], cs);
      if b != [] {
        OtherEntry(base, b[0], mode, k);
        assert b == [b[0]] + [];
        OnePatch(base, b[0], [], mode);
      }
    }
  }

  lemma KeyOfHead(ms: Members, mode: bool, k: CStr)
    requires ms != []
    ensures k in ToMap(ms, mode) <==> k == Fold(ms[0].key, mode) || k in ToMap(ms[1..], mode)
  {
    hide Fold, Canon;
  }

  /** The walk does not touch what neither list names. */
  lemma {:induction false} WalkLeavesAlone(base: map<CStr, Val>, s: Members, t: Members, cs: bool, mode: bool, k: CStr)
    requires k !in ToMap(s, mode) && k !in ToMap(t, mode)
    ensures EntryUnder(Walked(base, s, t, cs, mode), k) == EntryUnder(base, k)
    decreases |s| + |t|
  {
    hide ToMap, Walked, Turned, Fold, Diff;
    if s == [] && t == [] {
      NothingWalked(base, cs, mode);
    } else {
      if s != [] { KeyOfHead(s, mode, k); }
      if t != [] { KeyOfHead(t, mode, k); }
      var diff, next := MergeOrder(s, t), Turned(base, s, t, cs, mode);
      WalkOneTurn(base, s, t, cs, mode);
      TurnLeavesAlone(base, s, t, cs, mode, k);
      if diff < 0 {
        WalkLeavesAlone(next, s[1..], t, cs, mode, k);
      } else if diff > 0 {
        WalkLeavesAlone(next, s, t[1..], cs, mode, k);
      } else {
        WalkLeavesAlone(next, s[1..], t[1..], cs, mode, k);
      }
    }
  }

  lemma NothingWalked(base: map<CStr, Val>, cs: bool, mode: bool)
    ensures Walked(base, [], [], cs, mode) == base
  {
  }

  /** A key only the source still has is removed, whatever was set under it before. */
  lemma {:induction false} WalkRemoves(base: map<CStr, Val>, s: Members, t: Members, cs: bool, mode: bool, k: CStr)
    requires k in ToMap(s, mode) && k !in ToMap(t, mode) && DistinctKeys(s, mode)
    ensures EntryUnder(Walked(base, s, t, cs, mode), k).None?
    decreases |s| + |t|
  {
    hide ToMap, Walked, Fold, Diff, MergeBoth, PatchEntry, PatchEntries, DistinctKeys;
    if s == [] {
      NoMembers(s);
    } else {
      KeyOfHead(s, mode, k);
      if t != [] { KeyOfHead(t, mode, k); }
      HeadNotInTail(s, mode);
      var diff, next := MergeOrder(s, t), Turned(base, s, t, cs, mode);
      WalkOneTurn(base, s, t, cs, mode);
      if diff < 0 {
        if k == Fold(s[0].key, mode) {
          WalkLeavesAlone(next, s[1..], t, cs, mode, k);
        } else {
          WalkRemoves(next, s[1..], t, cs, mode, k);
        }
      } else if diff > 0 {
        WalkRemoves(next, s, t[1..], cs, mode, k);
      } else {
        DiffZeroIffEqual(s[0].key, t[0].key);
        WalkRemoves(next, s[1..], t[1..], cs, mode, k);
      }
    }
  }

  lemma NoMembers(s: Members)
    requires s == []
    ensures ToMap(s, true) == ToMap(s, false) == map[]
  {
  }

  /** Where the walk stands: what the source still has is as it was, and what only the target still has is not there. */
  ghost predicate Ready(base: map<CStr, Val>, s: map<CStr, Val>, t: map<CStr, Val>) {
    (forall k :: k in s ==> EntryUnder(base, k) == Some(s[k])) && forall k :: k in t && k !in s ==> k !in base
  }

  /** On the keys of two lists, the map is the second of them. */
  ghost predicate Settles(r: map<CStr, Val>, s: map<CStr, Val>, t: map<CStr, Val>) {
    forall k :: k in s || k in t ==> EntryUnder(r, k) == EntryUnder(t, k)
  }

  lemma ReadyBehind(base: map<CStr, Val>, next: map<CStr, Val>, s: map<CStr, Val>, t: map<CStr, Val>, k: CStr, v: Val, w: Val)
    requires k !in s && k !in t && forall l :: l != k ==> EntryUnder(next, l) == EntryUnder(base, l)
    ensures Ready(base, s[k := v], t[k := w]) ==> Ready(next, s, t)
    ensures Ready(base, s, t[k := w]) ==> Ready(next, s, t)
  {
    forall l | l in s && (Ready(base, s[k := v], t[k := w]) || Ready(base, s, t[k := w])) ensures EntryUnder(next, l) == Some(s[l]) {
      assert l in s[k := v] && s[k := v][l] == s[l] && EntryUnder(next, l) == EntryUnder(base, l);
    }
    forall l | l in t && l !in s && (Ready(base, s[k := v], t[k := w]) || Ready(base, s, t[k := w])) ensures l !in next {
      assert l in t[k := w] && l !in s[k := v] && EntryUnder(next, l) == EntryUnder(base, l);
    }
  }

  lemma SourceHeadDone(base: map<CStr, Val>, r: map<CStr, Val>, s: map<CStr, Val>, t: map<CStr, Val>, k: CStr, v: Val)
    requires k !in s && Ready(base, s[k := v], t) && (k !in t ==> EntryUnder(r, k).None?)
    ensures Ready(base - {k}, s, t)
    ensures Settles(r, s[k := v], t) <==> Settles(r, s, t)
  {
    forall l | l in s ensures EntryUnder(base - {k}, l) == Some(s[l]) {
      assert l in s[k := v];
    }
    forall l | l in t && l !in s ensures l !in base - {k} {
      assert l != k ==> l !in s[k := v];
    }
  }

  lemma TargetHeadDone(r: map<CStr, Val>, s: map<CStr, Val>, t: map<CStr, Val>, k: CStr, w: Val)
    requires k !in t
    ensures k !in s ==> (Settles(r, s, t[k := w]) <==> Settles(r, s, t) && EntryUnder(r, k) == Some(w))
    ensures k in s && EntryUnder(r, k).None? ==> !Settles(r, s, t[k := w])
  {
    if k !in s && Settles(r, s, t[k := w]) {
      forall l | l in s || l in t ensures EntryUnder(r, l) == EntryUnder(t, l) {
        assert l in s || l in t[k := w];
      }
      assert k in t[k := w];
    }
    if k in s {
      assert k in t[k := w];
    }
  }

  lemma BothHeadsDone(r: map<CStr, Val>, s: map<CStr, Val>, t: map<CStr, Val>, k: CStr, v: Val, w: Val)
    requires k !in s && k !in t
    ensures Settles(r, s[k := v], t[k := w]) <==> Settles(r, s, t) && EntryUnder(r, k) == Some(w)
  {
    if Settles(r, s[k := v], t[k := w]) {
      forall l | l in s || l in t ensures EntryUnder(r, l) == EntryUnder(t, l) {
        assert l in s[k := v] || l in t[k := w];
      }
      assert k in t[k := w];
    }
  }

  lemma HeadOfProper(ms: Members, mode: bool)
    requires ms != [] && ProperMembers(ms)
    ensures var k := Fold(ms[0].key, mode);
            k !in ToMap(ms[1..], mode) && ToMap(ms, mode) == ToMap(ms[1..], mode)[k := Canon(ms[0].item, mode)]
    ensures DistinctKeys(ms, mode) && Proper(ms[0].item) && WellKeyed(ms[0].item, mode) && ProperMembers(ms[1..])
  {
    hide Fold, Canon, Plain, WellKeyed;
    DistinctInBoth(ms, mode);
    HeadNotInTail(ms, mode);
    ProperTail(ms);
    WellKeyedInBoth(ms[0].item, mode);
  }

  /** The walk leads to the target exactly when it does no harm. */
  lemma {:induction false} WalkReaches(base: map<CStr, Val>, s: Members, t: Members, cs: bool, mode: bool)
    requires ProperMembers(s) && ProperMembers(t) && Ready(base, ToMap(s, mode), ToMap(t, mode))
    ensures Settles(Walked(base, s, t, cs, mode), ToMap(s, mode), ToMap(t, mode)) <==> HarmlessWalk(s, t, cs, mode)
    decreases DeepestMember(s), |s| + |t|, 1
  {
    if s == [] && t == [] {
    } else if MergeOrder(s, t) < 0 {
      SourceAlone(base, s, t, cs, mode);
    } else if MergeOrder(s, t) > 0 {
      TargetAlone(base, s, t, cs, mode);
    } else {
      BothHaveIt(base, s, t, cs, mode);
    }
  }

  lemma {:induction false} SourceAlone(base: map<CStr, Val>, s: Members, t: Members, cs: bool, mode: bool)
    requires ProperMembers(s) && ProperMembers(t) && Ready(base, ToMap(s, mode), ToMap(t, mode))
    requires s != [] && MergeOrder(s, t) < 0
    ensures Settles(Walked(base, s, t, cs, mode), ToMap(s, mode), ToMap(t, mode)) <==> HarmlessWalk(s, t, cs, mode)
    decreases DeepestMember(s), |s| + |t|, 0
  {
    hide ToMap, Walked, Fold, Diff, ProperMembers, Ready, Settles, PatchEntry, PatchEntries, MergeBoth, HarmlessBoth, HarmlessAlone;
    var k, next := Fold(s[0].key, mode), Turned(base, s, t, cs, mode);
    var r := Walked(next, s[1..], t, cs, mode);
    HeadOfProper(s, mode);
    WalkOneTurn(base, s, t, cs, mode);
    if k !in ToMap(t, mode) {
      WalkLeavesAlone(next, s[1..], t, cs, mode, k);
    }
    SourceHeadDone(base, r, ToMap(s[1..], mode), ToMap(t, mode), k, Canon(s[0].item, mode));
    DeepestTail(s);
    WalkReaches(next, s[1..], t, cs, mode);
  }

  lemma DeepestTail(s: Members)
    requires s != []
    ensures DeepestMember(s[1..]) <= DeepestMember(s) && Nesting(s[0].item) <= DeepestMember(s)
  {
  }

  lemma {:induction false} TargetAlone(base: map<CStr, Val>, s: Members, t: Members, cs: bool, mode: bool)
    requires ProperMembers(s) && ProperMembers(t) && Ready(base, ToMap(s, mode), ToMap(t, mode))
    requires t != [] && MergeOrder(s, t) > 0
    ensures Settles(Walked(base, s, t, cs, mode), ToMap(s, mode), ToMap(t, mode)) <==> HarmlessWalk(s, t, cs, mode)
    decreases DeepestMember(s), |s| + |t|, 0
  {
    hide ToMap, Walked, Fold, Diff, ProperMembers, Settles, PatchEntries, MergeBoth, HarmlessBoth, NoNullMembers, PatchValue, Canon;
    var n, k, next := t[0], Fold(t[0].key, mode), Turned(base, s, t, cs, mode);
    var s', t', r := ToMap(s, mode), ToMap(t[1..], mode), Walked(next, s, t[1..], cs, mode);
    HeadOfProper(t, mode);
    WalkOneTurn(base, s, t, cs, mode);
    ToMapFind(s, n.key, mode);
    TargetHeadDone(r, s', t', k, Canon(n.item, mode));
    if k in s' {
      ProperDistinct(s, mode);
      WalkRemoves(next, s, t[1..], cs, mode, k);
    } else {
      WalkLeavesAlone(next, s, t[1..], cs, mode, k);
      forall l | l != k ensures EntryUnder(next, l) == EntryUnder(base, l) {
        TurnLeavesAlone(base, s, t, cs, mode, l);
      }
      ReadyBehind(base, next, s', t', k, VNull, Canon(n.item, mode));
      WalkReaches(next, s, t[1..], cs, mode);
      AddedValue(None, n.item, mode);
    }
  }

  lemma ProperDistinct(s: Members, mode: bool)
    requires ProperMembers(s)
    ensures DistinctKeys(s, mode)
  {
    DistinctInBoth(s, mode);
  }

  lemma {:induction false} BothHaveIt(base: map<CStr, Val>, s: Members, t: Members, cs: bool, mode: bool)
    requires ProperMembers(s) && ProperMembers(t) && Ready(base, ToMap(s, mode), ToMap(t, mode))
    requires s != [] && t != [] && MergeOrder(s, t) == 0
    ensures Settles(Walked(base, s, t, cs, mode), ToMap(s, mode), ToMap(t, mode)) <==> HarmlessWalk(s, t, cs, mode)
    decreases DeepestMember(s), |s| + |t|, 0
  {
    hide ToMap, Walked, Fold, Diff, ProperMembers, Settles, PatchEntries, MergeBoth, HarmlessBoth, PatchEntry, Canon;
    DiffZeroIffEqual(s[0].key, t[0].key);
    var k, next := Fold(t[0].key, mode), Turned(base, s, t, cs, mode);
    var s', t', r := ToMap(s[1..], mode), ToMap(t[1..], mode), Walked(next, s[1..], t[1..], cs, mode);
    HeadOfProper(s, mode);
    HeadOfProper(t, mode);
    WalkOneTurn(base, s, t, cs, mode);
    assert k in ToMap(s, mode) && ToMap(s, mode)[k] == Canon(s[0].item, mode);
    DeepestTail(s);
    BothReaches(base, s[0], t[0], cs, mode);
    WalkLeavesAlone(next, s[1..], t[1..], cs, mode, k);
    forall l | l != k ensures EntryUnder(next, l) == EntryUnder(base, l) {
      TurnLeavesAlone(base, s, t, cs, mode, l);
    }
    ReadyBehind(base, next, s', t', k, Canon(s[0].item, mode), Canon(t[0].item, mode));
    BothHeadsDone(r, s', t', k, Canon(s[0].item, mode), Canon(t[0].item, mode));
    WalkReaches(next, s[1..], t[1..], cs, mode);
  }

  /** What becomes of the entry of a key that both have. */
  lemma {:induction false} BothReaches(base: map<CStr, Val>, m: Keyed<Json>, n: Keyed<Json>, cs: bool, mode: bool)
    requires Proper(m.item) && Proper(n.item) && EntryUnder(base, Fold(n.key, mode)) == Some(Canon(m.item, mode))
    ensures EntryUnder(PatchEntries(base, MergeBoth(m, n, cs), mode), Fold(n.key, mode)) == Some(Canon(n.item, mode)) <==>
            HarmlessBoth(m, n, cs, mode)
    decreases Nesting(m.item), 1, 0
  {
    hide Canon, Fold, SortedEqual, Settled, Proper, PatchValue, PatchEntries, Harmless, MergeDiff, Nesting;
    var b := MergeBoth(m, n, cs);
    if SortedEqual(m.item, n.item, cs) {
      NoPatches(base, mode);
      ProperComparison(m.item, n.item, mode);
    } else {
      var x, y := Settled(m.item, n.item, cs), Settled(n.item, m.item, cs);
      SettledShape(m.item, n.item, cs);
      SettledIsSame(m.item, n.item, cs, mode);
      SettledIsSame(n.item, m.item, cs, mode);
      HarmlessInOrder(m.item, n.item, x, y, false, mode);
      DiffReaches(x, y, false, mode);
      if b == [] {
        NoPatches(base, mode);
      } else {
        assert b == [b[0]] + [];
        OnePatch(base, b[0], [], mode);
        NoPatches(PatchEntry(base, b[0], mode), mode);
      }
    }
  }

  lemma NoPatches(base: map<CStr, Val>, mode: bool)
    ensures PatchEntries(base, [], mode) == base
  {
  }

  lemma ProperComparison(a: Json, b: Json, mode: bool)
    requires Proper(a) && Proper(b)
    ensures SortedEqual(a, b, mode) <==> Canon(a, mode) == Canon(b, mode)
  {
    hide SortedEqual, Canon, Plain, WellKeyed;
    WellKeyedInBoth(a, mode);
    WellKeyedInBoth(b, mode);
    SortedEqualIffSameValue(a, b, mode);
  }

  lemma SettledIsSame(a: Json, b: Json, cs: bool, mode: bool)
    requires Proper(a)
    ensures var x := Settled(a, b, cs);
            SameTree(a, x) && Proper(x) && Canon(x, mode) == Canon(a, mode) && (x.Null? <==> a.Null?)
  {
    hide Settled, Canon, Plain, WellKeyed;
    SettledSameTree(a, b, cs);
    SameValueInBoth(a, Settled(a, b, cs), mode);
    SameNull(a, Settled(a, b, cs));
  }

  ghost function Patched(v: Val, patch: Option<Json>, mode: bool): Val {
    if patch.None? then v else PatchValue(Some(v), patch.value, mode)
  }

  /** The generated patch leads from the one value to the other exactly when it does no harm. */
  lemma {:induction false} DiffReaches(from: Json, to: Json, cs: bool, mode: bool)
    requires Proper(from) && Proper(to)
    ensures var p := MergeDiff(from, Some(to), cs);
            (p.None? ==> from.Object? && to.Object?) && (p.Some? ==> (p.value.Null? <==> to.Null?)) &&
            (Patched(Canon(from, mode), p, mode) == Canon(to, mode) <==> Harmless(from, to, cs, mode))
    decreases Nesting(from), 0, 1
  {
    if from.Object? && to.Object? {
      ObjectReaches(from, to, cs, mode);
    } else {
      hide MergeValue, NoNullMembers, Plain;
      WellKeyedInBoth(to, mode);
      if to.Object? {
        AddedValue(Some(Canon(from, mode)), to, mode);
      }
    }
  }

  lemma {:induction false} ObjectReaches(from: Json, to: Json, cs: bool, mode: bool)
    requires Proper(from) && Proper(to) && from.Object? && to.Object?
    ensures Patched(Canon(from, mode), MergeDiff(from, Some(to), cs), mode) == Canon(to, mode) <==> Harmless(from, to, cs, mode)
    decreases Nesting(from), 0, 0
  {
    hide ToMap, Walked, Sort, ProperMembers, Plain, WellKeyed, MergeWalk, HarmlessWalk, PatchEntries, DeepestMember;
    var s, t, base, w := Sort(from.members, cs), Sort(to.members, cs), ToMap(from.members, mode), ToMap(to.members, mode);
    SortNesting(from.members, cs);
    ProperObject(from);
    ProperObject(to);
    SortedProper(from.members, cs);
    SortedProper(to.members, cs);
    ProperDistinct(from.members, mode);
    ProperDistinct(to.members, mode);
    SortKeepsMap(from.members, cs, mode);
    SortKeepsMap(to.members, cs, mode);
    WalkReaches(base, s, t, cs, mode);
    var r := Walked(base, s, t, cs, mode);
    NoPatches(base, mode);
    WalkedIsPatched(base, s, t, cs, mode);
    assert Patched(Canon(from, mode), MergeDiff(from, Some(to), cs), mode) == VObject(r);
    forall k | k !in base && k !in w ensures EntryUnder(r, k) == EntryUnder(base, k) {
      WalkLeavesAlone(base, s, t, cs, mode, k);
    }
    if Settles(r, base, w) {
      forall k ensures EntryUnder(r, k) == EntryUnder(w, k) {
      }
      SameEntries(r, w);
    }
  }

  lemma WalkedIsPatched(base: map<CStr, Val>, s: Members, t: Members, cs: bool, mode: bool)
    ensures Walked(base, s, t, cs, mode) == PatchEntries(base, MergeWalk(s, t, cs), mode)
  {
  }

  lemma SameEntries(a: map<CStr, Val>, b: map<CStr, Val>)
    requires forall k :: EntryUnder(a, k) == EntryUnder(b, k)
    ensures a == b
  {
    forall k ensures (k in a <==> k in b) && (k in a ==> a[k] == b[k]) {
      assert EntryUnder(a, k) == EntryUnder(b, k);
    }
  }

  lemma {:induction false} DiffUsable(from: Json, to: Json, cs: bool, mode: bool)
    requires Proper(to)
    ensures var p := MergeDiff(from, Some(to), cs); p.Some? ==> Usable(p.value, mode)
    decreases Nesting(from), 0
  {
    hide Plain, Sort, WellKeyed, MergeWalk, DeepestMember;
    if from.Object? && to.Object? {
      SortNesting(from.members, cs);
      ProperObject(to);
      SortedProper(to.members, cs);
      WalkUsable(Sort(from.members, cs), Sort(to.members, cs), cs, mode);
    } else {
      WellKeyedInBoth(to, mode);
      WellKeyedUsable(to, mode);
    }
  }

  ghost predicate AllUsable(ps: Members, mode: bool) {
    forall i :: 0 <= i < |ps| ==> Usable(ps[i].item, mode)
  }

  lemma {:induction false} WalkUsable(s: Members, t: Members, cs: bool, mode: bool)
    requires ProperMembers(t)
    ensures AllUsable(MergeWalk(s, t, cs), mode)
    decreases DeepestMember(s), |s| + |t|
  {
    hide Usable, ProperMembers, Proper, Diff, MergeBoth, WellKeyed, Nesting;
    if t != [] {
      ProperTail(t);
    }
    if s != [] {
      DeepestTail(s);
    }
    if s != [] || t != [] {
      var diff := MergeOrder(s, t);
      if diff < 0 {
        NullUsable(mode);
        WalkUsable(s[1..], t, cs, mode);
      } else if diff > 0 {
        ProperUsable(t[0].item, mode);
        WalkUsable(s, t[1..], cs, mode);
      } else {
        BothUsable(s[0], t[0], cs, mode);
        WalkUsable(s[1..], t[1..], cs, mode);
      }
    }
  }

  lemma NullUsable(mode: bool)
    ensures Usable(Null, mode)
  {
  }

  lemma ProperUsable(j: Json, mode: bool)
    requires Proper(j)
    ensures Usable(j, mode)
  {
    WellKeyedInBoth(j, mode);
    WellKeyedUsable(j, mode);
  }

  lemma {:induction false} BothUsable(m: Keyed<Json>, n: Keyed<Json>, cs: bool, mode: bool)
    requires Proper(n.item)
    ensures AllUsable(MergeBoth(m, n, cs), mode)
    decreases Nesting(m.item), 1
  {
    hide Usable, Proper, MergeDiff, SortedEqual, Settled, Nesting;
    SettledShape(m.item, n.item, cs);
    SettledIsSame(n.item, m.item, cs, mode);
    DiffUsable(Settled(m.item, n.item, cs), Settled(n.item, m.item, cs), false, mode);
  }

  /** There is nothing to do for two objects that differ in nothing but the order of members. */
  lemma SilentWhenSame(from: Json, to: Json, cs: bool)
    requires SameTree(from, to) && from.Object?
    ensures MergeDiff(from, Some(to), cs).None?
  {
    hide Sort, ToMap, Plain, WellKeyed, MergeWalk, SameRow;
    ProperObject(from);
    ProperObject(to);
    SameSorted(from.members, to.members, cs);
    SortedProper(from.members, cs);
    SortedProper(to.members, cs);
    WalkSilent(Sort(from.members, cs), Sort(to.members, cs), cs);
  }

  lemma {:induction false} WalkSilent(s: Members, t: Members, cs: bool)
    requires Rows(s, t)
    ensures MergeWalk(s, t, cs) == []
    decreases |s|
  {
    hide Rows, SameTree, MergeBoth;
    RowsLength(s, t);
    if s != [] {
      RowsTail(s, t);
      DiffZeroIffEqual(s[0].key, t[0].key);
      BothSilent(s[0], t[0], cs);
      WalkSilent(s[1..], t[1..], cs);
    }
  }

  lemma BothSilent(m: Keyed<Json>, n: Keyed<Json>, cs: bool)
    requires SameTree(m.item, n.item)
    ensures MergeBoth(m, n, cs) == []
  {
    hide Plain, WellKeyed, Canon, SortedEqual;
    SameValueInBoth(m.item, n.item, cs);
    ProperComparison(m.item, n.item, cs);
  }

  /** What merging the generated patch, if there is one, makes of a document. */
  function Merged(doc: Json, patch: Option<Json>, mode: bool): Json {
    if patch.None? then doc else Merge(Some(doc), patch.value, mode)
  }

  /** The merge-patch round trip, in both case modes, for a document equal to the first in whatever
      order its members are: merging what was generated gives a document equal to the second exactly
      when the walk does no harm. Objects that are equal, case included, need no patch, and only
      objects can do without one. */
  lemma MergePatchReachesTarget(from: Json, to: Json, cs: bool, doc: Json, mode: bool)
    requires Proper(from) && Proper(to) && WellKeyed(doc, mode) && Equal(doc, from, mode)
    ensures var p := MergeDiff(from, Some(to), cs);
            (Equal(Merged(doc, p, mode), to, mode) <==> Harmless(from, to, cs, mode)) &&
            (p.None? ==> from.Object? && to.Object?) &&
            (from.Object? && to.Object? && Equal(from, to, true) ==> p.None?)
  {
    hide Plain, WellKeyed, Canon, Merge, MergeDiff, PatchValue, Harmless, Equal, Printable;
    var p := MergeDiff(from, Some(to), cs);
    ProperInBoth(from, mode);
    ProperInBoth(to, mode);
    EqualByValue(doc, from, mode);
    DiffReaches(from, to, cs, mode);
    if p.Some? {
      DiffUsable(from, to, cs, mode);
      MergeSteps(Some(doc), p.value, mode);
    }
    EqualByValue(Merged(doc, p, mode), to, mode);
    ProperInBoth(from, true);
    ProperInBoth(to, true);
    EqualByValue(from, to, true);
    if from.Object? && Equal(from, to, true) {
      SilentWhenSame(from, to, cs);
    }
  }

  // Keys without upper-case letters

  /** No key has an upper-case letter. */
  ghost predicate LowerKeys(j: Json) {
    match j
    case Array(es) => forall i :: 0 <= i < |es| ==> LowerKeys(es[i])
    case Object(ms) => forall i :: 0 <= i < |ms| ==> LowerKey(ms[i].key) && LowerKeys(ms[i].item)
    case _ => true
  }

  ghost predicate LowerKey(key: CStr) {
    Fold(key, false) == key
  }

  /** Without upper-case letters both case modes see the same value. */
  lemma {:induction false} Modeless(j: Json, mode: bool)
    requires LowerKeys(j)
    ensures Canon(j, mode) == Canon(j, false)
    decreases j
  {
    match j
    case Array(es) =>
      forall i | 0 <= i < |es| ensures Canon(es[i], mode) == Canon(es[i], false) {
        Modeless(es[i], mode);
      }
      assert CanonSeq(es, mode) == CanonSeq(es, false);
    case Object(ms) =>
      forall i | 0 <= i < |ms| ensures LowerKey(ms[i].key) && Canon(ms[i].item, mode) == Canon(ms[i].item, false) {
        Modeless(ms[i].item, mode);
      }
      ModelessMap(ms, mode);
    case _ =>
  }

  lemma {:induction false} ModelessMap(ms: Members, mode: bool)
    requires forall i :: 0 <= i < |ms| ==> LowerKey(ms[i].key) && Canon(ms[i].item, mode) == Canon(ms[i].item, false)
    ensures ToMap(ms, mode) == ToMap(ms, false)
  {
    if ms != [] {
      hide Canon;
      ModelessMap(ms[1..], mode);
    }
  }

  /** A row of lower-case keys in the order of `strcmp`. */
  ghost predicate LowerRow(s: Members) {
    ProperMembers(s) && StrictlySorted(s, true) && forall i :: 0 <= i < |s| ==> LowerKey(s[i].key) && LowerKeys(s[i].item)
  }

  ghost predicate NullFree(s: Members) {
    forall i :: 0 <= i < |s| ==> !s[i].item.Null? && NoNullMembers(s[i].item)
  }

  lemma SortedLower(j: Json, cs: bool)
    requires j.Object? && Proper(j) && LowerKeys(j)
    ensures LowerRow(Sort(j.members, cs)) && (NoNullMembers(j) ==> NullFree(Sort(j.members, cs)))
  {
    hide Sort, Plain, WellKeyed, Diff, ProperMembers;
    var ms, s := j.members, Sort(j.members, cs);
    ProperObject(j);
    SortedProper(ms, cs);
    ProperDistinct(ms, cs);
    SortedDistinct(ms, cs);
    SortMembership(ms, cs);
    forall i | 0 <= i < |s| ensures LowerKey(s[i].key) && LowerKeys(s[i].item) {
      assert s[i] in ms;
    }
    forall i | 0 <= i < |s| && NoNullMembers(j) ensures !s[i].item.Null? && NoNullMembers(s[i].item) {
      assert s[i] in ms;
    }
    forall i, k | 0 <= i < k < |s| ensures KeyLess(s[i].key, s[k].key, true) {
      assert KeyLess(s[i].key, s[k].key, cs) && LowerKey(s[i].key) && LowerKey(s[k].key);
    }
  }

  /** With keys free of upper-case letters and a target free of null members every patch does what it should. */
  lemma {:induction false} LowerHarmless(from: Json, to: Json, cs: bool, mode: bool)
    requires Proper(from) && Proper(to) && LowerKeys(from) && LowerKeys(to) && NoNullMembers(to)
    ensures Harmless(from, to, cs, mode)
    decreases Nesting(from), 0
  {
    hide Sort, LowerKeys, Proper, LowerRow, NullFree, HarmlessWalk, DeepestMember;
    if from.Object? && to.Object? {
      SortNesting(from.members, cs);
      SortedLower(from, cs);
      SortedLower(to, cs);
      LowerWalk(Sort(from.members, cs), Sort(to.members, cs), cs, mode);
    }
  }

  lemma LowerTail(s: Members)
    requires s != [] && LowerRow(s)
    ensures Proper(s[0].item) && LowerKey(s[0].key) && LowerKeys(s[0].item) && LowerRow(s[1..])
  {
    hide Proper, LowerKeys, LowerKey, KeyLess, Fold;
    ProperTail(s);
  }

  lemma NullFreeTail(s: Members)
    requires s != [] && NullFree(s)
    ensures !s[0].item.Null? && NoNullMembers(s[0].item) && NullFree(s[1..])
  {
    hide NoNullMembers;
  }

  lemma {:induction false} LowerWalk(s: Members, t: Members, cs: bool, mode: bool)
    requires LowerRow(s) && LowerRow(t) && NullFree(t)
    ensures HarmlessWalk(s, t, cs, mode)
    decreases DeepestMember(s), |s| + |t|
  {
    hide LowerRow, NullFree, HarmlessBoth, NoNullMembers, LowerKey, LowerKeys, Proper, Diff, Nesting;
    if s != [] {
      LowerTail(s);
      DeepestTail(s);
    }
    if t != [] {
      LowerTail(t);
      NullFreeTail(t);
    }
    if s != [] || t != [] {
      var diff := MergeOrder(s, t);
      if diff < 0 {
        LowerWalk(s[1..], t, cs, mode);
      } else if diff > 0 {
        NothingToCome(s, t[0].key, mode);
        LowerWalk(s, t[1..], cs, mode);
      } else {
        LowerBoth(s[0], t[0], cs, mode);
        LowerWalk(s[1..], t[1..], cs, mode);
      }
    }
  }

  lemma NothingToCome(s: Members, key: CStr, mode: bool)
    requires LowerRow(s) && LowerKey(key) && (s != [] ==> Diff(s[0].key, key) > 0)
    ensures FindKey(s, key, mode) == |s|
  {
    hide Proper, LowerKeys, Diff, ProperMembers;
    var i := FindKey(s, key, mode);
    if i < |s| {
      assert s[i].key == key;
      assert i > 0 ==> KeyLess(s[0].key, s[i].key, true);
      KeyOrderIsTotal(s[0].key, key, key, true);
    }
  }

  lemma {:induction false} LowerBoth(m: Keyed<Json>, n: Keyed<Json>, cs: bool, mode: bool)
    requires Proper(m.item) && Proper(n.item) && LowerKeys(m.item) && LowerKeys(n.item)
    requires !n.item.Null? && NoNullMembers(n.item)
    ensures HarmlessBoth(m, n, cs, mode)
    decreases Nesting(m.item), 1
  {
    hide Proper, LowerKeys, NoNullMembers, SortedEqual, Canon, Harmless;
    ProperComparison(m.item, n.item, cs);
    ProperComparison(m.item, n.item, mode);
    Modeless(m.item, cs);
    Modeless(n.item, cs);
    Modeless(m.item, mode);
    Modeless(n.item, mode);
    LowerHarmless(m.item, n.item, false, mode);
  }

  /** Generating a merge patch and applying it to the document it was generated from, as generating left it. */
  method MergeInPlace(from: Json, to: Json, cs: bool) returns (changed: bool, result: Json)
    requires Proper(from) && Proper(to)
    ensures Equal(result, to, cs) <==> Harmless(from, to, cs, cs)
    ensures !changed ==> from.Object? && to.Object? && Equal(result, from, cs)
    ensures from.Object? && to.Object? && Equal(from, to, true) ==> !changed
  {
    hide Canon, MergeDiff, Equal, Plain, WellKeyed, Harmless, Printable, Merge;
    var patch, from', to';
    patch, from', to' := GenerateMergePatch(from, Some(to), cs);
    ProperInBoth(from, cs);
    assert KeepsValue(from, from', cs);
    EqualByValue(from', from, cs);
    MergePatchReachesTarget(from, to, cs, from', cs);
    if patch.None? {
      changed, result := false, from';
    } else {
      changed := true;
      result := ApplyMerge(Some(from'), patch.value, cs);
    }
  }

  // Where it does harm

  /** A null member of the target cannot be reached: the patch that names it removes it. */
  lemma NullMemberFails(from: Json, to: Json, cs: bool)
    requires from == Object([]) && to == Object([Keyed([97], Null)])
    ensures !Equal(Merged(from, MergeDiff(from, Some(to), cs), cs), to, cs)
  {
    hide Merged, Equal;
    var s, t := from.members, to.members;
    assert Sort(s, cs) == s && Sort(t, cs) == t;
    assert !HarmlessAlone(s, t[0], cs);
    assert !Harmless(from, to, cs, cs);
    EqualToItself(from, cs);
    MergePatchReachesTarget(from, to, cs, from, cs);
  }

  /** Without regard to case, a key that changes to upper case is lost: the walk goes by `strcmp`, sets
      the new key and then removes the old one, which is the same to the merge. */
  lemma UpperCaseFails(from: Json, to: Json)
    requires from == Object([Keyed([97], True)]) && to == Object([Keyed([65], True)])
    ensures !Equal(Merged(from, MergeDiff(from, Some(to), false), false), to, false)
  {
    hide Merged, Equal;
    var s, t := from.members, to.members;
    assert Sort(s, false) == s && Sort(t, false) == t;
    assert Fold([97], false)[0] == Fold([65], false)[0];
    assert FindKey(s, t[0].key, false) == 0;
    assert !HarmlessAlone(s, t[0], false);
    assert !Harmless(from, to, false, false);
    EqualToItself(from, false);
    MergePatchReachesTarget(from, to, false, from, false);
  }

  /** The case-sensitive generator does not see a change of case two levels down, because the patch for
      what lies below a key is generated without regard to case. */
  lemma NestedCaseFails(from: Json, to: Json, a: Json, b: Json)
    requires a == Object([Keyed([97], True)]) && b == Object([Keyed([65], True)])
    requires from == Object([Keyed([107], Object([Keyed([120], a)]))]) && to == Object([Keyed([107], Object([Keyed([120], b)]))])
    ensures !Equal(Merged(from, MergeDiff(from, Some(to), true), true), to, true)
  {
    hide Merged, Equal, SortedEqual, Plain, WellKeyed, Harmless;
    CaseOnly(a, b);
    var x, y := from.members[0].item, to.members[0].item;
    ProperOne(a.members[0].key, True);
    ProperOne(b.members[0].key, True);
    ProperOne(x.members[0].key, a);
    ProperOne(x.members[0].key, b);
    ProperOne(from.members[0].key, x);
    ProperOne(from.members[0].key, y);
    OneMember(x, y, a, b);
    assert !HarmlessBoth(x.members[0], y.members[0], false, true);
    OneWalk(x, y, false, true);
    assert !HarmlessBoth(from.members[0], to.members[0], true, true);
    OneWalk(from, to, true, true);
    EqualToItself(from, true);
    MergePatchReachesTarget(from, to, true, from, true);
  }

  lemma ProperOne(key: CStr, j: Json)
    requires Proper(j) || j == True
    ensures Proper(Object([Keyed(key, j)]))
  {
  }

  lemma CaseOnly(a: Json, b: Json)
    requires a == Object([Keyed([97], True)]) && b == Object([Keyed([65], True)])
    ensures SortedEqual(a, b, false) && !SortedEqual(a, b, true)
  {
    var m, n := a.members[0], b.members[0];
    assert Fold([97], false)[0] == Fold([65], false)[0] && Fold(m.key, false) == Fold(n.key, false);
    KeyOrderIsTotal(m.key, n.key, n.key, false);
    KeyOrderIsTotal(m.key, n.key, n.key, true);
    assert SameMember(m, n, false) && !SameMember(m, n, true);
  }

  lemma OneMember(x: Json, y: Json, a: Json, b: Json)
    requires x == Object([Keyed([120], a)]) && y == Object([Keyed([120], b)]) && !SortedEqual(a, b, true)
    ensures !SortedEqual(x, y, true)
  {
    assert !SameMember(x.members[0], y.members[0], true);
  }

  /** The walk over one member each, under one key. */
  lemma OneWalk(from: Json, to: Json, cs: bool, mode: bool)
    requires from.Object? && to.Object? && |from.members| == |to.members| == 1 && from.members[0].key == to.members[0].key
    requires !HarmlessBoth(from.members[0], to.members[0], cs, mode)
    ensures !Harmless(from, to, cs, mode)
  {
    hide HarmlessBoth;
    var s, t := from.members, to.members;
    assert Sort(s, cs) == s && Sort(t, cs) == t;
    DiffZeroIffEqual(s[0].key, t[0].key);
  }
}
