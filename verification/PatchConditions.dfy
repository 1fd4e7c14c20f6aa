/** When the patches generated for two documents can say which keys they mean. */
module PatchConditions {
  import opened CStrings
  import opened Json
  import opened Lookups
  import opened KeySort
  import opened Compare
  import opened Entries
  import opened SortedCompare
  import opened Reordering
  import opened Decimals
  import opened Pointers
  import opened Patch
  import opened PathKeys
  import opened PatchMeaning
  import opened PatchGeneration
  import opened PatchRuns
  import opened PatchTargets

  lemma {:induction false} ElementsSilent(from: Json, to: Json, i: nat, cs: bool, junk: Byte)
    requires from.Array? && to.Array? && i <= |from.elems| && i <= |to.elems|
    ensures ElementDiffs(from, to, i, cs, junk) == [] <==>
            |from.elems| == |to.elems| && forall k :: i <= k < |from.elems| ==> SortedEqual(from.elems[k], to.elems[k], cs)
    decreases from, 0, |from.elems| - i
  {
    var es, fs := from.elems, to.elems;
    if i < |es| && i < |fs| {
      SilentIffSortedEqual(es[i], fs[i], cs, junk);
      ElementsSilent(from, to, i + 1, cs, junk);
      assert ElementDiffs(from, to, i, cs, junk) == [] <==>
             Diffs(es[i], fs[i], cs, junk) == [] && ElementDiffs(from, to, i + 1, cs, junk) == [];
    }
  }

  lemma {:induction false} WalkSilent(from: Json, s: Members, t: Members, cs: bool, junk: Byte)
    requires forall i :: 0 <= i < |s| ==> s[i].item < from
    ensures WalkDiffs(from, s, t, cs, junk) == [] <==> |s| == |t| && forall k :: 0 <= k < |s| ==> SameMember(s[k], t[k], cs)
    decreases from, 0, |s| + |t|
  {
    if (s != [] || t != []) && WalkOrder(s, t, cs) == 0 {
      SilentIffSortedEqual(s[0].item, t[0].item, cs, junk);
      WalkSilent(from, s[1..], t[1..], cs, junk);
      assert WalkDiffs(from, s, t, cs, junk) == [] <==>
             Diffs(s[0].item, t[0].item, cs, junk) == [] && WalkDiffs(from, s[1..], t[1..], cs, junk) == [];
      if WalkDiffs(from, s, t, cs, junk) == [] {
        forall k | 0 <= k < |s| ensures SameMember(s[k], t[k], cs) {
          assert k > 0 ==> SameMember(s[1..][k-1], t[1..][k-1], cs);
        }
      } else if |s| == |t| && SameMember(s[0], t[0], cs) {
        var k :| 0 <= k < |s[1..]| && !SameMember(s[1..][k], t[1..][k], cs);
        assert !SameMember(s[k+1], t[k+1], cs);
      }
    }
  }

  /** No patch is generated exactly when `compare_json` finds the documents equal. */
  lemma {:induction false} SilentIffSortedEqual(from: Json, to: Json, cs: bool, junk: Byte)
    ensures Diffs(from, to, cs, junk) == [] <==> SortedEqual(from, to, cs)
    decreases from, 1, 0
  {
    if from.Array? && to.Array? {
      ElementsSilent(from, to, 0, cs, junk);
    } else if from.Object? && to.Object? {
      SortMembership(from.members, cs);
      WalkSilent(from, Sort(from.members, cs), Sort(to.members, cs), cs, junk);
    }
  }

  // The condition

  /** A value that is replaced as a whole when it differs. */
  predicate Whole(from: Json, to: Json) {
    !SameType(from, to) || !(from.Array? || from.Object?)
  }

  /** In every edit, the keys on the way have neither slash nor tilde, and a last key has no slash and a
      tilde as its last byte only. What is equal needs no edit. */
  ghost predicate Expressible(from: Json, to: Json, cs: bool)
    decreases from, 2
  {
    Equal(from, to, cs) || Whole(from, to) ||
    match from
    case Array(es) => forall i :: 0 <= i < |es| && i < |to.elems| ==> Expressible(es[i], to.elems[i], cs)
    case Object(ms) => MembersFit(ms, to.members, cs)
    case _ => true
  }

  ghost predicate MembersFit(ms: Members, ns: Members, cs: bool)
    decreases ms, 1
  {
    (forall i :: 0 <= i < |ms| ==> MemberFits(ms[i], ns, cs)) && forall i :: 0 <= i < |ns| ==> NewFits(ms, ns[i], cs)
  }

  /** A member of the source that is removed, replaced or edited. */
  ghost predicate MemberFits(m: Keyed<Json>, ns: Members, cs: bool)
    decreases m, 1
  {
    var x := Lookup(ns, m.key, cs);
    if x.None? then LastClean(m.key) else PairFits(m, x.value, cs)
  }

  ghost predicate PairFits(m: Keyed<Json>, x: Json, cs: bool)
    decreases m, 0
  {
    Equal(m.item, x, cs) || (if Whole(m.item, x) then LastClean(m.key) else Clean(m.key) && Expressible(m.item, x, cs))
  }

  /** A member of the target that is added. */
  ghost predicate NewFits(ms: Members, n: Keyed<Json>, cs: bool) {
    Lookup(ms, n.key, cs).Some? || LastClean(n.key)
  }

  // Along the walk

  ghost predicate WalkFits(s: Members, t: Members, cs: bool)
    decreases |s| + |t|
  {
    if s == [] && t == [] then true
    else
      var order := WalkOrder(s, t, cs);
      if order == 0 then PairFits(s[0], t[0].item, cs) && WalkFits(s[1..], t[1..], cs)
      else if order < 0 then LastClean(s[0].key) && WalkFits(s[1..], t, cs)
      else LastClean(t[0].key) && WalkFits(s, t[1..], cs)
  }

  /** The keys fit; what lies below them need not. */
  ghost predicate HeadsFit(s: Members, t: Members, cs: bool)
    decreases |s| + |t|
  {
    if s == [] && t == [] then true
    else
      var order := WalkOrder(s, t, cs);
      if order == 0 then
        (Equal(s[0].item, t[0].item, cs) || Fits(s[0].key, Whole(s[0].item, t[0].item))) && HeadsFit(s[1..], t[1..], cs)
      else if order < 0 then LastClean(s[0].key) && HeadsFit(s[1..], t, cs)
      else LastClean(t[0].key) && HeadsFit(s, t[1..], cs)
  }

  lemma {:induction false} FitsNeedHeads(s: Members, t: Members, cs: bool)
    ensures WalkFits(s, t, cs) ==> HeadsFit(s, t, cs)
    decreases |s| + |t|
  {
    hide Equal, Expressible, LastClean, Clean, KeyOrder;
    if s != [] || t != [] {
      var order := WalkOrder(s, t, cs);
      if order == 0 {
        FitsNeedHeads(s[1..], t[1..], cs);
      } else if order < 0 {
        FitsNeedHeads(s[1..], t, cs);
      } else {
        FitsNeedHeads(s, t[1..], cs);
      }
    }
  }

  /** A sorted list of members the generator walks over. */
  ghost predicate Row(s: Members, cs: bool) {
    StrictlySorted(s, cs) && DistinctKeys(s, false) && forall i :: 0 <= i < |s| ==> Proper(s[i].item) && Sized(s[i].item)
  }

  lemma RowTail(s: Members, cs: bool)
    requires s != [] && Row(s, cs)
    ensures Row(s[1..], cs) && Proper(s[0].item) && Sized(s[0].item)
  {
    hide KeyLess, Fold, Proper, Sized;
  }

  /** One list is the other with the entry of one key gone. */
  ghost predicate Gone(s: Members, s': Members, key: CStr, cs: bool) {
    Lookup(s', key, cs).None? && forall l :: Fold(l, cs) != Fold(key, cs) ==> Lookup(s, l, cs) == Lookup(s', l, cs)
  }

  lemma HeadGone(s: Members, key: CStr, cs: bool)
    requires s != [] && Row(s, cs) && Fold(s[0].key, cs) == Fold(key, cs)
    ensures Lookup(s, key, cs) == Some(s[0].item) && Gone(s, s[1..], key, cs)
  {
    hide Fold, Proper, Sized, Lookup;
    DistinctInBoth(s, cs);
    TailLookup(s, cs);
    LookupSame(s[1..], s[0].key, key, cs);
    forall l ensures Lookup(s, l, cs) == if Fold(s[0].key, cs) == Fold(l, cs) then Some(s[0].item) else Lookup(s[1..], l, cs) {
      HeadLookup(s, l, cs);
    }
  }

  lemma HeadLookup(s: Members, l: CStr, cs: bool)
    requires s != []
    ensures Lookup(s, l, cs) == if Fold(s[0].key, cs) == Fold(l, cs) then Some(s[0].item) else Lookup(s[1..], l, cs)
  {
    hide Fold;
  }

  lemma TailLookup(s: Members, cs: bool)
    requires s != [] && DistinctKeys(s, cs)
    ensures Lookup(s[1..], s[0].key, cs).None?
  {
    TailDistinct(s, cs);
  }

  /** A key below all others is not among them. */
  lemma NotAhead(key: CStr, t: Members, cs: bool)
    requires StrictlySorted(t, cs) && (t != [] ==> KeyOrder(key, t[0].key, cs) < 0)
    ensures Lookup(t, key, cs).None? && Gone(t, t, key, cs)
  {
    hide Fold;
    var i := FindKey(t, key, cs);
    if i < |t| {
      assert i > 0 ==> KeyLess(t[0].key, t[i].key, cs);
      KeyOrderIsTotal(key, t[0].key, t[i].key, cs);
      KeyOrderIsTotal(key, t[i].key, t[i].key, cs);
    }
  }

  /** What one turn of the walk does to the two lists, and where the key it is about is found. */
  lemma WalkTurn(s: Members, t: Members, cs: bool) returns (key: CStr, s': Members, t': Members)
    requires (s != [] || t != []) && Row(s, cs) && Row(t, cs)
    ensures Gone(s, s', key, cs) && Gone(t, t', key, cs) && Row(s', cs) && Row(t', cs) && |s'| + |t'| < |s| + |t|
    ensures var order := WalkOrder(s, t, cs);
            if order == 0 then
              s != [] && t != [] && s' == s[1..] && t' == t[1..] && key == s[0].key && Fold(t[0].key, cs) == Fold(key, cs) &&
              Lookup(s, key, cs) == Some(s[0].item) && Lookup(t, key, cs) == Some(t[0].item)
            else if order < 0 then
              s != [] && s' == s[1..] && t' == t && key == s[0].key &&
              Lookup(s, key, cs) == Some(s[0].item) && Lookup(t, key, cs).None?
            else
              t != [] && s' == s && t' == t[1..] && key == t[0].key &&
              Lookup(s, key, cs).None? && Lookup(t, key, cs) == Some(t[0].item)
  {
    hide Fold, Lookup, Gone, Row, KeyOrder;
    RowSorted(s, cs);
    RowSorted(t, cs);
    var order := WalkOrder(s, t, cs);
    if order == 0 {
      key, s', t' := s[0].key, s[1..], t[1..];
      KeyOrderIsTotal(s[0].key, t[0].key, t[0].key, cs);
      HeadGone(s, key, cs);
      HeadGone(t, key, cs);
      RowTail(s, cs);
      RowTail(t, cs);
    } else if order < 0 {
      key, s', t' := s[0].key, s[1..], t;
      HeadGone(s, key, cs);
      RowTail(s, cs);
      NotAhead(key, t, cs);
    } else {
      key, s', t' := t[0].key, s, t[1..];
      HeadGone(t, key, cs);
      RowTail(t, cs);
      if s != [] {
        KeyOrderIsTotal(s[0].key, t[0].key, t[0].key, cs);
      }
      NotAhead(key, s, cs);
    }
  }

  lemma RowSorted(s: Members, cs: bool)
    requires Row(s, cs)
    ensures StrictlySorted(s, cs)
  {
  }

  // What is generated

  /** Every edit is complete; a value that differs as a whole is replaced, and otherwise every edit is further down. */
  ghost predicate Shaped(from: Json, to: Json, es: seq<Edit>) {
    (forall i :: 0 <= i < |es| ==> Composed(es[i])) &&
    if Whole(from, to) then es == [] || es == [Edit(OpReplace, [], Some(to))]
    else forall i :: 0 <= i < |es| ==> es[i].tokens != []
  }

  ghost predicate AllBelow(es: seq<Edit>) {
    forall i :: 0 <= i < |es| ==> Composed(es[i]) && es[i].tokens != []
  }

  lemma {:induction false} LeftoversBelow(count: nat, index: nat, fs: seq<Json>)
    ensures AllBelow(Removals(count, index)) && AllBelow(Additions(fs))
    decreases count + |fs|
  {
    if count > 0 {
      LeftoversBelow(count - 1, index, fs);
    } else if fs != [] {
      LeftoversBelow(0, index, fs[1..]);
    }
  }

  lemma {:induction false} ElementsBelow(from: Json, to: Json, i: nat, cs: bool, junk: Byte)
    requires from.Array? && to.Array? && i <= |from.elems| && i <= |to.elems|
    ensures AllBelow(ElementDiffs(from, to, i, cs, junk))
    decreases from, 0, |from.elems| - i
  {
    hide Diffs, Dec;
    if i < |from.elems| && i < |to.elems| {
      DiffsShaped(from.elems[i], to.elems[i], cs, junk);
      ElementsBelow(from, to, i + 1, cs, junk);
    } else {
      LeftoversBelow(|from.elems| - i, i, to.elems[i..]);
    }
  }

  lemma {:induction false} WalkBelow(from: Json, s: Members, t: Members, cs: bool, junk: Byte)
    requires forall i :: 0 <= i < |s| ==> s[i].item < from
    ensures AllBelow(WalkDiffs(from, s, t, cs, junk))
    decreases from, 0, |s| + |t|
  {
    hide Diffs, EncodeKey, KeyOrder;
    if s != [] || t != [] {
      var order := WalkOrder(s, t, cs);
      if order == 0 {
        DiffsShaped(s[0].item, t[0].item, cs, junk);
        WalkBelow(from, s[1..], t[1..], cs, junk);
      } else if order < 0 {
        WalkBelow(from, s[1..], t, cs, junk);
      } else {
        WalkBelow(from, s, t[1..], cs, junk);
      }
    }
  }

  lemma {:induction false} DiffsShaped(from: Json, to: Json, cs: bool, junk: Byte)
    ensures Shaped(from, to, Diffs(from, to, cs, junk))
    decreases from, 1, 0
  {
    hide ElementDiffs, WalkDiffs, Sort;
    if from.Array? && to.Array? {
      ElementsBelow(from, to, 0, cs, junk);
    } else if from.Object? && to.Object? {
      SortMembership(from.members, cs);
      WalkBelow(from, Sort(from.members, cs), Sort(to.members, cs), cs, junk);
    }
  }

  /** The edits succeed, and lead to a document that compares equal to the target. */
  ghost predicate Works(doc: Json, to: Json, es: seq<Edit>, cs: bool) {
    var o := RunEdits(doc, es, cs);
    o.status == 0 && Equal(o.doc, to, cs)
  }

  /** A condition that is sufficient, and necessary too unless the stale byte is a tilde. */
  ghost predicate Decides(condition: bool, works: bool, junk: Byte) {
    (condition ==> works) && (junk != TILDE && works ==> condition)
  }

  /** A document, or a part of one, that stands where the generator saw another. */
  ghost predicate StandsFor(doc: Json, from: Json, cs: bool) {
    WellKeyed(doc, false) && Equal(doc, from, cs)
  }

  lemma NoEdits(doc: Json, cs: bool)
    ensures RunEdits(doc, [], cs) == Outcome(0, doc)
  {
  }

  lemma SilentWhenEqual(from: Json, to: Json, cs: bool, junk: Byte)
    requires Proper(from) && Proper(to)
    ensures Diffs(from, to, cs, junk) == [] <==> Equal(from, to, cs)
  {
    hide Diffs, Equal, SortedEqual, Plain, WellKeyed;
    SilentIffSortedEqual(from, to, cs, junk);
    WellKeyedInBoth(from, cs);
    WellKeyedInBoth(to, cs);
    SortedEqualIffEqual(from, to, cs);
  }

  lemma NotAmong(s: Members, key: CStr, cs: bool)
    requires Lookup(s, key, cs).None?
    ensures forall i :: 0 <= i < |s| ==> Fold(s[i].key, cs) != Fold(key, cs)
  {
    hide Fold;
  }

  lemma SortedRow(j: Json, cs: bool)
    requires j.Object? && Proper(j) && Sized(j)
    ensures Row(Sort(j.members, cs), cs)
  {
    hide Sort, Fold, KeyLess;
    var s := Sort(j.members, cs);
    DistinctInBoth(j.members, cs);
    SortedDistinct(j.members, cs);
    SortMembership(j.members, cs);
    SortKeepsMap(j.members, cs, false);
    forall i | 0 <= i < |s| ensures Proper(s[i].item) && Sized(s[i].item) {
      assert s[i] in j.members;
    }
  }

  /** Sorting does not change whether members fit. */
  lemma SortedFits(from: Json, to: Json, cs: bool)
    requires from.Object? && to.Object? && Proper(from) && Proper(to)
    ensures MembersFit(Sort(from.members, cs), Sort(to.members, cs), cs) <==> MembersFit(from.members, to.members, cs)
  {
    hide Sort, Fold, Equal, Plain, Lookup, PairFits, LastClean;
    var ms, ns, s, t := from.members, to.members, Sort(from.members, cs), Sort(to.members, cs);
    MembersKeyed(from, cs);
    MembersKeyed(to, cs);
    SortedDistinct(ms, cs);
    SortedDistinct(ns, cs);
    SortMembership(ms, cs);
    SortMembership(ns, cs);
    forall m: Keyed<Json> ensures MemberFits(m, t, cs) == MemberFits(m, ns, cs) && NewFits(s, m, cs) == NewFits(ms, m, cs) {
      SortLookup(ms, m.key, cs);
      SortLookup(ns, m.key, cs);
    }
    SameFits(ms, s, ns, t, cs);
    SameFits(s, ms, t, ns, cs);
  }

  lemma SameFits(ms: Members, s: Members, ns: Members, t: Members, cs: bool)
    requires forall i :: 0 <= i < |s| ==> s[i] in ms && MemberFits(s[i], t, cs) == MemberFits(s[i], ns, cs)
    requires forall i :: 0 <= i < |t| ==> t[i] in ns && NewFits(s, t[i], cs) == NewFits(ms, t[i], cs)
    ensures MembersFit(ms, ns, cs) ==> MembersFit(s, t, cs)
  {
    hide MemberFits, NewFits;
  }

  lemma MembersKeyed(j: Json, cs: bool)
    requires j.Object? && WellKeyed(j, false)
    ensures DistinctKeys(j.members, false) && DistinctKeys(j.members, cs)
  {
    DistinctInBoth(j.members, cs);
  }

  lemma EqualObject(a: Json, b: Json, cs: bool)
    requires StandsFor(a, b, cs) && b.Object?
    ensures a.Object?
  {
  }

  // From the walk back to the documents

  lemma {:induction false} WalkFitsMembers(s: Members, t: Members, cs: bool)
    requires Row(s, cs) && Row(t, cs)
    ensures WalkFits(s, t, cs) <==> MembersFit(s, t, cs)
    decreases |s| + |t|
  {
    if s != [] || t != [] {
      hide Row, Gone, Fold, LastClean, KeyOrder, PairFits, Lookup, MembersFit;
      var key, s', t' := WalkTurn(s, t, cs);
      WalkFitsMembers(s', t', cs);
      FitsAfterTurn(s, s', t, t', key, cs);
    } else {
      hide Row;
    }
  }

  lemma FitsAfterTurn(s: Members, s': Members, t: Members, t': Members, key: CStr, cs: bool)
    requires Gone(s, s', key, cs) && Gone(t, t', key, cs)
    requires (s' == s && Lookup(s, key, cs).None?) ||
             (s != [] && s' == s[1..] && s[0].key == key && Lookup(s, key, cs) == Some(s[0].item))
    requires (t' == t && Lookup(t, key, cs).None?) ||
             (t != [] && t' == t[1..] && Fold(t[0].key, cs) == Fold(key, cs) && Lookup(t, key, cs) == Some(t[0].item))
    requires s' == s ==> t' != t && t[0].key == key
    ensures MembersFit(s, t, cs) <==>
            MembersFit(s', t', cs) &&
            (if s' == s then LastClean(key) else MemberFits(s[0], t, cs))
  {
    hide Fold, LastClean, PairFits, Lookup;
    NotAmong(s', key, cs);
    NotAmong(t', key, cs);
    forall m: Keyed<Json> | Fold(m.key, cs) != Fold(key, cs)
      ensures MemberFits(m, t, cs) == MemberFits(m, t', cs) && NewFits(s, m, cs) == NewFits(s', m, cs)
    {
    }
    FitsRest(s, s', t, t', key, cs);
    if t' != t && s' != s {
      LookupSame(s, t[0].key, key, cs);
    }
    if s' == s {
      assert NewFits(s, t[0], cs) == LastClean(key);
    }
  }

  /** The conditions on all members but the first ones. */
  lemma FitsRest(s: Members, s': Members, t: Members, t': Members, key: CStr, cs: bool)
    requires s' == s || (s != [] && s' == s[1..])
    requires t' == t || (t != [] && t' == t[1..])
    requires forall i :: 0 <= i < |s'| ==> MemberFits(s'[i], t, cs) == MemberFits(s'[i], t', cs)
    requires forall i :: 0 <= i < |t'| ==> NewFits(s, t'[i], cs) == NewFits(s', t'[i], cs)
    ensures MembersFit(s, t, cs) <==>
            MembersFit(s', t', cs) && (s' != s ==> MemberFits(s[0], t, cs)) && (t' != t ==> NewFits(s, t[0], cs))
  {
    hide MemberFits, NewFits;
    assert s' != s ==> forall i :: 0 < i < |s| ==> s[i] == s'[i-1];
    assert t' != t ==> forall i :: 0 < i < |t| ==> t[i] == t'[i-1];
  }
}
