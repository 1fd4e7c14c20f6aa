/** A key that does not fit makes the patches fail. */
module PatchMisfits {
  import opened CStrings
  import opened Json
  import opened Lookups
  import opened KeySort
  import opened Compare
  import opened Entries
  import opened Reordering
  import opened Pointers
  import opened Patch
  import opened PathKeys
  import opened PatchMeaning
  import opened PatchGeneration
  import opened PatchRuns
  import opened PatchTargets
  import opened PatchConditions

  // Objects with a key that does not fit

  /** The keys the edits of a walk are made for. */
  ghost function WalkKeys(s: Members, t: Members, cs: bool, junk: Byte): seq<CStr>
    decreases |s| + |t|
  {
    if s == [] && t == [] then []
    else
      var order := WalkOrder(s, t, cs);
      if order == 0 then Repeated(s[0].key, |Diffs(s[0].item, t[0].item, cs, junk)|) + WalkKeys(s[1..], t[1..], cs, junk)
      else if order < 0 then [s[0].key] + WalkKeys(s[1..], t, cs, junk)
      else [t[0].key] + WalkKeys(s, t[1..], cs, junk)
  }

  function Repeated(key: CStr, n: nat): (r: seq<CStr>)
    ensures |r| == n && forall i :: 0 <= i < n ==> r[i] == key
  {
    seq(n, i => key)
  }

  /** Source and target differ at a key, as a whole or further down. */
  ghost predicate DifferAt(s: Members, t: Members, key: CStr, whole: bool, cs: bool) {
    var a, b := Lookup(s, key, cs), Lookup(t, key, cs);
    !SameEntry(a, b, cs) && (whole <==> a.None? || b.None? || Whole(a.value, b.value))
  }

  ghost predicate WellMade(s: Members, t: Members, es: seq<Edit>, keys: seq<CStr>, cs: bool, junk: Byte) {
    MadeFor(es, keys, junk) && forall i :: 0 <= i < |es| ==> DifferAt(s, t, keys[i], |es[i].tokens| == 1, cs)
  }

  lemma DifferBefore(s: Members, s': Members, t: Members, t': Members, key: CStr, l: CStr, whole: bool, cs: bool)
    requires Gone(s, s', key, cs) && Gone(t, t', key, cs) && DifferAt(s', t', l, whole, cs)
    ensures DifferAt(s, t, l, whole, cs)
  {
    hide Fold, Lookup, Equal;
    if Fold(l, cs) == Fold(key, cs) {
      LookupSame(s', l, key, cs);
      LookupSame(t', l, key, cs);
    }
  }

  lemma WellMadeBefore(s: Members, s': Members, t: Members, t': Members, key: CStr, batch: seq<Edit>, rest: seq<Edit>, keys: seq<CStr>,
                       cs: bool, junk: Byte)
    requires Gone(s, s', key, cs) && Gone(t, t', key, cs) && WellMade(s', t', rest, keys, cs, junk)
    requires WellMade(s, t, batch, Repeated(key, |batch|), cs, junk)
    ensures WellMade(s, t, batch + rest, Repeated(key, |batch|) + keys, cs, junk)
  {
    hide Gone, DifferAt, Composed, EncodeKey;
    forall i | 0 <= i < |rest| ensures DifferAt(s, t, keys[i], |rest[i].tokens| == 1, cs) {
      DifferBefore(s, s', t, t', key, keys[i], |rest[i].tokens| == 1, cs);
    }
  }

  /** What one turn of the walk adds to the edits and their keys. */
  lemma WalkSplit(from: Json, s: Members, t: Members, cs: bool, junk: Byte)
    requires (forall i :: 0 <= i < |s| ==> s[i].item < from) && (s != [] || t != [])
    ensures var order, es, keys := WalkOrder(s, t, cs), WalkDiffs(from, s, t, cs, junk), WalkKeys(s, t, cs, junk);
            if order == 0 then
              var edits := Diffs(s[0].item, t[0].item, cs, junk);
              es == Prefixed(EncodeKey(s[0].key, junk), edits) + WalkDiffs(from, s[1..], t[1..], cs, junk) &&
              keys == Repeated(s[0].key, |edits|) + WalkKeys(s[1..], t[1..], cs, junk)
            else if order < 0 then
              es == [Edit(OpRemove, [EncodeKey(s[0].key, junk)], None)] + WalkDiffs(from, s[1..], t, cs, junk) &&
              keys == Repeated(s[0].key, 1) + WalkKeys(s[1..], t, cs, junk)
            else
              es == [Edit(OpAdd, [EncodeKey(t[0].key, junk)], Some(t[0].item))] + WalkDiffs(from, s, t[1..], cs, junk) &&
              keys == Repeated(t[0].key, 1) + WalkKeys(s, t[1..], cs, junk)
  {
    hide Diffs, EncodeKey, KeyOrder;
    var order := WalkOrder(s, t, cs);
    if order < 0 {
      assert Repeated(s[0].key, 1) == [s[0].key];
    } else if order > 0 {
      assert Repeated(t[0].key, 1) == [t[0].key];
    }
  }

  lemma {:induction false} WalkWellMade(from: Json, s: Members, t: Members, cs: bool, junk: Byte)
    requires (forall i :: 0 <= i < |s| ==> s[i].item < from) && Row(s, cs) && Row(t, cs)
    ensures WellMade(s, t, WalkDiffs(from, s, t, cs, junk), WalkKeys(s, t, cs, junk), cs, junk)
    decreases |s| + |t|
  {
    hide Row, Gone, Fold, KeyOrder, Lookup, WellMade, Diffs, EncodeKey, Proper, Sized, WalkDiffs, WalkKeys;
    if s == [] && t == [] {
      NothingMade(from, s, t, cs, junk);
    } else {
      var key, s', t' := WalkTurn(s, t, cs);
      var order, es, keys := WalkOrder(s, t, cs), WalkDiffs(from, s', t', cs, junk), WalkKeys(s', t', cs, junk);
      WalkSplit(from, s, t, cs, junk);
      WalkWellMade(from, s', t', cs, junk);
      if order == 0 {
        RowTail(s, cs);
        RowTail(t, cs);
        PairWellMade(s, s', t, t', s[0], t[0].item, es, keys, cs, junk);
      } else if order < 0 {
        AloneWellMade(s, s', t, t', key, Edit(OpRemove, [EncodeKey(key, junk)], None), es, keys, cs, junk);
      } else {
        AloneWellMade(s, s', t, t', key, Edit(OpAdd, [EncodeKey(key, junk)], Some(t[0].item)), es, keys, cs, junk);
      }
    }
  }

  lemma NothingMade(from: Json, s: Members, t: Members, cs: bool, junk: Byte)
    requires s == [] && t == []
    ensures WellMade(s, t, WalkDiffs(from, s, t, cs, junk), WalkKeys(s, t, cs, junk), cs, junk)
  {
  }

  lemma AloneWellMade(s: Members, s': Members, t: Members, t': Members, key: CStr, e: Edit, rest: seq<Edit>, keys: seq<CStr>,
                      cs: bool, junk: Byte)
    requires Gone(s, s', key, cs) && Gone(t, t', key, cs) && WellMade(s', t', rest, keys, cs, junk)
    requires Composed(e) && e.tokens == [EncodeKey(key, junk)]
    requires Lookup(s, key, cs).Some? != Lookup(t, key, cs).Some?
    ensures WellMade(s, t, [e] + rest, Repeated(key, 1) + keys, cs, junk)
  {
    hide Lookup, EncodeKey, Gone;
    assert WellMade(s, t, [e], Repeated(key, 1), cs, junk);
    hide WellMade;
    WellMadeBefore(s, s', t, t', key, [e], rest, keys, cs, junk);
  }

  lemma PairWellMade(s: Members, s': Members, t: Members, t': Members, m: Keyed<Json>, value: Json, rest: seq<Edit>, keys: seq<CStr>,
                     cs: bool, junk: Byte)
    requires Gone(s, s', m.key, cs) && Gone(t, t', m.key, cs) && WellMade(s', t', rest, keys, cs, junk)
    requires Lookup(s, m.key, cs) == Some(m.item) && Lookup(t, m.key, cs) == Some(value) && Proper(m.item) && Proper(value)
    ensures var es := Diffs(m.item, value, cs, junk);
            WellMade(s, t, Prefixed(EncodeKey(m.key, junk), es) + rest, Repeated(m.key, |es|) + keys, cs, junk)
  {
    hide Lookup, EncodeKey, Diffs, Equal, Proper, Gone;
    var es := Diffs(m.item, value, cs, junk);
    DiffsShaped(m.item, value, cs, junk);
    SilentWhenEqual(m.item, value, cs, junk);
    var batch := Prefixed(EncodeKey(m.key, junk), es);
    assert WellMade(s, t, batch, Repeated(m.key, |batch|), cs, junk);
    hide WellMade;
    WellMadeBefore(s, s', t, t', m.key, batch, rest, keys, cs, junk);
  }

  ghost predicate SomeUnfit(es: seq<Edit>, keys: seq<CStr>) {
    |keys| == |es| && exists i :: 0 <= i < |es| && !Fits(keys[i], |es[i].tokens| == 1)
  }

  lemma UnfitBehind(a: seq<Edit>, key: CStr, es: seq<Edit>, keys: seq<CStr>)
    requires SomeUnfit(es, keys)
    ensures SomeUnfit(a + es, Repeated(key, |a|) + keys)
  {
    hide Fits;
    var i :| 0 <= i < |es| && !Fits(keys[i], |es[i].tokens| == 1);
    assert (a + es)[|a|+i] == es[i] && (Repeated(key, |a|) + keys)[|a|+i] == keys[i];
  }

  lemma UnfitFirst(a: seq<Edit>, key: CStr, es: seq<Edit>, keys: seq<CStr>)
    requires a != [] && !Fits(key, |a[0].tokens| == 1) && |keys| == |es|
    ensures SomeUnfit(a + es, Repeated(key, |a|) + keys)
  {
    hide Fits;
    assert (a + es)[0] == a[0] && (Repeated(key, |a|) + keys)[0] == key;
  }

  lemma KeyCount(from: Json, s: Members, t: Members, cs: bool, junk: Byte)
    requires (forall i :: 0 <= i < |s| ==> s[i].item < from) && Row(s, cs) && Row(t, cs)
    ensures |WalkKeys(s, t, cs, junk)| == |WalkDiffs(from, s, t, cs, junk)|
  {
    WalkWellMade(from, s, t, cs, junk);
  }

  /** Some edit is made for a key that does not fit. */
  lemma {:induction false} UnfitEdit(from: Json, s: Members, t: Members, cs: bool, junk: Byte)
    requires (forall i :: 0 <= i < |s| ==> s[i].item < from) && Row(s, cs) && Row(t, cs) && !HeadsFit(s, t, cs)
    ensures SomeUnfit(WalkDiffs(from, s, t, cs, junk), WalkKeys(s, t, cs, junk))
    decreases |s| + |t|
  {
    hide Row, Fold, KeyOrder, Diffs, EncodeKey, Proper, Sized, LastClean, Clean, Equal, Whole, WalkDiffs, WalkKeys, SomeUnfit,
         Gone, Lookup;
    var key, s', t' := WalkTurn(s, t, cs);
    var order, es, keys := WalkOrder(s, t, cs), WalkDiffs(from, s', t', cs, junk), WalkKeys(s', t', cs, junk);
    WalkSplit(from, s, t, cs, junk);
    KeyCount(from, s', t', cs, junk);
    if order == 0 {
      RowTail(s, cs);
      RowTail(t, cs);
      var edits, whole := Diffs(s[0].item, t[0].item, cs, junk), Whole(s[0].item, t[0].item);
      var batch := Prefixed(EncodeKey(key, junk), edits);
      if Equal(s[0].item, t[0].item, cs) || Fits(key, whole) {
        UnfitEdit(from, s', t', cs, junk);
        UnfitBehind(batch, key, es, keys);
      } else {
        DiffsShaped(s[0].item, t[0].item, cs, junk);
        SilentWhenEqual(s[0].item, t[0].item, cs, junk);
        UnfitFirst(batch, key, es, keys);
      }
    } else {
      var e := if order < 0 then Edit(OpRemove, [EncodeKey(key, junk)], None)
               else Edit(OpAdd, [EncodeKey(key, junk)], Some(t[0].item));
      if LastClean(key) {
        UnfitEdit(from, s', t', cs, junk);
        UnfitBehind([e], key, es, keys);
      } else {
        UnfitFirst([e], key, es, keys);
      }
    }
  }

  /** Fitting depends on the class of the key only. */
  lemma FitsByClass(key: CStr, other: CStr, whole: bool)
    requires Fold(key, false) == Fold(other, false)
    ensures Fits(key, whole) == Fits(other, whole)
  {
    var a, b := Fold(key, false), Fold(other, false);
    assert forall i :: 0 <= i < |key| ==> (key[i] == SLASH <==> a[i] == SLASH) && (key[i] == TILDE <==> a[i] == TILDE);
    assert forall i :: 0 <= i < |key| ==> (other[i] == SLASH <==> b[i] == SLASH) && (other[i] == TILDE <==> b[i] == TILDE);
    assert SLASH in key <==> SLASH in other;
    assert TILDE in key <==> TILDE in other;
    if key != [] {
      assert TILDE in key[..|key|-1] <==> TILDE in other[..|key|-1] by {
        var k, o := key[..|key|-1], other[..|key|-1];
        assert forall i :: 0 <= i < |k| ==> (k[i] == TILDE <==> o[i] == TILDE);
      }
    }
  }

  /** Where source and target differ under two keys of one class, they differ as a whole under both, or the keys are the same. */
  lemma ClassTogether(s: Members, t: Members, k: CStr, l: CStr, v: bool, w: bool, cs: bool)
    requires DistinctKeys(s, false) && DistinctKeys(t, false) && Fold(k, false) == Fold(l, false)
    requires DifferAt(s, t, k, v, cs) && DifferAt(s, t, l, w, cs)
    ensures v == w
  {
    hide Equal, Whole;
    if Fold(k, cs) == Fold(l, cs) {
      LookupSame(s, k, l, cs);
      LookupSame(t, k, l, cs);
    } else {
      OneOfClass(s, k, l, cs);
      OneOfClass(t, k, l, cs);
    }
  }

  lemma OneOfClass(s: Members, k: CStr, l: CStr, cs: bool)
    requires DistinctKeys(s, false) && Fold(k, false) == Fold(l, false) && Fold(k, cs) != Fold(l, cs)
    ensures Lookup(s, k, cs).None? || Lookup(s, l, cs).None?
  {
    hide Fold;
    var i, j := FindKey(s, k, cs), FindKey(s, l, cs);
    if i < |s| {
      FoldCoarser(s[i].key, k, cs);
      forall j | 0 <= j < |s| ensures Fold(s[j].key, cs) != Fold(l, cs) {
        if Fold(s[j].key, cs) == Fold(l, cs) {
          FoldCoarser(s[j].key, l, cs);
        }
      }
    }
  }

  /** When a key does not fit, the edits fail or leave some entry of the target unreached. */
  lemma UnfitFails(from: Json, to: Json, doc: Json, cs: bool, junk: Byte)
    requires from.Object? && to.Object? && Proper(from) && Proper(to) && Sized(from) && Sized(to) && StandsFor(doc, from, cs)
    requires !HeadsFit(Sort(from.members, cs), Sort(to.members, cs), cs) && junk != TILDE
    ensures !Works(doc, to, Diffs(from, to, cs, junk), cs)
  {
    hide Sort, Row, HeadsFit, Fits, Led, EncodeKey, Lookup, RunEdits, Fold, WellKeyed, Plain, Sized, WalkDiffs, WalkKeys,
         LeadsElsewhere, DifferAt, Composed;
    var s, t := Sort(from.members, cs), Sort(to.members, cs);
    SortMembership(from.members, cs);
    SortedRow(from, cs);
    SortedRow(to, cs);
    var es, keys := WalkDiffs(from, s, t, cs, junk), WalkKeys(s, t, cs, junk);
    WalkWellMade(from, s, t, cs, junk);
    UnfitEdit(from, s, t, cs, junk);
    forall k, l | 0 <= k < |es| && 0 <= l < |es| && Fold(keys[k], false) == Fold(keys[l], false)
      ensures Fits(keys[k], |es[k].tokens| == 1) == Fits(keys[l], |es[l].tokens| == 1)
    {
      RowDistinct(s, cs);
      RowDistinct(t, cs);
      ClassTogether(s, t, keys[k], keys[l], |es[k].tokens| == 1, |es[l].tokens| == 1, cs);
      FitsByClass(keys[k], keys[l], |es[k].tokens| == 1);
    }
    var i := ClassLeftAlone(es, keys, junk, cs);
    if Works(doc, to, es, cs) {
      EqualObject(doc, from, cs);
      RunSpares(doc.members, es, keys, Fold(keys[i], false), junk, cs);
      UntouchedEntry(doc.members, RunEdits(doc, es, cs).doc.members, from, to, keys[i], |es[i].tokens| == 1, cs);
    }
  }

  lemma RowDistinct(s: Members, cs: bool)
    requires Row(s, cs)
    ensures DistinctKeys(s, false)
  {
  }

  lemma UntouchedEntry(ms: Members, ns: Members, from: Json, to: Json, key: CStr, whole: bool, cs: bool)
    requires from.Object? && to.Object? && Proper(from) && Proper(to)
    requires Equal(Object(ms), from, cs) && Equal(Object(ns), to, cs)
    requires ClassOf(ns, Fold(key, false)) == ClassOf(ms, Fold(key, false))
    ensures !DifferAt(Sort(from.members, cs), Sort(to.members, cs), key, whole, cs)
  {
    hide Sort, Lookup, Equal, Fold, Plain, SameEntry;
    ClassLookup(ms, key, cs);
    ClassLookup(ns, key, cs);
    EqualEntries(ms, from.members, key, cs);
    EqualEntries(ns, to.members, key, cs);
    DistinctInBoth(from.members, cs);
    DistinctInBoth(to.members, cs);
    SortLookup(from.members, key, cs);
    SortLookup(to.members, key, cs);
    SameEntryThrough(Lookup(ms, key, cs), Lookup(from.members, key, cs), Lookup(to.members, key, cs), cs);
  }
}
