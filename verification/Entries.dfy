/** Equality of objects, entry by entry. */
module Entries {
  import opened CStrings
  import opened Json
  import opened Lookups
  import opened KeySort
  import opened Compare

  /** Both have nothing, or equal values. */
  ghost predicate SameEntry(a: Option<Json>, b: Option<Json>, cs: bool) {
    (a.Some? <==> b.Some?) && (a.Some? ==> Equal(a.value, b.value, cs))
  }

  lemma SameEntryThrough(a: Option<Json>, b: Option<Json>, c: Option<Json>, cs: bool)
    requires SameEntry(a, b, cs) && SameEntry(a, c, cs)
    ensures SameEntry(b, c, cs)
  {
    hide Equal;
    if a.Some? {
      EqualSymmetric(a.value, b.value, cs);
      EqualTransitive(b.value, a.value, c.value, cs);
    }
  }

  /** Equal objects have equal entries. */
  lemma EqualEntries(ms: Members, ns: Members, key: CStr, cs: bool)
    requires Equal(Object(ms), Object(ns), cs)
    ensures SameEntry(Lookup(ms, key, cs), Lookup(ns, key, cs), cs)
  {
    assert Covered(ms, ns, cs) && Covered(ns, ms, cs);
    hide Equal, Fold;
    EntryFound(ms, ns, key, cs);
    EntryFound(ns, ms, key, cs);
  }

  lemma EntryFound(ms: Members, ns: Members, key: CStr, cs: bool)
    requires Covered(ms, ns, cs)
    ensures var a, b := Lookup(ms, key, cs), Lookup(ns, key, cs); a.Some? ==> b.Some? && Equal(a.value, b.value, cs)
  {
    hide Equal, Fold;
    var i := FindKey(ms, key, cs);
    if i < |ms| {
      assert FoundEqual(ms[i], ns, cs);
      FindSame(ns, ms[i].key, key, cs);
    }
  }

  /** With distinct keys, equal entries make equal objects. */
  lemma EntriesEqual(ms: Members, ns: Members, cs: bool)
    requires DistinctKeys(ms, cs) && DistinctKeys(ns, cs)
    requires forall key :: SameEntry(Lookup(ms, key, cs), Lookup(ns, key, cs), cs)
    ensures Equal(Object(ms), Object(ns), cs)
  {
    assert Covered(ms, ns, cs) && Covered(ns, ms, cs) by {
      hide Equal, Fold, FoundEqual;
      forall i | 0 <= i < |ms| ensures FoundEqual(ms[i], ns, cs) {
        assert SameEntry(Lookup(ms, ms[i].key, cs), Lookup(ns, ms[i].key, cs), cs);
        EntryOfMember(ms, ns, i, cs);
      }
      forall i | 0 <= i < |ns| ensures FoundEqual(ns[i], ms, cs) {
        assert SameEntry(Lookup(ms, ns[i].key, cs), Lookup(ns, ns[i].key, cs), cs);
        SameEntrySymmetric(Lookup(ms, ns[i].key, cs), Lookup(ns, ns[i].key, cs), cs);
        EntryOfMember(ns, ms, i, cs);
      }
    }
  }

  lemma SameEntrySymmetric(a: Option<Json>, b: Option<Json>, cs: bool)
    requires SameEntry(a, b, cs)
    ensures SameEntry(b, a, cs)
  {
    hide Equal;
    if a.Some? {
      EqualSymmetric(a.value, b.value, cs);
    }
  }

  lemma EntryOfMember(ms: Members, ns: Members, i: nat, cs: bool)
    requires i < |ms| && DistinctKeys(ms, cs) && SameEntry(Lookup(ms, ms[i].key, cs), Lookup(ns, ms[i].key, cs), cs)
    ensures FoundEqual(ms[i], ns, cs)
  {
    hide Equal, Fold;
    LookupMember(ms, i, cs);
  }

  lemma LookupMember(ms: Members, i: nat, cs: bool)
    requires i < |ms| && DistinctKeys(ms, cs)
    ensures Lookup(ms, ms[i].key, cs) == Some(ms[i].item)
  {
    hide Fold;
    assert FindKey(ms, ms[i].key, cs) == i;
  }

  /** Sorting does not change what lookups find. */
  lemma SortLookup(ms: Members, key: CStr, cs: bool)
    requires DistinctKeys(ms, cs)
    ensures Lookup(Sort(ms, cs), key, cs) == Lookup(ms, key, cs)
  {
    hide Sort, Fold;
    var s := Sort(ms, cs);
    SortedDistinct(ms, cs);
    SortMembership(ms, cs);
    var i := FindKey(ms, key, cs);
    if i < |ms| {
      assert ms[i] in s;
      var n :| 0 <= n < |s| && s[n] == ms[i];
      LookupMember(s, n, cs);
      LookupSame(s, s[n].key, key, cs);
    }
  }
}
