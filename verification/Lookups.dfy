/** Looking members up by key, and taking them out. */
module Lookups {
  import opened CStrings
  import opened Json

  function Without(ms: Members, key: CStr, cs: bool): Members {
    var i := FindKey(ms, key, cs);
    if i < |ms| then RemoveAt(ms, i) else ms
  }

  function Lookup(ms: Members, key: CStr, cs: bool): Option<Json> {
    var i := FindKey(ms, key, cs);
    if i < |ms| then Some(ms[i].item) else None
  }

  lemma {:induction false} LookupSplit(a: Members, b: Members, key: CStr, cs: bool)
    ensures Lookup(a + b, key, cs) == if Lookup(a, key, cs).Some? then Lookup(a, key, cs) else Lookup(b, key, cs)
  {
    if a == [] {
      assert a + b == b;
    } else {
      assert (a + b)[1..] == a[1..] + b;
      LookupSplit(a[1..], b, key, cs);
    }
  }

  lemma TailDistinct(ms: Members, cs: bool)
    requires ms != [] && DistinctKeys(ms, cs)
    ensures DistinctKeys(ms[1..], cs) && FindKey(ms[1..], ms[0].key, cs) == |ms[1..]|
  {
    forall k | 0 <= k < |ms[1..]| ensures Fold(ms[1..][k].key, cs) != Fold(ms[0].key, cs) {
      assert ms[1..][k] == ms[k+1];
    }
  }

  lemma WithoutHead(ms: Members, key: CStr, cs: bool)
    requires ms != []
    ensures Without(ms, key, cs) ==
            if Fold(ms[0].key, cs) == Fold(key, cs) then ms[1..] else [ms[0]] + Without(ms[1..], key, cs)
  {
    hide Fold;
    var i := FindKey(ms, key, cs);
    if i == 0 {
      assert RemoveAt(ms, 0) == ms[1..];
    } else if i < |ms| {
      hide FindKey;
      RemoveBehindHead(ms, i);
      HeadAndRest(RemoveAt(ms, i), ms[0], RemoveAt(ms[1..], i - 1));
    } else {
      assert ms == [ms[0]] + ms[1..];
    }
  }

  lemma HeadAndRest<T>(s: seq<T>, x: T, rest: seq<T>)
    requires s != [] && s[0] == x && s[1..] == rest
    ensures s == [x] + rest
  {
  }

  /** A key that finds nothing takes nothing away. */
  lemma WithoutNothing(ms: Members, unknown: CStr, key: CStr, cs: bool)
    requires Fold(unknown, cs) == Fold(key, cs) && FindKey(ms, unknown, cs) == |ms|
    ensures Without(ms, key, cs) == ms
  {
    FindSame(ms, unknown, key, cs);
  }

  lemma OneLookup(m: Keyed<Json>, key: CStr, cs: bool)
    ensures Lookup([m], key, cs) == if Fold(m.key, cs) == Fold(key, cs) then Some(m.item) else None
  {
  }

  lemma NoLookup(key: CStr, cs: bool)
    ensures Lookup([], key, cs).None?
  {
  }

  lemma {:induction false} LookupWithout(ms: Members, gone: CStr, key: CStr, cs: bool)
    requires Fold(gone, cs) != Fold(key, cs)
    ensures Lookup(Without(ms, gone, cs), key, cs) == Lookup(ms, key, cs)
  {
    hide Lookup, Without, Fold;
    if ms == [] {
      WithoutEmpty(gone, cs);
    } else {
      WithoutHead(ms, gone, cs);
      HeadAndRest(ms, ms[0], ms[1..]);
      LookupSplit([ms[0]], ms[1..], key, cs);
      OneLookup(ms[0], key, cs);
      if Fold(ms[0].key, cs) != Fold(gone, cs) {
        LookupWithout(ms[1..], gone, key, cs);
        LookupSplit([ms[0]], Without(ms[1..], gone, cs), key, cs);
      }
    }
  }

  lemma WithoutEmpty(key: CStr, cs: bool)
    ensures Without([], key, cs) == []
  {
  }

  lemma LookupSame(ms: Members, k: CStr, l: CStr, cs: bool)
    requires Fold(k, cs) == Fold(l, cs)
    ensures Lookup(ms, k, cs) == Lookup(ms, l, cs)
  {
    FindSame(ms, k, l, cs);
  }

  lemma WithoutDistinct(ms: Members, key: CStr, cs: bool, mode: bool)
    requires DistinctKeys(ms, mode)
    ensures DistinctKeys(Without(ms, key, cs), mode)
  {
    hide Fold;
  }

  lemma LookupGone(ms: Members, key: CStr, cs: bool)
    requires DistinctKeys(ms, cs)
    ensures Lookup(Without(ms, key, cs), key, cs).None?
  {
    hide Fold;
    var i := FindKey(ms, key, cs);
    if i < |ms| {
      var r := RemoveAt(ms, i);
      forall k | 0 <= k < |r| ensures Fold(r[k].key, cs) != Fold(key, cs) {
        assert Fold(ms[if k < i then k else k + 1].key, cs) != Fold(ms[i].key, cs);
      }
    }
  }

  lemma AppendDistinct(ms: Members, m: Keyed<Json>, cs: bool)
    requires DistinctKeys(ms, cs) && Lookup(ms, m.key, cs).None?
    ensures DistinctKeys(ms + [m], cs)
  {
    hide Fold;
  }

  /** Taking a member out of two lists that have no key in common. */
  lemma WithoutSplit(a: Members, b: Members, key: CStr, cs: bool)
    requires DistinctKeys(a + b, cs)
    ensures Without(a + b, key, cs) == Without(a, key, cs) + Without(b, key, cs)
  {
    hide Fold, RemoveAt, FindKey;
    FindSplit(a, b, key, cs);
    var i, n := FindKey(a, key, cs), FindKey(b, key, cs);
    if i < |a| {
      NotInBoth(a, b, key, cs);
      RemoveFront(a, b, i);
    } else if n < |b| {
      RemoveBack(a, b, n);
    }
  }

  lemma NotInBoth(a: Members, b: Members, key: CStr, cs: bool)
    requires DistinctKeys(a + b, cs) && FindKey(a, key, cs) < |a|
    ensures FindKey(b, key, cs) == |b|
  {
    hide Fold;
    var i := FindKey(a, key, cs);
    forall k | 0 <= k < |b| ensures Fold(b[k].key, cs) != Fold(key, cs) {
      assert (a + b)[i] == a[i] && (a + b)[|a|+k] == b[k];
    }
  }

  lemma RemoveFront<T>(a: seq<T>, b: seq<T>, i: nat)
    requires i < |a|
    ensures RemoveAt(a + b, i) == RemoveAt(a, i) + b
  {
  }

  lemma RemoveBack<T>(a: seq<T>, b: seq<T>, i: nat)
    requires i < |b|
    ensures RemoveAt(a + b, |a| + i) == a + RemoveAt(b, i)
  {
  }

  lemma {:induction false} FindSplit<T>(a: seq<Keyed<T>>, b: seq<Keyed<T>>, key: CStr, cs: bool)
    ensures FindKey(a + b, key, cs) == if FindKey(a, key, cs) < |a| then FindKey(a, key, cs) else |a| + FindKey(b, key, cs)
  {
    hide Fold;
    if a == [] {
      assert a + b == b;
    } else {
      assert (a + b)[1..] == a[1..] + b;
      FindSplit(a[1..], b, key, cs);
    }
  }
}
