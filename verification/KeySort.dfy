/** The order `sort_list` puts a list in, as a function on sequences, and what it promises. */
module KeySort {
  import opened Sequences
  import opened CStrings
  import opened Json

  /** Neighbours are in strictly increasing order: the test that leaves a list alone. */
  predicate Ascending<T>(s: seq<Keyed<T>>, cs: bool) {
    forall i :: 0 <= i < |s| - 1 ==> KeyLess(s[i].key, s[i+1].key, cs)
  }

  ghost predicate Sorted<T>(s: seq<Keyed<T>>, cs: bool) {
    forall i, j :: 0 <= i < j < |s| ==> KeyOrder(s[i].key, s[j].key, cs) <= 0
  }

  ghost predicate StrictlySorted<T>(s: seq<Keyed<T>>, cs: bool) {
    forall i, j :: 0 <= i < j < |s| ==> KeyLess(s[i].key, s[j].key, cs)
  }

  /** On equal keys the element of the second list goes first. */
  function MergeLists<T>(a: seq<Keyed<T>>, b: seq<Keyed<T>>, cs: bool): (r: seq<Keyed<T>>)
    ensures |r| == |a| + |b|
    decreases |a| + |b|
  {
    if a == [] then b
    else if b == [] then a
    else if KeyLess(a[0].key, b[0].key, cs) then [a[0]] + MergeLists(a[1..], b, cs)
    else [b[0]] + MergeLists(a, b[1..], cs)
  }

  function Sort<T>(s: seq<Keyed<T>>, cs: bool): (r: seq<Keyed<T>>)
    ensures |r| == |s|
    decreases |s|
  {
    if |s| <= 1 || Ascending(s, cs) then s
    else
      var middle := (|s| + 1) / 2;
      MergeLists(Sort(s[..middle], cs), Sort(s[middle..], cs), cs)
  }

  ghost predicate BelowAll<T>(k: CStr, s: seq<Keyed<T>>, cs: bool) {
    forall i :: 0 <= i < |s| ==> KeyOrder(k, s[i].key, cs) <= 0
  }

  lemma {:induction false} MergeKeeps<T>(a: seq<Keyed<T>>, b: seq<Keyed<T>>, cs: bool)
    ensures multiset(MergeLists(a, b, cs)) == multiset(a) + multiset(b)
    decreases |a| + |b|
  {
    if a != [] && b != [] {
      assert a == [a[0]] + a[1..] && b == [b[0]] + b[1..];
      if KeyLess(a[0].key, b[0].key, cs) {
        MergeKeeps(a[1..], b, cs);
      } else {
        MergeKeeps(a, b[1..], cs);
      }
    }
  }

  lemma {:induction false} MergeBelow<T>(k: CStr, a: seq<Keyed<T>>, b: seq<Keyed<T>>, cs: bool)
    requires BelowAll(k, a, cs) && BelowAll(k, b, cs)
    ensures BelowAll(k, MergeLists(a, b, cs), cs)
    decreases |a| + |b|
  {
    if a != [] && b != [] {
      if KeyLess(a[0].key, b[0].key, cs) {
        MergeBelow(k, a[1..], b, cs);
      } else {
        MergeBelow(k, a, b[1..], cs);
      }
    }
  }

  lemma {:induction false} MergeSorts<T>(a: seq<Keyed<T>>, b: seq<Keyed<T>>, cs: bool)
    requires Sorted(a, cs) && Sorted(b, cs)
    ensures Sorted(MergeLists(a, b, cs), cs)
    decreases |a| + |b|
  {
    if a != [] && b != [] {
      if KeyLess(a[0].key, b[0].key, cs) {
        MergeSorts(a[1..], b, cs);
        BelowHead(a[0].key, b, cs);
        MergeBelow(a[0].key, a[1..], b, cs);
      } else {
        MergeSorts(a, b[1..], cs);
        KeyOrderIsTotal(a[0].key, b[0].key, b[0].key, cs);
        BelowHead(b[0].key, a, cs);
        MergeBelow(b[0].key, a, b[1..], cs);
      }
    }
  }

  lemma BelowHead<T>(k: CStr, s: seq<Keyed<T>>, cs: bool)
    requires s != [] && Sorted(s, cs) && KeyOrder(k, s[0].key, cs) <= 0
    ensures BelowAll(k, s, cs)
  {
    forall i | 0 <= i < |s| ensures KeyOrder(k, s[i].key, cs) <= 0 {
      if i > 0 {
        KeyOrderIsTotal(k, s[0].key, s[i].key, cs);
      }
    }
  }

  lemma {:induction false} AscendingIsStrict<T>(s: seq<Keyed<T>>, cs: bool)
    requires Ascending(s, cs)
    ensures StrictlySorted(s, cs)
  {
    forall i, j | 0 <= i < j < |s| ensures KeyLess(s[i].key, s[j].key, cs) {
      AscendingLess(s, cs, i, j);
    }
  }

  lemma {:induction false} AscendingLess<T>(s: seq<Keyed<T>>, cs: bool, i: nat, j: nat)
    requires Ascending(s, cs) && i < j < |s|
    ensures KeyLess(s[i].key, s[j].key, cs)
    decreases j
  {
    if i < j - 1 {
      AscendingLess(s, cs, i, j - 1);
      KeyOrderIsTotal(s[i].key, s[j-1].key, s[j].key, cs);
      assert KeyLess(s[j-1].key, s[j-1+1].key, cs);
    }
  }

  /** The result is a non-decreasing permutation, and a strictly increasing list is left alone. */
  lemma {:induction false} SortCorrect<T>(s: seq<Keyed<T>>, cs: bool)
    ensures Sorted(Sort(s, cs), cs)
    ensures multiset(Sort(s, cs)) == multiset(s)
    ensures StrictlySorted(s, cs) ==> Sort(s, cs) == s
    decreases |s|
  {
    hide KeyLess, KeyOrder, MergeLists, Sort, Ascending, StrictlySorted, Sorted;
    if |s| <= 1 || Ascending(s, cs) {
      SortLeaves(s, cs);
    } else {
      var middle := (|s| + 1) / 2;
      var a, b := s[..middle], s[middle..];
      SortCorrect(a, cs);
      SortCorrect(b, cs);
      SortHalves(s, cs);
      MergeSorts(Sort(a, cs), Sort(b, cs), cs);
      MergeKeeps(Sort(a, cs), Sort(b, cs), cs);
      assert s == a + b;
      StrictIsAscending(s, cs);
    }
  }

  lemma SortLeaves<T>(s: seq<Keyed<T>>, cs: bool)
    requires |s| <= 1 || Ascending(s, cs)
    ensures Sort(s, cs) == s && Sorted(s, cs)
  {
    if |s| > 1 {
      AscendingIsStrict(s, cs);
    }
  }

  lemma SortHalves<T>(s: seq<Keyed<T>>, cs: bool)
    requires |s| > 1 && !Ascending(s, cs)
    ensures var middle := (|s| + 1) / 2;
            Sort(s, cs) == MergeLists(Sort(s[..middle], cs), Sort(s[middle..], cs), cs)
  {
  }

  lemma StrictIsAscending<T>(s: seq<Keyed<T>>, cs: bool)
    ensures StrictlySorted(s, cs) ==> Ascending(s, cs)
  {
    hide KeyLess;
  }

  // Elements with equal keys

  function WithName<T>(s: seq<Keyed<T>>, f: CStr, cs: bool): seq<Keyed<T>> {
    if s == [] then [] else (if Fold(s[0].key, cs) == f then [s[0]] else []) + WithName(s[1..], f, cs)
  }

  function Reversed<T>(s: seq<T>): seq<T> {
    if s == [] then [] else Reversed(s[1..]) + [s[0]]
  }

  lemma NameHead<T>(s: seq<Keyed<T>>, f: CStr, cs: bool)
    requires s != []
    ensures WithName(s, f, cs) == if Fold(s[0].key, cs) == f then [s[0]] + WithName(s[1..], f, cs) else WithName(s[1..], f, cs)
  {
    hide Fold;
    assert [] + WithName(s[1..], f, cs) == WithName(s[1..], f, cs);
  }

  lemma {:induction false} NameSplit<T>(a: seq<Keyed<T>>, b: seq<Keyed<T>>, f: CStr, cs: bool)
    ensures WithName(a + b, f, cs) == WithName(a, f, cs) + WithName(b, f, cs)
  {
    hide Fold, WithName;
    if a == [] {
      assert a + b == b;
      NameAbsent(a, f, cs);
    } else {
      assert (a + b)[1..] == a[1..] + b && (a + b)[0] == a[0];
      NameHead(a, f, cs);
      NameHead(a + b, f, cs);
      NameSplit(a[1..], b, f, cs);
      Regroup([a[0]], WithName(a[1..], f, cs), WithName(b, f, cs));
    }
  }

  lemma {:induction false} NameAbsent<T>(s: seq<Keyed<T>>, f: CStr, cs: bool)
    requires forall i :: 0 <= i < |s| ==> Fold(s[i].key, cs) != f
    ensures WithName(s, f, cs) == []
  {
    hide Fold;
    if s != [] {
      NameAbsent(s[1..], f, cs);
    }
  }

  lemma {:induction false} ReversedSplit<T>(a: seq<T>, b: seq<T>)
    ensures Reversed(a + b) == Reversed(b) + Reversed(a)
  {
    if a == [] {
      assert a + b == b;
    } else {
      assert (a + b)[1..] == a[1..] + b;
      ReversedSplit(a[1..], b);
    }
  }

  /** Nothing behind a head that is strictly smaller has its name. */
  lemma NoTies<T>(k: CStr, s: seq<Keyed<T>>, cs: bool)
    requires Sorted(s, cs) && (s != [] ==> KeyLess(k, s[0].key, cs))
    ensures forall i :: 0 <= i < |s| ==> Fold(s[i].key, cs) != Fold(k, cs)
  {
    hide Fold, KeyOrder;
    forall i | 0 <= i < |s| ensures Fold(s[i].key, cs) != Fold(k, cs) {
      KeyOrderIsTotal(k, s[0].key, s[i].key, cs);
      KeyOrderIsTotal(k, s[i].key, s[i].key, cs);
      KeyOrderIsTotal(s[0].key, s[0].key, s[0].key, cs);
    }
  }

  lemma {:induction false} MergeTies<T>(a: seq<Keyed<T>>, b: seq<Keyed<T>>, f: CStr, cs: bool)
    requires Sorted(a, cs) && Sorted(b, cs)
    ensures WithName(MergeLists(a, b, cs), f, cs) == WithName(b, f, cs) + WithName(a, f, cs)
    decreases |a| + |b|
  {
    hide Fold, KeyOrder, WithName;
    if a == [] {
      NameAbsent(a, f, cs);
    } else if b == [] {
      NameAbsent(b, f, cs);
    } else {
      var m := MergeLists(a, b, cs);
      NameHead(m, f, cs);
      if KeyLess(a[0].key, b[0].key, cs) {
        assert m[1..] == MergeLists(a[1..], b, cs);
        MergeTies(a[1..], b, f, cs);
        NameHead(a, f, cs);
        if Fold(a[0].key, cs) == f {
          NoTies(a[0].key, b, cs);
          NameAbsent(b, f, cs);
        }
      } else {
        assert m[1..] == MergeLists(a, b[1..], cs);
        MergeTies(a, b[1..], f, cs);
        NameHead(b, f, cs);
      }
    }
  }

  lemma {:induction false} StrictNames<T>(s: seq<Keyed<T>>, f: CStr, cs: bool)
    requires StrictlySorted(s, cs)
    ensures |WithName(s, f, cs)| <= 1
  {
    hide Fold, KeyOrder;
    if s != [] {
      NameHead(s, f, cs);
      StrictNames(s[1..], f, cs);
      if Fold(s[0].key, cs) == f {
        forall i | 0 <= i < |s[1..]| ensures Fold(s[1..][i].key, cs) != f {
          KeyOrderIsTotal(s[0].key, s[1..][i].key, s[0].key, cs);
        }
        NameAbsent(s[1..], f, cs);
      }
    }
  }

  /** Sorting reverses the order of elements with equal keys, so the result is settled by the order of keys and by the list. */
  lemma {:induction false} SortReversesTies<T>(s: seq<Keyed<T>>, f: CStr, cs: bool)
    ensures WithName(Sort(s, cs), f, cs) == Reversed(WithName(s, f, cs))
    decreases |s|
  {
    hide Fold, KeyOrder, KeyLess, MergeLists, WithName, Sort, Sorted, StrictlySorted, Ascending;
    if |s| <= 1 || Ascending(s, cs) {
      SortLeaves(s, cs);
      ShortIsStrict(s, cs);
      StrictNames(s, f, cs);
    } else {
      var middle := (|s| + 1) / 2;
      var a, b := s[..middle], s[middle..];
      SortReversesTies(a, f, cs);
      SortReversesTies(b, f, cs);
      SortHalves(s, cs);
      SortCorrect(a, cs);
      SortCorrect(b, cs);
      MergeTies(Sort(a, cs), Sort(b, cs), f, cs);
      assert s == a + b;
      NameSplit(a, b, f, cs);
      ReversedSplit(WithName(a, f, cs), WithName(b, f, cs));
    }
  }

  lemma ShortIsStrict<T>(s: seq<Keyed<T>>, cs: bool)
    requires |s| <= 1 || Ascending(s, cs)
    ensures StrictlySorted(s, cs)
  {
    if |s| > 1 {
      AscendingIsStrict(s, cs);
    }
  }

  /** A permutation has the same elements, and keeps keys distinct. */
  lemma {:induction false} TwiceInSequence<T>(s: seq<T>, x: T)
    requires multiset(s)[x] >= 2
    ensures exists i, j :: 0 <= i < j < |s| && s[i] == x && s[j] == x
  {
    assert s == [s[0]] + s[1..];
    if s[0] == x {
      assert x in multiset(s[1..]);
      var j :| 0 <= j < |s[1..]| && s[1..][j] == x;
      assert s[0] == x && s[j+1] == x;
    } else {
      TwiceInSequence(s[1..], x);
      var i, j :| 0 <= i < j < |s[1..]| && s[1..][i] == x && s[1..][j] == x;
      assert s[i+1] == x && s[j+1] == x;
    }
  }

  lemma PairIsTwice<T>(s: seq<T>, i: nat, j: nat)
    requires i < j < |s| && s[i] == s[j]
    ensures multiset(s)[s[i]] >= 2
  {
    assert s == s[..i] + [s[i]] + s[i+1..j] + [s[j]] + s[j+1..];
  }

  lemma PermutationKeepsKeys<T>(s: seq<Keyed<T>>, t: seq<Keyed<T>>, cs: bool)
    requires multiset(s) == multiset(t) && DistinctKeys(s, cs)
    ensures DistinctKeys(t, cs)
    ensures forall i :: 0 <= i < |s| ==> s[i] in t
    ensures forall i :: 0 <= i < |t| ==> t[i] in s
  {
    forall i | 0 <= i < |s| ensures s[i] in t {
      assert s[i] in multiset(s);
    }
    forall i | 0 <= i < |t| ensures t[i] in s {
      assert t[i] in multiset(t);
    }
    forall i, j | 0 <= i < j < |t| ensures Fold(t[i].key, cs) != Fold(t[j].key, cs) {
      if t[i] == t[j] {
        PairIsTwice(t, i, j);
        TwiceInSequence(s, t[i]);
        assert false;
      }
      var p :| 0 <= p < |s| && s[p] == t[i];
      var q :| 0 <= q < |s| && s[q] == t[j];
    }
  }

  /** With distinct keys the result is strictly increasing. */
  lemma SortedDistinct<T>(s: seq<Keyed<T>>, cs: bool)
    requires DistinctKeys(s, cs)
    ensures StrictlySorted(Sort(s, cs), cs) && DistinctKeys(Sort(s, cs), cs)
    ensures forall i :: 0 <= i < |s| ==> s[i] in Sort(s, cs)
  {
    var t := Sort(s, cs);
    SortCorrect(s, cs);
    PermutationKeepsKeys(s, t, cs);
    forall i, j | 0 <= i < j < |t| ensures KeyLess(t[i].key, t[j].key, cs) {
      KeyOrderIsTotal(t[i].key, t[j].key, t[j].key, cs);
    }
  }

  /** Every element of the sorted list comes from the list. */
  lemma SortMembership<T>(s: seq<Keyed<T>>, cs: bool)
    ensures forall i :: 0 <= i < |s| ==> Sort(s, cs)[i] in s
  {
    SortCorrect(s, cs);
    forall i | 0 <= i < |s| ensures Sort(s, cs)[i] in s {
      assert Sort(s, cs)[i] in multiset(Sort(s, cs));
    }
  }

  /** Sorting the members of an object, in either order, changes its value in neither case mode. */
  lemma SortKeepsMap(ms: Members, cs: bool, mode: bool)
    requires DistinctKeys(ms, mode)
    ensures DistinctKeys(Sort(ms, cs), mode) && ToMap(Sort(ms, cs), mode) == ToMap(ms, mode)
  {
    hide Sort, ToMap, Fold;
    SortCorrect(ms, cs);
    PermutationKeepsKeys(ms, Sort(ms, cs), mode);
    SameLookupsSameMap(ms, Sort(ms, cs), mode);
  }
}
