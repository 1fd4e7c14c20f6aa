/** `sort_list`: the mergesort that relinks a list of nodes in place. */
module ListSort {
  import opened Sequences
  import opened CStrings
  import opened Json
  import opened KeySort
  import opened NodeLists

  /** The test for a list that is sorted already. */
  method AlreadySorted(list: Node, ghost s: seq<Node>, cs: bool) returns (sorted: bool)
    requires Linked(s) && s != [] && list == s[0]
    ensures sorted == Ascending(Tagged(s), cs)
  {
    var c: Node?, i := list, 0;
    ghost var r := Tagged(s);
    while c != null && c.next != null
      invariant i < |s| && c == s[i]
      invariant forall k :: 0 <= k < i ==> KeyLess(r[k].key, r[k+1].key, cs)
      decreases |s| - i
    {
      var order := CompareStrings(Some(c.key), Some(c.next.key), cs);
      assert c.next == s[i+1] && order == KeyOrder(r[i].key, r[i+1].key, cs);
      if order >= 0 {
        return false;
      }
      c, i := c.next, i + 1;
    }
    return true;
  }

  /** One pointer goes two steps at a time, the other one step. */
  method FindMiddle(list: Node, ghost s: seq<Node>) returns (second: Node?)
    requires Linked(s) && s != [] && list == s[0]
    ensures second == NodeAt(s, (|s| + 1) / 2)
  {
    second := list;
    var c: Node? := list;
    ghost var i, m := 0, 0;
    while c != null
      invariant 0 <= m <= i <= |s| && c == NodeAt(s, i) && second == NodeAt(s, m)
      invariant i == 2 * m || (i == 2 * m - 1 == |s|)
      decreases |s| - i
    {
      second, m := second.next, m + 1;
      c, i := c.next, i + 1;
      if c != null {
        c, i := c.next, i + 1;
      }
    }
  }

  /** The list is cut in front of its second half. */
  method CutInTwo(second: Node?, ghost s: seq<Node>, ghost middle: nat)
    requires Linked(s) && 0 < middle < |s| && second == s[middle]
    modifies s`next, s`prev
    ensures Linked(s[..middle]) && Linked(s[middle..])
  {
    Neighbours(s, middle);
    if second != null && second.prev != null {
      second.prev.next := null;
      second.prev := null;
    }
    ghost var a, b := s[..middle], s[middle..];
    forall k | 0 <= k < |a| ensures a[k].next == NodeAt(a, k + 1) && (k > 0 ==> a[k].prev == a[k-1]) {
      assert a[k] == s[k];
    }
    forall k | 0 <= k < |b| ensures b[k].next == NodeAt(b, k + 1) && (k > 0 ==> b[k].prev == b[k-1]) {
      assert b[k] == s[middle+k];
    }
  }

  // Merging

  /** The nodes merged so far: linked, except for where the last one leads. */
  ghost predicate Run(r: seq<Node>)
    reads r
  {
    PrevChain(r) && (r != [] ==> r[0].prev == null) && forall k {:trigger r[k].next} :: 0 <= k < |r| - 1 ==> r[k].next == r[k+1]
  }

  /** The rest of a list being merged: linked, except for where its head leads back to. */
  ghost predicate Rest(x: seq<Node>)
    reads x
  {
    NextChain(x) && PrevChain(x)
  }

  /** Between two turns of the merge. */
  ghost predicate Merging(r: seq<Node>, x: seq<Node>, y: seq<Node>)
    reads r, x, y
  {
    Distinct(r + x + y) && Run(r) && Rest(x) && Rest(y) &&
    (r == [] ==> (x != [] ==> x[0].prev == null) && (y != [] ==> y[0].prev == null))
  }

  /** The smaller head is linked behind the merged nodes. */
  method Append(tail: Node?, z: Node, ghost r: seq<Node>, ghost x: seq<Node>, ghost y: seq<Node>)
    requires Merging(r, x, y) && x != [] && z == x[0] && tail == Last(r)
    modifies r`next, z`prev
    ensures Merging(r + [z], x[1..], y) && z.next == Head(x[1..])
  {
    DistinctParts(r, x, y);
    if tail != null {
      tail.next := z;
      z.prev := tail;
    }
    assert r + [z] + x[1..] + y == r + x + y;
  }

  lemma DistinctParts(r: seq<Node>, x: seq<Node>, y: seq<Node>)
    requires Distinct(r + x + y)
    ensures Distinct(r) && Distinct(x) && Distinct(y)
    ensures forall i, j :: 0 <= i < |r| && 0 <= j < |x| ==> r[i] != x[j]
    ensures forall i, j :: 0 <= i < |r| && 0 <= j < |y| ==> r[i] != y[j]
    ensures forall i, j :: 0 <= i < |x| && 0 <= j < |y| ==> x[i] != y[j]
  {
    var all := r + x + y;
    assert forall i :: 0 <= i < |r| ==> all[i] == r[i];
    assert forall i :: 0 <= i < |x| ==> all[|r|+i] == x[i];
    assert forall i :: 0 <= i < |y| ==> all[|r|+|x|+i] == y[i];
  }

  function Last(s: seq<Node>): Node? {
    if s == [] then null else s[|s|-1]
  }

  lemma SwapRests(r: seq<Node>, x: seq<Node>, y: seq<Node>)
    requires Merging(r, x, y)
    ensures Merging(r, y, x)
  {
    DistinctParts(r, x, y);
  }

  lemma TaggedTail(x: seq<Node>)
    requires x != []
    ensures Tagged(x)[1..] == Tagged(x[1..]) && Tagged(x)[0] == Keyed(x[0].key, x[0])
  {
  }

  lemma TaggedAppend(r: seq<Node>, z: Node)
    ensures Tagged(r + [z]) == Tagged(r) + [Keyed(z.key, z)]
  {
  }

  lemma MergeHead<T>(a: seq<Keyed<T>>, b: seq<Keyed<T>>, cs: bool)
    requires a != [] && b != []
    ensures MergeLists(a, b, cs) ==
            if KeyLess(a[0].key, b[0].key, cs) then [a[0]] + MergeLists(a[1..], b, cs) else [b[0]] + MergeLists(a, b[1..], cs)
  {
  }

  lemma MergeTurn(r: seq<Node>, x: seq<Node>, y: seq<Node>, cs: bool)
    requires x != [] && y != []
    ensures var whole := Tagged(r) + MergeLists(Tagged(x), Tagged(y), cs);
            if KeyLess(x[0].key, y[0].key, cs) then whole == Tagged(r + [x[0]]) + MergeLists(Tagged(x[1..]), Tagged(y), cs)
            else whole == Tagged(r + [y[0]]) + MergeLists(Tagged(x), Tagged(y[1..]), cs)
  {
    hide KeyLess, MergeLists, Tagged;
    TaggedTail(x);
    TaggedTail(y);
    MergeHead(Tagged(x), Tagged(y), cs);
    var fromX := KeyLess(x[0].key, y[0].key, cs);
    var z := if fromX then x[0] else y[0];
    TaggedAppend(r, z);
    Regroup(Tagged(r), [Keyed(z.key, z)],
            if fromX then MergeLists(Tagged(x[1..]), Tagged(y), cs) else MergeLists(Tagged(x), Tagged(y[1..]), cs));
  }

  /** The smaller head, linked behind the merged nodes. */
  method TakeSmaller(first: Node, second: Node, tail: Node?, ghost r: seq<Node>, ghost x: seq<Node>, ghost y: seq<Node>, cs: bool)
    returns (smaller: Node)
    requires Merging(r, x, y) && x != [] && y != [] && first == x[0] && second == y[0] && tail == Last(r)
    modifies r`next, first`prev, second`prev
    ensures first != second && smaller == if KeyLess(first.key, second.key, cs) then first else second
    ensures smaller == first ==> Merging(r + [smaller], x[1..], y) && first.next == Head(x[1..])
    ensures smaller == second ==> Merging(r + [smaller], x, y[1..]) && second.next == Head(y[1..])
  {
    hide Merging, Diff;
    HeadsDiffer(r, x, y);
    var order := CompareStrings(Some(first.key), Some(second.key), cs);
    smaller := if order < 0 then first else second;
    if order < 0 {
      Append(tail, smaller, r, x, y);
    } else {
      SwapRests(r, x, y);
      Append(tail, smaller, r, y, x);
      SwapRests(r + [smaller], y[1..], x);
    }
  }

  /** The merge of two lists, which ends with linking the rest of one behind the merged nodes. */
  method MergeNodes(list1: Node?, list2: Node?, ghost a: seq<Node>, ghost b: seq<Node>, cs: bool)
    returns (result: Node?, ghost t: seq<Node>)
    requires Linked(a) && Linked(b) && Distinct(a + b) && list1 == Head(a) && list2 == Head(b)
    modifies (a + b)`next, (a + b)`prev
    ensures Linked(t) && result == Head(t) && Tagged(t) == MergeLists(Tagged(a), Tagged(b), cs)
  {
    hide Diff, MergeLists, Linked, Merging;
    var first, second := list1, list2;
    var tail: Node? := null;
    result := null;
    ghost var r: seq<Node>, x, y := [], a, b;
    StartMerging(a, b);
    assert [] + MergeLists(Tagged(a), Tagged(b), cs) == MergeLists(Tagged(a), Tagged(b), cs);
    while first != null && second != null
      invariant Merging(r, x, y) && first == Head(x) && second == Head(y) && result == Head(r) && tail == Last(r)
      invariant Within(r, a + b) && Within(x, a + b) && Within(y, a + b)
      invariant Tagged(r) + MergeLists(Tagged(x), Tagged(y), cs) == MergeLists(Tagged(a), Tagged(b), cs)
      invariant r == [] ==> x == a && y == b
      invariant x != [] || y != [] || (a == [] && b == [])
      decreases |x| + |y|
    {
      MergeTurn(r, x, y, cs);
      var smaller := TakeSmaller(first, second, tail, r, x, y, cs);
      if result == null {
        result := smaller;
      }
      tail, r := smaller, r + [smaller];
      if first == smaller {
        first, x := first.next, x[1..];
      } else {
        second, y := second.next, y[1..];
      }
    }
    result, t := AppendLeftover(result, tail, first, second, r, x, y, cs);
  }

  /** What is left of one list goes behind the merged nodes. */
  method AppendLeftover(merged: Node?, tail: Node?, first: Node?, second: Node?,
                        ghost r: seq<Node>, ghost x: seq<Node>, ghost y: seq<Node>, cs: bool)
    returns (result: Node?, ghost t: seq<Node>)
    requires Merging(r, x, y) && (x == [] || y == []) && (x != [] || y != [] || r == [])
    requires merged == Head(r) && tail == Last(r) && first == Head(x) && second == Head(y)
    modifies r`next, x`prev, y`prev
    ensures Linked(t) && result == Head(t) && Tagged(t) == Tagged(r) + MergeLists(Tagged(x), Tagged(y), cs)
  {
    hide Merging, Linked, MergeLists;
    result, t := merged, r + if x == [] then y else x;
    OneLeft(r, x, y, cs);
    if r == [] {
      EmptyRun(r, x, y);
    }
    if first != null {
      if result == null {
        return first, t;
      }
      AppendRest(tail, first, r, x);
    }
    if second != null {
      if result == null {
        return second, t;
      }
      SwapRests(r, x, y);
      AppendRest(tail, second, r, y);
    }
  }

  ghost predicate Within(s: seq<Node>, all: seq<Node>) {
    forall i :: 0 <= i < |s| ==> s[i] in all
  }

  lemma StartMerging(a: seq<Node>, b: seq<Node>)
    requires Linked(a) && Linked(b) && Distinct(a + b)
    ensures Merging([], a, b)
  {
    assert [] + a + b == a + b;
  }

  lemma HeadsDiffer(r: seq<Node>, x: seq<Node>, y: seq<Node>)
    requires Merging(r, x, y) && x != [] && y != []
    ensures x[0] != y[0]
  {
    DistinctParts(r, x, y);
  }

  lemma EmptyRun(r: seq<Node>, x: seq<Node>, y: seq<Node>)
    requires r == [] && Merging(r, x, y)
    ensures Linked(x) && Linked(y) && r + x == x && r + y == y && Linked([])
  {
    DistinctParts(r, x, y);
  }

  lemma OneLeft(r: seq<Node>, x: seq<Node>, y: seq<Node>, cs: bool)
    requires x == [] || y == []
    ensures Tagged(r) + MergeLists(Tagged(x), Tagged(y), cs) == Tagged(r + if x == [] then y else x)
  {
  }

  method AppendRest(tail: Node?, z: Node, ghost r: seq<Node>, ghost x: seq<Node>)
    requires Merging(r, x, []) && r != [] && x != [] && z == x[0] && tail == Last(r)
    modifies r`next, z`prev
    ensures Linked(r + x)
  {
    DistinctParts(r, x, []);
    tail.next := z;
    z.prev := tail;
    ghost var t := r + x;
    assert t + [] == t;
    forall k | 0 <= k < |t| ensures t[k].next == NodeAt(t, k + 1) && (k > 0 ==> t[k].prev == t[k-1]) {
      assert t[k] == if k < |r| then r[k] else x[k-|r|];
    }
  }

  /** The sort: exactly the same nodes, linked in the order of `KeySort.Sort`. */
  method SortList(list: Node?, ghost s: seq<Node>, cs: bool) returns (result: Node?, ghost t: seq<Node>)
    requires Linked(s) && list == Head(s)
    modifies s`next, s`prev
    ensures Linked(t) && result == Head(t) && Tagged(t) == Sort(Tagged(s), cs)
    decreases |s|
  {
    if list == null || list.next == null {
      return list, s;
    }
    var sorted := AlreadySorted(list, s, cs);
    if sorted {
      return list, s;
    }
    var second := FindMiddle(list, s);
    result, t := SortHalves(list, second, s, cs);
  }

  method SortHalves(list: Node, middle: Node?, ghost s: seq<Node>, cs: bool) returns (result: Node?, ghost t: seq<Node>)
    requires Linked(s) && |s| > 1 && list == s[0] && middle == s[(|s|+1)/2] && !Ascending(Tagged(s), cs)
    modifies s`next, s`prev
    ensures Linked(t) && result == Head(t) && Tagged(t) == Sort(Tagged(s), cs)
    decreases |s|, 0
  {
    hide Linked, Ascending, MergeLists, Sort, Tagged, Distinct;
    ghost var m := (|s| + 1) / 2;
    ghost var s1, s2, a, b := s[..m], s[m..], [], [];
    Halves(s, m);
    CutInTwo(middle, s, m);
    var first, second;
    first, a := SortList(list, s1, cs);
    SortedPart(s1, a, cs);
    second, b := SortList(middle, s2, cs);
    SortedPart(s2, b, cs);
    DistinctHalves(s, m, a, b);
    result, t := MergeNodes(first, second, a, b, cs);
    SortUnfolds(s, m, cs);
  }

  lemma Halves(s: seq<Node>, m: nat)
    requires Linked(s) && 0 < m < |s|
    ensures forall i, j :: 0 <= i < |s[..m]| && 0 <= j < |s[m..]| ==> s[..m][i] != s[m..][j]
    ensures Distinct(s) && Within(s[..m], s) && Within(s[m..], s) && Head(s[..m]) == Head(s) && Head(s[m..]) == s[m]
  {
  }

  lemma SortUnfolds(s: seq<Node>, m: nat, cs: bool)
    requires |s| > 1 && m == (|s| + 1) / 2 && !Ascending(Tagged(s), cs)
    ensures Sort(Tagged(s), cs) == MergeLists(Sort(Tagged(s[..m]), cs), Sort(Tagged(s[m..]), cs), cs)
  {
    assert Tagged(s)[..m] == Tagged(s[..m]) && Tagged(s)[m..] == Tagged(s[m..]);
  }

  /** The sorted list has the nodes of the list. */
  lemma SortedPart(s: seq<Node>, t: seq<Node>, cs: bool)
    requires Tagged(t) == Sort(Tagged(s), cs)
    ensures |t| == |s| && Within(t, s)
  {
    hide Sort;
    SortMembership(Tagged(s), cs);
    forall i | 0 <= i < |t| ensures t[i] in s {
      assert Tagged(t)[i] in Tagged(s);
      var j :| 0 <= j < |s| && Tagged(s)[j] == Tagged(t)[i];
    }
  }

  lemma DistinctHalves(s: seq<Node>, m: nat, a: seq<Node>, b: seq<Node>)
    requires Distinct(s) && m <= |s| && Linked(a) && Linked(b) && Within(a, s[..m]) && Within(b, s[m..])
    ensures Distinct(a + b) && Within(a + b, s)
  {
    forall i, j | 0 <= i < |a| && 0 <= j < |b| ensures a[i] != b[j] {
      var k :| 0 <= k < m && s[..m][k] == a[i];
      var l :| 0 <= l < |s| - m && s[m..][l] == b[j];
      assert s[k] == a[i] && s[m+l] == b[j];
    }
  }

  /** `sort_object`. */
  method SortObject(parent: Node, cs: bool)
    requires parent.Valid()
    modifies parent`child, parent`kids, parent.kids`next, parent.kids`prev
    ensures parent.Valid() && Tagged(parent.kids) == Sort(Tagged(old(parent.kids)), cs)
  {
    hide Sort, Tagged, Linked;
    ghost var s, t := parent.kids, [];
    var sorted;
    sorted, t := SortList(parent.child, s, cs);
    SortedPart(s, t, cs);
    parent.child := sorted;
    parent.kids := t;
  }

  /** What sorting a list means: the same nodes, each once, in non-decreasing order of their keys;
      and a strictly increasing list comes back untouched. */
  lemma SortedListMeaning(s: seq<Node>, t: seq<Node>, cs: bool)
    requires Distinct(s) && Tagged(t) == Sort(Tagged(s), cs)
    ensures multiset(t) == multiset(s)
    ensures forall i, j :: 0 <= i < j < |t| ==> KeyOrder(t[i].key, t[j].key, cs) <= 0
    ensures (forall i, j :: 0 <= i < j < |s| ==> KeyLess(s[i].key, s[j].key, cs)) ==> t == s
  {
    hide Sort;
    SortCorrect(Tagged(s), cs);
    TaggedMultiset(s, t);
    forall i, j | 0 <= i < j < |t| ensures KeyOrder(t[i].key, t[j].key, cs) <= 0 {
      assert KeyOrder(Tagged(t)[i].key, Tagged(t)[j].key, cs) <= 0;
    }
    if forall i, j :: 0 <= i < j < |s| ==> KeyLess(s[i].key, s[j].key, cs) {
      forall i | 0 <= i < |s| ensures |t| == |s| && t[i] == s[i] {
        assert Tagged(t)[i] == Tagged(s)[i];
      }
    }
  }

  lemma TaggedHead(s: seq<Node>, x: Node, rest: seq<Node>)
    requires s != [] && x == s[0] && rest == s[1..]
    ensures s == [x] + rest && Tagged(s) == [Keyed(x.key, x)] + Tagged(rest)
  {
  }

  lemma {:induction false} TaggedCount(s: seq<Node>, n: Node)
    ensures multiset(Tagged(s))[Keyed(n.key, n)] == multiset(s)[n]
  {
    if s != [] {
      hide Tagged;
      var x, rest := s[0], s[1..];
      TaggedHead(s, x, rest);
      TaggedCount(rest, n);
    }
  }

  lemma TaggedMultiset(s: seq<Node>, t: seq<Node>)
    requires multiset(Tagged(t)) == multiset(Tagged(s))
    ensures multiset(t) == multiset(s)
  {
    forall n: Node | true ensures multiset(t)[n] == multiset(s)[n] {
      TaggedCount(s, n);
      TaggedCount(t, n);
    }
  }
}
