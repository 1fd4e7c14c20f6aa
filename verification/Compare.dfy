/** `cJSON_Compare`: the comparison that looks every member of each object up in the other. */
module Compare {
  import opened CStrings
  import opened Json

  /** The number of nodes of a document. */
  function Size(j: Json): (n: nat)
    ensures n > 0
    decreases j
  {
    match j
    case Array(es) => 1 + SizeSum(es)
    case Object(ms) => 1 + SizeSumMembers(ms)
    case _ => 1
  }

  function SizeSum(es: seq<Json>): (n: nat)
    ensures forall i :: 0 <= i < |es| ==> Size(es[i]) <= n
    decreases es
  {
    if es == [] then 0 else Size(es[0]) + SizeSum(es[1..])
  }

  function SizeSumMembers(ms: Members): (n: nat)
    ensures forall i :: 0 <= i < |ms| ==> Size(ms[i].item) <= n
    decreases ms
  {
    if ms == [] then 0 else Size(ms[0].item) + SizeSumMembers(ms[1..])
  }

  /** What the comparison decides, on two documents that share no node. */
  ghost predicate Equal(a: Json, b: Json, cs: bool)
    decreases Size(a) + Size(b), 0
  {
    SameType(a, b) && !a.Invalid? &&
    match a
    case Number(n) => n == b.n
    case Text(s) => s == b.s
    case Raw(s) => s == b.raw
    case Array(es) => |es| == |b.elems| && forall i :: 0 <= i < |es| ==> Equal(es[i], b.elems[i], cs)
    case Object(ms) => Covered(ms, b.members, cs) && Covered(b.members, ms, cs)
    case _ => true
  }

  /** Every member of the first list equals the member its key finds in the second. */
  ghost predicate Covered(ms: Members, ns: Members, cs: bool)
    decreases SizeSumMembers(ms) + SizeSumMembers(ns), 2
  {
    forall i :: 0 <= i < |ms| ==> FoundEqual(ms[i], ns, cs)
  }

  ghost predicate FoundEqual(m: Keyed<Json>, ns: Members, cs: bool)
    decreases Size(m.item) + SizeSumMembers(ns), 1
  {
    var k := FindKey(ns, m.key, cs);
    k < |ns| && Equal(m.item, ns[k].item, cs)
  }

  /** The comparison, with its loops over elements and over the members of either side. */
  method CompareTrees(a: Json, b: Json, cs: bool) returns (r: bool)
    ensures r == Equal(a, b, cs)
    decreases Size(a) + Size(b)
  {
    if !SameType(a, b) || a.Invalid? {
      return false;
    }
    match a
    case Number(n) => return n == b.n;
    case Text(s) => return s == b.s;
    case Raw(s) => return s == b.raw;
    case Array(es) =>
      var i := 0;
      while i < |es| && i < |b.elems|
        invariant i <= |es| && i <= |b.elems|
        invariant forall k :: 0 <= k < i ==> Equal(es[k], b.elems[k], cs)
      {
        var same := CompareTrees(es[i], b.elems[i], cs);
        if !same {
          return false;
        }
        i := i + 1;
      }
      return i == |es| && i == |b.elems|;
    case Object(ms) =>
      r := CompareMembers(ms, b.members, cs);
      if r {
        r := CompareMembers(b.members, ms, cs);
      }
    case _ => return true;
  }

  method CompareMembers(ms: Members, ns: Members, cs: bool) returns (r: bool)
    ensures r == Covered(ms, ns, cs)
    decreases SizeSumMembers(ms) + SizeSumMembers(ns) + 1
  {
    var i := 0;
    while i < |ms|
      invariant i <= |ms|
      invariant forall k :: 0 <= k < i ==> FoundEqual(ms[k], ns, cs)
    {
      var k := FindKey(ns, ms[i].key, cs);
      if k == |ns| {
        assert !FoundEqual(ms[i], ns, cs);
        return false;
      }
      var same := CompareTrees(ms[i].item, ns[k].item, cs);
      if !same {
        assert !FoundEqual(ms[i], ns, cs);
        return false;
      }
      i := i + 1;
    }
    return true;
  }

  lemma {:induction false} EqualSymmetric(a: Json, b: Json, cs: bool)
    ensures Equal(a, b, cs) == Equal(b, a, cs)
    decreases a
  {
    if a.Array? && b.Array? && |a.elems| == |b.elems| {
      forall i | 0 <= i < |a.elems| ensures Equal(a.elems[i], b.elems[i], cs) == Equal(b.elems[i], a.elems[i], cs) {
        EqualSymmetric(a.elems[i], b.elems[i], cs);
      }
    }
  }

  lemma {:induction false} CoveredTransitive(ms: Members, ns: Members, os: Members, cs: bool)
    requires Covered(ms, ns, cs) && Covered(ns, os, cs)
    ensures Covered(ms, os, cs)
    decreases SizeSumMembers(ms) + SizeSumMembers(ns) + SizeSumMembers(os) + 1
  {
    forall i | 0 <= i < |ms| ensures FoundEqual(ms[i], os, cs) {
      assert FoundEqual(ms[i], ns, cs);
      var k := FindKey(ns, ms[i].key, cs);
      assert FoundEqual(ns[k], os, cs);
      FindSame(os, ms[i].key, ns[k].key, cs);
      EqualTransitive(ms[i].item, ns[k].item, os[FindKey(os, ms[i].key, cs)].item, cs);
    }
  }

  /** The comparison is transitive whatever the keys are. */
  lemma {:induction false} EqualTransitive(a: Json, b: Json, c: Json, cs: bool)
    requires Equal(a, b, cs) && Equal(b, c, cs)
    ensures Equal(a, c, cs)
    decreases Size(a) + Size(b) + Size(c)
  {
    match a
    case Array(es) =>
      forall i | 0 <= i < |es| ensures Equal(es[i], c.elems[i], cs) {
        EqualTransitive(es[i], b.elems[i], c.elems[i], cs);
      }
    case Object(ms) =>
      CoveredTransitive(ms, b.members, c.members, cs);
      CoveredTransitive(c.members, b.members, ms, cs);
    case _ =>
  }

  lemma {:induction false} PlainIsPrintable(j: Json)
    requires Plain(j)
    ensures Printable(j)
  {
    match j
    case Array(es) => forall i | 0 <= i < |es| ensures Printable(es[i]) { PlainIsPrintable(es[i]); }
    case Object(ms) => forall i | 0 <= i < |ms| ensures Printable(ms[i].item) { PlainIsPrintable(ms[i].item); }
    case _ =>
  }

  // What the comparison decides, for all documents

  /** Nothing but the first member under each key counts for the value. */
  lemma ValueUnder(ms: Members, i: nat, cs: bool)
    requires i < |ms|
    ensures var first := FindKey(ms, ms[i].key, cs);
            first <= i && Fold(ms[first].key, cs) == Fold(ms[i].key, cs) && Fold(ms[i].key, cs) in ToMap(ms, cs) &&
            ToMap(ms, cs)[Fold(ms[i].key, cs)] == Canon(ms[first].item, cs)
  {
    hide Fold, ToMap, Canon;
    ToMapFind(ms, ms[i].key, cs);
  }

  ghost predicate Included(p: map<CStr, Val>, q: map<CStr, Val>) {
    forall k :: k in p ==> k in q && q[k] == p[k]
  }

  lemma IncludedBoth(p: map<CStr, Val>, q: map<CStr, Val>)
    requires Included(p, q) && Included(q, p)
    ensures p == q
  {
  }

  lemma {:induction false} CoveredValues(ms: Members, ns: Members, cs: bool)
    requires Covered(ms, ns, cs)
    ensures Included(ToMap(ms, cs), ToMap(ns, cs))
    decreases SizeSumMembers(ms) + SizeSumMembers(ns) + 1
  {
    hide Fold, ToMap, Canon, Equal;
    var p, q := ToMap(ms, cs), ToMap(ns, cs);
    forall k | k in p ensures k in q && q[k] == p[k] {
      ToMapKeys(ms, cs, k);
      var i :| 0 <= i < |ms| && Fold(ms[i].key, cs) == k;
      ValueUnder(ms, i, cs);
      var first := FindKey(ms, ms[i].key, cs);
      assert FoundEqual(ms[first], ns, cs);
      var n := FindKey(ns, ms[first].key, cs);
      EqualValues(ms[first].item, ns[n].item, cs);
      ToMapFind(ns, ms[first].key, cs);
    }
  }

  /** Documents that compare equal have the same value. */
  lemma {:induction false} EqualValues(a: Json, b: Json, cs: bool)
    requires Equal(a, b, cs)
    ensures Canon(a, cs) == Canon(b, cs)
    decreases Size(a) + Size(b)
  {
    hide Covered;
    match a
    case Array(es) =>
      forall i | 0 <= i < |es| ensures Canon(es[i], cs) == Canon(b.elems[i], cs) {
        EqualValues(es[i], b.elems[i], cs);
      }
      assert CanonSeq(es, cs) == CanonSeq(b.elems, cs);
    case Object(ms) =>
      CoveredValues(ms, b.members, cs);
      CoveredValues(b.members, ms, cs);
      IncludedBoth(ToMap(ms, cs), ToMap(b.members, cs));
    case _ =>
  }

  /** Two members under one key compare equal. */
  ghost predicate PairsAgree(ms: Members, cs: bool) {
    forall i, k :: 0 <= i < k < |ms| && Fold(ms[i].key, cs) == Fold(ms[k].key, cs) ==> Equal(ms[i].item, ms[k].item, cs)
  }

  /** The same at every depth. */
  ghost predicate RepeatsAgree(j: Json, cs: bool) {
    match j
    case Array(es) => forall i :: 0 <= i < |es| ==> RepeatsAgree(es[i], cs)
    case Object(ms) => PairsAgree(ms, cs) && forall i :: 0 <= i < |ms| ==> RepeatsAgree(ms[i].item, cs)
    case _ => true
  }

  /** A document compares equal to its copy exactly when no node is invalid and repeated keys repeat their value. */
  lemma {:induction false} EqualReflexive(a: Json, cs: bool)
    ensures Equal(a, a, cs) <==> Printable(a) && RepeatsAgree(a, cs)
    decreases a
  {
    hide PairsAgree, FoundEqual, Covered, Fold;
    match a
    case Array(es) =>
      forall i | 0 <= i < |es| ensures Equal(es[i], es[i], cs) <==> Printable(es[i]) && RepeatsAgree(es[i], cs) {
        EqualReflexive(es[i], cs);
      }
    case Object(ms) =>
      forall i | 0 <= i < |ms| ensures Equal(ms[i].item, ms[i].item, cs) <==> Printable(ms[i].item) && RepeatsAgree(ms[i].item, cs) {
        EqualReflexive(ms[i].item, cs);
      }
      CoversItself(ms, cs);
    case _ =>
  }

  lemma CoversItself(ms: Members, cs: bool)
    ensures Covered(ms, ms, cs) <==> PairsAgree(ms, cs) && forall i :: 0 <= i < |ms| ==> Equal(ms[i].item, ms[i].item, cs)
  {
    hide Equal, Fold, FoundEqual;
    if Covered(ms, ms, cs) {
      forall i | 0 <= i < |ms| ensures Equal(ms[i].item, ms[i].item, cs) {
        FoundTogether(ms, i, i, cs);
      }
      forall i, k | 0 <= i < k < |ms| && Fold(ms[i].key, cs) == Fold(ms[k].key, cs) ensures Equal(ms[i].item, ms[k].item, cs) {
        FoundTogether(ms, i, k, cs);
      }
    } else if PairsAgree(ms, cs) && forall i :: 0 <= i < |ms| ==> Equal(ms[i].item, ms[i].item, cs) {
      var i :| 0 <= i < |ms| && !FoundEqual(ms[i], ms, cs);
      FoundFirst(ms, i, cs);
    }
  }

  lemma FoundFirst(ms: Members, i: nat, cs: bool)
    requires i < |ms| && PairsAgree(ms, cs) && Equal(ms[i].item, ms[i].item, cs)
    ensures FoundEqual(ms[i], ms, cs)
  {
    hide Equal, Fold;
    var first := FindKey(ms, ms[i].key, cs);
    assert first <= i;
    EqualSymmetric(ms[first].item, ms[i].item, cs);
  }

  /** Members under one key both equal the one the key finds. */
  lemma FoundTogether(ms: Members, i: nat, k: nat, cs: bool)
    requires i < |ms| && k < |ms| && Fold(ms[i].key, cs) == Fold(ms[k].key, cs) && Covered(ms, ms, cs)
    ensures Equal(ms[i].item, ms[k].item, cs)
  {
    hide Equal, Fold;
    assert FoundEqual(ms[i], ms, cs) && FoundEqual(ms[k], ms, cs);
    FindSame(ms, ms[i].key, ms[k].key, cs);
    var first := ms[FindKey(ms, ms[i].key, cs)].item;
    EqualSymmetric(ms[k].item, first, cs);
    EqualTransitive(ms[i].item, first, ms[k].item, cs);
  }

  ghost predicate Coherent(j: Json, cs: bool) {
    Printable(j) && RepeatsAgree(j, cs)
  }

  lemma {:induction false} ValuesCovered(ms: Members, ns: Members, cs: bool)
    requires Coherent(Object(ms), cs) && Coherent(Object(ns), cs) && ToMap(ms, cs) == ToMap(ns, cs)
    ensures Covered(ms, ns, cs)
    decreases SizeSumMembers(ms) + SizeSumMembers(ns) + 1
  {
    hide Fold, ToMap, Canon, Equal, PairsAgree;
    forall i | 0 <= i < |ms| ensures FoundEqual(ms[i], ns, cs) {
      ValueUnder(ms, i, cs);
      var first := FindKey(ms, ms[i].key, cs);
      ToMapFind(ns, ms[i].key, cs);
      var n := FindKey(ns, ms[i].key, cs);
      CoherentEqual(ms[first].item, ns[n].item, cs);
      SameUnderKey(ms, first, i, cs);
      EqualSymmetric(ms[first].item, ms[i].item, cs);
      EqualTransitive(ms[i].item, ms[first].item, ns[n].item, cs);
    }
  }

  lemma SameUnderKey(ms: Members, first: nat, i: nat, cs: bool)
    requires first <= i < |ms| && Fold(ms[first].key, cs) == Fold(ms[i].key, cs) && Coherent(Object(ms), cs)
    ensures Equal(ms[first].item, ms[i].item, cs)
  {
    hide Fold, Equal;
    EqualReflexive(ms[i].item, cs);
  }

  lemma {:induction false} CoherentEqual(a: Json, b: Json, cs: bool)
    requires Coherent(a, cs) && Coherent(b, cs) && Canon(a, cs) == Canon(b, cs)
    ensures Equal(a, b, cs)
    decreases Size(a) + Size(b)
  {
    hide PairsAgree, Covered;
    match a
    case Array(es) =>
      assert |CanonSeq(es, cs)| == |CanonSeq(b.elems, cs)|;
      forall i | 0 <= i < |es| ensures Equal(es[i], b.elems[i], cs) {
        assert CanonSeq(es, cs)[i] == CanonSeq(b.elems, cs)[i];
        CoherentEqual(es[i], b.elems[i], cs);
      }
    case Object(ms) =>
      ValuesCovered(ms, b.members, cs);
      ValuesCovered(b.members, ms, cs);
    case _ =>
  }

  /** For all documents, repeated keys or not: two documents compare equal exactly when they have the same value, no
      invalid node, and equal members under each repeated key. */
  lemma EqualExactly(a: Json, b: Json, cs: bool)
    ensures Equal(a, b, cs) <==> Coherent(a, cs) && Coherent(b, cs) && Canon(a, cs) == Canon(b, cs)
  {
    hide Equal, Canon, Printable, RepeatsAgree;
    if Equal(a, b, cs) {
      EqualValues(a, b, cs);
      EqualSymmetric(a, b, cs);
      EqualTransitive(a, b, a, cs);
      EqualTransitive(b, a, b, cs);
      EqualReflexive(a, cs);
      EqualReflexive(b, cs);
    }
    if Coherent(a, cs) && Coherent(b, cs) && Canon(a, cs) == Canon(b, cs) {
      CoherentEqual(a, b, cs);
    }
  }

  lemma {:induction false} DistinctAgree(j: Json, cs: bool)
    requires WellKeyed(j, cs)
    ensures RepeatsAgree(j, cs)
  {
    hide Equal, Fold;
    match j
    case Array(es) => forall i | 0 <= i < |es| ensures RepeatsAgree(es[i], cs) { DistinctAgree(es[i], cs); }
    case Object(ms) => forall i | 0 <= i < |ms| ensures RepeatsAgree(ms[i].item, cs) { DistinctAgree(ms[i].item, cs); }
    case _ =>
  }

  /** On documents with distinct keys the comparison decides equality of the values: order of
      members, and in the case-insensitive mode case of keys, are all it ignores. */
  lemma EqualIffSameValue(a: Json, b: Json, cs: bool)
    requires Printable(a) && Printable(b) && WellKeyed(a, cs) && WellKeyed(b, cs)
    ensures Equal(a, b, cs) <==> Canon(a, cs) == Canon(b, cs)
  {
    hide Equal, Canon, Printable, RepeatsAgree, WellKeyed;
    DistinctAgree(a, cs);
    DistinctAgree(b, cs);
    EqualExactly(a, b, cs);
  }

  /** The parser accepts repeated keys, so a parsed document need not compare equal to its copy. */
  lemma RepeatedKeyNotReflexive(cs: bool)
    ensures var a := Object([Keyed([97], True), Keyed([97], False)]); Printable(a) && !RepeatsAgree(a, cs) && !Equal(a, a, cs)
  {
    var ms: Members := [Keyed([97], True), Keyed([97], False)];
    assert Fold(ms[0].key, cs) == Fold(ms[1].key, cs) && !Equal(ms[0].item, ms[1].item, cs);
    EqualReflexive(Object(ms), cs);
  }

  /** Documents with the same value are printable together. */
  lemma {:induction false} PrintableByValue(a: Json, b: Json, cs: bool)
    requires WellKeyed(a, cs) && Printable(b) && Canon(a, cs) == Canon(b, cs)
    ensures Printable(a)
    decreases a
  {
    match a
    case Array(es) =>
      forall i | 0 <= i < |es| ensures Printable(es[i]) {
        assert CanonSeq(es, cs)[i] == CanonSeq(b.elems, cs)[i];
        PrintableByValue(es[i], b.elems[i], cs);
      }
    case Object(ms) =>
      forall i | 0 <= i < |ms| ensures Printable(ms[i].item) {
        ToMapFirst(ms, cs, i);
        var k := FindKey(b.members, ms[i].key, cs);
        ToMapFind(b.members, ms[i].key, cs);
        PrintableByValue(ms[i].item, b.members[k].item, cs);
      }
    case _ =>
  }

  lemma EqualIsPrintable(a: Json, b: Json, cs: bool)
    requires Equal(a, b, cs)
    ensures Printable(a)
  {
    hide Equal;
    EqualSymmetric(a, b, cs);
    EqualTransitive(a, b, a, cs);
    EqualReflexive(a, cs);
  }

  /** Comparing with a printable document decides equality of values. */
  lemma EqualByValue(a: Json, b: Json, cs: bool)
    requires WellKeyed(a, cs) && WellKeyed(b, cs) && Printable(b)
    ensures Equal(a, b, cs) <==> Canon(a, cs) == Canon(b, cs)
  {
    hide Equal, Canon, WellKeyed, Printable;
    if Equal(a, b, cs) {
      EqualIsPrintable(a, b, cs);
      EqualIffSameValue(a, b, cs);
    } else if Canon(a, cs) == Canon(b, cs) {
      PrintableByValue(a, b, cs);
      EqualIffSameValue(a, b, cs);
    }
  }
}
