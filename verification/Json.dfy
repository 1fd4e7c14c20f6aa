/** JSON documents, and the value a document stands for once the order of object members and,
    in the case-insensitive mode, the case of keys are forgotten. */
module Json {
  import opened CStrings

  /** Integers that `%1.15g` prints in plain decimal. */
  const NUMBER_BOUND := 1_000_000_000_000_000
  type Num = n: int | -NUMBER_BOUND < n < NUMBER_BOUND

  const INT_MAX := 0x7FFF_FFFF
  const INT_MIN := -0x8000_0000
  const SIZE_LIMIT := 0x1_0000_0000_0000_0000

  /** `valueint`: the number saturated to an `int`. */
  function Saturated(n: Num): int {
    if n >= INT_MAX then INT_MAX else if n <= INT_MIN then INT_MIN else n
  }

  /** Something filed under a key: a member of an object, or a list node under its name. */
  datatype Keyed<T> = Keyed(key: CStr, item: T)

  datatype Json =
    | Invalid
    | False
    | True
    | Null
    | Number(n: Num)
    | Text(s: CStr)
    | Raw(raw: CStr)
    | Array(elems: seq<Json>)
    | Object(members: seq<Keyed<Json>>)

  type Members = seq<Keyed<Json>>

  /** `a->type & 0xFF` and `b->type & 0xFF` agree. */
  predicate SameType(a: Json, b: Json) {
    match a
    case Invalid => b.Invalid?
    case False => b.False?
    case True => b.True?
    case Null => b.Null?
    case Number(_) => b.Number?
    case Text(_) => b.Text?
    case Raw(_) => b.Raw?
    case Array(_) => b.Array?
    case Object(_) => b.Object?
  }

  /** The value of a document: objects are maps from folded keys. */
  datatype Val =
    | VInvalid
    | VFalse
    | VTrue
    | VNull
    | VNumber(n: Num)
    | VText(s: CStr)
    | VRaw(raw: CStr)
    | VArray(vals: seq<Val>)
    | VObject(entries: map<CStr, Val>)

  ghost function Canon(j: Json, cs: bool): Val
    decreases j
  {
    match j
    case Invalid => VInvalid
    case False => VFalse
    case True => VTrue
    case Null => VNull
    case Number(n) => VNumber(n)
    case Text(s) => VText(s)
    case Raw(s) => VRaw(s)
    case Array(es) => VArray(CanonSeq(es, cs))
    case Object(ms) => VObject(ToMap(ms, cs))
  }

  ghost function CanonSeq(es: seq<Json>, cs: bool): (r: seq<Val>)
    ensures |r| == |es|
    ensures forall i :: 0 <= i < |es| ==> r[i] == Canon(es[i], cs)
    decreases es
  {
    if es == [] then [] else [Canon(es[0], cs)] + CanonSeq(es[1..], cs)
  }

  /** The first member with a key wins, as it does in a lookup. */
  ghost function ToMap(ms: Members, cs: bool): map<CStr, Val>
    decreases ms
  {
    if ms == [] then map[] else ToMap(ms[1..], cs)[Fold(ms[0].key, cs) := Canon(ms[0].item, cs)]
  }

  ghost predicate DistinctKeys<T>(ms: seq<Keyed<T>>, cs: bool) {
    forall i, j :: 0 <= i < j < |ms| ==> Fold(ms[i].key, cs) != Fold(ms[j].key, cs)
  }

  /** Every object has distinct keys under the case mode. */
  ghost predicate WellKeyed(j: Json, cs: bool) {
    match j
    case Array(es) => forall i :: 0 <= i < |es| ==> WellKeyed(es[i], cs)
    case Object(ms) => DistinctKeys(ms, cs) && forall i :: 0 <= i < |ms| ==> WellKeyed(ms[i].item, cs)
    case _ => true
  }

  /** No node is invalid, and none is raw text. */
  ghost predicate Plain(j: Json) {
    match j
    case Invalid => false
    case Raw(_) => false
    case Array(es) => forall i :: 0 <= i < |es| ==> Plain(es[i])
    case Object(ms) => forall i :: 0 <= i < |ms| ==> Plain(ms[i].item)
    case _ => true
  }

  /** No node is invalid: the printer gives up on one, and the comparison finds it unequal to itself. */
  predicate Printable(j: Json) {
    match j
    case Invalid => false
    case Array(es) => forall i :: 0 <= i < |es| ==> Printable(es[i])
    case Object(ms) => forall i :: 0 <= i < |ms| ==> Printable(ms[i].item)
    case _ => true
  }

  /** How many containers are open at the deepest place of a document. */
  function Nesting(j: Json): nat
    decreases j
  {
    match j
    case Array(es) => 1 + DeepestElement(es)
    case Object(ms) => 1 + DeepestMember(ms)
    case _ => 0
  }

  function DeepestElement(es: seq<Json>): (n: nat)
    ensures forall i :: 0 <= i < |es| ==> Nesting(es[i]) <= n
    decreases es
  {
    if es == [] then 0 else Larger(Nesting(es[0]), DeepestElement(es[1..]))
  }

  function DeepestMember(ms: Members): (n: nat)
    ensures forall i :: 0 <= i < |ms| ==> Nesting(ms[i].item) <= n
    decreases ms
  {
    if ms == [] then 0 else Larger(Nesting(ms[0].item), DeepestMember(ms[1..]))
  }

  function Larger(a: nat, b: nat): nat {
    if a < b then b else a
  }

  /** The index of the first member a lookup of `name` stops at, or the number of members. */
  function FindKey<T>(ms: seq<Keyed<T>>, name: CStr, cs: bool): (i: nat)
    ensures i <= |ms|
    ensures forall k :: 0 <= k < i ==> Fold(ms[k].key, cs) != Fold(name, cs)
    ensures i < |ms| ==> Fold(ms[i].key, cs) == Fold(name, cs)
  {
    if ms == [] then 0
    else if Fold(ms[0].key, cs) == Fold(name, cs) then 0
    else 1 + FindKey(ms[1..], name, cs)
  }

  lemma FindSame<T>(ns: seq<Keyed<T>>, k: CStr, l: CStr, cs: bool)
    requires Fold(k, cs) == Fold(l, cs)
    ensures FindKey(ns, k, cs) == FindKey(ns, l, cs)
  {
  }

  function RemoveAt<T>(s: seq<T>, i: nat): (r: seq<T>)
    requires i < |s|
    ensures |r| == |s| - 1
    ensures forall k :: 0 <= k < |r| ==> r[k] == if k < i then s[k] else s[k+1]
  {
    s[..i] + s[i+1..]
  }

  function InsertAt<T>(s: seq<T>, i: nat, x: T): (r: seq<T>)
    requires i <= |s|
    ensures |r| == |s| + 1
    ensures forall k :: 0 <= k < |r| ==> r[k] == if k < i then s[k] else if k == i then x else s[k-1]
  {
    s[..i] + [x] + s[i..]
  }

  /** The keys of the map are the folded keys of the members. */
  lemma {:induction false} ToMapKeys(ms: Members, cs: bool, k: CStr)
    ensures k in ToMap(ms, cs) <==> exists i :: 0 <= i < |ms| && Fold(ms[i].key, cs) == k
  {
    if ms != [] {
      ToMapKeys(ms[1..], cs, k);
      if exists i :: 0 <= i < |ms| && Fold(ms[i].key, cs) == k {
        var i :| 0 <= i < |ms| && Fold(ms[i].key, cs) == k;
        assert i > 0 ==> ms[1..][i-1] == ms[i];
      }
      if k in ToMap(ms[1..], cs) {
        var i :| 0 <= i < |ms[1..]| && Fold(ms[1..][i].key, cs) == k;
        assert ms[i+1] == ms[1..][i];
      }
    }
  }

  /** The entry under a key is the value of the member a lookup finds. */
  lemma {:induction false} ToMapFirst(ms: Members, cs: bool, i: nat)
    requires i < |ms|
    requires forall k :: 0 <= k < i ==> Fold(ms[k].key, cs) != Fold(ms[i].key, cs)
    ensures Fold(ms[i].key, cs) in ToMap(ms, cs)
    ensures ToMap(ms, cs)[Fold(ms[i].key, cs)] == Canon(ms[i].item, cs)
  {
    if i > 0 {
      assert Fold(ms[0].key, cs) != Fold(ms[i].key, cs);
      forall k | 0 <= k < i - 1 ensures Fold(ms[1..][k].key, cs) != Fold(ms[i].key, cs) {
        assert ms[1..][k] == ms[k+1];
      }
      ToMapFirst(ms[1..], cs, i - 1);
    }
  }

  lemma ToMapFind(ms: Members, name: CStr, cs: bool)
    ensures var i := FindKey(ms, name, cs);
            if i < |ms| then Fold(name, cs) in ToMap(ms, cs) && ToMap(ms, cs)[Fold(name, cs)] == Canon(ms[i].item, cs)
            else Fold(name, cs) !in ToMap(ms, cs)
  {
    var i := FindKey(ms, name, cs);
    if i < |ms| {
      ToMapFirst(ms, cs, i);
    } else {
      ToMapKeys(ms, cs, Fold(name, cs));
    }
  }

  lemma {:induction false} ToMapAppend(ms: Members, m: Keyed<Json>, cs: bool)
    requires Fold(m.key, cs) !in ToMap(ms, cs)
    ensures ToMap(ms + [m], cs) == ToMap(ms, cs)[Fold(m.key, cs) := Canon(m.item, cs)]
  {
    if ms == [] {
      assert ms + [m] == [m];
    } else {
      assert (ms + [m])[1..] == ms[1..] + [m];
      ToMapAppend(ms[1..], m, cs);
    }
  }

  lemma DistinctRemove<T>(ms: seq<Keyed<T>>, cs: bool, i: nat)
    requires i < |ms| && DistinctKeys(ms, cs)
    ensures DistinctKeys(RemoveAt(ms, i), cs)
  {
  }

  lemma {:induction false} ToMapRemove(ms: Members, cs: bool, i: nat)
    requires i < |ms| && DistinctKeys(ms, cs)
    ensures ToMap(RemoveAt(ms, i), cs) == ToMap(ms, cs) - {Fold(ms[i].key, cs)}
  {
    hide Fold, Canon;
    var k := Fold(ms[i].key, cs);
    if i == 0 {
      ToMapKeys(ms[1..], cs, k);
      assert RemoveAt(ms, 0) == ms[1..];
    } else {
      var k0, v0, tail := Fold(ms[0].key, cs), Canon(ms[0].item, cs), ToMap(ms[1..], cs);
      assert k0 != k && ms[1..][i-1] == ms[i];
      ToMapRemove(ms[1..], cs, i - 1);
      RemoveBehindHead(ms, i);
      EntryGone(tail, k0, v0, k);
    }
  }

  lemma RemoveBehindHead(ms: Members, i: nat)
    requires 0 < i < |ms|
    ensures var r := RemoveAt(ms, i); r != [] && r[0] == ms[0] && r[1..] == RemoveAt(ms[1..], i - 1)
  {
  }

  lemma EntryGone(tail: map<CStr, Val>, k0: CStr, v0: Val, k: CStr)
    requires k0 != k
    ensures tail[k0 := v0] - {k} == (tail - {k})[k0 := v0]
  {
  }

  lemma {:induction false} ToMapUpdate(ms: Members, cs: bool, i: nat, v: Json)
    requires i < |ms| && DistinctKeys(ms, cs)
    ensures ToMap(ms[i := Keyed(ms[i].key, v)], cs) == ToMap(ms, cs)[Fold(ms[i].key, cs) := Canon(v, cs)]
  {
    var us := ms[i := Keyed(ms[i].key, v)];
    if i == 0 {
      assert us[1..] == ms[1..];
    } else {
      assert us[1..] == ms[1..][i-1 := Keyed(ms[1..][i-1].key, v)];
      ToMapUpdate(ms[1..], cs, i - 1, v);
    }
  }

  /** Two member lists with the same lookups are the same map. */
  lemma SameLookupsSameMap(ms: Members, ns: Members, cs: bool)
    requires DistinctKeys(ms, cs) && DistinctKeys(ns, cs)
    requires forall i :: 0 <= i < |ms| ==> ms[i] in ns
    requires forall i :: 0 <= i < |ns| ==> ns[i] in ms
    ensures ToMap(ms, cs) == ToMap(ns, cs)
  {
    var p, q := ToMap(ms, cs), ToMap(ns, cs);
    forall k ensures k in p <==> k in q {
      ToMapKeys(ms, cs, k);
      ToMapKeys(ns, cs, k);
    }
    forall k | k in p ensures p[k] == q[k] {
      ToMapKeys(ms, cs, k);
      var i :| 0 <= i < |ms| && Fold(ms[i].key, cs) == k;
      ToMapFirst(ms, cs, i);
      var j :| 0 <= j < |ns| && ns[j] == ms[i];
      ToMapFirst(ns, cs, j);
    }
  }
}
