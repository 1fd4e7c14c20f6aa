/** What adding, removing and replacing mean for the value of a document, and where a pointer leads
    in it. Keys are compared without regard to case, as the plain entry points do. */
module PatchMeaning {
  import opened CStrings
  import opened Json
  import opened Decimals
  import opened Pointers
  import opened Patch

  /** A change to a document, by path tokens relative to it. */
  datatype Edit = Edit(op: Opcode, tokens: seq<CStr>, value: Option<Json>)

  function Join(tokens: seq<CStr>): CStr {
    if tokens == [] then [] else [SLASH] + tokens[0] + Join(tokens[1..])
  }

  function OpText(op: Opcode): CStr {
    if op.OpAdd? then ADD else if op.OpRemove? then REMOVE else REPLACE
  }

  /** The patch object of an operation. */
  function PatchObject(op: CStr, path: CStr, value: Option<Json>): Json {
    Object([Keyed(KEY_OP, Text(op)), Keyed(KEY_PATH, Text(path))] +
           (if value.Some? then [Keyed(KEY_VALUE, value.value)] else []))
  }

  /** The patch object for an edit below a path. */
  function PatchOf(path: CStr, e: Edit): Json {
    PatchObject(OpText(e.op), path + Join(e.tokens), e.value)
  }

  function PatchesOf(path: CStr, es: seq<Edit>): (r: seq<Json>)
    ensures |r| == |es|
    ensures forall i :: 0 <= i < |es| ==> r[i] == PatchOf(path, es[i])
  {
    seq(|es|, i requires 0 <= i < |es| => PatchOf(path, es[i]))
  }

  ghost function VStep(v: Val, token: CStr): Option<Val> {
    match v
    case VArray(vs) =>
      var i := DecodeIndex(token);
      if i.Some? && i.value < |vs| then Some(vs[i.value]) else None
    case VObject(m) => if Fold(token, false) in m then Some(m[Fold(token, false)]) else None
    case _ => None
  }

  ghost function VWith(v: Val, token: CStr, x: Val): Val
    requires VStep(v, token).Some?
  {
    match v
    case VArray(vs) => VArray(vs[DecodeIndex(token).value := x])
    case VObject(m) => VObject(m[Fold(token, false) := x])
  }

  /** The change one edit makes to the node that holds the child it names. */
  ghost function VLocal(v: Val, op: Opcode, token: CStr, x: Val): Option<Val> {
    var i := DecodeIndex(token);
    match v
    case VArray(vs) =>
      if op.OpAdd? then
        if token == [DASH] then Some(VArray(vs + [x]))
        else if i.Some? && i.value <= |vs| then Some(VArray(InsertAt(vs, i.value, x))) else None
      else if i.None? || i.value >= |vs| then None
      else if op.OpRemove? then Some(VArray(RemoveAt(vs, i.value)))
      else Some(VArray(vs[i.value := x]))
    case VObject(m) =>
      var k := Fold(token, false);
      if op.OpAdd? then Some(VObject(m[k := x]))
      else if k !in m then None
      else if op.OpRemove? then Some(VObject(m - {k}))
      else Some(VObject(m[k := x]))
    case _ => None
  }

  ghost function VEdit(v: Val, op: Opcode, tokens: seq<CStr>, x: Val): Option<Val>
    decreases |tokens|
  {
    if tokens == [] then if op.OpRemove? then None else Some(x)
    else if |tokens| == 1 then VLocal(v, op, tokens[0], x)
    else if VStep(v, tokens[0]).None? then None
    else
      var r := VEdit(VStep(v, tokens[0]).value, op, tokens[1..], x);
      if r.None? then None else Some(VWith(v, tokens[0], r.value))
  }

  ghost function ValueOf(e: Edit): Val {
    if e.value.Some? then Canon(e.value.value, false) else VNull
  }

  /** Edits in order, on values. */
  ghost function VRun(v: Val, es: seq<Edit>): Option<Val>
    decreases |es|
  {
    if es == [] then Some(v)
    else
      var r := VEdit(v, es[0].op, es[0].tokens, ValueOf(es[0]));
      if r.None? then None else VRun(r.value, es[1..])
  }

  ghost function VGet(v: Val, tokens: seq<CStr>): Option<Val>
    decreases |tokens|
  {
    if tokens == [] then Some(v)
    else if VStep(v, tokens[0]).None? then None
    else VGet(VStep(v, tokens[0]).value, tokens[1..])
  }

  ghost function VPut(v: Val, tokens: seq<CStr>, x: Val): Val
    requires VGet(v, tokens).Some?
    decreases |tokens|
  {
    if tokens == [] then x else VWith(v, tokens[0], VPut(VStep(v, tokens[0]).value, tokens[1..], x))
  }

  ghost predicate CleanTokens(tokens: seq<CStr>) {
    forall i :: 0 <= i < |tokens| ==> Clean(tokens[i])
  }

  lemma JoinHead(tokens: seq<CStr>)
    requires tokens != []
    ensures Join(tokens) == [SLASH] + tokens[0] + Join(tokens[1..])
  {
  }

  lemma JoinStartsToken(tokens: seq<CStr>)
    ensures EndsToken(CharAt(Join(tokens), 0))
  {
  }

  /** Where a step leads is the same for a document and for its value. */
  lemma StepMeaning(j: Json, token: CStr, rest: CStr)
    requires Clean(token) && EndsToken(CharAt(rest, 0))
    ensures var i := Step(j, token + rest, false);
            i.Some? <==> VStep(Canon(j, false), token).Some?
    ensures var i := Step(j, token + rest, false);
            i.Some? ==> VStep(Canon(j, false), token) == Some(Canon(Kids(j)[i.value], false))
  {
    match j
    case Array(es) => IndexIgnoresRest(token, rest);
    case Object(ms) =>
      CleanTokenFinds(ms, token, rest, false);
      ToMapFind(ms, token, false);
    case _ =>
  }

  /** Decoding an index stops at the end of its token. */
  lemma IndexIgnoresRest(token: CStr, rest: CStr)
    requires Clean(token) && EndsToken(CharAt(rest, 0))
    ensures DecodeIndex(token + rest) == DecodeIndex(token)
  {
    var p := token + rest;
    assert p[..|token|] == token;
    assert CharAt(p, |token|) == CharAt(rest, 0);
    IndexEndsWithToken(p, token);
  }

  lemma IndexEndsWithToken(p: CStr, token: CStr)
    requires |token| <= |p| && p[..|token|] == token && SLASH !in token && EndsToken(CharAt(p, |token|))
    ensures DecodeIndex(p) == DecodeIndex(token)
  {
    hide RunLength, Accumulate;
    var n := RunLength(token);
    assert forall k :: 0 <= k < |token| ==> p[k] == token[k];
    assert RunLength(p) == n;
    assert p[..n] == token[..n];
  }

  lemma WithKidMeaning(j: Json, token: CStr, rest: CStr, i: nat, k: Json)
    requires WellKeyed(j, false) && Clean(token) && EndsToken(CharAt(rest, 0)) && Step(j, token + rest, false) == Some(i)
    ensures VStep(Canon(j, false), token).Some?
    ensures Canon(WithKid(j, i, k), false) == VWith(Canon(j, false), token, Canon(k, false))
    ensures WellKeyed(k, false) ==> WellKeyed(WithKid(j, i, k), false)
  {
    hide CanonSeq, ToMap, DecodeIndex, Fold, FindKey, DistinctKeys, EndsToken, Clean;
    StepMeaning(j, token, rest);
    if j.Array? {
      IndexIgnoresRest(token, rest);
      CanonUpdate(j.elems, i, k);
    } else {
      MemberUpdate(j, token, rest, i, k);
    }
  }

  lemma CanonUpdate(es: seq<Json>, i: nat, k: Json)
    requires i < |es|
    ensures CanonSeq(es[i := k], false) == CanonSeq(es, false)[i := Canon(k, false)]
  {
    hide Canon, CanonSeq;
    var p, q := CanonSeq(es[i := k], false), CanonSeq(es, false)[i := Canon(k, false)];
    assert |p| == |q|;
    assert forall l :: 0 <= l < |p| ==> p[l] == q[l];
  }

  lemma MemberUpdate(j: Json, token: CStr, rest: CStr, i: nat, k: Json)
    requires j.Object? && WellKeyed(j, false) && Clean(token) && EndsToken(CharAt(rest, 0))
    requires Step(j, token + rest, false) == Some(i) && VStep(Canon(j, false), token).Some?
    ensures Canon(WithKid(j, i, k), false) == VWith(Canon(j, false), token, Canon(k, false))
    ensures WellKeyed(k, false) ==> WellKeyed(WithKid(j, i, k), false)
  {
    hide ToMap, Fold, EndsToken, Clean;
    CleanTokenFinds(j.members, token, rest, false);
    ToMapUpdate(j.members, false, i, k);
  }

  /** A pointer of clean tokens leads to the node its tokens lead to, and replacing that node
      replaces its value. */
  lemma {:induction false} GetItemMeaning(doc: Json, tokens: seq<CStr>)
    requires WellKeyed(doc, false) && CleanTokens(tokens)
    ensures var r := GetItem(doc, Join(tokens), false);
            r.Some? <==> VGet(Canon(doc, false), tokens).Some?
    ensures var r := GetItem(doc, Join(tokens), false);
            r.Some? ==> WellKeyed(At(doc, r.value), false) && VGet(Canon(doc, false), tokens) == Some(Canon(At(doc, r.value), false))
    decreases |tokens|
  {
    if tokens != [] {
      var tail := Join(tokens[1..]);
      JoinStartsToken(tokens[1..]);
      GetItemStep(doc, tokens[0], tail, false);
      StepMeaning(doc, tokens[0], tail);
      var i := Step(doc, tokens[0] + tail, false);
      if i.Some? {
        GetItemMeaning(Kids(doc)[i.value], tokens[1..]);
      }
    }
  }

  lemma PutBelow(doc: Json, i: nat, a: Addr, x: Json)
    requires i < |Kids(doc)| && ValidAddr(Kids(doc)[i], a)
    ensures ValidAddr(doc, [i] + a) && Put(doc, [i] + a, x) == WithKid(doc, i, Put(Kids(doc)[i], a, x))
  {
    assert ([i] + a)[1..] == a;
  }

  lemma PutStep(v: Val, tokens: seq<CStr>, x: Val)
    requires tokens != [] && VGet(v, tokens).Some?
    ensures VStep(v, tokens[0]).Some? && VGet(VStep(v, tokens[0]).value, tokens[1..]).Some?
    ensures VPut(v, tokens, x) == VWith(v, tokens[0], VPut(VStep(v, tokens[0]).value, tokens[1..], x))
  {
    hide VStep, VWith;
  }

  lemma {:induction false} PutMeaning(doc: Json, tokens: seq<CStr>, x: Json)
    requires WellKeyed(doc, false) && WellKeyed(x, false) && CleanTokens(tokens) && GetItem(doc, Join(tokens), false).Some?
    ensures VGet(Canon(doc, false), tokens).Some?
    ensures var r := Put(doc, GetItem(doc, Join(tokens), false).value, x);
            WellKeyed(r, false) && Canon(r, false) == VPut(Canon(doc, false), tokens, Canon(x, false))
    decreases |tokens|
  {
    GetItemMeaning(doc, tokens);
    if tokens != [] {
      hide Put, Kids, ValidAddr, WithKid, Canon, WellKeyed, VGet, VPut, VWith, VStep, Step, Clean, GetItem, Join;
      var tail := Join(tokens[1..]);
      var i, a := WayDown(doc, tokens);
      PutMeaning(Kids(doc)[i], tokens[1..], x);
      PutBelow(doc, i, a, x);
      WithKidMeaning(doc, tokens[0], tail, i, Put(Kids(doc)[i], a, x));
      PutStep(Canon(doc, false), tokens, Canon(x, false));
    }
  }

  /** The first step of a pointer that leads somewhere, and the rest of its way. */
  lemma WayDown(doc: Json, tokens: seq<CStr>) returns (i: nat, a: Addr)
    requires WellKeyed(doc, false) && CleanTokens(tokens) && tokens != [] && GetItem(doc, Join(tokens), false).Some?
    ensures Clean(tokens[0]) && CleanTokens(tokens[1..]) && EndsToken(CharAt(Join(tokens[1..]), 0))
    ensures Step(doc, tokens[0] + Join(tokens[1..]), false) == Some(i) && i < |Kids(doc)| && WellKeyed(Kids(doc)[i], false)
    ensures GetItem(Kids(doc)[i], Join(tokens[1..]), false) == Some(a) && GetItem(doc, Join(tokens), false) == Some([i] + a)
    ensures VStep(Canon(doc, false), tokens[0]) == Some(Canon(Kids(doc)[i], false))
  {
    hide Join, GetItem, Canon, VStep, Step, Kids, WellKeyed;
    var tail := Join(tokens[1..]);
    JoinStartsToken(tokens[1..]);
    JoinHead(tokens);
    GetItemStep(doc, tokens[0], tail, false);
    StepMeaning(doc, tokens[0], tail);
    i := Step(doc, tokens[0] + tail, false).value;
    a := GetItem(Kids(doc)[i], tail, false).value;
    KidWellKeyed(doc, i);
  }

  lemma KidWellKeyed(doc: Json, i: nat)
    requires WellKeyed(doc, false) && i < |Kids(doc)|
    ensures WellKeyed(Kids(doc)[i], false)
  {
  }

  /** Replacing the node a pointer leads to does not lead the pointer elsewhere. */
  lemma {:induction false} GetItemAfterPut(doc: Json, p: CStr, x: Json, cs: bool)
    requires GetItem(doc, p, cs).Some?
    ensures GetItem(Put(doc, GetItem(doc, p, cs).value, x), p, cs) == GetItem(doc, p, cs)
    decreases |p|
  {
    if CharAt(p, 0) == SLASH {
      var i := Step(doc, p[1..], cs).value;
      var rest := p[1 + TokenLength(p[1..])..];
      var a := GetItem(Kids(doc)[i], rest, cs).value;
      GetItemAfterPut(Kids(doc)[i], rest, x, cs);
      assert ([i] + a)[1..] == a;
      StepAfterPut(doc, p[1..], Put(Kids(doc)[i], a, x), cs);
    }
  }

  lemma StepAfterPut(j: Json, p: CStr, k: Json, cs: bool)
    requires Step(j, p, cs).Some?
    ensures Step(WithKid(j, Step(j, p, cs).value, k), p, cs) == Step(j, p, cs)
  {
    if j.Object? {
      var i := FindToken(j.members, p, cs);
      var ns := j.members[i := Keyed(j.members[i].key, k)];
      var n := FindToken(ns, p, cs);
      assert n < |ns| ==> ns[n].key == j.members[n].key;
      assert ns[i].key == j.members[i].key;
    }
  }

  lemma {:induction false} PutThenAt(doc: Json, a: Addr, x: Json, y: Json)
    requires ValidAddr(doc, a)
    ensures ValidAddr(Put(doc, a, x), a) && At(Put(doc, a, x), a) == x
    ensures Put(Put(doc, a, x), a, y) == Put(doc, a, y)
    decreases a
  {
    if a != [] {
      PutThenAt(Kids(doc)[a[0]], a[1..], x, y);
      WithKidTwice(doc, a[0], Put(Kids(doc)[a[0]], a[1..], x), Put(Kids(doc)[a[0]], a[1..], y));
    }
  }

  lemma WithKidTwice(j: Json, i: nat, k: Json, l: Json)
    requires i < |Kids(j)|
    ensures WithKid(WithKid(j, i, k), i, l) == WithKid(j, i, l)
  {
  }
}
