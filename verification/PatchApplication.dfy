/** Applying patches means what the edits behind them mean on values. */
module PatchApplication {
  import opened Sequences
  import opened CStrings
  import opened Json
  import opened Decimals
  import opened Pointers
  import opened Patch
  import opened PatchMeaning

  lemma EditHead(v: Val, op: Opcode, tokens: seq<CStr>, x: Val)
    requires |tokens| > 1
    ensures VEdit(v, op, tokens, x) ==
            var child := VStep(v, tokens[0]);
            if child.None? || VEdit(child.value, op, tokens[1..], x).None? then None
            else Some(VWith(v, tokens[0], VEdit(child.value, op, tokens[1..], x).value))
  {
    hide VStep, VWith, VLocal;
  }

  lemma GetHead(v: Val, tokens: seq<CStr>)
    requires tokens != []
    ensures VGet(v, tokens) ==
            var child := VStep(v, tokens[0]);
            if child.None? then None else VGet(child.value, tokens[1..])
  {
    hide VStep;
  }

  /** An edit changes one node, the one all tokens but the last lead to; it is possible exactly when
      there is such a node and the change is possible there. */
  lemma {:induction false} EditAtParent(v: Val, op: Opcode, tokens: seq<CStr>, x: Val)
    requires tokens != []
    ensures var up, last := tokens[..|tokens|-1], tokens[|tokens|-1];
            var parent := VGet(v, up);
            VEdit(v, op, tokens, x) ==
            if parent.None? || VLocal(parent.value, op, last, x).None? then None
            else Some(VPut(v, up, VLocal(parent.value, op, last, x).value))
    decreases |tokens|
  {
    if |tokens| == 1 {
      hide VStep, VWith, VLocal;
      assert tokens[..0] == [];
    } else {
      hide VStep, VWith, VLocal, VEdit, VGet, VPut;
      var up := tokens[..|tokens|-1];
      EditHead(v, op, tokens, x);
      GetHead(v, up);
      if VStep(v, tokens[0]).Some? {
        EditAtParent(VStep(v, tokens[0]).value, op, tokens[1..], x);
        assert tokens[1..][..|tokens|-2] == up[1..];
        var parent := VGet(v, up);
        if parent.Some? && VLocal(parent.value, op, tokens[|tokens|-1], x).Some? {
          PutStep(v, up, VLocal(parent.value, op, tokens[|tokens|-1], x).value);
        }
      }
    }
  }

  lemma {:induction false} JoinLast(tokens: seq<CStr>)
    requires tokens != []
    ensures Join(tokens) == Join(tokens[..|tokens|-1]) + [SLASH] + tokens[|tokens|-1]
    decreases |tokens|
  {
    var up, last := tokens[..|tokens|-1], tokens[|tokens|-1];
    if |tokens| == 1 {
      assert Join(tokens) == [SLASH] + last + Join(tokens[1..]) && tokens[1..] == [] && Join(up) == [];
    } else {
      hide Join;
      JoinLast(tokens[1..]);
      assert tokens[1..][..|tokens|-2] == up[1..] && up[0] == tokens[0];
      JoinHead(tokens);
      JoinHead(up);
      RegroupFour([SLASH] + tokens[0], Join(up[1..]), [SLASH], last);
    }
  }

  lemma SplitJoin(tokens: seq<CStr>)
    requires tokens != [] && Clean(tokens[|tokens|-1])
    ensures var up, last, path := tokens[..|tokens|-1], tokens[|tokens|-1], Join(tokens);
            LastSlash(path) == Some(|Join(up)|) && path[..|Join(up)|] == Join(up) &&
            DecodeToken(path[|Join(up)|+1..], 0, 0) == last
  {
    var up, last, path := tokens[..|tokens|-1], tokens[|tokens|-1], Join(tokens);
    JoinLast(tokens);
    LastSlashAt(Join(up), last);
    assert path[|Join(up)|+1..] == last;
    DecodeClean(last, 0);
  }

  lemma {:induction false} LastSlashAt(front: CStr, last: CStr)
    requires SLASH !in last
    ensures LastSlash(front + [SLASH] + last) == Some(|front|)
  {
    var p := front + [SLASH] + last;
    if last != [] {
      assert p[|p|-1] == last[|last|-1];
      assert p[..|p|-1] == front + [SLASH] + last[..|last|-1];
      LastSlashAt(front, last[..|last|-1]);
    }
  }

  /** What the lookups of an apply find in a composed patch. */
  lemma ReadPatch(path: CStr, e: Edit, cs: bool)
    ensures var p := PatchOf(path, e);
            Member(p, KEY_OP, cs) == Some(Text(OpText(e.op))) &&
            Member(p, KEY_PATH, cs) == Some(Text(path + Join(e.tokens))) &&
            Member(p, KEY_VALUE, cs) == e.value
  {
    var ms := PatchOf(path, e).members;
    assert |Fold(KEY_OP, cs)| == 2 && |Fold(KEY_PATH, cs)| == 4 && |Fold(KEY_VALUE, cs)| == 5;
    assert ms[0].key == KEY_OP && ms[1].key == KEY_PATH && (|ms| > 2 ==> ms[2].key == KEY_VALUE);
    assert FindKey(ms, KEY_OP, cs) == 0 && FindKey(ms, KEY_PATH, cs) == 1;
    assert FindKey(ms, KEY_VALUE, cs) == 2;
  }

  /** An addition, removal or replacement. */
  predicate Simple(e: Edit) {
    e.op.OpAdd? || e.op.OpRemove? || e.op.OpReplace?
  }

  lemma ReadOpcode(path: CStr, e: Edit, cs: bool)
    requires Simple(e)
    ensures DecodeOperation(PatchOf(path, e), cs) == e.op && Readable(PatchOf(path, e), cs)
  {
    ReadPatch(path, e, cs);
    assert ADD != REMOVE && ADD != REPLACE && REMOVE[2] != REPLACE[2];
  }

  ghost predicate GoodEdit(e: Edit) {
    Simple(e) && CleanTokens(e.tokens) &&
    (e.value.Some? <==> !e.op.OpRemove?) && (e.value.Some? ==> WellKeyed(e.value.value, false))
  }

  /** Detaching at a clean path changes the parent the path names. */
  lemma DetachMeaning(doc: Json, tokens: seq<CStr>)
    requires tokens != [] && Clean(tokens[|tokens|-1])
    requires GetItem(doc, Join(tokens[..|tokens|-1]), false).Some?
    ensures var at := GetItem(doc, Join(tokens[..|tokens|-1]), false).value;
            var r := TakeOut(At(doc, at), tokens[|tokens|-1]);
            r.Detached? ==> DetachPath(doc, Join(tokens), false) == Detached(r.item, Put(doc, at, r.doc))
  {
    hide GetItem, Put, At, LastSlash, DecodeToken, Join, TakeOut, Clean;
    SplitJoin(tokens);
  }

  lemma TakeOutMeaning(parent: Json, token: CStr)
    requires WellKeyed(parent, false) && VLocal(Canon(parent, false), OpRemove, token, VNull).Some?
    ensures var r := TakeOut(parent, token);
            r.Detached? && WellKeyed(r.doc, false) && WellKeyed(r.item, false) &&
            VStep(Canon(parent, false), token) == Some(Canon(r.item, false)) &&
            VLocal(Canon(parent, false), OpRemove, token, VNull) == Some(Canon(r.doc, false))
  {
    match parent
    case Array(es) =>
      hide DecodeIndex, CanonSeq;
      CanonRemove(es, DecodeIndex(token).value);
    case Object(ms) =>
      hide DecodeIndex, ToMap, FindKey, Fold;
      ToMapFind(ms, token, false);
      var i := FindKey(ms, token, false);
      ToMapRemove(ms, false, i);
      DistinctRemove(ms, false, i);
    case _ =>
  }

  lemma RemovedElement<T>(s: seq<T>, i: nat, k: nat)
    requires i < |s| && k < |s| - 1
    ensures |RemoveAt(s, i)| == |s| - 1 && RemoveAt(s, i)[k] == s[if k < i then k else k + 1]
  {
  }

  lemma RemovedLength<T>(s: seq<T>, i: nat)
    requires i < |s|
    ensures |RemoveAt(s, i)| == |s| - 1
  {
  }

  lemma CanonRemove(es: seq<Json>, i: nat)
    requires i < |es|
    ensures CanonSeq(RemoveAt(es, i), false) == RemoveAt(CanonSeq(es, false), i)
  {
    hide Canon, CanonSeq, RemoveAt;
    var rest, vs := RemoveAt(es, i), CanonSeq(es, false);
    var p, q := CanonSeq(rest, false), RemoveAt(vs, i);
    RemovedLength(es, i);
    RemovedLength(vs, i);
    forall k | 0 <= k < |p| ensures p[k] == q[k] {
      RemovedElement(es, i, k);
      RemovedElement(vs, i, k);
    }
  }

  lemma SetMemberMeaning(ms: Members, key: CStr, x: Json)
    requires DistinctKeys(ms, false)
    ensures var r := SetMember(ms, key, x, false);
            DistinctKeys(r, false) && ToMap(r, false) == ToMap(ms, false)[Fold(key, false) := Canon(x, false)]
  {
    var i := FindKey(ms, key, false);
    var rest := if i < |ms| then RemoveAt(ms, i) else ms;
    ToMapFind(ms, key, false);
    if i < |ms| {
      ToMapRemove(ms, false, i);
      DistinctRemove(ms, false, i);
    }
    assert ToMap(rest, false) == ToMap(ms, false) - {Fold(key, false)};
    ToMapKeys(rest, false, Fold(key, false));
    ToMapAppend(rest, Keyed(key, x), false);
  }

  lemma AddElementMeaning(es: seq<Json>, token: CStr, x: Json)
    requires VLocal(Canon(Array(es), false), OpAdd, token, Canon(x, false)).Some?
    requires WellKeyed(Array(es), false) && WellKeyed(x, false)
    ensures var r := PutIn(Array(es), token, x, false);
            r.status == 0 && WellKeyed(r.doc, false) &&
            VLocal(Canon(Array(es), false), OpAdd, token, Canon(x, false)) == Some(Canon(r.doc, false))
  {
    if token == [DASH] {
      assert es + [x] == InsertAt(es, |es|, x);
      InsertedElement(es, |es|, x);
      assert CanonSeq(es, false) + [Canon(x, false)] == InsertAt(CanonSeq(es, false), |es|, Canon(x, false));
    } else {
      InsertedElement(es, DecodeIndex(token).value, x);
    }
  }

  lemma InsertedElement(es: seq<Json>, i: nat, x: Json)
    requires i <= |es| && WellKeyed(Array(es), false) && WellKeyed(x, false)
    ensures WellKeyed(Array(InsertAt(es, i, x)), false)
    ensures Canon(Array(InsertAt(es, i, x)), false) == VArray(InsertAt(CanonSeq(es, false), i, Canon(x, false)))
  {
    var fs := InsertAt(es, i, x);
    forall k | 0 <= k < |fs| ensures WellKeyed(fs[k], false) {
    }
    CanonInsert(es, i, x);
  }

  lemma CanonInsert(es: seq<Json>, i: nat, x: Json)
    requires i <= |es|
    ensures CanonSeq(InsertAt(es, i, x), false) == InsertAt(CanonSeq(es, false), i, Canon(x, false))
  {
    var p, q := CanonSeq(InsertAt(es, i, x), false), InsertAt(CanonSeq(es, false), i, Canon(x, false));
    forall k | 0 <= k < |p| ensures p[k] == q[k] {
      assert p[k] == Canon(InsertAt(es, i, x)[k], false);
    }
  }

  lemma PutInMeaning(parent: Json, token: CStr, x: Json)
    requires WellKeyed(parent, false) && WellKeyed(x, false)
    requires VLocal(Canon(parent, false), OpAdd, token, Canon(x, false)).Some?
    ensures var r := PutIn(parent, token, x, false);
            r.status == 0 && WellKeyed(r.doc, false) &&
            VLocal(Canon(parent, false), OpAdd, token, Canon(x, false)) == Some(Canon(r.doc, false))
  {
    if parent.Array? {
      AddElementMeaning(parent.elems, token, x);
    } else {
      SetMemberMeaning(parent.members, token, x);
    }
  }

  /** Inserting at a clean path changes the parent the path names. */
  lemma InsertMeaning(doc: Json, tokens: seq<CStr>, x: Json)
    requires tokens != [] && Clean(tokens[|tokens|-1])
    requires GetItem(doc, Join(tokens[..|tokens|-1]), false).Some?
    ensures var at := GetItem(doc, Join(tokens[..|tokens|-1]), false).value;
            var r := PutIn(At(doc, at), tokens[|tokens|-1], x, false);
            r.status == 0 ==> InsertAtPath(doc, Join(tokens), x, false) == Outcome(0, Put(doc, at, r.doc))
  {
    hide GetItem, Put, At, LastSlash, DecodeToken, Join, PutIn, Clean;
    SplitJoin(tokens);
  }

  lemma RemoveThenAdd(v: Val, token: CStr, x: Val)
    requires VLocal(v, OpReplace, token, x).Some?
    ensures VLocal(v, OpRemove, token, VNull).Some?
    ensures VLocal(VLocal(v, OpRemove, token, VNull).value, OpAdd, token, x) == VLocal(v, OpReplace, token, x)
  {
    match v
    case VArray(vs) =>
      var i := DecodeIndex(token).value;
      assert InsertAt(RemoveAt(vs, i), i, x) == vs[i := x];
    case VObject(m) =>
      var k := Fold(token, false);
      assert (m - {k})[k := x] == m[k := x];
  }

  /** An outcome that succeeded and has a given value. */
  ghost predicate Reaches(o: Outcome, v: Option<Val>) {
    o.status == 0 && WellKeyed(o.doc, false) && Some(Canon(o.doc, false)) == v
  }

  lemma {:induction false} GetLast(v: Val, tokens: seq<CStr>)
    requires tokens != []
    ensures var up, last := tokens[..|tokens|-1], tokens[|tokens|-1];
            VGet(v, tokens) == if VGet(v, up).None? then None else VStep(VGet(v, up).value, last)
    decreases |tokens|
  {
    hide VStep;
    if |tokens| == 1 {
      assert tokens[1..] == [] && tokens[..0] == [];
    } else if VStep(v, tokens[0]).Some? {
      GetLast(VStep(v, tokens[0]).value, tokens[1..]);
      assert tokens[1..][..|tokens|-2] == tokens[..|tokens|-1][1..];
    }
  }

  lemma RemoveIffStep(v: Val, token: CStr)
    ensures VLocal(v, OpRemove, token, VNull).Some? <==> VStep(v, token).Some?
  {
    hide DecodeIndex, Fold, RemoveAt;
  }

  lemma TakeOutIffStep(parent: Json, token: CStr)
    requires WellKeyed(parent, false)
    ensures TakeOut(parent, token).Detached? <==> VStep(Canon(parent, false), token).Some?
  {
    hide DecodeIndex, Fold, RemoveAt, ToMap, CanonSeq, FindKey;
    if parent.Object? {
      ToMapFind(parent.members, token, false);
    }
  }

  /** Detaching at a path of clean tokens takes out the node they lead to, and leaves the value without it;
      where they lead nowhere it changes nothing. */
  lemma DetachExactly(doc: Json, tokens: seq<CStr>)
    requires WellKeyed(doc, false) && CleanTokens(tokens) && tokens != []
    ensures var d, v := DetachPath(doc, Join(tokens), false), Canon(doc, false);
            (d.Detached? <==> VGet(v, tokens).Some?) && (d.Detached? <==> VEdit(v, OpRemove, tokens, VNull).Some?) &&
            (d.Detached? ==> WellKeyed(d.item, false) && VGet(v, tokens) == Some(Canon(d.item, false)) &&
                             WellKeyed(d.doc, false) && VEdit(v, OpRemove, tokens, VNull) == Some(Canon(d.doc, false)))
  {
    hide VEdit, VLocal, VStep, TakeOut, Put, GetItem, At, Join, Canon, WellKeyed, VPut, VGet, Clean, LastSlash, DecodeToken;
    var up, last, v := tokens[..|tokens|-1], tokens[|tokens|-1], Canon(doc, false);
    GetLast(v, tokens);
    EditAtParent(v, OpRemove, tokens, VNull);
    GetItemMeaning(doc, up);
    SplitJoin(tokens);
    if VGet(v, up).Some? {
      var parent := At(doc, GetItem(doc, Join(up), false).value);
      TakeOutIffStep(parent, last);
      RemoveIffStep(Canon(parent, false), last);
      if TakeOut(parent, last).Detached? {
        TakeOutMeaning(parent, last);
        DetachMeaning(doc, tokens);
        PutMeaning(doc, up, TakeOut(parent, last).doc);
      }
    }
  }

  /** The status of an insertion that is refused, by the value that should have held the child. */
  ghost function Refusal(parent: Option<Val>, token: CStr): (status: nat)
    ensures status != 0
  {
    if parent.None? || !parent.value.VArray? then 9 else if DecodeIndex(token).None? then 11 else 10
  }

  lemma PutInIffLocal(parent: Json, token: CStr, x: Json)
    requires WellKeyed(parent, false)
    ensures PutIn(parent, token, x, false).status ==
            if VLocal(Canon(parent, false), OpAdd, token, Canon(x, false)).Some? then 0 else Refusal(Some(Canon(parent, false)), token)
  {
    hide DecodeIndex, Fold, InsertAt, ToMap, CanonSeq, SetMember;
  }

  lemma InsertRefused(doc: Json, tokens: seq<CStr>, x: Json)
    requires tokens != [] && Clean(tokens[|tokens|-1])
    requires var at := GetItem(doc, Join(tokens[..|tokens|-1]), false);
             at.None? || PutIn(At(doc, at.value), tokens[|tokens|-1], x, false).status != 0
    ensures var at := GetItem(doc, Join(tokens[..|tokens|-1]), false);
            InsertAtPath(doc, Join(tokens), x, false) ==
            Outcome(if at.None? then 9 else PutIn(At(doc, at.value), tokens[|tokens|-1], x, false).status, doc)
  {
    hide GetItem, Put, At, LastSlash, DecodeToken, Join, PutIn, Clean;
    SplitJoin(tokens);
  }

  /** Inserting at a path of clean tokens adds the value where they say, or changes nothing and says why:
      there is no container, the index is too large, or the token is no index. */
  lemma InsertExactly(doc: Json, tokens: seq<CStr>, x: Json)
    requires WellKeyed(doc, false) && WellKeyed(x, false) && CleanTokens(tokens) && tokens != []
    ensures var o, r := InsertAtPath(doc, Join(tokens), x, false), VEdit(Canon(doc, false), OpAdd, tokens, Canon(x, false));
            if r.Some? then Reaches(o, r)
            else o == Outcome(Refusal(VGet(Canon(doc, false), tokens[..|tokens|-1]), tokens[|tokens|-1]), doc)
  {
    hide VEdit, VLocal, PutIn, Put, GetItem, At, Join, Canon, WellKeyed, VPut, VGet, Clean, InsertAtPath;
    var up, last, v := tokens[..|tokens|-1], tokens[|tokens|-1], Canon(doc, false);
    GetItemMeaning(doc, up);
    EditAtParent(v, OpAdd, tokens, Canon(x, false));
    if VGet(v, up).None? {
      InsertRefused(doc, tokens, x);
    } else {
      var parent := At(doc, GetItem(doc, Join(up), false).value);
      PutInIffLocal(parent, last, x);
      if PutIn(parent, last, x, false).status == 0 {
        PutInMeaning(parent, last, x);
        InsertMeaning(doc, tokens, x);
        PutMeaning(doc, up, PutIn(parent, last, x, false).doc);
      } else {
        InsertRefused(doc, tokens, x);
      }
    }
  }

  ghost predicate EditDefined(doc: Json, e: Edit) {
    WellKeyed(doc, false) && GoodEdit(e) && e.tokens != [] && VEdit(Canon(doc, false), e.op, e.tokens, ValueOf(e)).Some?
  }

  /** Replacing detaches the old child first; the path must still lead to its parent. */
  lemma ReplaceBelowRoot(doc: Json, e: Edit)
    requires EditDefined(doc, e) && e.op.OpReplace?
    ensures var d := DetachPath(doc, Join(e.tokens), false);
            d.Detached? && Reaches(InsertAtPath(d.doc, Join(e.tokens), e.value.value, false),
                                   VEdit(Canon(doc, false), e.op, e.tokens, ValueOf(e)))
  {
    hide VEdit, VLocal, TakeOut, PutIn, Put, GetItem, At, DetachPath, InsertAtPath, Join, Canon, WellKeyed, VPut, VGet;
    var up, last := e.tokens[..|e.tokens|-1], e.tokens[|e.tokens|-1];
    EditAtParent(Canon(doc, false), e.op, e.tokens, ValueOf(e));
    GetItemMeaning(doc, up);
    var at := GetItem(doc, Join(up), false).value;
    var parent := At(doc, at);
    RemoveThenAdd(Canon(parent, false), last, ValueOf(e));
    TakeOutMeaning(parent, last);
    DetachMeaning(doc, e.tokens);
    var without := TakeOut(parent, last).doc;
    PutInMeaning(without, last, e.value.value);
    GetItemAfterPut(doc, Join(up), without, false);
    var with := PutIn(without, last, e.value.value, false).doc;
    PutThenAt(doc, at, without, with);
    InsertMeaning(Put(doc, at, without), e.tokens, e.value.value);
    PutMeaning(doc, up, with);
  }

  /** One edit below the root: the outcome of applying its patch has the value the edit says. */
  lemma ApplyBelowRoot(doc: Json, e: Edit)
    requires EditDefined(doc, e) && Readable(PatchOf([], e), false)
    ensures Reaches(Apply(doc, PatchOf([], e), false), VEdit(Canon(doc, false), e.op, e.tokens, ValueOf(e)))
  {
    hide VEdit, Canon, WellKeyed, Readable, PatchOf, DecodeOperation, DetachPath, InsertAtPath, Member;
    ReadPatch([], e, false);
    ReadOpcode([], e, false);
    assert [] + Join(e.tokens) == Join(e.tokens) != [];
    if e.op.OpRemove? {
      DetachExactly(doc, e.tokens);
    } else if e.op.OpAdd? {
      InsertExactly(doc, e.tokens, e.value.value);
    } else {
      ReplaceBelowRoot(doc, e);
    }
  }

  lemma ApplyMeaning(doc: Json, e: Edit)
    requires WellKeyed(doc, false) && GoodEdit(e)
    requires VEdit(Canon(doc, false), e.op, e.tokens, ValueOf(e)).Some?
    ensures Readable(PatchOf([], e), false)
    ensures Reaches(Apply(doc, PatchOf([], e), false), VEdit(Canon(doc, false), e.op, e.tokens, ValueOf(e)))
  {
    ReadOpcode([], e, false);
    if e.tokens == [] {
      ReadPatch([], e, false);
    } else {
      ApplyBelowRoot(doc, e);
    }
  }

  /** Applying the patches of good edits, in order, has the meaning of the edits in order. */
  lemma {:induction false} ApplyAllMeaning(doc: Json, es: seq<Edit>)
    requires WellKeyed(doc, false) && forall i :: 0 <= i < |es| ==> GoodEdit(es[i])
    requires VRun(Canon(doc, false), es).Some?
    ensures forall i :: 0 <= i < |es| ==> Readable(PatchesOf([], es)[i], false)
    ensures Reaches(ApplyAll(doc, PatchesOf([], es), false), VRun(Canon(doc, false), es))
    decreases |es|
  {
    if es != [] {
      ApplyMeaning(doc, es[0]);
      var ps := PatchesOf([], es);
      assert ps[1..] == PatchesOf([], es[1..]);
      ApplyAllMeaning(Apply(doc, ps[0], false).doc, es[1..]);
      forall i | 0 <= i < |es| ensures Readable(ps[i], false) {
        assert i > 0 ==> ps[i] == ps[1..][i-1];
      }
    }
  }
}
