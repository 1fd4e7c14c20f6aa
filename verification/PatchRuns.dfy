/** What generated patches do when they are applied, step by step along their paths. */
module PatchRuns {
  import opened CStrings
  import opened Json
  import opened Decimals
  import opened Pointers
  import opened Patch
  import opened PatchMeaning
  import opened PatchApplication
  import opened PatchGeneration

  /** Adding, removing or replacing at a path. */
  function RunOp(doc: Json, op: Opcode, path: CStr, value: Option<Json>, cs: bool): Outcome {
    if path == [] then
      if op.OpRemove? then Outcome(0, Invalid)
      else if value.None? then Outcome(7, doc) else Outcome(0, value.value)
    else if op.OpAdd? then
      if value.None? then Outcome(7, doc) else InsertAtPath(doc, path, value.value, cs)
    else
      var d := DetachPath(doc, path, cs);
      if d.Missing? then Outcome(13, doc)
      else if op.OpRemove? then Outcome(0, d.doc)
      else if value.None? then Outcome(7, d.doc) else InsertAtPath(d.doc, path, value.value, cs)
  }

  function RunEdits(doc: Json, es: seq<Edit>, cs: bool): Outcome
    decreases |es|
  {
    if es == [] then Outcome(0, doc)
    else
      var o := RunOp(doc, es[0].op, Join(es[0].tokens), es[0].value, cs);
      if o.status != 0 then o else RunEdits(o.doc, es[1..], cs)
  }

  ghost predicate AllSimple(es: seq<Edit>) {
    forall i :: 0 <= i < |es| ==> Simple(es[i])
  }

  lemma ApplyIsRun(doc: Json, e: Edit, cs: bool)
    requires Simple(e)
    ensures Readable(PatchOf([], e), cs)
    ensures Apply(doc, PatchOf([], e), cs) == RunOp(doc, e.op, Join(e.tokens), e.value, cs)
  {
    hide Readable, PatchOf, DecodeOperation, DetachPath, InsertAtPath, Member, Join;
    ReadPatch([], e, cs);
    ReadOpcode([], e, cs);
    assert [] + Join(e.tokens) == Join(e.tokens);
  }

  /** Applying the patches of a list of edits runs the edits. */
  lemma {:induction false} ApplyAllIsRun(doc: Json, es: seq<Edit>, cs: bool)
    requires AllSimple(es)
    ensures forall i :: 0 <= i < |es| ==> Readable(PatchesOf([], es)[i], cs)
    ensures ApplyAll(doc, PatchesOf([], es), cs) == RunEdits(doc, es, cs)
    decreases |es|
  {
    if es != [] {
      hide RunOp, Apply, Readable, PatchOf;
      var ps := PatchesOf([], es);
      ApplyIsRun(doc, es[0], cs);
      assert ps[1..] == PatchesOf([], es[1..]);
      ApplyAllIsRun(Apply(doc, ps[0], cs).doc, es[1..], cs);
      forall i | 0 <= i < |es| ensures Readable(ps[i], cs) {
        assert i > 0 ==> ps[i] == ps[1..][i-1];
      }
    }
  }

  lemma {:induction false} RunConcat(doc: Json, a: seq<Edit>, b: seq<Edit>, cs: bool)
    ensures var o := RunEdits(doc, a, cs);
            RunEdits(doc, a + b, cs) == if o.status != 0 then o else RunEdits(o.doc, b, cs)
    decreases |a|
  {
    if a == [] {
      assert a + b == b;
    } else {
      hide RunOp;
      assert (a + b)[1..] == a[1..] + b && (a + b)[0] == a[0];
      RunConcat(RunOp(doc, a[0].op, Join(a[0].tokens), a[0].value, cs).doc, a[1..], b, cs);
    }
  }

  lemma RunOne(doc: Json, e: Edit, cs: bool)
    ensures RunEdits(doc, [e], cs) == RunOp(doc, e.op, Join(e.tokens), e.value, cs)
  {
    hide RunOp;
  }

  // A step looks at nothing behind its token

  lemma {:induction false} MatchIgnoresRest(name: CStr, token: CStr, rest: CStr, cs: bool)
    requires SLASH !in token && EndsToken(CharAt(rest, 0))
    ensures MatchesToken(name, token + rest, cs) == MatchesToken(name, token, cs)
  {
    hide Fold;
    var p := token + rest;
    if token == [] {
      assert p == rest;
    } else if name != [] {
      assert p[0] == token[0] && p[..1] == token[..1] && p[1..] == token[1..] + rest;
      assert CharAt(p, 1) == if |token| > 1 then token[1] else CharAt(rest, 0);
      if token[0] == TILDE {
        if |token| > 1 {
          assert p[2..] == token[2..] + rest;
          MatchIgnoresRest(name[1..], token[2..], rest, cs);
        }
      } else {
        MatchIgnoresRest(name[1..], token[1..], rest, cs);
      }
    }
  }

  lemma {:induction false} FindIgnoresRest(ms: Members, token: CStr, rest: CStr, cs: bool)
    requires SLASH !in token && EndsToken(CharAt(rest, 0))
    ensures FindToken(ms, token + rest, cs) == FindToken(ms, token, cs)
  {
    if ms != [] {
      hide MatchesToken;
      MatchIgnoresRest(ms[0].key, token, rest, cs);
      FindIgnoresRest(ms[1..], token, rest, cs);
    }
  }

  lemma StepIgnoresRest(j: Json, token: CStr, rest: CStr, cs: bool)
    requires SLASH !in token && EndsToken(CharAt(rest, 0))
    ensures Step(j, token + rest, cs) == Step(j, token, cs)
  {
    hide DecodeIndex, FindToken;
    match j
    case Array(_) =>
      assert (token + rest)[..|token|] == token && CharAt(token + rest, |token|) == CharAt(rest, 0);
      IndexEndsWithToken(token + rest, token);
      assert token[..|token|] == token;
      IndexEndsWithToken(token, token);
    case Object(ms) => FindIgnoresRest(ms, token, rest, cs);
    case _ =>
  }

  // An edit further down happens inside the child its first token leads to

  lemma {:induction false} LastSlashBelow(front: CStr, rest: CStr)
    requires rest != [] && rest[0] == SLASH
    ensures LastSlash(rest).Some? && LastSlash(front + rest) == Some(|front| + LastSlash(rest).value)
    decreases |rest|
  {
    var p := front + rest;
    assert p[|p|-1] == rest[|rest|-1];
    if rest[|rest|-1] != SLASH {
      assert p[..|p|-1] == front + rest[..|rest|-1] && rest[..|rest|-1][0] == SLASH;
      LastSlashBelow(front, rest[..|rest|-1]);
    }
  }

  lemma SplitBehind<T>(front: seq<T>, rest: seq<T>, k: nat)
    requires k < |rest|
    ensures (front + rest)[..|front|+k] == front + rest[..k] && (front + rest)[|front|+k+1..] == rest[k+1..]
  {
  }

  lemma FrontOfPath(rest: CStr, k: nat)
    requires rest != [] && rest[0] == SLASH && k < |rest|
    ensures EndsToken(CharAt(rest[..k], 0))
  {
  }

  /** What the parts of a path are, seen from a place on the way. */
  lemma PathBelow(front: CStr, rest: CStr)
    requires rest != [] && rest[0] == SLASH
    ensures var p, k := front + rest, LastSlash(rest);
            k.Some? && LastSlash(p) == Some(|front| + k.value) && p[..|front|+k.value] == front + rest[..k.value] &&
            p[|front|+k.value+1..] == rest[k.value+1..] && EndsToken(CharAt(rest[..k.value], 0))
  {
    hide LastSlash, EndsToken, CharAt;
    LastSlashBelow(front, rest);
    SplitBehind(front, rest, LastSlash(rest).value);
    FrontOfPath(rest, LastSlash(rest).value);
  }

  lemma GetItemBelow(doc: Json, token: CStr, tail: CStr, cs: bool)
    requires SLASH !in token && EndsToken(CharAt(tail, 0))
    ensures var i := Step(doc, token, cs);
            GetItem(doc, [SLASH] + token + tail, cs) == if i.None? then None else Under([i.value], GetItem(Kids(doc)[i.value], tail, cs))
  {
    hide GetItem, Step, Kids;
    StepIgnoresRest(doc, token, tail, cs);
    GetItemStep(doc, token, tail, cs);
  }

  lemma AtBelow(doc: Json, i: nat, a: Addr)
    requires i < |Kids(doc)| && ValidAddr(Kids(doc)[i], a)
    ensures ValidAddr(doc, [i] + a) && At(doc, [i] + a) == At(Kids(doc)[i], a)
  {
    assert ([i] + a)[1..] == a;
  }

  lemma DetachBelow(doc: Json, token: CStr, rest: CStr, cs: bool)
    requires SLASH !in token && rest != [] && rest[0] == SLASH
    ensures var i := Step(doc, token, cs);
            DetachPath(doc, [SLASH] + token + rest, cs) ==
            if i.None? then Missing
            else match DetachPath(Kids(doc)[i.value], rest, cs)
                 case Missing => Missing
                 case Detached(x, d) => Detached(x, WithKid(doc, i.value, d))
  {
    hide GetItem, Step, Kids, At, Put, LastSlash, DecodeToken, TakeOut, ValidAddr, WithKid;
    PathBelow([SLASH] + token, rest);
    var k := LastSlash(rest).value;
    GetItemBelow(doc, token, rest[..k], cs);
    var i := Step(doc, token, cs);
    if i.Some? {
      var a := GetItem(Kids(doc)[i.value], rest[..k], cs);
      if a.Some? {
        AtBelow(doc, i.value, a.value);
        var d := TakeOut(At(Kids(doc)[i.value], a.value), DecodeToken(rest[k+1..], 0, 0));
        if d.Detached? {
          PutBelow(doc, i.value, a.value, d.doc);
        }
      }
    }
  }

  lemma InsertBelow(doc: Json, token: CStr, rest: CStr, value: Json, cs: bool)
    requires SLASH !in token && rest != [] && rest[0] == SLASH
    ensures var i := Step(doc, token, cs);
            InsertAtPath(doc, [SLASH] + token + rest, value, cs) ==
            if i.None? then Outcome(9, doc)
            else
              var o := InsertAtPath(Kids(doc)[i.value], rest, value, cs);
              Outcome(o.status, WithKid(doc, i.value, o.doc))
  {
    hide GetItem, Step, Kids, At, Put, LastSlash, DecodeToken, PutIn, ValidAddr, WithKid;
    PathBelow([SLASH] + token, rest);
    var k := LastSlash(rest).value;
    GetItemBelow(doc, token, rest[..k], cs);
    var i := Step(doc, token, cs);
    if i.Some? {
      WithSameKid(doc, i.value);
      var a := GetItem(Kids(doc)[i.value], rest[..k], cs);
      if a.Some? {
        AtBelow(doc, i.value, a.value);
        var o := PutIn(At(Kids(doc)[i.value], a.value), DecodeToken(rest[k+1..], 0, 0), value, cs);
        PutBelow(doc, i.value, a.value, o.doc);
      }
    }
  }

  lemma WithSameKid(doc: Json, i: nat)
    requires i < |Kids(doc)|
    ensures WithKid(doc, i, Kids(doc)[i]) == doc
  {
    if doc.Object? {
      assert doc.members[i := Keyed(doc.members[i].key, doc.members[i].item)] == doc.members;
    }
  }

  lemma StepAgain(doc: Json, token: CStr, x: Json, y: Json, cs: bool)
    requires Step(doc, token, cs).Some?
    ensures var i := Step(doc, token, cs).value;
            Step(WithKid(doc, i, x), token, cs) == Some(i) && Kids(WithKid(doc, i, x))[i] == x &&
            WithKid(WithKid(doc, i, x), i, y) == WithKid(doc, i, y)
  {
    hide Step;
    StepAfterPut(doc, token, x, cs);
    WithKidTwice(doc, Step(doc, token, cs).value, x, y);
  }

  /** An edit at a path of more than one token. */
  lemma RunOpBelow(doc: Json, op: Opcode, token: CStr, rest: CStr, value: Option<Json>, cs: bool)
    requires SLASH !in token && rest != [] && rest[0] == SLASH
    ensures var i, o := Step(doc, token, cs), RunOp(doc, op, [SLASH] + token + rest, value, cs);
            if i.None? then o.status != 0
            else
              var below := RunOp(Kids(doc)[i.value], op, rest, value, cs);
              o == Outcome(below.status, WithKid(doc, i.value, below.doc))
  {
    hide DetachPath, InsertAtPath, Step, Kids, WithKid;
    var i := Step(doc, token, cs);
    DetachBelow(doc, token, rest, cs);
    if value.Some? {
      InsertBelow(doc, token, rest, value.value, cs);
    }
    if i.Some? {
      WithSameKid(doc, i.value);
      var d := DetachPath(Kids(doc)[i.value], rest, cs);
      if d.Detached? && value.Some? {
        var o := InsertAtPath(d.doc, rest, value.value, cs);
        StepAgain(doc, token, d.doc, o.doc, cs);
        InsertBelow(WithKid(doc, i.value, d.doc), token, rest, value.value, cs);
      }
    }
  }

  /** Edits below one token happen inside the child it leads to. */
  lemma {:induction false} RunBelow(doc: Json, token: CStr, es: seq<Edit>, cs: bool)
    requires SLASH !in token && Step(doc, token, cs).Some? && forall k :: 0 <= k < |es| ==> es[k].tokens != []
    ensures var i := Step(doc, token, cs).value;
            var o := RunEdits(Kids(doc)[i], es, cs);
            RunEdits(doc, Prefixed(token, es), cs) == Outcome(o.status, WithKid(doc, i, o.doc))
    decreases |es|
  {
    hide RunOp, Step, Kids, WithKid, Join;
    var i := Step(doc, token, cs).value;
    if es == [] {
      WithSameKid(doc, i);
    } else {
      var e, ps := es[0], Prefixed(token, es);
      JoinHead([token] + e.tokens);
      assert ([token] + e.tokens)[1..] == e.tokens;
      JoinNotEmpty(e.tokens);
      RunOpBelow(doc, e.op, token, Join(e.tokens), e.value, cs);
      var o := RunOp(Kids(doc)[i], e.op, Join(e.tokens), e.value, cs);
      if o.status == 0 {
        var x := RunEdits(o.doc, es[1..], cs);
        StepAgain(doc, token, o.doc, x.doc, cs);
        assert ps[1..] == Prefixed(token, es[1..]);
        RunBelow(WithKid(doc, i, o.doc), token, es[1..], cs);
      }
    }
  }

  lemma JoinNotEmpty(tokens: seq<CStr>)
    requires tokens != []
    ensures Join(tokens) != [] && Join(tokens)[0] == SLASH
  {
  }

  // An edit at a path of one token

  lemma OneTokenPath(token: CStr)
    requires SLASH !in token
    ensures var p := [SLASH] + token; LastSlash(p) == Some(0) && p[..0] == [] && p[1..] == token && Join([token]) == p
  {
    LastSlashAt([], token);
    assert [] + [SLASH] + token == [SLASH] + token;
    assert Join([token]) == [SLASH] + token + [];
  }

  /** Such an edit is about the root and one of its children. */
  lemma AtRoot(doc: Json, token: CStr, cs: bool)
    requires SLASH !in token
    ensures DetachPath(doc, [SLASH] + token, cs) == TakeOut(doc, DecodeToken(token, 0, 0))
    ensures forall value :: InsertAtPath(doc, [SLASH] + token, value, cs) == PutIn(doc, DecodeToken(token, 0, 0), value, cs)
  {
    hide LastSlash, DecodeToken, TakeOut, PutIn;
    OneTokenPath(token);
  }

  lemma RunAtObject(ms: Members, op: Opcode, token: CStr, value: Option<Json>, cs: bool)
    requires SLASH !in token && (value.None? <==> op.OpRemove?)
    ensures var o, child := RunOp(Object(ms), op, [SLASH] + token, value, cs), DecodeToken(token, 0, 0);
            var i := FindKey(ms, child, false);
            if op.OpAdd? then o == Outcome(0, Object(SetMember(ms, child, value.value, cs)))
            else if i == |ms| then o.status != 0
            else if op.OpRemove? then o == Outcome(0, Object(RemoveAt(ms, i)))
            else o == Outcome(0, Object(SetMember(RemoveAt(ms, i), child, value.value, cs)))
  {
    hide DecodeToken, SetMember, RemoveAt, FindKey, DetachPath, InsertAtPath;
    var child := DecodeToken(token, 0, 0);
    var i := FindKey(ms, child, false);
    AtRoot(Object(ms), token, cs);
    if i < |ms| {
      AtRoot(Object(RemoveAt(ms, i)), token, cs);
    }
  }

  lemma RunAtArray(es: seq<Json>, op: Opcode, index: nat, value: Option<Json>, cs: bool)
    requires index < |es| && index < SIZE_LIMIT && !op.OpAdd? && (value.None? <==> op.OpRemove?)
    ensures RunOp(Array(es), op, [SLASH] + Dec(index), value, cs) ==
            Outcome(0, Array(if op.OpRemove? then RemoveAt(es, index) else es[index := value.value]))
  {
    hide DecodeToken, RemoveAt, InsertAt, Dec, DecodeIndex, DetachPath, InsertAtPath;
    var token := Dec(index);
    IndexToken(index);
    DecodeClean(token, 0);
    AtRoot(Array(es), token, cs);
    AtRoot(Array(RemoveAt(es, index)), token, cs);
    RemovedLength(es, index);
    PutBack(es, index, if value.Some? then value.value else Null);
  }

  lemma IndexToken(index: nat)
    requires index < SIZE_LIMIT
    ensures DecodeIndex(Dec(index)) == Some(index) && SLASH !in Dec(index) && TILDE !in Dec(index) && Dec(index) != [DASH]
  {
    DecodePrintedIndex(index, []);
    assert Dec(index) + [] == Dec(index);
  }

  lemma PutBack<T>(s: seq<T>, i: nat, x: T)
    requires i < |s|
    ensures InsertAt(RemoveAt(s, i), i, x) == s[i := x]
  {
  }

  lemma RunAtEnd(es: seq<Json>, value: Json, cs: bool)
    ensures RunOp(Array(es), OpAdd, Join([[DASH]]), Some(value), cs) == Outcome(0, Array(es + [value]))
  {
    hide DecodeToken, DetachPath, InsertAtPath, Join;
    OneTokenPath([DASH]);
    DecodeClean([DASH], 0);
    AtRoot(Array(es), [DASH], cs);
  }
}
