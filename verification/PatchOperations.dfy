/** What the operations of a JSON patch mean: detaching and inserting at a path, moving, copying and testing. */
module PatchOperations {
  import opened CStrings
  import opened Json
  import opened Lookups
  import opened Decimals
  import opened Compare
  import opened SortedCompare
  import opened Pointers
  import opened Patch
  import opened PatchMeaning
  import opened PatchApplication
  import opened PatchStandard

  // How a patch object is read

  /** The members the code looks at are those the standard names. */
  lemma ReadMembers(patch: Json, cs: bool)
    ensures forall path :: PathIs(patch, path, cs) <==> Member(patch, KEY_PATH, cs) == Some(Text(path))
    ensures forall text :: OpIs(patch, text, cs) <==> Member(patch, KEY_OP, cs) == Some(Text(text))
    ensures forall from :: FromIs(patch, from, cs) <==> Member(patch, KEY_FROM, cs) == Some(Text(from))
    ensures var path := Member(patch, KEY_PATH, cs); path.Some? && path.value.Text? ==> PathIs(patch, path.value.s, cs)
    ensures Member(patch, KEY_FROM, cs) == FromMember(patch, cs) && Member(patch, KEY_VALUE, cs) == ValueMember(patch, cs)
  {
    hide Lookup;
  }

  /** The operation of each text of the standard; every other text is none. */
  function Named(text: CStr): Opcode {
    if text == [97, 100, 100] then OpAdd
    else if text == [114, 101, 109, 111, 118, 101] then OpRemove
    else if text == [114, 101, 112, 108, 97, 99, 101] then OpReplace
    else if text == [109, 111, 118, 101] then OpMove
    else if text == [99, 111, 112, 121] then OpCopy
    else if text == [116, 101, 115, 116] then OpTest
    else INVALID
  }

  lemma ReadOperation(patch: Json, text: CStr, cs: bool)
    requires OpIs(patch, text, cs)
    ensures DecodeOperation(patch, cs) == Named(text)
  {
    ReadMembers(patch, cs);
  }

  lemma NoOperation(patch: Json, cs: bool)
    requires forall text :: OpIs(patch, text, cs) ==> !OperationText(text)
    ensures DecodeOperation(patch, cs).INVALID?
  {
    hide OpIs;
    ReadMembers(patch, cs);
    var op := Member(patch, KEY_OP, cs);
    if op.Some? && op.value.Text? {
      assert OpIs(patch, op.value.s, cs);
    }
  }

  // Incomplete patches

  lemma PathlessPatch(doc: Json, patch: Json, cs: bool)
    requires Readable(patch, cs) && forall path :: !PathIs(patch, path, cs)
    ensures Apply(doc, patch, cs) == Outcome(2, doc)
  {
    hide Member, DecodeOperation, Readable, PathIs;
    ReadMembers(patch, cs);
  }

  /** An operation text that is missing, no text, or not one of the six, is refused. */
  lemma UnknownOperation(doc: Json, patch: Json, path: CStr, cs: bool)
    requires PathIs(patch, path, cs) && forall text :: OpIs(patch, text, cs) ==> !OperationText(text)
    ensures Readable(patch, cs) && Apply(doc, patch, cs) == Outcome(3, doc)
  {
    hide Member, DecodeOperation, PathIs, OpIs, OperationText;
    ReadMembers(patch, cs);
    NoOperation(patch, cs);
  }

  lemma SourcelessPatch(doc: Json, patch: Json, text: CStr, path: CStr, cs: bool)
    requires PathIs(patch, path, cs) && OpIs(patch, text, cs) && TakesFrom(text) && FromMember(patch, cs).None?
    ensures Readable(patch, cs) && Apply(doc, patch, cs) == Outcome(4, doc)
  {
    hide Member, DecodeOperation, PathIs, OpIs;
    ReadMembers(patch, cs);
    ReadOperation(patch, text, cs);
  }

  /** Without a value an addition changes nothing; a replacement has already detached what was there. */
  lemma ValuelessPatch(doc: Json, patch: Json, text: CStr, path: CStr, cs: bool)
    requires PathIs(patch, path, cs) && OpIs(patch, text, cs) && ValueMember(patch, cs).None?
    requires text == [97, 100, 100] || text == [114, 101, 112, 108, 97, 99, 101]
    ensures Readable(patch, cs)
    ensures Apply(doc, patch, cs) ==
            if path == [] || text == [97, 100, 100] then Outcome(7, doc)
            else match DetachPath(doc, path, cs)
              case Missing => Outcome(13, doc)
              case Detached(_, rest) => Outcome(7, rest)
  {
    hide Member, DecodeOperation, PathIs, OpIs, DetachPath;
    ReadMembers(patch, cs);
    ReadOperation(patch, text, cs);
  }

  // Adding, removing and replacing, on values, for clean tokens

  lemma ApplyAdd(doc: Json, patch: Json, path: CStr, x: Json, cs: bool)
    requires IsAdd(patch, path, x, cs)
    ensures Readable(patch, cs)
    ensures Apply(doc, patch, cs) == if path == [] then Outcome(0, x) else InsertAtPath(doc, path, x, cs)
  {
    hide DetachPath, InsertAtPath, Member, DecodeOperation, PathIs, OpIs;
    ReadMembers(patch, cs);
    ReadOperation(patch, [97, 100, 100], cs);
  }

  /** An addition puts the value where the path says, or is refused with the status that says why. */
  lemma AddMeaning(doc: Json, patch: Json, tokens: seq<CStr>, x: Json)
    requires IsAdd(patch, Join(tokens), x, false) && WellKeyed(doc, false) && WellKeyed(x, false) && CleanTokens(tokens)
    ensures Readable(patch, false)
    ensures var o, v := Apply(doc, patch, false), Canon(doc, false);
            var r := VEdit(v, OpAdd, tokens, Canon(x, false));
            if r.Some? then Reaches(o, r)
            else tokens != [] && o == Outcome(Refusal(VGet(v, tokens[..|tokens|-1]), tokens[|tokens|-1]), doc)
  {
    hide Apply, Readable, InsertAtPath, VEdit, VGet, Canon, WellKeyed, Join, Clean, IsAdd, Refusal;
    ApplyAdd(doc, patch, Join(tokens), x, false);
    if tokens == [] {
      AtTheRoot(Canon(doc, false), Canon(x, false));
    } else {
      JoinNotNothing(tokens);
      InsertExactly(doc, tokens, x);
    }
  }

  lemma ApplyRemove(doc: Json, patch: Json, path: CStr, cs: bool)
    requires IsRemove(patch, path, cs)
    ensures Readable(patch, cs)
    ensures Apply(doc, patch, cs) ==
            if path == [] then Outcome(0, Invalid)
            else match DetachPath(doc, path, cs)
              case Missing => Outcome(13, doc)
              case Detached(_, rest) => Outcome(0, rest)
  {
    hide DetachPath, InsertAtPath, Member, DecodeOperation, PathIs, OpIs;
    ReadMembers(patch, cs);
    ReadOperation(patch, [114, 101, 109, 111, 118, 101], cs);
  }

  lemma ApplyReplace(doc: Json, patch: Json, path: CStr, x: Json, cs: bool)
    requires IsReplace(patch, path, x, cs)
    ensures Readable(patch, cs)
    ensures Apply(doc, patch, cs) ==
            if path == [] then Outcome(0, x)
            else match DetachPath(doc, path, cs)
              case Missing => Outcome(13, doc)
              case Detached(_, rest) => InsertAtPath(rest, path, x, cs)
  {
    hide DetachPath, InsertAtPath, Member, DecodeOperation, PathIs, OpIs;
    ReadMembers(patch, cs);
    ReadOperation(patch, [114, 101, 112, 108, 97, 99, 101], cs);
  }

  lemma AtTheRoot(v: Val, x: Val)
    ensures Join([]) == [] && VEdit(v, OpAdd, [], x) == Some(x) == VEdit(v, OpReplace, [], x)
  {
  }

  /** A removal takes out what is at the path, or has status 13; the whole document becomes an invalid node. */
  lemma RemoveMeaning(doc: Json, patch: Json, tokens: seq<CStr>)
    requires IsRemove(patch, Join(tokens), false) && WellKeyed(doc, false) && CleanTokens(tokens)
    ensures Readable(patch, false)
    ensures var o, v := Apply(doc, patch, false), Canon(doc, false);
            if tokens == [] then o == Outcome(0, Invalid)
            else if VGet(v, tokens).None? then o == Outcome(13, doc)
            else Reaches(o, VEdit(v, OpRemove, tokens, VNull))
  {
    hide Apply, Readable, DetachPath, VEdit, VGet, Canon, WellKeyed, Join, Clean, IsRemove;
    ApplyRemove(doc, patch, Join(tokens), false);
    if tokens == [] {
      AtTheRoot(Canon(doc, false), VNull);
    } else {
      JoinNotNothing(tokens);
      DetachExactly(doc, tokens);
    }
  }

  /** A replacement puts the value in the place of what is at the path, or has status 13. */
  lemma ReplaceMeaning(doc: Json, patch: Json, tokens: seq<CStr>, x: Json)
    requires IsReplace(patch, Join(tokens), x, false) && WellKeyed(doc, false) && WellKeyed(x, false) && CleanTokens(tokens)
    ensures Readable(patch, false)
    ensures var o, v := Apply(doc, patch, false), Canon(doc, false);
            if VGet(v, tokens).None? then o == Outcome(13, doc) else Reaches(o, VEdit(v, OpReplace, tokens, Canon(x, false)))
  {
    hide Apply, Readable, DetachPath, InsertAtPath, VEdit, VGet, Canon, WellKeyed, Join, Clean, IsReplace;
    ApplyReplace(doc, patch, Join(tokens), x, false);
    if tokens == [] {
      AtTheRoot(Canon(doc, false), Canon(x, false));
      assert VGet(Canon(doc, false), tokens).Some? by {
        NoTokens(Canon(doc, false));
      }
    } else {
      JoinNotNothing(tokens);
      DetachExactly(doc, tokens);
      if VGet(Canon(doc, false), tokens).Some? {
        ReplaceWhereFound(Canon(doc, false), tokens, Canon(x, false));
        ReplaceBelowRoot(doc, Edit(OpReplace, tokens, Some(x)));
      }
    }
  }

  lemma NoTokens(v: Val)
    ensures VGet(v, []) == Some(v)
  {
  }

  lemma ReplaceWhereFound(v: Val, tokens: seq<CStr>, x: Val)
    requires tokens != [] && VGet(v, tokens).Some?
    ensures VEdit(v, OpReplace, tokens, x).Some?
  {
    hide VEdit, VGet, VLocal, VStep;
    var up, last := tokens[..|tokens|-1], tokens[|tokens|-1];
    GetLast(v, tokens);
    EditAtParent(v, OpReplace, tokens, x);
    ReplaceIffStep(VGet(v, up).value, last, x);
  }

  lemma ReplaceIffStep(v: Val, token: CStr, x: Val)
    ensures VLocal(v, OpReplace, token, x).Some? <==> VStep(v, token).Some?
  {
    hide DecodeIndex, Fold, RemoveAt;
  }

  // Moving and copying

  /** A move is a removal at `from` and the addition of what was removed, for all paths and in both case modes. */
  lemma MoveIsRemoveThenAdd(doc: Json, patch: Json, from: CStr, path: CStr, cs: bool)
    requires IsMove(patch, from, path, cs) && from != [] && path != []
    ensures Readable(patch, cs) && Readable(RemovePatch(from), cs)
    ensures var moved, removed, d := Apply(doc, patch, cs), Apply(doc, RemovePatch(from), cs), DetachPath(doc, from, cs);
            if removed.status != 0 then moved == Outcome(5, doc)
            else d.Detached? && Readable(AddPatch(path, d.item), cs) &&
                 moved == Apply(removed.doc, AddPatch(path, d.item), cs)
  {
    hide Apply, Readable, DetachPath, InsertAtPath, AddPatch, RemovePatch, IsMove, IsRemove, IsAdd;
    var d := DetachPath(doc, from, cs);
    ApplyMove(doc, patch, from, path, cs);
    RemovePatchSays(from, cs);
    ApplyRemove(doc, RemovePatch(from), from, cs);
    if d.Detached? {
      AddPatchSays(path, d.item, cs);
      ApplyAdd(d.doc, AddPatch(path, d.item), path, d.item, cs);
    }
  }

  lemma ApplyCopy(doc: Json, patch: Json, from: CStr, path: CStr, cs: bool)
    requires IsCopy(patch, from, path, cs)
    ensures Readable(patch, cs)
    ensures Apply(doc, patch, cs) ==
            var at := GetItem(doc, from, cs);
            if at.None? then Outcome(5, doc) else InsertAtPath(doc, path, At(doc, at.value), cs)
  {
    hide GetItem, At, InsertAtPath, Member, DecodeOperation, PathIs, OpIs, FromIs;
    ReadMembers(patch, cs);
    ReadOperation(patch, [99, 111, 112, 121], cs);
  }

  /** A copy is the addition of what stands at `from`. */
  lemma CopyIsAdd(doc: Json, patch: Json, from: CStr, path: CStr, cs: bool)
    requires IsCopy(patch, from, path, cs) && path != []
    ensures Readable(patch, cs)
    ensures var copied, at := Apply(doc, patch, cs), GetItem(doc, from, cs);
            if at.None? then copied == Outcome(5, doc)
            else Readable(AddPatch(path, At(doc, at.value)), cs) &&
                 copied == Apply(doc, AddPatch(path, At(doc, at.value)), cs)
  {
    hide GetItem, At, InsertAtPath, AddPatch, IsAdd, IsCopy, Apply, Readable;
    var at := GetItem(doc, from, cs);
    ApplyCopy(doc, patch, from, path, cs);
    if at.Some? {
      AddPatchSays(path, At(doc, at.value), cs);
      ApplyAdd(doc, AddPatch(path, At(doc, at.value)), path, At(doc, at.value), cs);
    }
  }

  lemma ApplyMove(doc: Json, patch: Json, from: CStr, path: CStr, cs: bool)
    requires IsMove(patch, from, path, cs)
    ensures Readable(patch, cs)
    ensures Apply(doc, patch, cs) ==
            match DetachPath(doc, from, cs)
            case Missing => Outcome(5, doc)
            case Detached(item, rest) => InsertAtPath(rest, path, item, cs)
  {
    hide DetachPath, InsertAtPath, Member, DecodeOperation, PathIs, OpIs, FromIs;
    ReadMembers(patch, cs);
    ReadOperation(patch, [109, 111, 118, 101], cs);
  }

  /** On values, for clean tokens: a move takes out the value at one place and adds it at the other. */
  lemma MoveMeaning(doc: Json, patch: Json, from: seq<CStr>, path: seq<CStr>)
    requires IsMove(patch, Join(from), Join(path), false)
    requires WellKeyed(doc, false) && CleanTokens(from) && CleanTokens(path) && from != [] && path != []
    ensures Readable(patch, false)
    ensures var o, v := Apply(doc, patch, false), Canon(doc, false);
            var x, w := VGet(v, from), VEdit(v, OpRemove, from, VNull);
            if x.None? then o == Outcome(5, doc)
            else w.Some? &&
                 var r := VEdit(w.value, OpAdd, path, x.value);
                 if r.Some? then Reaches(o, r)
                 else o.status == Refusal(VGet(w.value, path[..|path|-1]), path[|path|-1]) && Canon(o.doc, false) == w.value
  {
    hide Apply, Readable, DetachPath, InsertAtPath, VEdit, VGet, Canon, WellKeyed, Join, Clean, IsMove, Refusal;
    ApplyMove(doc, patch, Join(from), Join(path), false);
    DetachExactly(doc, from);
    var d := DetachPath(doc, Join(from), false);
    if d.Detached? {
      InsertExactly(d.doc, path, d.item);
    }
  }

  lemma JoinNotNothing(tokens: seq<CStr>)
    requires tokens != []
    ensures Join(tokens) != []
  {
  }

  // Lists of patches

  ghost predicate AllReadable(patches: seq<Json>, cs: bool) {
    forall i :: 0 <= i < |patches| ==> Readable(patches[i], cs)
  }

  /** A list of patches is applied front to back; after the first patch that fails, the others do nothing. */
  lemma {:induction false} PatchesInOrder(doc: Json, front: seq<Json>, back: seq<Json>, cs: bool)
    requires AllReadable(front, cs) && AllReadable(back, cs)
    ensures AllReadable(front + back, cs)
    ensures ApplyAll(doc, front + back, cs) ==
            var o := ApplyAll(doc, front, cs); if o.status != 0 then o else ApplyAll(o.doc, back, cs)
    decreases |front|
  {
    hide Apply, Readable;
    if front == [] {
      assert front + back == back;
    } else {
      assert (front + back)[0] == front[0] && (front + back)[1..] == front[1..] + back;
      PatchesInOrder(Apply(doc, front[0], cs).doc, front[1..], back, cs);
    }
  }

  // Testing

  /** Putting the same value in the place of a node keeps the value of the document. */
  lemma {:induction false} PutSameValue(doc: Json, a: Addr, x: Json, cs: bool)
    requires ValidAddr(doc, a) && WellKeyed(doc, cs) && WellKeyed(x, cs) && Canon(x, cs) == Canon(At(doc, a), cs)
    ensures WellKeyed(Put(doc, a, x), cs) && Canon(Put(doc, a, x), cs) == Canon(doc, cs)
    decreases a
  {
    if a != [] {
      hide Canon, WellKeyed, WithKid;
      KidKeyed(doc, a[0], cs);
      PutSameValue(Kids(doc)[a[0]], a[1..], x, cs);
      SameKidValue(doc, a[0], Put(Kids(doc)[a[0]], a[1..], x), cs);
    }
  }

  lemma KidKeyed(doc: Json, i: nat, cs: bool)
    requires WellKeyed(doc, cs) && i < |Kids(doc)|
    ensures WellKeyed(Kids(doc)[i], cs)
  {
  }

  lemma SameKidValue(doc: Json, i: nat, k: Json, cs: bool)
    requires WellKeyed(doc, cs) && i < |Kids(doc)| && WellKeyed(k, cs) && Canon(k, cs) == Canon(Kids(doc)[i], cs)
    ensures WellKeyed(WithKid(doc, i, k), cs) && Canon(WithKid(doc, i, k), cs) == Canon(doc, cs)
  {
    if doc.Array? {
      SameElementValue(doc.elems, i, k, cs);
    } else {
      SameMemberValue(doc.members, i, k, cs);
    }
  }

  lemma SameElementValue(es: seq<Json>, i: nat, k: Json, cs: bool)
    requires WellKeyed(Array(es), cs) && i < |es| && WellKeyed(k, cs) && Canon(k, cs) == Canon(es[i], cs)
    ensures WellKeyed(Array(es[i := k]), cs) && CanonSeq(es[i := k], cs) == CanonSeq(es, cs)
  {
    hide Canon, CanonSeq;
    var p, q := CanonSeq(es[i := k], cs), CanonSeq(es, cs);
    assert forall l :: 0 <= l < |es| ==> p[l] == q[l];
  }

  lemma SameMemberValue(ms: Members, i: nat, k: Json, cs: bool)
    requires WellKeyed(Object(ms), cs) && i < |ms| && WellKeyed(k, cs) && Canon(k, cs) == Canon(ms[i].item, cs)
    ensures var ns := ms[i := Keyed(ms[i].key, k)]; WellKeyed(Object(ns), cs) && ToMap(ns, cs) == ToMap(ms, cs)
  {
    hide ToMap, Fold, Canon;
    ToMapUpdate(ms, cs, i, k);
    ToMapFirst(ms, cs, i);
    SameAgain(ToMap(ms, cs), Fold(ms[i].key, cs));
  }

  lemma SameAgain(m: map<CStr, Val>, k: CStr)
    requires k in m
    ensures m[k := m[k]] == m
  {
  }

  lemma AtKeyed(doc: Json, a: Addr, cs: bool)
    requires WellKeyed(doc, cs) && ValidAddr(doc, a)
    ensures WellKeyed(At(doc, a), cs) && (Plain(doc) ==> Plain(At(doc, a)))
    decreases a
  {
    if a != [] {
      AtKeyed(Kids(doc)[a[0]], a[1..], cs);
    }
  }

  /** A test keeps the value of the document, though it may sort members, and it succeeds exactly when the
      path leads to a node that compares equal to the value. */
  lemma TestMeaning(doc: Json, patch: Json, path: CStr, cs: bool)
    requires IsTest(patch, path, cs) && WellKeyed(doc, cs)
    ensures Readable(patch, cs)
    ensures var o, at, value := Apply(doc, patch, cs), GetItem(doc, path, cs), ValueMember(patch, cs);
            WellKeyed(o.doc, cs) && Canon(o.doc, cs) == Canon(doc, cs) && o.status <= 1 &&
            (Plain(doc) && (value.Some? ==> Plain(value.value) && WellKeyed(value.value, cs)) ==>
               (o.status == 0 <==> at.Some? && value.Some? && Equal(At(doc, at.value), value.value, cs)))
  {
    hide GetItem, Member, Canon, WellKeyed, Plain, Settled, SortedEqual, Equal, Put, At, DecodeOperation, PathIs, OpIs;
    ReadMembers(patch, cs);
    ReadOperation(patch, [116, 101, 115, 116], cs);
    var at, value := GetItem(doc, path, cs), ValueMember(patch, cs);
    if at.Some? && value.Some? {
      var target := At(doc, at.value);
      AtKeyed(doc, at.value, cs);
      SettledKeepsValue(target, value.value, cs, cs);
      PutSameValue(doc, at.value, Settled(target, value.value, cs), cs);
      if Plain(target) && Plain(value.value) && WellKeyed(value.value, cs) {
        SortedEqualIffEqual(target, value.value, cs);
      }
    }
  }
}
