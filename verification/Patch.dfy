/** JSON Patch (RFC 6902) application, operation by operation, with every status it returns. */
module Patch {
  import opened CStrings
  import opened Json
  import opened Lookups
  import opened Decimals
  import opened Pointers
  import opened SortedCompare

  const ADD: CStr := [97, 100, 100]
  const REMOVE: CStr := [114, 101, 109, 111, 118, 101]
  const REPLACE: CStr := [114, 101, 112, 108, 97, 99, 101]
  const MOVE: CStr := [109, 111, 118, 101]
  const COPY: CStr := [99, 111, 112, 121]
  const TEST: CStr := [116, 101, 115, 116]
  const KEY_OP: CStr := [111, 112]
  const KEY_PATH: CStr := [112, 97, 116, 104]
  const KEY_VALUE: CStr := [118, 97, 108, 117, 101]
  const KEY_FROM: CStr := [102, 114, 111, 109]

  datatype Opcode = INVALID | OpAdd | OpRemove | OpReplace | OpMove | OpCopy | OpTest

  /** `get_object_item`: elements of an array have no name to find. */
  function Member(j: Json, name: CStr, cs: bool): Option<Json> {
    if !j.Object? then None
    else Lookup(j.members, name, cs)
  }

  function DecodeOperation(patch: Json, cs: bool): Opcode {
    var op := Member(patch, KEY_OP, cs);
    if op.None? || !op.value.Text? then INVALID
    else if op.value.s == ADD then OpAdd
    else if op.value.s == REMOVE then OpRemove
    else if op.value.s == REPLACE then OpReplace
    else if op.value.s == MOVE then OpMove
    else if op.value.s == COPY then OpCopy
    else if op.value.s == TEST then OpTest
    else INVALID
  }

  /** `decode_pointer_inplace`, reading at `r` and writing at `d` in one buffer: bytes that need
      no decoding are not moved, and the slash of an escape goes one place too far. */
  function DecodeToken(buffer: CStr, r: nat, d: nat): CStr
    requires d <= r <= |buffer|
    decreases |buffer| - r
  {
    if r == |buffer| then buffer[..d]
    else if buffer[r] != TILDE then DecodeToken(buffer, r + 1, d + 1)
    else if CharAt(buffer, r + 1) == 48 then DecodeToken(buffer[d := TILDE], r + 2, d + 1)
    else if CharAt(buffer, r + 1) == 49 then DecodeToken(buffer[d + 1 := SLASH], r + 2, d + 1)
    else buffer
  }

  method DecodePointerInplace(text: array<Byte>, ghost s: CStr)
    requires text.Length == |s| + 1 && text[..|s|] == s && text[|s|] == 0
    modifies text
    ensures CText(text[..]) == DecodeToken(s, 0, 0)
  {
    var r, d, n := 0, 0, text.Length - 1;
    while r < n
      invariant d <= r <= n && text[n] == 0
      invariant forall k :: 0 <= k < n ==> text[k] != 0
      invariant DecodeToken(text[..n], r, d) == DecodeToken(s, 0, 0)
    {
      ghost var before: CStr := text[..n];
      if text[r] == TILDE {
        if text[r+1] == 48 {
          text[d] := TILDE;
          assert text[..n] == before[d := TILDE];
        } else if text[r+1] == 49 {
          text[d+1] := SLASH;
          assert text[..n] == before[d+1 := SLASH];
        } else {
          CTextOf(text[..], n);
          return;
        }
        r := r + 1;
      }
      r, d := r + 1, d + 1;
    }
    ghost var last: CStr := text[..n];
    text[d] := 0;
    CTextOf(text[..], d);
    assert text[..][..d] == last[..d];
  }

  lemma {:induction false} DecodeClean(s: CStr, r: nat)
    requires r <= |s| && TILDE !in s
    ensures DecodeToken(s, r, r) == s
    decreases |s| - r
  {
    if r < |s| {
      DecodeClean(s, r + 1);
    } else {
      assert s[..r] == s;
    }
  }

  /** `strrchr(path, '/')`. */
  function LastSlash(p: CStr): (r: Option<nat>)
    ensures r.None? ==> SLASH !in p
    ensures r.Some? ==> r.value < |p| && p[r.value] == SLASH && SLASH !in p[r.value+1..]
  {
    if p == [] then None
    else if p[|p|-1] == SLASH then Some(|p| - 1)
    else LastSlash(p[..|p|-1])
  }

  datatype Detached = Missing | Detached(item: Json, doc: Json)

  /** A child taken out of its parent. Members are looked for without regard to case in either mode. */
  function TakeOut(parent: Json, child: CStr): Detached {
    match parent
    case Array(es) =>
      var index := DecodeIndex(child);
      if index.None? || index.value >= |es| then Missing
      else Detached(es[index.value], Array(RemoveAt(es, index.value)))
    case Object(ms) =>
      var i := FindKey(ms, child, false);
      if i == |ms| then Missing else Detached(ms[i].item, Object(RemoveAt(ms, i)))
    case _ => Missing
  }

  /** `detach_path`. */
  function DetachPath(doc: Json, path: CStr, cs: bool): Detached {
    var k := LastSlash(path);
    if k.None? then Missing
    else
      var parent := GetItem(doc, path[..k.value], cs);
      if parent.None? then Missing
      else match TakeOut(At(doc, parent.value), DecodeToken(path[k.value+1..], 0, 0))
        case Missing => Missing
        case Detached(item, rest) => Detached(item, Put(doc, parent.value, rest))
  }

  datatype Outcome = Outcome(status: nat, doc: Json)

  /** Delete the first member of the name, if there is one, and append the new one. */
  function SetMember(ms: Members, key: CStr, value: Json, cs: bool): Members {
    Without(ms, key, cs) + [Keyed(key, value)]
  }

  /** A child put into its parent. */
  function PutIn(parent: Json, child: CStr, value: Json, cs: bool): (o: Outcome)
    ensures o.status != 0 ==> o.doc == parent
  {
    match parent
    case Array(es) =>
      if child == [DASH] then Outcome(0, Array(es + [value]))
      else
        var index := DecodeIndex(child);
        if index.None? then Outcome(11, parent)
        else if index.value > |es| then Outcome(10, parent)
        else Outcome(0, Array(InsertAt(es, index.value, value)))
    case Object(ms) => Outcome(0, Object(SetMember(ms, child, value, cs)))
    case _ => Outcome(9, parent)
  }

  /** The last stage: put `value` where `path` says. */
  function InsertAtPath(doc: Json, path: CStr, value: Json, cs: bool): Outcome {
    var k := LastSlash(path);
    if k.None? then Outcome(9, doc)
    else
      var parent := GetItem(doc, path[..k.value], cs);
      if parent.None? then Outcome(9, doc)
      else
        var o := PutIn(At(doc, parent.value), DecodeToken(path[k.value+1..], 0, 0), value, cs);
        if o.status != 0 then Outcome(o.status, doc) else Outcome(0, Put(doc, parent.value, o.doc))
  }

  /** The text a node holds, where C code would read `valuestring`. */
  function StringValue(j: Json): Option<CStr> {
    match j
    case Text(s) => Some(s)
    case Raw(s) => Some(s)
    case _ => None
  }

  /** A move reads the text of its `from` member without looking at its type. */
  predicate Readable(patch: Json, cs: bool) {
    DecodeOperation(patch, cs).OpMove? && Member(patch, KEY_FROM, cs).Some? ==> StringValue(Member(patch, KEY_FROM, cs).value).Some?
  }

  ghost function ApplyTest(doc: Json, path: CStr, patch: Json, cs: bool): Outcome {
    var at, value := GetItem(doc, path, cs), Member(patch, KEY_VALUE, cs);
    if at.None? || value.None? then Outcome(1, doc)
    else
      var target := At(doc, at.value);
      Outcome(if SortedEqual(target, value.value, cs) then 0 else 1, Put(doc, at.value, Settled(target, value.value, cs)))
  }

  /** `apply_patch`. */
  ghost function Apply(doc: Json, patch: Json, cs: bool): Outcome
    requires Readable(patch, cs)
  {
    var path, op, value := Member(patch, KEY_PATH, cs), DecodeOperation(patch, cs), Member(patch, KEY_VALUE, cs);
    if path.None? || !path.value.Text? then Outcome(2, doc)
    else if op.INVALID? then Outcome(3, doc)
    else if op.OpTest? then ApplyTest(doc, path.value.s, patch, cs)
    else if path.value.s == [] && op.OpRemove? then Outcome(0, Invalid)
    else if path.value.s == [] && (op.OpReplace? || op.OpAdd?) then
      if value.None? then Outcome(7, doc) else Outcome(0, value.value)
    else if op.OpRemove? then
      var d := DetachPath(doc, path.value.s, cs);
      if d.Missing? then Outcome(13, doc) else Outcome(0, d.doc)
    else if op.OpReplace? then
      var d := DetachPath(doc, path.value.s, cs);
      if d.Missing? then Outcome(13, doc)
      else if value.None? then Outcome(7, d.doc)
      else InsertAtPath(d.doc, path.value.s, value.value, cs)
    else if op.OpAdd? then
      if value.None? then Outcome(7, doc) else InsertAtPath(doc, path.value.s, value.value, cs)
    else
      var from := Member(patch, KEY_FROM, cs);
      if from.None? then Outcome(4, doc)
      else if op.OpMove? then
        var d := DetachPath(doc, StringValue(from.value).value, cs);
        if d.Missing? then Outcome(5, doc) else InsertAtPath(d.doc, path.value.s, d.item, cs)
      else
        var source := if StringValue(from.value).None? then None else GetItem(doc, StringValue(from.value).value, cs);
        if source.None? then Outcome(5, doc) else InsertAtPath(doc, path.value.s, At(doc, source.value), cs)
  }

  /** Patches are applied in order until one fails. */
  ghost function ApplyAll(doc: Json, patches: seq<Json>, cs: bool): Outcome
    requires forall i :: 0 <= i < |patches| ==> Readable(patches[i], cs)
    decreases |patches|
  {
    if patches == [] then Outcome(0, doc)
    else
      var o := Apply(doc, patches[0], cs);
      if o.status != 0 then o else ApplyAll(o.doc, patches[1..], cs)
  }

  /** A document that patches change in place. */
  class Document {
    var root: Json

    constructor (j: Json)
      ensures root == j
    {
      root := j;
    }

    method Detach(path: CStr, cs: bool) returns (item: Option<Json>)
      modifies this
      ensures item == match DetachPath(old(root), path, cs) case Missing => None case Detached(x, _) => Some(x)
      ensures root == match DetachPath(old(root), path, cs) case Missing => old(root) case Detached(_, d) => d
    {
      hide GetItem, At, Put, LastSlash, DecodeToken, DecodeIndex, RemoveAt, FindKey;
      var slash := LastSlash(path);
      if slash.None? {
        return None;
      }
      var parent := GetItemFromPointer(root, path[..slash.value], cs);
      var child := DecodeToken(path[slash.value+1..], 0, 0);
      if parent.None? {
        return None;
      }
      match At(root, parent.value) {
        case Array(es) =>
          var index := DecodeArrayIndex(child);
          if index.None? || index.value >= |es| {
            return None;
          }
          item := Some(es[index.value]);
          root := Put(root, parent.value, Array(RemoveAt(es, index.value)));
        case Object(ms) =>
          var i := FindKey(ms, child, false);
          if i == |ms| {
            return None;
          }
          item := Some(ms[i].item);
          root := Put(root, parent.value, Object(RemoveAt(ms, i)));
        case _ =>
          return None;
      }
    }

    method Insert(path: CStr, value: Json, cs: bool) returns (status: nat)
      modifies this
      ensures Outcome(status, root) == InsertAtPath(old(root), path, value, cs)
    {
      hide GetItem, At, Put, LastSlash, DecodeToken, DecodeIndex, SetMember, InsertAt;
      var slash := LastSlash(path);
      if slash.None? {
        return 9;
      }
      var parent := GetItemFromPointer(root, path[..slash.value], cs);
      var child := DecodeToken(path[slash.value+1..], 0, 0);
      if parent.None? {
        return 9;
      }
      match At(root, parent.value) {
        case Array(es) =>
          if child == [DASH] {
            root := Put(root, parent.value, Array(es + [value]));
          } else {
            var index := DecodeArrayIndex(child);
            if index.None? {
              return 11;
            }
            if index.value > |es| {
              return 10;
            }
            root := Put(root, parent.value, Array(InsertAt(es, index.value, value)));
          }
        case Object(ms) =>
          root := Put(root, parent.value, Object(SetMember(ms, child, value, cs)));
        case _ =>
          return 9;
      }
      return 0;
    }

    method ApplyPatch(patch: Json, cs: bool) returns (status: nat)
      requires Readable(patch, cs)
      modifies this
      ensures Outcome(status, root) == Apply(old(root), patch, cs)
    {
      var path := Member(patch, KEY_PATH, cs);
      if path.None? || !path.value.Text? {
        return 2;
      }
      var opcode := DecodeOperation(patch, cs);
      if opcode.INVALID? {
        return 3;
      } else if opcode.OpTest? {
        status := Test(path.value.s, patch, cs);
        return;
      }
      var value := Member(patch, KEY_VALUE, cs);
      if path.value.s == [] {
        if opcode.OpRemove? {
          root := Invalid;
          return 0;
        }
        if opcode.OpReplace? || opcode.OpAdd? {
          if value.None? {
            return 7;
          }
          root := value.value;
          return 0;
        }
      }
      if opcode.OpRemove? || opcode.OpReplace? {
        var old_item := Detach(path.value.s, cs);
        if old_item.None? {
          return 13;
        }
        if opcode.OpRemove? {
          return 0;
        }
      }
      if opcode.OpMove? || opcode.OpCopy? {
        var from := Member(patch, KEY_FROM, cs);
        if from.None? {
          return 4;
        }
        var text := StringValue(from.value);
        if opcode.OpMove? {
          value := Detach(text.value, cs);
        } else {
          var source := None;
          if text.Some? {
            source := GetItemFromPointer(root, text.value, cs);
          }
          value := if source.None? then None else Some(At(root, source.value));
        }
        if value.None? {
          return 5;
        }
      } else if value.None? {
        return 7;
      }
      status := Insert(path.value.s, value.value, cs);
    }

    method Test(path: CStr, patch: Json, cs: bool) returns (status: nat)
      modifies this
      ensures Outcome(status, root) == ApplyTest(old(root), path, patch, cs)
    {
      var at := GetItemFromPointer(root, path, cs);
      var value := Member(patch, KEY_VALUE, cs);
      if at.None? || value.None? {
        return 1;
      }
      var same, target, _ := CompareJson(At(root, at.value), value.value, cs);
      root := Put(root, at.value, target);
      return if same then 0 else 1;
    }

    /** `cJSONUtils_ApplyPatches` and its case-sensitive twin. */
    method ApplyPatches(patches: Json, cs: bool) returns (status: nat)
      requires patches.Array? ==> forall i :: 0 <= i < |patches.elems| ==> Readable(patches.elems[i], cs)
      modifies this
      ensures !patches.Array? ==> status == 1 && root == old(root)
      ensures patches.Array? ==> Outcome(status, root) == ApplyAll(old(root), patches.elems, cs)
    {
      if !patches.Array? {
        return 1;
      }
      var es, i := patches.elems, 0;
      assert es[0..] == es;
      while i < |es|
        invariant i <= |es| && ApplyAll(old(root), es, cs) == ApplyAll(root, es[i..], cs)
      {
        assert es[i..][0] == es[i] && es[i..][1..] == es[i+1..];
        status := ApplyPatch(es[i], cs);
        if status != 0 {
          return;
        }
        i := i + 1;
      }
      return 0;
    }
  }
}
