/** `create_patches`: the edits that turn one document into another. */
module PatchGeneration {
  import opened CStrings
  import opened Json
  import opened KeySort
  import opened SortedCompare
  import opened Decimals
  import opened Pointers
  import opened Patch
  import opened PatchMeaning

  function Prefixed(token: CStr, es: seq<Edit>): (r: seq<Edit>)
    ensures |r| == |es|
    ensures forall i :: 0 <= i < |es| ==> r[i] == es[i].(tokens := [token] + es[i].tokens)
  {
    seq(|es|, i requires 0 <= i < |es| => es[i].(tokens := [token] + es[i].tokens))
  }

  /** The edits for `from` and `to`, with paths relative to them. `junk` is the byte a slash in a
      key leaves in front of its escape digit. */
  ghost function Diffs(from: Json, to: Json, cs: bool, junk: Byte): seq<Edit>
    decreases from, 1, 0
  {
    if !SameType(from, to) then [Edit(OpReplace, [], Some(to))]
    else match from
      case Number(n) => if Saturated(n) != Saturated(to.n) || n != to.n then [Edit(OpReplace, [], Some(to))] else []
      case Text(s) => if s != to.s then [Edit(OpReplace, [], Some(to))] else []
      case Array(es) => ElementDiffs(from, to, 0, cs, junk)
      case Object(ms) =>
        SortMembership(ms, cs);
        WalkDiffs(from, Sort(ms, cs), Sort(to.members, cs), cs, junk)
      case _ => []
  }

  /** Common elements from index `i` on, then removals at one index, or appends. */
  ghost function ElementDiffs(from: Json, to: Json, i: nat, cs: bool, junk: Byte): seq<Edit>
    requires from.Array? && to.Array? && i <= |from.elems| && i <= |to.elems|
    decreases from, 0, |from.elems| - i
  {
    var es, fs := from.elems, to.elems;
    if i < |es| && i < |fs| then
      Prefixed(Dec(i), Diffs(es[i], fs[i], cs, junk)) + ElementDiffs(from, to, i + 1, cs, junk)
    else
      Removals(|es| - i, i) + Additions(fs[i..])
  }

  function Removals(count: nat, index: nat): (r: seq<Edit>)
    ensures |r| == count
  {
    if count == 0 then [] else [Edit(OpRemove, [Dec(index)], None)] + Removals(count - 1, index)
  }

  function Additions(fs: seq<Json>): (r: seq<Edit>)
    ensures |r| == |fs|
  {
    if fs == [] then [] else [Edit(OpAdd, [[DASH]], Some(fs[0]))] + Additions(fs[1..])
  }

  /** The walk over both sorted member lists. */
  ghost function WalkDiffs(from: Json, s: Members, t: Members, cs: bool, junk: Byte): seq<Edit>
    requires forall i :: 0 <= i < |s| ==> s[i].item < from
    decreases from, 0, |s| + |t|
  {
    if s == [] && t == [] then []
    else
      var order := WalkOrder(s, t, cs);
      if order == 0 then
        Prefixed(EncodeKey(s[0].key, junk), Diffs(s[0].item, t[0].item, cs, junk)) + WalkDiffs(from, s[1..], t[1..], cs, junk)
      else if order < 0 then
        [Edit(OpRemove, [EncodeKey(s[0].key, junk)], None)] + WalkDiffs(from, s[1..], t, cs, junk)
      else
        [Edit(OpAdd, [EncodeKey(t[0].key, junk)], Some(t[0].item))] + WalkDiffs(from, s, t[1..], cs, junk)
  }

  function WalkOrder(s: Members, t: Members, cs: bool): (order: int)
    requires s != [] || t != []
    ensures s == [] ==> order > 0
    ensures t == [] ==> order < 0
  {
    if s == [] then 1 else if t == [] then -1 else KeyOrder(s[0].key, t[0].key, cs)
  }

  lemma PatchesConcat(path: CStr, a: seq<Edit>, b: seq<Edit>)
    ensures PatchesOf(path, a + b) == PatchesOf(path, a) + PatchesOf(path, b)
  {
  }

  lemma PatchesPrefixed(path: CStr, token: CStr, es: seq<Edit>)
    ensures PatchesOf(path, Prefixed(token, es)) == PatchesOf(path + [SLASH] + token, es)
  {
    forall i | 0 <= i < |es| ensures PatchOf(path, Prefixed(token, es)[i]) == PatchOf(path + [SLASH] + token, es[i]) {
      var tokens := es[i].tokens;
      assert ([token] + tokens)[1..] == tokens;
      assert path + ([SLASH] + token + Join(tokens)) == path + [SLASH] + token + Join(tokens);
    }
  }

  /** What is still to come after a batch of patches has been appended. */
  lemma Appended(items: seq<Json>, path: CStr, batch: seq<Edit>, rest: seq<Edit>)
    ensures items + PatchesOf(path, batch + rest) == (items + PatchesOf(path, batch)) + PatchesOf(path, rest)
  {
    PatchesConcat(path, batch, rest);
  }

  ghost predicate ElementsTidied(es: seq<Json>, es': seq<Json>, cs: bool) {
    |es'| == |es| && forall k :: 0 <= k < |es| ==> WellKeyed(es[k], cs) ==> KeepsValue(es[k], es'[k], cs)
  }

  ghost predicate MembersTidied(s: Members, s': Members, cs: bool) {
    |s'| == |s| && forall k :: 0 <= k < |s| ==>
      s'[k].key == s[k].key && (WellKeyed(s[k].item, cs) ==> KeepsValue(s[k].item, s'[k].item, cs))
  }

  lemma TidiedArray(es: seq<Json>, es': seq<Json>, cs: bool)
    requires ElementsTidied(es, es', cs)
    ensures WellKeyed(Array(es), cs) ==> KeepsValue(Array(es), Array(es'), cs)
  {
    if WellKeyed(Array(es), cs) {
      ElementsKeepValue(es, es', cs);
    }
  }

  lemma TidiedObject(ms: Members, s': Members, cs: bool)
    requires MembersTidied(Sort(ms, cs), s', cs)
    ensures WellKeyed(Object(ms), cs) ==> KeepsValue(Object(ms), Object(s'), cs)
  {
    if WellKeyed(Object(ms), cs) {
      var s := Sort(ms, cs);
      SortMembership(ms, cs);
      forall i | 0 <= i < |s| ensures s[i].key == s'[i].key && KeepsValue(s[i].item, s'[i].item, cs) {
        assert s[i] in ms;
      }
      MembersKeepValue(ms, s', cs, cs);
    }
  }

  function SuffixedPath(path: CStr, suffix: Option<CStr>, junk: Byte): CStr {
    if suffix.None? then path else path + [SLASH] + EncodeKey(suffix.value, junk)
  }

  /** The patches of a single edit. */
  lemma ReplaceHere(path: CStr, to: Json)
    ensures PatchesOf(path, [Edit(OpReplace, [], Some(to))]) == [PatchObject(REPLACE, path, Some(to))]
  {
    assert path + Join([]) == path;
  }

  lemma EditBelow(path: CStr, op: Opcode, suffix: CStr, value: Option<Json>, junk: Byte)
    ensures PatchesOf(path, [Edit(op, [EncodeKey(suffix, junk)], value)]) ==
            [PatchObject(OpText(op), SuffixedPath(path, Some(suffix), junk), value)]
  {
    hide EncodeKey;
    var token := EncodeKey(suffix, junk);
    assert path + Join([token]) == path + [SLASH] + token;
  }

  /** The patch array being filled. */
  class PatchList {
    var items: seq<Json>

    constructor ()
      ensures items == []
    {
      items := [];
    }

    /** `compose_patch`, which is also `cJSONUtils_AddPatchToArray`. */
    method Compose(op: CStr, path: CStr, suffix: Option<CStr>, value: Option<Json>, junk: Byte)
      modifies this
      ensures items == old(items) + [PatchObject(op, SuffixedPath(path, suffix, junk), value)]
    {
      var members := [Keyed(KEY_OP, Text(op))];
      if suffix.None? {
        members := members + [Keyed(KEY_PATH, Text(path))];
      } else {
        members := members + [Keyed(KEY_PATH, Text(path + [SLASH] + EncodeKey(suffix.value, junk)))];
      }
      if value.Some? {
        members := members + [Keyed(KEY_VALUE, value.value)];
      }
      items := items + [Object(members)];
      assert members == PatchObject(op, SuffixedPath(path, suffix, junk), value).members;
    }

    /** `create_patches`: appends the patches below `path`, and leaves both documents sorted
        wherever the walk went through an object. */
    method Create(path: CStr, from: Json, to: Json, cs: bool, junk: Byte) returns (from': Json, to': Json)
      modifies this
      ensures items == old(items) + PatchesOf(path, Diffs(from, to, cs, junk))
      ensures WellKeyed(from, cs) ==> KeepsValue(from, from', cs)
      ensures WellKeyed(to, cs) ==> KeepsValue(to, to', cs)
      decreases from, 1, 0
    {
      from', to' := from, to;
      if !SameType(from, to) {
        ReplaceHere(path, to);
        Compose(REPLACE, path, None, Some(to), junk);
        return;
      }
      match from {
        case Number(n) =>
          if Saturated(n) != Saturated(to.n) || n != to.n {
            ReplaceHere(path, to);
        Compose(REPLACE, path, None, Some(to), junk);
          }
        case Text(s) =>
          if s != to.s {
            ReplaceHere(path, to);
        Compose(REPLACE, path, None, Some(to), junk);
          }
        case Array(es) =>
          var es', fs';
          es', fs' := CreateForElements(path, from, to, cs, junk);
          from', to' := Array(es'), Array(fs');
          TidiedArray(es, es', cs);
          TidiedArray(to.elems, fs', cs);
        case Object(ms) =>
          var s, t := Sort(ms, cs), Sort(to.members, cs);
          SortMembership(ms, cs);
          var s', t';
          s', t' := CreateForMembers(path, from, s, t, cs, junk);
          from', to' := Object(s'), Object(t');
          TidiedObject(ms, s', cs);
          TidiedObject(to.members, t', cs);
        case _ =>
      }
    }

    method CreateForElements(path: CStr, from: Json, to: Json, cs: bool, junk: Byte) returns (es': seq<Json>, fs': seq<Json>)
      requires from.Array? && to.Array?
      modifies this
      ensures items == old(items) + PatchesOf(path, ElementDiffs(from, to, 0, cs, junk))
      ensures ElementsTidied(from.elems, es', cs) && ElementsTidied(to.elems, fs', cs)
      decreases from, 0, 0
    {
      hide Diffs, ElementDiffs, PatchesOf, WellKeyed, Canon, Plain, Dec;
      var es, fs := from.elems, to.elems;
      es', fs' := es, fs;
      ghost var final := items + PatchesOf(path, ElementDiffs(from, to, 0, cs, junk));
      var index := 0;
      while index < |es| && index < |fs|
        invariant index <= |es| && index <= |fs|
        invariant items + PatchesOf(path, ElementDiffs(from, to, index, cs, junk)) == final
        invariant ElementsTidied(es, es', cs) && ElementsTidied(fs, fs', cs)
      {
        ElementBatch(items, path, from, to, index, cs, junk);
        var x, y := Create(path + [SLASH] + Dec(index), es[index], fs[index], cs, junk);
        es', fs' := es'[index := x], fs'[index := y];
        index := index + 1;
      }
      LeftoverDiffs(from, to, index, cs, junk);
      CreateLeftovers(path, |es| - index, index, fs[index..], junk);
    }

    /** The removals and appends behind the common elements. */
    method CreateLeftovers(path: CStr, removals: nat, index: nat, additions: seq<Json>, junk: Byte)
      modifies this
      ensures items == old(items) + PatchesOf(path, Removals(removals, index) + Additions(additions))
    {
      hide PatchesOf, Dec;
      ghost var final := items + PatchesOf(path, Removals(removals, index) + Additions(additions));
      CleanSteps(index, junk);
      var k := removals;
      while k > 0
        invariant items + PatchesOf(path, Removals(k, index) + Additions(additions)) == final
      {
        ghost var batch := [Edit(OpRemove, [Dec(index)], None)];
        RemovalTaken(k, index, Additions(additions));
        Appended(items, path, batch, Removals(k - 1, index) + Additions(additions));
        EditBelow(path, OpRemove, Dec(index), None, junk);
        Compose(REMOVE, path, Some(Dec(index)), None, junk);
        k := k - 1;
      }
      var rest := additions;
      assert Removals(0, index) + Additions(additions) == Additions(rest);
      while rest != []
        invariant items + PatchesOf(path, Additions(rest)) == final
        decreases |rest|
      {
        Appended(items, path, [Edit(OpAdd, [[DASH]], Some(rest[0]))], Additions(rest[1..]));
        EditBelow(path, OpAdd, [DASH], Some(rest[0]), junk);
        Compose(ADD, path, Some([DASH]), Some(rest[0]), junk);
        rest := rest[1..];
      }
    }

    method CreateForMembers(path: CStr, ghost from: Json, s: Members, t: Members, cs: bool, junk: Byte) returns (s': Members, t': Members)
      requires forall i :: 0 <= i < |s| ==> s[i].item < from
      modifies this
      ensures items == old(items) + PatchesOf(path, WalkDiffs(from, s, t, cs, junk))
      ensures MembersTidied(s, s', cs) && MembersTidied(t, t', cs)
      decreases from, 0, 0
    {
      hide Diffs, WalkDiffs, PatchesOf, WellKeyed, Canon, Plain, Diff, EncodeKey, Fold;
      s', t' := s, t;
      ghost var final := items + PatchesOf(path, WalkDiffs(from, s, t, cs, junk));
      var i, j := 0, 0;
      assert s[0..] == s && t[0..] == t;
      while i < |s| || j < |t|
        invariant i <= |s| && j <= |t|
        invariant items + PatchesOf(path, WalkDiffs(from, s[i..], t[j..], cs, junk)) == final
        invariant MembersTidied(s, s', cs) && MembersTidied(t, t', cs)
        decreases |s| - i + |t| - j
      {
        var order := 1;
        if j == |t| {
          order := -1;
        } else if i < |s| {
          order := CompareStrings(Some(s[i].key), Some(t[j].key), cs);
        }
        WalkBatch(items, path, from, s, i, t, j, cs, junk);
        if order == 0 {
          var x, y := Create(path + [SLASH] + EncodeKey(s[i].key, junk), s[i].item, t[j].item, cs, junk);
          s', t' := s'[i := Keyed(s[i].key, x)], t'[j := Keyed(t[j].key, y)];
          i, j := i + 1, j + 1;
        } else if order < 0 {
          EditBelow(path, OpRemove, s[i].key, None, junk);
          Compose(REMOVE, path, Some(s[i].key), None, junk);
          i := i + 1;
        } else {
          EditBelow(path, OpAdd, t[j].key, Some(t[j].item), junk);
          Compose(ADD, path, Some(t[j].key), Some(t[j].item), junk);
          j := j + 1;
        }
      }
      NothingToWalk(items, path, from, s[i..], t[j..], cs, junk);
    }
  }

  lemma NothingToWalk(items: seq<Json>, path: CStr, from: Json, s: Members, t: Members, cs: bool, junk: Byte)
    requires s == [] && t == []
    ensures items + PatchesOf(path, WalkDiffs(from, s, t, cs, junk)) == items
  {
  }


  /** An index and a dash stand for themselves in a pointer. */
  lemma CleanSteps(index: nat, junk: Byte)
    ensures EncodeKey(Dec(index), junk) == Dec(index) && EncodeKey([DASH], junk) == [DASH]
  {
    assert Clean(Dec(index)) && Clean([DASH]);
  }

  lemma RemovalTaken(k: nat, index: nat, rest: seq<Edit>)
    requires k > 0
    ensures Removals(k, index) + rest == [Edit(OpRemove, [Dec(index)], None)] + (Removals(k - 1, index) + rest)
  {
    hide Dec;
  }

  lemma LeftoverDiffs(from: Json, to: Json, i: nat, cs: bool, junk: Byte)
    requires from.Array? && to.Array? && i <= |from.elems| && i <= |to.elems| && (i == |from.elems| || i == |to.elems|)
    ensures ElementDiffs(from, to, i, cs, junk) == Removals(|from.elems| - i, i) + Additions(to.elems[i..])
  {
  }

  lemma ElementBatch(items: seq<Json>, path: CStr, from: Json, to: Json, i: nat, cs: bool, junk: Byte)
    requires from.Array? && to.Array? && i < |from.elems| && i < |to.elems|
    ensures items + PatchesOf(path, ElementDiffs(from, to, i, cs, junk)) ==
            items + PatchesOf(path + [SLASH] + Dec(i), Diffs(from.elems[i], to.elems[i], cs, junk)) +
            PatchesOf(path, ElementDiffs(from, to, i + 1, cs, junk))
  {
    var edits := Diffs(from.elems[i], to.elems[i], cs, junk);
    Appended(items, path, Prefixed(Dec(i), edits), ElementDiffs(from, to, i + 1, cs, junk));
    PatchesPrefixed(path, Dec(i), edits);
  }

  /** What one turn of the walk appends. */
  lemma WalkBatch(items: seq<Json>, path: CStr, from: Json, s: Members, i: nat, t: Members, j: nat, cs: bool, junk: Byte)
    requires i <= |s| && j <= |t| && (i < |s| || j < |t|)
    requires forall k :: 0 <= k < |s| ==> s[k].item < from
    ensures var all := items + PatchesOf(path, WalkDiffs(from, s[i..], t[j..], cs, junk));
            var order := WalkOrder(s[i..], t[j..], cs);
            if order == 0 then
              all == items + PatchesOf(path + [SLASH] + EncodeKey(s[i].key, junk), Diffs(s[i].item, t[j].item, cs, junk)) +
                     PatchesOf(path, WalkDiffs(from, s[i+1..], t[j+1..], cs, junk))
            else if order < 0 then
              all == items + PatchesOf(path, [Edit(OpRemove, [EncodeKey(s[i].key, junk)], None)]) +
                     PatchesOf(path, WalkDiffs(from, s[i+1..], t[j..], cs, junk))
            else
              all == items + PatchesOf(path, [Edit(OpAdd, [EncodeKey(t[j].key, junk)], Some(t[j].item))]) +
                     PatchesOf(path, WalkDiffs(from, s[i..], t[j+1..], cs, junk))
  {
    assert i < |s| ==> s[i..][0] == s[i] && s[i..][1..] == s[i+1..];
    assert j < |t| ==> t[j..][0] == t[j] && t[j..][1..] == t[j+1..];
    var order := WalkOrder(s[i..], t[j..], cs);
    if order == 0 {
      var edits := Diffs(s[i].item, t[j].item, cs, junk);
      Appended(items, path, Prefixed(EncodeKey(s[i].key, junk), edits), WalkDiffs(from, s[i+1..], t[j+1..], cs, junk));
      PatchesPrefixed(path, EncodeKey(s[i].key, junk), edits);
    } else if order < 0 {
      Appended(items, path, [Edit(OpRemove, [EncodeKey(s[i].key, junk)], None)], WalkDiffs(from, s[i+1..], t[j..], cs, junk));
    } else {
      Appended(items, path, [Edit(OpAdd, [EncodeKey(t[j].key, junk)], Some(t[j].item))], WalkDiffs(from, s[i..], t[j+1..], cs, junk));
    }
  }
}
