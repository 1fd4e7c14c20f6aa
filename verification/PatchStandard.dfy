/** The patch objects of section 4 of RFC 6902, by the bytes of their members. */
module PatchStandard {
  import opened CStrings
  import opened Json
  import opened Lookups

  /** The patch has a member of that name, as a lookup finds it. */
  predicate Says(patch: Json, name: CStr, value: Json, cs: bool) {
    patch.Object? && Lookup(patch.members, name, cs) == Some(value)
  }

  predicate OpIs(patch: Json, text: CStr, cs: bool) {
    Says(patch, [111, 112], Text(text), cs)
  }

  predicate PathIs(patch: Json, path: CStr, cs: bool) {
    Says(patch, [112, 97, 116, 104], Text(path), cs)
  }

  predicate FromIs(patch: Json, from: CStr, cs: bool) {
    Says(patch, [102, 114, 111, 109], Text(from), cs)
  }

  /** The member `from`, whatever it is. */
  function FromMember(patch: Json, cs: bool): Option<Json> {
    if patch.Object? then Lookup(patch.members, [102, 114, 111, 109], cs) else None
  }

  /** The member `value`, whatever it is. */
  function ValueMember(patch: Json, cs: bool): Option<Json> {
    if patch.Object? then Lookup(patch.members, [118, 97, 108, 117, 101], cs) else None
  }

  predicate IsAdd(patch: Json, path: CStr, value: Json, cs: bool) {
    OpIs(patch, [97, 100, 100], cs) && PathIs(patch, path, cs) && ValueMember(patch, cs) == Some(value)
  }

  predicate IsRemove(patch: Json, path: CStr, cs: bool) {
    OpIs(patch, [114, 101, 109, 111, 118, 101], cs) && PathIs(patch, path, cs)
  }

  predicate IsReplace(patch: Json, path: CStr, value: Json, cs: bool) {
    OpIs(patch, [114, 101, 112, 108, 97, 99, 101], cs) && PathIs(patch, path, cs) && ValueMember(patch, cs) == Some(value)
  }

  predicate IsMove(patch: Json, from: CStr, path: CStr, cs: bool) {
    OpIs(patch, [109, 111, 118, 101], cs) && PathIs(patch, path, cs) && FromIs(patch, from, cs)
  }

  predicate IsCopy(patch: Json, from: CStr, path: CStr, cs: bool) {
    OpIs(patch, [99, 111, 112, 121], cs) && PathIs(patch, path, cs) && FromIs(patch, from, cs)
  }

  predicate IsTest(patch: Json, path: CStr, cs: bool) {
    OpIs(patch, [116, 101, 115, 116], cs) && PathIs(patch, path, cs)
  }

  /** The texts of add, replace and test. */
  predicate TakesValue(text: CStr) {
    text == [97, 100, 100] || text == [114, 101, 112, 108, 97, 99, 101] || text == [116, 101, 115, 116]
  }

  /** The texts of move and copy. */
  predicate TakesFrom(text: CStr) {
    text == [109, 111, 118, 101] || text == [99, 111, 112, 121]
  }

  predicate OperationText(text: CStr) {
    TakesValue(text) || TakesFrom(text) || text == [114, 101, 109, 111, 118, 101]
  }

  predicate PointerText(path: CStr) {
    path == [] || path[0] == 47
  }

  /** One operation and one path, which starts with a slash if it is not empty, and what the operation takes besides. */
  ghost predicate IsRfc6902Patch(patch: Json) {
    patch.Object? && DistinctKeys(patch.members, false) &&
    exists text, path ::
      OpIs(patch, text, true) && PathIs(patch, path, true) && OperationText(text) && PointerText(path) &&
      (TakesValue(text) ==> ValueMember(patch, true).Some?) &&
      (TakesFrom(text) ==> exists from :: FromIs(patch, from, true) && PointerText(from))
  }

  /** The patch that adds a value at a path. */
  function AddPatch(path: CStr, value: Json): Json {
    Object([Keyed([111, 112], Text([97, 100, 100])), Keyed([112, 97, 116, 104], Text(path)), Keyed([118, 97, 108, 117, 101], value)])
  }

  /** The patch that removes what is at a path. */
  function RemovePatch(path: CStr): Json {
    Object([Keyed([111, 112], Text([114, 101, 109, 111, 118, 101])), Keyed([112, 97, 116, 104], Text(path))])
  }

  /** Keys of different lengths do not get in each other's way. */
  lemma LookupByLength(ms: Members, i: nat, cs: bool)
    requires i < |ms| && forall k :: 0 <= k < i ==> |ms[k].key| != |ms[i].key|
    ensures Lookup(ms, ms[i].key, cs) == Some(ms[i].item)
  {
    forall k | 0 <= k < i ensures Fold(ms[k].key, cs) != Fold(ms[i].key, cs) {
      assert |Fold(ms[k].key, cs)| == |ms[k].key|;
    }
  }

  lemma AddPatchSays(path: CStr, value: Json, cs: bool)
    ensures IsAdd(AddPatch(path, value), path, value, cs)
  {
    var ms := AddPatch(path, value).members;
    LookupByLength(ms, 0, cs);
    LookupByLength(ms, 1, cs);
    LookupByLength(ms, 2, cs);
  }

  lemma RemovePatchSays(path: CStr, cs: bool)
    ensures IsRemove(RemovePatch(path), path, cs)
  {
    var ms := RemovePatch(path).members;
    LookupByLength(ms, 0, cs);
    LookupByLength(ms, 1, cs);
  }
}
