/** JSON Merge Patch: what `merge_patch` does to a document, and what section 2 of RFC 7396 asks for. */
module MergePatch {
  import opened Sequences
  import opened CStrings
  import opened Json
  import opened Lookups

  /** `merge_patch`: the document that results. There may be no target to merge into. */
  function Merge(target: Option<Json>, patch: Json, cs: bool): Json
    decreases patch
  {
    if !patch.Object? then patch
    else
      var members := if target.Some? && target.value.Object? then target.value.members else [];
      Object(MergeMembers(members, patch.members, cs))
  }

  /** The members of the patch, in order. */
  function MergeMembers(ms: Members, ps: Members, cs: bool): Members
    decreases ps
  {
    if ps == [] then ms else MergeMembers(MergeOne(ms, ps[0], cs), ps[1..], cs)
  }

  /** The first member the key finds goes; unless the patch holds null, its merged value comes last. */
  function MergeOne(ms: Members, p: Keyed<Json>, cs: bool): Members
    decreases p
  {
    if p.item.Null? then Without(ms, p.key, cs)
    else Without(ms, p.key, cs) + [Keyed(p.key, Merge(Lookup(ms, p.key, cs), p.item, cs))]
  }

  /** The loop over the members of the patch, and the recursion into the ones that are kept. */
  method ApplyMerge(target: Option<Json>, patch: Json, cs: bool) returns (merged: Json)
    ensures merged == Merge(target, patch, cs)
    decreases patch
  {
    if !patch.Object? {
      return patch;
    }
    var members: Members := [];
    if target.Some? && target.value.Object? {
      members := target.value.members;
    }
    ghost var first := members;
    var i := 0;
    while i < |patch.members|
      invariant i <= |patch.members|
      invariant MergeMembers(members, patch.members[i..], cs) == MergeMembers(first, patch.members, cs)
    {
      assert patch.members[i..][1..] == patch.members[i+1..];
      var p := patch.members[i];
      var found := FindKey(members, p.key, cs);
      var replaced: Option<Json> := None;
      if found < |members| {
        replaced := Some(members[found].item);
        members := RemoveAt(members, found);
      }
      if !p.item.Null? {
        var value := ApplyMerge(replaced, p.item, cs);
        members := members + [Keyed(p.key, value)];
      }
      i := i + 1;
    }
    return Object(members);
  }

  // The meaning

  /** The MergePatch function of section 2 of RFC 7396, on values. */
  ghost function MergeValue(target: Option<Val>, patch: Val): Val
    decreases patch
  {
    if !patch.VObject? then patch
    else
      var base := if target.Some? && target.value.VObject? then target.value.entries else map[];
      VObject(map k | k in base.Keys + patch.entries.Keys && !(k in patch.entries && patch.entries[k].VNull?) ::
                if k in patch.entries then MergeValue(if k in base then Some(base[k]) else None, patch.entries[k])
                else base[k])
  }

  /** Merging one map into another. */
  ghost function MergeEntries(base: map<CStr, Val>, patch: map<CStr, Val>): map<CStr, Val> {
    MergeValue(Some(VObject(base)), VObject(patch)).entries
  }

  ghost function CanonOf(j: Option<Json>, cs: bool): Option<Val> {
    if j.None? then None else Some(Canon(j.value, cs))
  }

  ghost predicate WellKeyedOption(j: Option<Json>, cs: bool) {
    j.Some? ==> WellKeyed(j.value, cs)
  }

  ghost predicate WellKeyedMembers(ms: Members, cs: bool) {
    DistinctKeys(ms, cs) && forall i :: 0 <= i < |ms| ==> WellKeyed(ms[i].item, cs)
  }

  // What the members of a patch do one after the other, whether or not their keys repeat

  ghost function PatchValue(target: Option<Val>, patch: Json, cs: bool): Val
    decreases patch
  {
    if !patch.Object? then Canon(patch, cs)
    else VObject(PatchEntries(if target.Some? && target.value.VObject? then target.value.entries else map[], patch.members, cs))
  }

  ghost function PatchEntries(base: map<CStr, Val>, ps: Members, cs: bool): map<CStr, Val>
    decreases ps
  {
    if ps == [] then base else PatchEntries(PatchEntry(base, ps[0], cs), ps[1..], cs)
  }

  ghost function PatchEntry(base: map<CStr, Val>, p: Keyed<Json>, cs: bool): map<CStr, Val>
    decreases p
  {
    var k := Fold(p.key, cs);
    if p.item.Null? then base - {k} else base[k := PatchValue(EntryUnder(base, k), p.item, cs)]
  }

  ghost function EntryUnder(base: map<CStr, Val>, k: CStr): Option<Val> {
    if k in base then Some(base[k]) else None
  }

  /** Everything in a patch but its objects has distinct keys. */
  ghost predicate Usable(patch: Json, cs: bool) {
    if patch.Object? then forall i :: 0 <= i < |patch.members| ==> Usable(patch.members[i].item, cs) else WellKeyed(patch, cs)
  }

  lemma {:induction false} WellKeyedUsable(patch: Json, cs: bool)
    requires WellKeyed(patch, cs)
    ensures Usable(patch, cs)
  {
    if patch.Object? {
      forall i | 0 <= i < |patch.members| ensures Usable(patch.members[i].item, cs) {
        WellKeyedUsable(patch.members[i].item, cs);
      }
    }
  }

  /** Merging into a document with distinct keys has this value, and keeps keys distinct. */
  lemma {:induction false} MergeSteps(target: Option<Json>, patch: Json, cs: bool)
    requires WellKeyedOption(target, cs) && Usable(patch, cs)
    ensures WellKeyed(Merge(target, patch, cs), cs)
    ensures Canon(Merge(target, patch, cs), cs) == PatchValue(CanonOf(target, cs), patch, cs)
    decreases patch, 1
  {
    if patch.Object? {
      var members := if target.Some? && target.value.Object? then target.value.members else [];
      MembersSteps(members, patch.members, cs);
    }
  }

  lemma {:induction false} MembersSteps(ms: Members, ps: Members, cs: bool)
    requires WellKeyedMembers(ms, cs) && forall i :: 0 <= i < |ps| ==> Usable(ps[i].item, cs)
    ensures WellKeyedMembers(MergeMembers(ms, ps, cs), cs)
    ensures ToMap(MergeMembers(ms, ps, cs), cs) == PatchEntries(ToMap(ms, cs), ps, cs)
    decreases ps
  {
    if ps != [] {
      hide WellKeyedMembers, MergeOne, PatchEntry, ToMap, Usable;
      OneStep(ms, ps[0], cs);
      MembersSteps(MergeOne(ms, ps[0], cs), ps[1..], cs);
    }
  }

  lemma {:induction false} OneStep(ms: Members, p: Keyed<Json>, cs: bool)
    requires WellKeyedMembers(ms, cs) && Usable(p.item, cs)
    ensures WellKeyedMembers(MergeOne(ms, p, cs), cs)
    ensures ToMap(MergeOne(ms, p, cs), cs) == PatchEntry(ToMap(ms, cs), p, cs)
    decreases p
  {
    hide Without, Lookup, Merge, PatchValue, DistinctKeys, ToMap, WellKeyed, Fold, WellKeyedMembers, Usable;
    WithoutMeaning(ms, p.key, cs);
    LookupMeaning(ms, p.key, cs);
    if !p.item.Null? {
      var value := Merge(Lookup(ms, p.key, cs), p.item, cs);
      MergeSteps(Lookup(ms, p.key, cs), p.item, cs);
      AppendMeaning(Without(ms, p.key, cs), Keyed(p.key, value), cs);
    }
  }

  lemma EntriesStep(base: map<CStr, Val>, patch: map<CStr, Val>, p: Keyed<Json>, cs: bool)
    requires Fold(p.key, cs) !in patch
    requires PatchValue(EntryUnder(base, Fold(p.key, cs)), p.item, cs) == MergeValue(EntryUnder(base, Fold(p.key, cs)), Canon(p.item, cs))
    ensures MergeEntries(PatchEntry(base, p, cs), patch) == MergeEntries(base, patch[Fold(p.key, cs) := Canon(p.item, cs)])
  {
  }

  /** With distinct keys in the patch this is the function of the RFC. */
  lemma {:induction false} PatchValueMeaning(target: Option<Val>, patch: Json, cs: bool)
    requires WellKeyed(patch, cs)
    ensures PatchValue(target, patch, cs) == MergeValue(target, Canon(patch, cs))
    decreases patch, 1
  {
    if patch.Object? {
      var base := if target.Some? && target.value.VObject? then target.value.entries else map[];
      PatchEntriesMeaning(base, patch.members, cs);
    }
  }

  lemma {:induction false} PatchEntriesMeaning(base: map<CStr, Val>, ps: Members, cs: bool)
    requires WellKeyedMembers(ps, cs)
    ensures PatchEntries(base, ps, cs) == MergeEntries(base, ToMap(ps, cs))
    decreases ps
  {
    if ps != [] {
      hide PatchEntry, PatchValue, MergeValue, MergeEntries, Fold, WellKeyed;
      HeadNotInTail(ps, cs);
      PatchValueMeaning(EntryUnder(base, Fold(ps[0].key, cs)), ps[0].item, cs);
      PatchEntriesMeaning(PatchEntry(base, ps[0], cs), ps[1..], cs);
      EntriesStep(base, ToMap(ps[1..], cs), ps[0], cs);
    } else {
      MergeNothing(base);
    }
  }

  lemma MergeNothing(base: map<CStr, Val>)
    ensures MergeEntries(base, map[]) == base
  {
  }

  lemma HeadNotInTail(ps: Members, cs: bool)
    requires ps != [] && DistinctKeys(ps, cs)
    ensures Fold(ps[0].key, cs) !in ToMap(ps[1..], cs) && DistinctKeys(ps[1..], cs)
  {
    ToMapKeys(ps[1..], cs, Fold(ps[0].key, cs));
  }

  /** On documents with distinct keys, merging computes the function of the RFC, and keeps keys distinct. */
  lemma {:induction false} MergeMeaning(target: Option<Json>, patch: Json, cs: bool)
    requires WellKeyedOption(target, cs) && WellKeyed(patch, cs)
    ensures WellKeyed(Merge(target, patch, cs), cs)
    ensures Canon(Merge(target, patch, cs), cs) == MergeValue(CanonOf(target, cs), Canon(patch, cs))
  {
    WellKeyedUsable(patch, cs);
    MergeSteps(target, patch, cs);
    PatchValueMeaning(CanonOf(target, cs), patch, cs);
  }

  lemma MergedWellKeyed(ms: Members, ps: Members, cs: bool)
    requires WellKeyedMembers(ms, cs) && WellKeyedMembers(ps, cs)
    ensures WellKeyedMembers(MergeMembers(ms, ps, cs), cs)
  {
    forall i | 0 <= i < |ps| ensures Usable(ps[i].item, cs) {
      WellKeyedUsable(ps[i].item, cs);
    }
    MembersSteps(ms, ps, cs);
  }

  lemma MergeOneWellKeyed(ms: Members, p: Keyed<Json>, cs: bool)
    requires WellKeyedMembers(ms, cs) && WellKeyed(p.item, cs)
    ensures WellKeyedMembers(MergeOne(ms, p, cs), cs)
  {
    WellKeyedUsable(p.item, cs);
    OneStep(ms, p, cs);
  }

  lemma WithoutMeaning(ms: Members, key: CStr, cs: bool)
    requires WellKeyedMembers(ms, cs)
    ensures WellKeyedMembers(Without(ms, key, cs), cs)
    ensures ToMap(Without(ms, key, cs), cs) == ToMap(ms, cs) - {Fold(key, cs)}
  {
    hide ToMap, Fold, WellKeyed, Canon;
    var i := FindKey(ms, key, cs);
    ToMapFind(ms, key, cs);
    if i < |ms| {
      ToMapRemove(ms, cs, i);
      RemoveWellKeyed(ms, i, cs);
    } else {
      assert ToMap(ms, cs) - {Fold(key, cs)} == ToMap(ms, cs);
    }
  }

  lemma RemoveWellKeyed(ms: Members, i: nat, cs: bool)
    requires i < |ms| && WellKeyedMembers(ms, cs)
    ensures WellKeyedMembers(RemoveAt(ms, i), cs)
  {
    hide WellKeyed, Fold;
  }

  lemma LookupMeaning(ms: Members, key: CStr, cs: bool)
    requires WellKeyedMembers(ms, cs)
    ensures WellKeyedOption(Lookup(ms, key, cs), cs)
    ensures CanonOf(Lookup(ms, key, cs), cs) == EntryUnder(ToMap(ms, cs), Fold(key, cs))
  {
    ToMapFind(ms, key, cs);
  }

  lemma AppendMeaning(ms: Members, m: Keyed<Json>, cs: bool)
    requires WellKeyedMembers(ms, cs) && WellKeyed(m.item, cs) && Fold(m.key, cs) !in ToMap(ms, cs)
    ensures WellKeyedMembers(ms + [m], cs)
    ensures ToMap(ms + [m], cs) == ToMap(ms, cs)[Fold(m.key, cs) := Canon(m.item, cs)]
  {
    ToMapKeys(ms, cs, Fold(m.key, cs));
    ToMapAppend(ms, m, cs);
  }

  // Idempotence

  /** The members no key of the patch finds, in order. */
  ghost function Untouched(ms: Members, ps: Members, cs: bool): Members {
    if ms == [] then []
    else if FindKey(ps, ms[0].key, cs) < |ps| then Untouched(ms[1..], ps, cs)
    else [ms[0]] + Untouched(ms[1..], ps, cs)
  }

  /** The members of the patch that are not null, each merged with what the target has under its key. */
  ghost function Touched(ms: Members, ps: Members, cs: bool): Members {
    if ps == [] then [] else TouchedByOne(ms, ps[0], cs) + Touched(ms, ps[1..], cs)
  }

  lemma {:induction false} UntouchedSplit(a: Members, b: Members, ps: Members, cs: bool)
    ensures Untouched(a + b, ps, cs) == Untouched(a, ps, cs) + Untouched(b, ps, cs)
  {
    if a == [] {
      assert a + b == b;
    } else {
      assert (a + b)[1..] == a[1..] + b;
      UntouchedSplit(a[1..], b, ps, cs);
    }
  }

  /** Without the member the first key of the patch finds, the rest of the patch leaves the same members alone. */
  lemma {:induction false} UntouchedWithout(ms: Members, ps: Members, cs: bool)
    requires ps != [] && DistinctKeys(ms, cs)
    ensures Untouched(Without(ms, ps[0].key, cs), ps[1..], cs) == Untouched(ms, ps, cs)
  {
    if ms != [] {
      hide Untouched, Fold;
      TailDistinct(ms, cs);
      UntouchedWithout(ms[1..], ps, cs);
      WithoutHead(ms, ps[0].key, cs);
      if Fold(ms[0].key, cs) == Fold(ps[0].key, cs) {
        WithoutNothing(ms[1..], ms[0].key, ps[0].key, cs);
      }
      UntouchedHead(ms, ps, cs);
      UntouchedHead(ms, ps[1..], cs);
      UntouchedHead([ms[0]] + Without(ms[1..], ps[0].key, cs), ps[1..], cs);
      assert FindKey(ps, ms[0].key, cs) < |ps| <==>
             Fold(ps[0].key, cs) == Fold(ms[0].key, cs) || FindKey(ps[1..], ms[0].key, cs) < |ps[1..]|;
    }
  }

  lemma UntouchedHead(ms: Members, ps: Members, cs: bool)
    requires ms != []
    ensures Untouched(ms, ps, cs) ==
            if FindKey(ps, ms[0].key, cs) < |ps| then Untouched(ms[1..], ps, cs) else [ms[0]] + Untouched(ms[1..], ps, cs)
  {
  }

  /** A member of the patch does not change what other keys find. */
  lemma LookupOther(ms: Members, p: Keyed<Json>, key: CStr, cs: bool)
    requires Fold(p.key, cs) != Fold(key, cs)
    ensures Lookup(MergeOne(ms, p, cs), key, cs) == Lookup(ms, key, cs)
  {
    hide Without, Lookup, Merge;
    LookupWithout(ms, p.key, key, cs);
    if !p.item.Null? {
      var m := Keyed(p.key, Merge(Lookup(ms, p.key, cs), p.item, cs));
      LookupSplit(Without(ms, p.key, cs), [m], key, cs);
      OneLookup(m, key, cs);
    }
  }

  lemma {:induction false} TouchedOther(ms: Members, p: Keyed<Json>, qs: Members, cs: bool)
    requires forall i :: 0 <= i < |qs| ==> Fold(p.key, cs) != Fold(qs[i].key, cs)
    ensures Touched(MergeOne(ms, p, cs), qs, cs) == Touched(ms, qs, cs)
  {
    if qs != [] {
      hide Merge, MergeOne, Lookup;
      LookupOther(ms, p, qs[0].key, cs);
      TouchedOther(ms, p, qs[1..], cs);
    }
  }

  /** The members of the result: first the untouched ones, then those of the patch in its order. */
  lemma {:induction false} MergeShape(ms: Members, ps: Members, cs: bool)
    requires WellKeyedMembers(ms, cs) && WellKeyedMembers(ps, cs)
    ensures MergeMembers(ms, ps, cs) == Untouched(ms, ps, cs) + Touched(ms, ps, cs)
    decreases ps
  {
    if ps == [] {
      AllUntouched(ms, cs);
    } else {
      hide Merge, MergeOne, MergeMembers, Lookup, Without, Touched, Untouched, WellKeyed, Fold, FindKey, ToMap;
      var p, rest := ps[0], ps[1..];
      MergeOneWellKeyed(ms, p, cs);
      MergeShape(MergeOne(ms, p, cs), rest, cs);
      TouchedOther(ms, p, rest, cs);
      MembersHead(ms, ps, cs);
      UntouchedByOne(ms, ps, cs);
      Regroup(Untouched(ms, ps, cs), TouchedByOne(ms, p, cs), Touched(ms, rest, cs));
    }
  }

  /** What one member of the patch adds. */
  ghost function TouchedByOne(ms: Members, p: Keyed<Json>, cs: bool): Members {
    if p.item.Null? then [] else [Keyed(p.key, Merge(Lookup(ms, p.key, cs), p.item, cs))]
  }

  lemma MembersHead(ms: Members, ps: Members, cs: bool)
    requires ps != []
    ensures MergeMembers(ms, ps, cs) == MergeMembers(MergeOne(ms, ps[0], cs), ps[1..], cs)
    ensures Touched(ms, ps, cs) == TouchedByOne(ms, ps[0], cs) + Touched(ms, ps[1..], cs)
  {
  }

  lemma {:induction false} AllUntouched(ms: Members, cs: bool)
    ensures Untouched(ms, [], cs) == ms
  {
    if ms != [] {
      AllUntouched(ms[1..], cs);
    }
  }

  lemma UntouchedByOne(ms: Members, ps: Members, cs: bool)
    requires ps != [] && DistinctKeys(ms, cs) && DistinctKeys(ps, cs)
    ensures var p := ps[0];
            Untouched(MergeOne(ms, p, cs), ps[1..], cs) == Untouched(ms, ps, cs) + TouchedByOne(ms, p, cs)
  {
    hide Merge, Lookup, Without, DistinctKeys, Untouched;
    var p, rest := ps[0], ps[1..];
    UntouchedWithout(ms, ps, cs);
    if !p.item.Null? {
      var m := Keyed(p.key, Merge(Lookup(ms, p.key, cs), p.item, cs));
      UntouchedSplit(Without(ms, p.key, cs), [m], rest, cs);
      TailDistinct(ps, cs);
      UntouchedHead([m], rest, cs);
      assert [m][1..] == [];
      NothingUntouched(rest, cs);
    }
  }

  lemma NothingUntouched(ps: Members, cs: bool)
    ensures Untouched([], ps, cs) == []
  {
  }

  lemma {:induction false} UntouchedTwice(ms: Members, ps: Members, cs: bool)
    ensures Untouched(Untouched(ms, ps, cs), ps, cs) == Untouched(ms, ps, cs)
    ensures forall p :: p in ps ==> Lookup(Untouched(ms, ps, cs), p.key, cs).None?
  {
    if ms != [] {
      UntouchedTwice(ms[1..], ps, cs);
    }
  }

  /** Every touched member has a key of the patch. */
  lemma {:induction false} TouchedKeys(ms: Members, qs: Members, ps: Members, cs: bool)
    requires forall q :: q in qs ==> FindKey(ps, q.key, cs) < |ps|
    ensures Untouched(Touched(ms, qs, cs), ps, cs) == []
  {
    if qs != [] {
      hide Merge, Touched;
      MembersHead(ms, qs, cs);
      TouchedKeys(ms, qs[1..], ps, cs);
      UntouchedSplit(TouchedByOne(ms, qs[0], cs), Touched(ms, qs[1..], cs), ps, cs);
    }
  }

  lemma {:induction false} TouchedLookup(ms: Members, qs: Members, i: nat, cs: bool)
    requires DistinctKeys(qs, cs) && i < |qs| && !qs[i].item.Null?
    ensures Lookup(Touched(ms, qs, cs), qs[i].key, cs) == Some(Merge(Lookup(ms, qs[i].key, cs), qs[i].item, cs))
  {
    hide Merge, Lookup, Touched;
    MembersHead(ms, qs, cs);
    LookupSplit(TouchedByOne(ms, qs[0], cs), Touched(ms, qs[1..], cs), qs[i].key, cs);
    OneLookup(Keyed(qs[0].key, Merge(Lookup(ms, qs[0].key, cs), qs[0].item, cs)), qs[i].key, cs);
    NoLookup(qs[i].key, cs);
    if i > 0 {
      assert qs[1..][i-1] == qs[i] && Fold(qs[0].key, cs) != Fold(qs[i].key, cs);
      TouchedLookup(ms, qs[1..], i - 1, cs);
    }
  }

  lemma {:induction false} TouchedAgain(ms: Members, r: Members, qs: Members, cs: bool)
    requires forall q :: q in qs && !q.item.Null? ==>
               Merge(Lookup(r, q.key, cs), q.item, cs) == Merge(Lookup(ms, q.key, cs), q.item, cs)
    ensures Touched(r, qs, cs) == Touched(ms, qs, cs)
  {
    if qs != [] {
      hide Merge, Lookup;
      assert qs[0] in qs;
      TouchedAgain(ms, r, qs[1..], cs);
    }
  }

  /** Merging the same patch again changes nothing, not even the order of the members. */
  lemma {:induction false} MergeIdempotent(target: Option<Json>, patch: Json, cs: bool)
    requires WellKeyedOption(target, cs) && WellKeyed(patch, cs)
    ensures Merge(Some(Merge(target, patch, cs)), patch, cs) == Merge(target, patch, cs)
    decreases patch, 1
  {
    if patch.Object? {
      hide MergeMembers;
      MembersIdempotent(if target.Some? && target.value.Object? then target.value.members else [], patch.members, cs);
    }
  }

  lemma {:induction false} MembersIdempotent(ms: Members, ps: Members, cs: bool)
    requires WellKeyedMembers(ms, cs) && WellKeyedMembers(ps, cs)
    ensures var r := MergeMembers(ms, ps, cs); MergeMembers(r, ps, cs) == r
    decreases ps
  {
    hide Merge, MergeMembers, Lookup, Untouched, Touched, WellKeyed, ToMap, MergeEntries;
    var r := MergeMembers(ms, ps, cs);
    MergedWellKeyed(ms, ps, cs);
    MergeShape(ms, ps, cs);
    MergeShape(r, ps, cs);
    forall q | q in ps && !q.item.Null?
      ensures Merge(Lookup(r, q.key, cs), q.item, cs) == Merge(Lookup(ms, q.key, cs), q.item, cs)
    {
      var i :| 0 <= i < |ps| && ps[i] == q;
      MergedLookup(ms, ps, i, cs);
      LookupMeaning(ms, q.key, cs);
      MergeIdempotent(Lookup(ms, q.key, cs), q.item, cs);
    }
    TouchedAgain(ms, r, ps, cs);
    MergedUntouched(ms, ps, cs);
  }

  lemma MergedLookup(ms: Members, ps: Members, i: nat, cs: bool)
    requires DistinctKeys(ps, cs) && i < |ps| && !ps[i].item.Null?
    ensures Lookup(Untouched(ms, ps, cs) + Touched(ms, ps, cs), ps[i].key, cs) ==
            Some(Merge(Lookup(ms, ps[i].key, cs), ps[i].item, cs))
  {
    hide Merge, Lookup;
    UntouchedTwice(ms, ps, cs);
    TouchedLookup(ms, ps, i, cs);
    assert ps[i] in ps;
    LookupSplit(Untouched(ms, ps, cs), Touched(ms, ps, cs), ps[i].key, cs);
  }

  lemma MergedUntouched(ms: Members, ps: Members, cs: bool)
    ensures Untouched(Untouched(ms, ps, cs) + Touched(ms, ps, cs), ps, cs) == Untouched(ms, ps, cs)
  {
    UntouchedTwice(ms, ps, cs);
    forall q | q in ps ensures FindKey(ps, q.key, cs) < |ps| {
      var i :| 0 <= i < |ps| && ps[i] == q;
    }
    TouchedKeys(ms, ps, ps, cs);
    UntouchedSplit(Untouched(ms, ps, cs), Touched(ms, ps, cs), ps, cs);
  }
}
