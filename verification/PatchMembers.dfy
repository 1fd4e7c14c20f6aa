/** The members of an object while edits for keys that fit run over it. */
module PatchMembers {
  import opened Sequences
  import opened CStrings
  import opened Json
  import opened Lookups
  import opened KeySort
  import opened Compare
  import opened Entries
  import opened Reordering
  import opened Pointers
  import opened Patch
  import opened PathKeys
  import opened PatchMeaning
  import opened PatchGeneration
  import opened PatchRuns
  import opened PatchTargets
  import opened PatchConditions

  // Objects whose keys fit

  /** The members of an object while edits run: those that were there from the start, in front, and the
      ones that were added. Every member the walk has still to come to is in front. */
  ghost predicate Standing(front: Members, back: Members, s: Members, cs: bool) {
    DistinctKeys(front, false) && DistinctKeys(front + back, cs) &&
    forall i :: 0 <= i < |s| ==> MemberStands(front, s[i], cs)
  }

  ghost predicate MemberStands(front: Members, m: Keyed<Json>, cs: bool) {
    var x := Lookup(front, m.key, cs);
    x.Some? && StandsFor(x.value, m.item, cs)
  }

  lemma StandsOtherwise(front: Members, front': Members, m: Keyed<Json>, cs: bool)
    requires MemberStands(front, m, cs) && Lookup(front', m.key, cs) == Lookup(front, m.key, cs)
    ensures MemberStands(front', m, cs)
  {
  }

  /** Detaching looks for a key without regard to case, and still finds the right one: it is in front. */
  lemma DetachedFromFront(front: Members, back: Members, key: CStr, cs: bool)
    requires DistinctKeys(front, false) && Lookup(front, key, cs).Some?
    ensures FindKey(front + back, key, false) == FindKey(front, key, cs) < |front|
  {
    hide Fold;
    FindSplit(front, back, key, false);
    var i := FindKey(front, key, cs);
    FoldCoarser(front[i].key, key, cs);
  }

  /** The token of a key that fits as a last one. */
  lemma LastToken(key: CStr, junk: Byte)
    requires LastClean(key)
    ensures var token := EncodeKey(key, junk);
            SLASH !in token && DecodeToken(token, 0, 0) == key && Join([token]) == [SLASH] + token
  {
    hide EncodeKey, DecodeToken, LastClean, Join;
    var token := EncodeKey(key, junk);
    NoSlashInToken(key, junk);
    assert token[0..] == token && token[..0] + key == key;
    DecodeLastClean(token, 0, key, junk);
    OneTokenPath(token);
  }

  lemma NoSlashInToken(key: CStr, junk: Byte)
    requires LastClean(key)
    ensures SLASH !in EncodeKey(key, junk)
  {
    TokenSlash(key, junk);
  }

  lemma PassRemove(front: Members, back: Members, key: CStr, cs: bool, junk: Byte)
    requires DistinctKeys(front, false) && DistinctKeys(front + back, cs) && Lookup(front, key, cs).Some? && LastClean(key)
    ensures RunEdits(Object(front + back), [Edit(OpRemove, [EncodeKey(key, junk)], None)], cs) ==
            Outcome(0, Object(Without(front, key, cs) + back))
  {
    hide RunOp, Join, EncodeKey, DecodeToken, LastClean, Fold, RunEdits, FindKey;
    var token := EncodeKey(key, junk);
    LastToken(key, junk);
    RunOne(Object(front + back), Edit(OpRemove, [token], None), cs);
    RunAtObject(front + back, OpRemove, token, None, cs);
    DetachedFromFront(front, back, key, cs);
    RemoveFront(front, back, FindKey(front, key, cs));
  }

  lemma PassAdd(front: Members, back: Members, key: CStr, value: Json, cs: bool, junk: Byte)
    requires DistinctKeys(front + back, cs) && LastClean(key)
    ensures RunEdits(Object(front + back), [Edit(OpAdd, [EncodeKey(key, junk)], Some(value))], cs) ==
            Outcome(0, Object(Without(front, key, cs) + (Without(back, key, cs) + [Keyed(key, value)])))
  {
    hide RunOp, Join, EncodeKey, DecodeToken, LastClean, Fold, RunEdits, Without;
    var token := EncodeKey(key, junk);
    LastToken(key, junk);
    RunOne(Object(front + back), Edit(OpAdd, [token], Some(value)), cs);
    RunAtObject(front + back, OpAdd, token, Some(value), cs);
    WithoutSplit(front, back, key, cs);
    Regroup(Without(front, key, cs), Without(back, key, cs), [Keyed(key, value)]);
  }

  lemma PassReplace(front: Members, back: Members, key: CStr, value: Json, cs: bool, junk: Byte)
    requires DistinctKeys(front, false) && DistinctKeys(front + back, cs) && Lookup(front, key, cs).Some? && LastClean(key)
    ensures RunEdits(Object(front + back), [Edit(OpReplace, [EncodeKey(key, junk)], Some(value))], cs) ==
            Outcome(0, Object(Without(front, key, cs) + (Without(back, key, cs) + [Keyed(key, value)])))
  {
    hide RunOp, Join, EncodeKey, DecodeToken, LastClean, Fold, RunEdits, FindKey;
    var token, gone := EncodeKey(key, junk), Without(front, key, cs) + back;
    LastToken(key, junk);
    RunOne(Object(front + back), Edit(OpReplace, [token], Some(value)), cs);
    RunAtObject(front + back, OpReplace, token, Some(value), cs);
    DetachedFromFront(front, back, key, cs);
    RemoveFront(front, back, FindKey(front, key, cs));
    GoneOnce(front, back, key, cs);
    Regroup(Without(front, key, cs), Without(back, key, cs), [Keyed(key, value)]);
  }

  /** A key taken out of the front is in neither part any more. */
  lemma GoneOnce(front: Members, back: Members, key: CStr, cs: bool)
    requires DistinctKeys(front + back, cs) && Lookup(front, key, cs).Some?
    ensures Without(back, key, cs) == back && DistinctKeys(Without(front, key, cs) + back, cs)
    ensures Without(Without(front, key, cs) + back, key, cs) == Without(front, key, cs) + back
  {
    hide Fold;
    var ms := front + back;
    WithoutSplit(front, back, key, cs);
    WithoutDistinct(ms, key, cs, cs);
    LookupGone(ms, key, cs);
    LookupSplit(Without(front, key, cs), Without(back, key, cs), key, cs);
    FindSplit(front, back, key, cs);
    NotInBoth(front, back, key, cs);
  }

  /** The edits for a key that leads to its member happen in that member. */
  lemma PassInside(front: Members, back: Members, key: CStr, es: seq<Edit>, cs: bool, junk: Byte)
    requires Lookup(front, key, cs).Some? && (es == [] || Clean(key)) && forall k :: 0 <= k < |es| ==> es[k].tokens != []
    ensures var n := FindKey(front, key, cs);
            n < |front| && Lookup(front, key, cs) == Some(front[n].item) &&
            var c := RunEdits(front[n].item, es, cs);
            RunEdits(Object(front + back), Prefixed(EncodeKey(key, junk), es), cs) ==
            Outcome(c.status, Object(front[n := Keyed(front[n].key, c.doc)] + back))
  {
    hide EncodeKey, Fold, RunEdits, Clean;
    var n, ms := FindKey(front, key, cs), front + back;
    var c := RunEdits(front[n].item, es, cs);
    if es == [] {
      NoEdits(front[n].item, cs);
      NoEdits(Object(ms), cs);
      assert Prefixed(EncodeKey(key, junk), es) == [];
      assert front[n := Keyed(front[n].key, front[n].item)] == front;
    } else {
      KeyStep(front, back, key, cs);
      NoSlashInClean(key, junk);
      RunBelow(Object(ms), key, es, cs);
      UpdateInFront(front, back, n, c.doc);
    }
  }

  lemma KeyStep(front: Members, back: Members, key: CStr, cs: bool)
    requires Lookup(front, key, cs).Some? && Clean(key)
    ensures Step(Object(front + back), key, cs) == Some(FindKey(front, key, cs))
  {
    hide Fold, FindToken;
    assert key + [] == key;
    CleanTokenFinds(front + back, key, [], cs);
    FindSplit(front, back, key, cs);
  }

  lemma NoSlashInClean(key: CStr, junk: Byte)
    requires Clean(key)
    ensures SLASH !in key && EncodeKey(key, junk) == key
  {
  }

  lemma UpdateInFront(front: Members, back: Members, n: nat, x: Json)
    requires n < |front|
    ensures WithKid(Object(front + back), n, x) == Object(front[n := Keyed(front[n].key, x)] + back)
    ensures Kids(Object(front + back))[n] == front[n].item
  {
    assert (front + back)[n := Keyed(front[n].key, x)] == front[n := Keyed(front[n].key, x)] + back;
  }

  // How the members stand after one turn

  /** What a lookup finds once the member of a key is gone from the front, and what is found under it now. */
  lemma SetStanding(front: Members, back: Members, key: CStr, value: Json, s': Members, cs: bool)
    requires Standing(front, back, s', cs) && forall i :: 0 <= i < |s'| ==> Fold(s'[i].key, cs) != Fold(key, cs)
    ensures var front', back' := Without(front, key, cs), Without(back, key, cs) + [Keyed(key, value)];
            Standing(front', back', s', cs) && Lookup(front' + back', key, cs) == Some(value) &&
            forall l :: Fold(l, cs) != Fold(key, cs) ==> Lookup(front' + back', l, cs) == Lookup(front + back, l, cs)
  {
    hide Fold, Without, Lookup, Equal, WellKeyed, StandsFor;
    var ms, front', m := front + back, Without(front, key, cs), Keyed(key, value);
    var gone := Without(ms, key, cs);
    WithoutSplit(front, back, key, cs);
    WithoutDistinct(ms, key, cs, cs);
    LookupGone(ms, key, cs);
    AppendDistinct(gone, m, cs);
    assert gone + [m] == front' + (Without(back, key, cs) + [m]);
    FrontStanding(front, key, s', cs);
    LookupSplit(gone, [m], key, cs);
    OneLookup(m, key, cs);
    forall l | Fold(l, cs) != Fold(key, cs) ensures Lookup(gone + [m], l, cs) == Lookup(ms, l, cs) {
      LookupSplit(gone, [m], l, cs);
      OneLookup(m, l, cs);
      LookupWithout(ms, key, l, cs);
    }
  }

  lemma FrontStanding(front: Members, key: CStr, s': Members, cs: bool)
    requires DistinctKeys(front, false)
    requires forall i :: 0 <= i < |s'| ==> MemberStands(front, s'[i], cs) && Fold(s'[i].key, cs) != Fold(key, cs)
    ensures DistinctKeys(Without(front, key, cs), false)
    ensures forall i :: 0 <= i < |s'| ==> MemberStands(Without(front, key, cs), s'[i], cs)
  {
    hide Fold, Without, Lookup, MemberStands;
    WithoutDistinct(front, key, cs, false);
    forall i | 0 <= i < |s'| ensures MemberStands(Without(front, key, cs), s'[i], cs) {
      LookupWithout(front, key, s'[i].key, cs);
      StandsOtherwise(front, Without(front, key, cs), s'[i], cs);
    }
  }

  lemma RemoveStanding(front: Members, back: Members, key: CStr, s': Members, cs: bool)
    requires Standing(front, back, s', cs) && Lookup(front, key, cs).Some?
    requires forall i :: 0 <= i < |s'| ==> Fold(s'[i].key, cs) != Fold(key, cs)
    ensures var front' := Without(front, key, cs);
            Standing(front', back, s', cs) && Lookup(front' + back, key, cs).None? &&
            forall l :: Fold(l, cs) != Fold(key, cs) ==> Lookup(front' + back, l, cs) == Lookup(front + back, l, cs)
  {
    hide Fold, Without, Lookup, Equal, WellKeyed, StandsFor;
    var ms := front + back;
    GoneOnce(front, back, key, cs);
    WithoutSplit(front, back, key, cs);
    LookupGone(ms, key, cs);
    FrontStanding(front, key, s', cs);
    forall l | Fold(l, cs) != Fold(key, cs) ensures Lookup(Without(ms, key, cs), l, cs) == Lookup(ms, l, cs) {
      LookupWithout(ms, key, l, cs);
    }
  }

  lemma UpdateLookup(ms: Members, n: nat, x: Json, l: CStr, cs: bool)
    requires n < |ms|
    ensures Lookup(ms[n := Keyed(ms[n].key, x)], l, cs) == if FindKey(ms, l, cs) == n then Some(x) else Lookup(ms, l, cs)
  {
    hide Fold;
    var ns := ms[n := Keyed(ms[n].key, x)];
    SameKeysFind(ms, ns, l, cs);
  }

  lemma {:induction false} SameKeysFind(ms: Members, ns: Members, l: CStr, cs: bool)
    requires |ms| == |ns| && forall i :: 0 <= i < |ms| ==> ms[i].key == ns[i].key
    ensures FindKey(ms, l, cs) == FindKey(ns, l, cs)
  {
    if ms != [] {
      hide Fold;
      SameKeysFind(ms[1..], ns[1..], l, cs);
    }
  }

  lemma InsideStanding(front: Members, back: Members, key: CStr, x: Json, s': Members, cs: bool)
    requires Standing(front, back, s', cs) && FindKey(front, key, cs) < |front|
    requires forall i :: 0 <= i < |s'| ==> Fold(s'[i].key, cs) != Fold(key, cs)
    ensures var n := FindKey(front, key, cs);
            var front' := front[n := Keyed(front[n].key, x)];
            Standing(front', back, s', cs) && Lookup(front' + back, key, cs) == Some(x) &&
            forall l :: Fold(l, cs) != Fold(key, cs) ==> Lookup(front' + back, l, cs) == Lookup(front + back, l, cs)
  {
    hide Fold, Lookup, Equal, WellKeyed, StandsFor;
    var n := FindKey(front, key, cs);
    var front', ms := front[n := Keyed(front[n].key, x)], front + back;
    assert front' + back == ms[n := Keyed(ms[n].key, x)];
    FindSplit(front, back, key, cs);
    UpdateLookup(ms, n, x, key, cs);
    forall l | Fold(l, cs) != Fold(key, cs)
      ensures Lookup(front' + back, l, cs) == Lookup(ms, l, cs) && Lookup(front', l, cs) == Lookup(front, l, cs)
    {
      UpdateLookup(ms, n, x, l, cs);
      UpdateLookup(front, n, x, l, cs);
    }
    forall i | 0 <= i < |s'| ensures MemberStands(front', s'[i], cs) {
      StandsOtherwise(front, front', s'[i], cs);
    }
    UpdateDistinct(front, n, x, false);
    UpdateDistinct(ms, n, x, cs);
  }

  lemma UpdateDistinct(ms: Members, n: nat, x: Json, cs: bool)
    requires n < |ms| && DistinctKeys(ms, cs)
    ensures DistinctKeys(ms[n := Keyed(ms[n].key, x)], cs)
  {
    hide Fold;
    var ns := ms[n := Keyed(ms[n].key, x)];
    assert forall i :: 0 <= i < |ms| ==> ns[i].key == ms[i].key;
  }

  // The walk over keys that fit

  /** What the edits leave alone is as it was. */
  ghost predicate Arrived(ms: Members, doc: Json, s: Members, t: Members, cs: bool) {
    doc.Object? && DistinctKeys(doc.members, cs) &&
    forall l :: Lookup(s, l, cs).None? && Lookup(t, l, cs).None? ==> Lookup(doc.members, l, cs) == Lookup(ms, l, cs)
  }

  /** What the walk names is as the target says. */
  ghost predicate Reached(doc: Json, s: Members, t: Members, cs: bool) {
    doc.Object? &&
    forall l :: Lookup(s, l, cs).Some? || Lookup(t, l, cs).Some? ==> SameEntry(Lookup(doc.members, l, cs), Lookup(t, l, cs), cs)
  }

  lemma ArrivedBefore(ms: Members, next: Members, doc: Json, s: Members, s': Members, t: Members, t': Members, key: CStr, cs: bool)
    requires Gone(s, s', key, cs) && Gone(t, t', key, cs) && (Lookup(s, key, cs).Some? || Lookup(t, key, cs).Some?)
    requires forall l :: Fold(l, cs) != Fold(key, cs) ==> Lookup(next, l, cs) == Lookup(ms, l, cs)
    requires Arrived(next, doc, s', t', cs)
    ensures Arrived(ms, doc, s, t, cs) && Lookup(doc.members, key, cs) == Lookup(next, key, cs)
  {
    hide Fold, Lookup;
    forall l | Lookup(s, l, cs).None? && Lookup(t, l, cs).None? ensures Lookup(doc.members, l, cs) == Lookup(ms, l, cs) {
      if Fold(l, cs) == Fold(key, cs) {
        LookupSame(s, l, key, cs);
        LookupSame(t, l, key, cs);
      }
    }
  }

  lemma ReachedBefore(doc: Json, s: Members, s': Members, t: Members, t': Members, key: CStr, cs: bool)
    requires doc.Object? && Gone(s, s', key, cs) && Gone(t, t', key, cs) && (Lookup(s, key, cs).Some? || Lookup(t, key, cs).Some?)
    ensures Reached(doc, s, t, cs) <==> Reached(doc, s', t', cs) && SameEntry(Lookup(doc.members, key, cs), Lookup(t, key, cs), cs)
  {
    hide Fold, Lookup, SameEntry;
    if Reached(doc, s, t, cs) {
      forall l | Lookup(s', l, cs).Some? || Lookup(t', l, cs).Some?
        ensures SameEntry(Lookup(doc.members, l, cs), Lookup(t', l, cs), cs)
      {
        if Fold(l, cs) == Fold(key, cs) {
          LookupSame(s', l, key, cs);
          LookupSame(t', l, key, cs);
        }
      }
    }
    if Reached(doc, s', t', cs) && SameEntry(Lookup(doc.members, key, cs), Lookup(t, key, cs), cs) {
      forall l | Lookup(s, l, cs).Some? || Lookup(t, l, cs).Some?
        ensures SameEntry(Lookup(doc.members, l, cs), Lookup(t, l, cs), cs)
      {
        if Fold(l, cs) == Fold(key, cs) {
          LookupSame(t, l, key, cs);
          LookupSame(doc.members, l, key, cs);
        }
      }
    }
  }

  lemma TurnDone(ms: Members, next: Members, o: Outcome, s: Members, s': Members, t: Members, t': Members, key: CStr,
                 headFits: bool, tailFits: bool, cs: bool, junk: Byte)
    requires Gone(s, s', key, cs) && Gone(t, t', key, cs) && (Lookup(s, key, cs).Some? || Lookup(t, key, cs).Some?)
    requires forall l :: Fold(l, cs) != Fold(key, cs) ==> Lookup(next, l, cs) == Lookup(ms, l, cs)
    requires o.status == 0 ==> Arrived(next, o.doc, s', t', cs)
    requires Decides(tailFits, o.status == 0 && Reached(o.doc, s', t', cs), junk)
    requires Decides(headFits, SameEntry(Lookup(next, key, cs), Lookup(t, key, cs), cs), junk)
    ensures o.status == 0 ==> Arrived(ms, o.doc, s, t, cs)
    ensures Decides(headFits && tailFits, o.status == 0 && Reached(o.doc, s, t, cs), junk)
  {
    hide Arrived, Reached, Gone, Lookup, SameEntry, Fold;
    if o.status == 0 {
      ArrivedBefore(ms, next, o.doc, s, s', t, t', key, cs);
      ArrivedObject(next, o.doc, s', t', cs);
      ReachedBefore(o.doc, s, s', t, t', key, cs);
    }
  }

  lemma ArrivedObject(ms: Members, doc: Json, s: Members, t: Members, cs: bool)
    requires Arrived(ms, doc, s, t, cs)
    ensures doc.Object?
  {
  }

  /** What the rest of the walk needs. */
  lemma StandingFor(front: Members, back: Members, s: Members, s': Members, key: CStr, cs: bool)
    requires Standing(front, back, s, cs) && Gone(s, s', key, cs) && (s' == s || (s != [] && s' == s[1..]))
    ensures Standing(front, back, s', cs) && forall i :: 0 <= i < |s'| ==> Fold(s'[i].key, cs) != Fold(key, cs)
  {
    hide Fold, Lookup, MemberStands;
    NotAmong(s', key, cs);
  }

  lemma FirstStands(front: Members, back: Members, s: Members, cs: bool)
    requires s != [] && Standing(front, back, s, cs)
    ensures MemberStands(front, s[0], cs) && DistinctKeys(front, false) && DistinctKeys(front + back, cs)
  {
  }

  /** Member by member, the document stands for the source. */
  lemma DocStanding(from: Json, doc: Json, cs: bool)
    requires from.Object? && doc.Object? && Proper(from) && StandsFor(doc, from, cs)
    ensures Standing(doc.members, [], Sort(from.members, cs), cs)
  {
    hide Sort, Fold, Equal, Plain, Lookup;
    var s, ms := Sort(from.members, cs), doc.members;
    assert ms + [] == ms;
    MembersKeyed(doc, cs);
    MembersKeyed(from, cs);
    SortMembership(from.members, cs);
    SortKeepsMap(from.members, cs, cs);
    forall i | 0 <= i < |s| ensures MemberStands(ms, s[i], cs) {
      EqualEntries(ms, from.members, s[i].key, cs);
      SortLookup(from.members, s[i].key, cs);
      LookupMember(s, i, cs);
      FoundKeyed(doc, s[i].key, cs);
    }
  }

  lemma FoundKeyed(j: Json, key: CStr, cs: bool)
    requires j.Object? && WellKeyed(j, false) && Lookup(j.members, key, cs).Some?
    ensures WellKeyed(Lookup(j.members, key, cs).value, false)
  {
  }

  /** Where every entry that the walk names is reached, and no other is touched, the target is reached. */
  lemma ReachedIsEqual(from: Json, to: Json, doc: Json, result: Json, cs: bool)
    requires from.Object? && to.Object? && doc.Object? && Proper(from) && Proper(to) && StandsFor(doc, from, cs)
    requires Arrived(doc.members, result, Sort(from.members, cs), Sort(to.members, cs), cs)
    ensures Reached(result, Sort(from.members, cs), Sort(to.members, cs), cs) <==> Equal(result, to, cs)
  {
    hide Sort, Fold, Equal, Plain, Lookup, WellKeyed, SameEntry;
    MembersKeyed(from, cs);
    MembersKeyed(to, cs);
    var s, t := Sort(from.members, cs), Sort(to.members, cs);
    forall l ensures Lookup(s, l, cs) == Lookup(from.members, l, cs) && Lookup(t, l, cs) == Lookup(to.members, l, cs) {
      SortLookup(from.members, l, cs);
      SortLookup(to.members, l, cs);
    }
    if Reached(result, s, t, cs) {
      forall l ensures SameEntry(Lookup(result.members, l, cs), Lookup(to.members, l, cs), cs) {
        if Lookup(s, l, cs).None? && Lookup(t, l, cs).None? {
          EqualEntries(doc.members, from.members, l, cs);
          NoEntry(Lookup(doc.members, l, cs), Lookup(from.members, l, cs), cs);
        }
      }
      EntriesEqual(result.members, to.members, cs);
    } else if Equal(result, to, cs) {
      forall l | Lookup(s, l, cs).Some? || Lookup(t, l, cs).Some?
        ensures SameEntry(Lookup(result.members, l, cs), Lookup(t, l, cs), cs)
      {
        EqualEntries(result.members, to.members, l, cs);
      }
      assert false;
    }
  }

  lemma NoEntry(a: Option<Json>, b: Option<Json>, cs: bool)
    requires SameEntry(a, b, cs) && b.None?
    ensures a.None? && SameEntry(a, None, cs)
  {
  }
}
