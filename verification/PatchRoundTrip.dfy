/** A generated patch, applied, reaches the target document exactly when its paths can say which keys they mean. */
module PatchRoundTrip {
  import opened CStrings
  import opened Json
  import opened Lookups
  import opened KeySort
  import opened Compare
  import opened Entries
  import opened SortedCompare
  import opened Reordering
  import opened Decimals
  import opened Pointers
  import opened Patch
  import opened PathKeys
  import opened PatchMeaning
  import opened PatchGeneration
  import opened PatchRuns
  import opened PatchTargets
  import opened PatchConditions
  import opened PatchMembers
  import opened PatchMisfits
  import opened PatchStandard

  // Arrays

  lemma {:induction false} RunRemovals(xs: seq<Json>, index: nat, cs: bool)
    requires index <= |xs| < SIZE_LIMIT
    ensures RunEdits(Array(xs), Removals(|xs| - index, index), cs) == Outcome(0, Array(xs[..index]))
    decreases |xs|
  {
    hide RunOp, RemoveAt, Dec;
    if index == |xs| {
      assert xs[..index] == xs;
    } else {
      var es, ys := Removals(|xs| - index, index), RemoveAt(xs, index);
      RunAtArray(xs, OpRemove, index, None, cs);
      IndexToken(index);
      OneTokenPath(Dec(index));
      RemovedTail(xs, index);
      assert es[1..] == Removals(|ys| - index, index);
      RunRemovals(ys, index, cs);
    }
  }

  lemma RemovedTail<T>(s: seq<T>, index: nat)
    requires index < |s|
    ensures |RemoveAt(s, index)| == |s| - 1 && RemoveAt(s, index)[..index] == s[..index]
  {
  }

  lemma {:induction false} RunAdditions(xs: seq<Json>, fs: seq<Json>, cs: bool)
    ensures RunEdits(Array(xs), Additions(fs), cs) == Outcome(0, Array(xs + fs))
    decreases |fs|
  {
    hide RunOp, RunEdits;
    if fs == [] {
      NoEdits(Array(xs), cs);
      assert xs + fs == xs;
    } else {
      var e := Edit(OpAdd, [[DASH]], Some(fs[0]));
      RunAtEnd(xs, fs[0], cs);
      RunOne(Array(xs), e, cs);
      RunConcat(Array(xs), [e], Additions(fs[1..]), cs);
      RunAdditions(xs + [fs[0]], fs[1..], cs);
      assert xs + [fs[0]] + fs[1..] == xs + fs;
    }
  }

  /** The edits for one element happen in that element. */
  lemma RunElement(xs: seq<Json>, i: nat, from: Json, to: Json, es: seq<Edit>, cs: bool)
    requires i < |xs| < SIZE_LIMIT && Shaped(from, to, es)
    ensures var c := RunEdits(xs[i], es, cs);
            RunEdits(Array(xs), Prefixed(Dec(i), es), cs) == Outcome(c.status, Array(xs[i := c.doc]))
  {
    hide RunOp, Dec, Step;
    var token := Dec(i);
    IndexToken(i);
    if es == [Edit(OpReplace, [], Some(to))] {
      var e := Edit(OpReplace, [token], Some(to));
      assert [token] + [] == [token];
      assert Prefixed(token, es) == [e];
      RunOne(Array(xs), e, cs);
      OneTokenPath(token);
      RunAtArray(xs, OpReplace, i, Some(to), cs);
      RunOne(xs[i], es[0], cs);
      ReplacedHere(xs[i], to, cs);
    } else {
      ElementStep(xs, i, cs);
      RunBelow(Array(xs), token, es, cs);
    }
  }

  lemma ReplacedHere(doc: Json, to: Json, cs: bool)
    ensures RunOp(doc, OpReplace, Join([]), Some(to), cs) == Outcome(0, to)
  {
  }

  lemma ElementStep(xs: seq<Json>, i: nat, cs: bool)
    requires i < |xs| < SIZE_LIMIT
    ensures Step(Array(xs), Dec(i), cs) == Some(i)
  {
    hide Dec, DecodeIndex;
    IndexToken(i);
  }

  ghost predicate ElementsFit(from: Json, to: Json, i: nat, cs: bool)
    requires from.Array? && to.Array?
  {
    forall k :: i <= k < |from.elems| && k < |to.elems| ==> Expressible(from.elems[k], to.elems[k], cs)
  }

  /** From one index on, the elements equal those of the target. */
  ghost predicate ElementsReached(o: Outcome, fs: seq<Json>, i: nat, cs: bool) {
    o.status == 0 && o.doc.Array? && |o.doc.elems| == |fs| && forall k :: i <= k < |fs| ==> Equal(o.doc.elems[k], fs[k], cs)
  }

  lemma {:induction false} ElementsWork(from: Json, to: Json, xs: seq<Json>, i: nat, cs: bool, junk: Byte)
    requires from.Array? && to.Array? && i <= |from.elems| && i <= |to.elems| && |xs| == |from.elems|
    requires Proper(from) && Proper(to) && Sized(from) && Sized(to)
    requires forall k :: i <= k < |xs| ==> StandsFor(xs[k], from.elems[k], cs)
    ensures var o := RunEdits(Array(xs), ElementDiffs(from, to, i, cs, junk), cs);
            (o.status == 0 ==> o.doc.Array? && |o.doc.elems| == |to.elems| && forall k :: 0 <= k < i ==> o.doc.elems[k] == xs[k]) &&
            Decides(ElementsFit(from, to, i, cs), ElementsReached(o, to.elems, i, cs), junk)
    decreases from, 0, |from.elems| - i
  {
    hide Expressible, Equal, Proper, Sized, Diffs, Dec, RunEdits, Removals, Additions;
    var es, fs := from.elems, to.elems;
    ArrayParts(from);
    ArrayParts(to);
    if i < |es| && i < |fs| {
      var edits := Diffs(es[i], fs[i], cs, junk);
      var c := RunEdits(xs[i], edits, cs);
      DiffsShaped(es[i], fs[i], cs, junk);
      RunElement(xs, i, es[i], fs[i], edits, cs);
      DiffsWork(es[i], fs[i], xs[i], cs, junk);
      RunConcat(Array(xs), Prefixed(Dec(i), edits), ElementDiffs(from, to, i + 1, cs, junk), cs);
      ElementsWork(from, to, xs[i := c.doc], i + 1, cs, junk);
      FitsFrom(from, to, i, cs);
      if c.status == 0 {
        var o := RunEdits(Array(xs[i := c.doc]), ElementDiffs(from, to, i + 1, cs, junk), cs);
        if o.status == 0 {
          ReachedFrom(o, xs[i := c.doc], fs, i, cs);
        }
      }
    } else {
      LeftoversWork(from, to, xs, i, cs);
    }
  }

  lemma ArrayParts(j: Json)
    requires j.Array? && Proper(j) && Sized(j)
    ensures |j.elems| < SIZE_LIMIT && forall k :: 0 <= k < |j.elems| ==> Proper(j.elems[k]) && Sized(j.elems[k])
  {
  }

  lemma FitsFrom(from: Json, to: Json, i: nat, cs: bool)
    requires from.Array? && to.Array? && i < |from.elems| && i < |to.elems|
    ensures ElementsFit(from, to, i, cs) <==> Expressible(from.elems[i], to.elems[i], cs) && ElementsFit(from, to, i + 1, cs)
  {
    hide Expressible;
  }

  lemma ReachedFrom(o: Outcome, xs: seq<Json>, fs: seq<Json>, i: nat, cs: bool)
    requires o.status == 0 && o.doc.Array? && |o.doc.elems| == |fs| && i < |fs| && i < |xs| && o.doc.elems[i] == xs[i]
    ensures ElementsReached(o, fs, i, cs) <==> Equal(xs[i], fs[i], cs) && ElementsReached(o, fs, i + 1, cs)
  {
    hide Equal;
  }

  lemma LeftoversWork(from: Json, to: Json, xs: seq<Json>, i: nat, cs: bool)
    requires from.Array? && to.Array? && i <= |from.elems| && i <= |to.elems| && |xs| == |from.elems| < SIZE_LIMIT
    requires (i == |from.elems| || i == |to.elems|) && forall k :: 0 <= k < |to.elems| ==> Proper(to.elems[k])
    ensures var o := RunEdits(Array(xs), Removals(|from.elems| - i, i) + Additions(to.elems[i..]), cs);
            ElementsReached(o, to.elems, i, cs) && forall k :: 0 <= k < i ==> o.doc.elems[k] == xs[k]
  {
    hide Equal, Proper, RunEdits, Removals, Additions;
    var fs := to.elems;
    RunRemovals(xs, i, cs);
    RunConcat(Array(xs), Removals(|xs| - i, i), Additions(fs[i..]), cs);
    RunAdditions(xs[..i], fs[i..], cs);
    forall k | i <= k < |fs| ensures Equal((xs[..i] + fs[i..])[k], fs[k], cs) {
      EqualToItself(fs[k], cs);
    }
  }

  lemma SameValue(j: Json, cs: bool)
    requires Proper(j)
    ensures SameEntry(Some(j), Some(j), cs)
  {
    hide Equal;
    EqualToItself(j, cs);
  }

  /** The walk over two sorted lists whose keys fit leads to the second one exactly when everything below fits. */
  lemma {:induction false} WalkWorks(from: Json, front: Members, back: Members, s: Members, t: Members, cs: bool, junk: Byte)
    requires (forall i :: 0 <= i < |s| ==> s[i].item < from) && Row(s, cs) && Row(t, cs)
    requires Standing(front, back, s, cs) && HeadsFit(s, t, cs)
    ensures var o := RunEdits(Object(front + back), WalkDiffs(from, s, t, cs, junk), cs);
            (o.status == 0 ==> Arrived(front + back, o.doc, s, t, cs)) &&
            Decides(WalkFits(s, t, cs), o.status == 0 && Reached(o.doc, s, t, cs), junk)
    decreases from, 0, |s| + |t|, 2
  {
    hide RunEdits, Row, Lookup, SameEntry, WalkDiffs;
    if s == [] && t == [] {
      hide Fold;
      NothingToWalkFor(from, s, t, cs, junk);
      NoEdits(Object(front + back), cs);
      NoLookups(s, t, cs);
    } else {
      hide Standing, HeadsFit, WalkFits, Arrived, Reached;
      var order := WalkOrder(s, t, cs);
      if order == 0 {
        WalkThroughBoth(from, front, back, s, t, cs, junk);
      } else if order < 0 {
        WalkPastSource(from, front, back, s, t, cs, junk);
      } else {
        WalkPastTarget(from, front, back, s, t, cs, junk);
      }
    }
  }

  lemma NothingToWalkFor(from: Json, s: Members, t: Members, cs: bool, junk: Byte)
    requires s == [] && t == []
    ensures WalkDiffs(from, s, t, cs, junk) == []
  {
  }

  lemma NoLookups(s: Members, t: Members, cs: bool)
    requires s == [] && t == []
    ensures forall l :: Lookup(s, l, cs).None? && Lookup(t, l, cs).None?
  {
  }

  lemma {:induction false} WalkPastSource(from: Json, front: Members, back: Members, s: Members, t: Members, cs: bool, junk: Byte)
    requires (forall i :: 0 <= i < |s| ==> s[i].item < from) && Row(s, cs) && Row(t, cs)
    requires Standing(front, back, s, cs) && HeadsFit(s, t, cs) && s != [] && WalkOrder(s, t, cs) < 0
    ensures var o := RunEdits(Object(front + back), WalkDiffs(from, s, t, cs, junk), cs);
            (o.status == 0 ==> Arrived(front + back, o.doc, s, t, cs)) &&
            Decides(WalkFits(s, t, cs), o.status == 0 && Reached(o.doc, s, t, cs), junk)
    decreases from, 0, |s| + |t|, 1
  {
    hide RunEdits, Row, Lookup, SameEntry, Standing, Arrived, Reached, Gone, Fold, StandsFor, LastClean, EncodeKey, Without, Decides,
         DistinctKeys, KeyOrder;
    var key, s', t' := WalkTurn(s, t, cs);
    FirstStands(front, back, s, cs);
    StandingFor(front, back, s, s', key, cs);
    var front' := Without(front, key, cs);
    PassRemove(front, back, key, cs, junk);
    RemoveStanding(front, back, key, s', cs);
    var first, rest := [Edit(OpRemove, [EncodeKey(key, junk)], None)], WalkDiffs(from, s', t', cs, junk);
    RunConcat(Object(front + back), first, rest, cs);
    NothingIsNothing(cs, junk);
    WalkOn(from, front + back, front', back, s, s', t, t', key, true, cs, junk);
  }

  lemma NothingIsNothing(cs: bool, junk: Byte)
    ensures Decides(true, SameEntry(None, None, cs), junk)
  {
  }

  lemma {:induction false} WalkPastTarget(from: Json, front: Members, back: Members, s: Members, t: Members, cs: bool, junk: Byte)
    requires (forall i :: 0 <= i < |s| ==> s[i].item < from) && Row(s, cs) && Row(t, cs)
    requires Standing(front, back, s, cs) && HeadsFit(s, t, cs) && t != [] && WalkOrder(s, t, cs) > 0
    ensures var o := RunEdits(Object(front + back), WalkDiffs(from, s, t, cs, junk), cs);
            (o.status == 0 ==> Arrived(front + back, o.doc, s, t, cs)) &&
            Decides(WalkFits(s, t, cs), o.status == 0 && Reached(o.doc, s, t, cs), junk)
    decreases from, 0, |s| + |t|, 1
  {
    hide RunEdits, Row, Lookup, SameEntry, Arrived, Reached, Gone, Fold, MemberStands, LastClean, EncodeKey, Without, Decides,
         DistinctKeys, KeyOrder;
    var key, s', t' := WalkTurn(s, t, cs);
    RowTail(t, cs);
    StandingFor(front, back, s, s', key, cs);
    var value := t[0].item;
    var front', back' := Without(front, key, cs), Without(back, key, cs) + [Keyed(key, value)];
    PassAdd(front, back, key, value, cs, junk);
    SetStanding(front, back, key, value, s', cs);
    var first, rest := [Edit(OpAdd, [EncodeKey(key, junk)], Some(value))], WalkDiffs(from, s', t', cs, junk);
    RunConcat(Object(front + back), first, rest, cs);
    SameValue(value, cs);
    Certain(SameEntry(Some(value), Some(value), cs), junk);
    WalkOn(from, front + back, front', back', s, s', t, t', key, true, cs, junk);
  }

  lemma Certain(works: bool, junk: Byte)
    requires works
    ensures Decides(true, works, junk)
  {
  }

  lemma {:induction false} WalkThroughBoth(from: Json, front: Members, back: Members, s: Members, t: Members, cs: bool, junk: Byte)
    requires (forall i :: 0 <= i < |s| ==> s[i].item < from) && Row(s, cs) && Row(t, cs)
    requires Standing(front, back, s, cs) && HeadsFit(s, t, cs) && s != [] && t != [] && WalkOrder(s, t, cs) == 0
    ensures var o := RunEdits(Object(front + back), WalkDiffs(from, s, t, cs, junk), cs);
            (o.status == 0 ==> Arrived(front + back, o.doc, s, t, cs)) &&
            Decides(WalkFits(s, t, cs), o.status == 0 && Reached(o.doc, s, t, cs), junk)
    decreases from, 0, |s| + |t|, 1
  {
    hide RunEdits, Row, Lookup, SameEntry, Standing, Arrived, Reached, Gone, Fold, LastClean, Clean, EncodeKey, Without, Decides, Equal,
         DistinctKeys, KeyOrder, Diffs, Expressible, StandsFor, Whole, FindKey;
    var key, s', t' := WalkTurn(s, t, cs);
    RowTail(s, cs);
    RowTail(t, cs);
    FirstStands(front, back, s, cs);
    StandingFor(front, back, s, s', key, cs);
    var value, es := t[0].item, Diffs(s[0].item, t[0].item, cs, junk);
    var token := EncodeKey(key, junk);
    DiffsShaped(s[0].item, value, cs, junk);
    SilentWhenEqual(s[0].item, value, cs, junk);
    RunConcat(Object(front + back), Prefixed(token, es), WalkDiffs(from, s', t', cs, junk), cs);
    if Whole(s[0].item, value) && es != [] {
      var front', back' := Without(front, key, cs), Without(back, key, cs) + [Keyed(key, value)];
      OnePrefixed(token, value);
      PassReplace(front, back, key, value, cs, junk);
      SetStanding(front, back, key, value, s', cs);
      SameValue(value, cs);
      Certain(SameEntry(Some(value), Some(value), cs), junk);
      WalkOn(from, front + back, front', back', s, s', t, t', key, true, cs, junk);
    } else {
      PassInside(front, back, key, es, cs, junk);
      var n := FindKey(front, key, cs);
      var c := RunEdits(front[n].item, es, cs);
      PairWorks(s[0], value, front[n].item, cs, junk);
      if c.status == 0 {
        InsideStanding(front, back, key, c.doc, s', cs);
        EntryIsEqual(c.doc, value, cs);
        WalkOn(from, front + back, front[n := Keyed(front[n].key, c.doc)], back, s, s', t, t', key, PairFits(s[0], value, cs), cs, junk);
      } else {
        Impossible(PairFits(s[0], value, cs), WalkFits(s', t', cs), junk);
      }
    }
  }

  /** The walk goes on behind a turn that is done. */
  lemma {:induction false} WalkOn(from: Json, ms: Members, front: Members, back: Members, s: Members, s': Members, t: Members, t': Members,
                                  key: CStr, headFits: bool, cs: bool, junk: Byte)
    requires (forall i :: 0 <= i < |s'| ==> s'[i].item < from) && Row(s', cs) && Row(t', cs) && |s'| + |t'| < |s| + |t|
    requires Gone(s, s', key, cs) && Gone(t, t', key, cs) && (Lookup(s, key, cs).Some? || Lookup(t, key, cs).Some?)
    requires Standing(front, back, s', cs) && HeadsFit(s', t', cs)
    requires forall l :: Fold(l, cs) != Fold(key, cs) ==> Lookup(front + back, l, cs) == Lookup(ms, l, cs)
    requires Decides(headFits, SameEntry(Lookup(front + back, key, cs), Lookup(t, key, cs), cs), junk)
    ensures var o := RunEdits(Object(front + back), WalkDiffs(from, s', t', cs, junk), cs);
            (o.status == 0 ==> Arrived(ms, o.doc, s, t, cs)) &&
            Decides(headFits && WalkFits(s', t', cs), o.status == 0 && Reached(o.doc, s, t, cs), junk)
    decreases from, 0, |s| + |t|, 0
  {
    hide RunEdits, Row, Lookup, SameEntry, Standing, Arrived, Reached, Gone, Fold, Decides, HeadsFit, WalkFits, WalkDiffs;
    WalkWorks(from, front, back, s', t', cs, junk);
    TurnDone(ms, front + back, RunEdits(Object(front + back), WalkDiffs(from, s', t', cs, junk), cs), s, s', t, t', key,
             headFits, WalkFits(s', t', cs), cs, junk);
  }

  lemma Impossible(headFits: bool, tailFits: bool, junk: Byte)
    requires Decides(headFits, false, junk)
    ensures Decides(headFits && tailFits, false, junk)
  {
  }

  lemma EntryIsEqual(a: Json, b: Json, cs: bool)
    ensures SameEntry(Some(a), Some(b), cs) == Equal(a, b, cs)
  {
  }

  lemma OnePrefixed(token: CStr, value: Json)
    ensures Prefixed(token, [Edit(OpReplace, [], Some(value))]) == [Edit(OpReplace, [token], Some(value))]
  {
    assert [token] + [] == [token];
  }

  /** Where a key fits, the pair fits exactly when the edits below the key do what they should. */
  lemma {:induction false} PairWorks(m: Keyed<Json>, value: Json, x: Json, cs: bool, junk: Byte)
    requires Proper(m.item) && Proper(value) && Sized(m.item) && Sized(value) && StandsFor(x, m.item, cs)
    requires Equal(m.item, value, cs) || Fits(m.key, Whole(m.item, value))
    ensures var c := RunEdits(x, Diffs(m.item, value, cs, junk), cs);
            Decides(PairFits(m, value, cs), c.status == 0 && Equal(c.doc, value, cs), junk)
    decreases m.item, 2
  {
    hide Proper, Sized, StandsFor, Equal, Diffs, RunEdits, LastClean, Clean;
    DiffsWork(m.item, value, x, cs, junk);
  }

  // The round trip

  /** The edits work on whatever stands for the source exactly when they can be expressed. */
  lemma {:induction false} DiffsWork(from: Json, to: Json, doc: Json, cs: bool, junk: Byte)
    requires Proper(from) && Proper(to) && Sized(from) && Sized(to) && StandsFor(doc, from, cs)
    ensures Decides(Expressible(from, to, cs), Works(doc, to, Diffs(from, to, cs, junk), cs), junk)
    decreases from, 1, 0
  {
    hide Diffs, RunEdits, Equal, Proper, Sized, WellKeyed, Decides;
    var es := Diffs(from, to, cs, junk);
    SilentWhenEqual(from, to, cs, junk);
    DiffsShaped(from, to, cs, junk);
    if es == [] {
      NoEdits(doc, cs);
      EqualTransitive(doc, from, to, cs);
      Certain(Works(doc, to, es, cs), junk);
    } else if Whole(from, to) {
      RunOne(doc, es[0], cs);
      ReplacedHere(doc, to, cs);
      EqualToItself(to, cs);
      Certain(Works(doc, to, es, cs), junk);
    } else if from.Array? {
      ArrayWorks(from, to, doc, cs, junk);
    } else {
      ObjectWorks(from, to, doc, cs, junk);
    }
  }

  lemma {:induction false} ArrayWorks(from: Json, to: Json, doc: Json, cs: bool, junk: Byte)
    requires Proper(from) && Proper(to) && Sized(from) && Sized(to) && StandsFor(doc, from, cs)
    requires from.Array? && to.Array? && !Equal(from, to, cs)
    ensures Decides(Expressible(from, to, cs), Works(doc, to, Diffs(from, to, cs, junk), cs), junk)
    decreases from, 0, |from.elems| + 1
  {
    hide RunEdits, Proper, Sized, ElementDiffs;
    StandingElements(from, doc, cs);
    ElementsWork(from, to, doc.elems, 0, cs, junk);
  }

  lemma StandingElements(from: Json, doc: Json, cs: bool)
    requires from.Array? && StandsFor(doc, from, cs)
    ensures doc.Array? && |doc.elems| == |from.elems|
    ensures forall k :: 0 <= k < |doc.elems| ==> StandsFor(doc.elems[k], from.elems[k], cs)
  {
  }

  lemma {:induction false} ObjectWorks(from: Json, to: Json, doc: Json, cs: bool, junk: Byte)
    requires Proper(from) && Proper(to) && Sized(from) && Sized(to) && StandsFor(doc, from, cs)
    requires from.Object? && to.Object? && !Equal(from, to, cs)
    ensures Decides(Expressible(from, to, cs), Works(doc, to, Diffs(from, to, cs, junk), cs), junk)
    decreases from, 0, |from.members| + |to.members| + 1, 2
  {
    hide Sort, Proper, Sized, RunEdits, Equal, Row, WellKeyed, HeadsFit, WalkFits, MembersFit, WalkDiffs, Lookup, Arrived, Reached,
         Standing;
    var s, t := Sort(from.members, cs), Sort(to.members, cs);
    SortMembership(from.members, cs);
    SortedRow(from, cs);
    SortedRow(to, cs);
    WalkFitsMembers(s, t, cs);
    SortedFits(from, to, cs);
    FitsNeedHeads(s, t, cs);
    if HeadsFit(s, t, cs) {
      EqualObject(doc, from, cs);
      DocStanding(from, doc, cs);
      assert doc.members + [] == doc.members;
      WalkWorks(from, doc.members, [], s, t, cs, junk);
      var o := RunEdits(doc, WalkDiffs(from, s, t, cs, junk), cs);
      if o.status == 0 {
        ReachedIsEqual(from, to, doc, o.doc, cs);
      }
    } else if junk != TILDE {
      UnfitFails(from, to, doc, cs, junk);
    }
  }

  /** The patch round trip, in both case modes: on any document that compares equal to `from`, whatever
      the order of its members, the generated patches apply and leave a document that compares equal to
      `to` exactly when their paths can express the keys. */
  lemma PatchesReachTarget(from: Json, to: Json, doc: Json, cs: bool, junk: Byte)
    requires Proper(from) && Proper(to) && Sized(from) && Sized(to)
    requires WellKeyed(doc, cs) && Equal(doc, from, cs)
    ensures var patches := PatchesOf([], Diffs(from, to, cs, junk));
            (forall i :: 0 <= i < |patches| ==> Readable(patches[i], cs)) &&
            var o := ApplyAll(doc, patches, cs);
            (Expressible(from, to, cs) ==> o.status == 0 && Equal(o.doc, to, cs)) &&
            (junk != TILDE ==> (o.status == 0 && Equal(o.doc, to, cs) <==> Expressible(from, to, cs)))
  {
    hide Diffs, Proper, Sized, WellKeyed, Equal, Expressible, RunEdits, Apply, Readable, Canon, PatchesOf;
    var es := Diffs(from, to, cs, junk);
    DocStandsFor(from, doc, cs);
    DiffsWork(from, to, doc, cs, junk);
    DiffsShaped(from, to, cs, junk);
    ApplyAllIsRun(doc, es, cs);
  }

  lemma DocStandsFor(from: Json, doc: Json, cs: bool)
    requires Proper(from) && WellKeyed(doc, cs) && Equal(doc, from, cs)
    ensures StandsFor(doc, from, cs)
  {
    hide WellKeyed, Equal, Canon, Plain, Printable;
    if cs {
      ProperInBoth(from, cs);
      EqualByValue(doc, from, cs);
      KeyedAlike(doc, from);
    }
  }

  /** Keys that are free of tildes and slashes can always be expressed. */
  lemma {:induction false} CleanExpressible(from: Json, to: Json, cs: bool)
    requires CleanKeys(from) && CleanKeys(to)
    ensures Expressible(from, to, cs)
    decreases from
  {
    hide Equal, Fold;
    if from.Array? && to.Array? {
      forall i | 0 <= i < |from.elems| && i < |to.elems| ensures Expressible(from.elems[i], to.elems[i], cs) {
        CleanExpressible(from.elems[i], to.elems[i], cs);
      }
    } else if from.Object? && to.Object? {
      var ms, ns := from.members, to.members;
      forall i | 0 <= i < |ms| ensures MemberFits(ms[i], ns, cs) {
        CleanIsLastClean(ms[i].key);
        var n := FindKey(ns, ms[i].key, cs);
        if n < |ns| {
          CleanExpressible(ms[i].item, ns[n].item, cs);
        }
      }
      forall i | 0 <= i < |ns| ensures NewFits(ms, ns[i], cs) {
        CleanIsLastClean(ns[i].key);
      }
    }
  }

  /** The patch of a complete edit is one of RFC 6902. */
  lemma PatchIsStandard(e: Edit)
    requires Composed(e)
    ensures IsRfc6902Patch(PatchOf([], e))
  {
    hide Join;
    var p, text, path := PatchOf([], e), OpText(e.op), Join(e.tokens);
    var ms := p.members;
    assert [] + path == path;
    JoinIsPointer(e.tokens);
    LookupByLength(ms, 0, true);
    LookupByLength(ms, 1, true);
    if e.value.Some? {
      LookupByLength(ms, 2, true);
    }
    PatchKeysDistinct(ms);
    assert OpIs(p, text, true) && PathIs(p, path, true);
  }

  lemma PatchKeysDistinct(ms: Members)
    requires forall i, k :: 0 <= i < k < |ms| ==> |ms[i].key| != |ms[k].key|
    ensures DistinctKeys(ms, false)
  {
    forall i, k | 0 <= i < k < |ms| ensures Fold(ms[i].key, false) != Fold(ms[k].key, false) {
      assert |Fold(ms[i].key, false)| == |ms[i].key|;
    }
  }

  lemma JoinIsPointer(tokens: seq<CStr>)
    ensures PointerText(Join(tokens))
  {
  }

  /** Every patch that is generated is one of RFC 6902. */
  lemma GeneratedAreStandard(from: Json, to: Json, cs: bool, junk: Byte)
    ensures var patches := PatchesOf([], Diffs(from, to, cs, junk));
            forall i :: 0 <= i < |patches| ==> IsRfc6902Patch(patches[i])
  {
    hide Diffs, IsRfc6902Patch, PatchOf;
    var es := Diffs(from, to, cs, junk);
    DiffsShaped(from, to, cs, junk);
    forall i | 0 <= i < |es| ensures IsRfc6902Patch(PatchOf([], es[i])) {
      PatchIsStandard(es[i]);
    }
  }

  /** `cJSONUtils_GeneratePatches`: the documents come back sorted, with the same value. */
  method GeneratePatches(from: Json, to: Json, cs: bool, junk: Byte) returns (patches: Json, from': Json, to': Json)
    ensures patches == Array(PatchesOf([], Diffs(from, to, cs, junk)))
    ensures forall i :: 0 <= i < |patches.elems| ==> IsRfc6902Patch(patches.elems[i])
    ensures WellKeyed(from, cs) ==> KeepsValue(from, from', cs)
    ensures WellKeyed(to, cs) ==> KeepsValue(to, to', cs)
  {
    var list := new PatchList();
    from', to' := list.Create([], from, to, cs, junk);
    patches := Array(list.items);
    GeneratedAreStandard(from, to, cs, junk);
  }

  /** Generating a patch and applying it to the document it was generated from, as generating left it. */
  method PatchInPlace(from: Json, to: Json, cs: bool, junk: Byte) returns (status: nat, result: Json, to': Json)
    requires Proper(from) && Proper(to) && Sized(from) && Sized(to)
    ensures Equal(to', to, cs)
    ensures Expressible(from, to, cs) ==> status == 0 && Equal(result, to, cs)
    ensures junk != TILDE ==> (status == 0 && Equal(result, to, cs) <==> Expressible(from, to, cs))
  {
    hide Diffs, Canon, WellKeyed, Plain, Equal, Expressible, Apply, Readable, Printable, Sized;
    var patches, from';
    patches, from', to' := GeneratePatches(from, to, cs, junk);
    ProperInBoth(from, cs);
    ProperInBoth(to, cs);
    EqualByValue(from', from, cs);
    EqualByValue(to', to, cs);
    PatchesReachTarget(from, to, from', cs, junk);
    var document := new Document(from');
    status := document.ApplyPatches(patches, cs);
    result := document.root;
  }

  // Where it fails

  /** A tilde in front of the last byte breaks a key: its escape carries the digit of a slash, and is
      decoded to something else. As the last byte it does no harm. */
  lemma TildeKeyFails(from: Json, to: Json, key: CStr, cs: bool, junk: Byte)
    requires from == Object([Keyed(key, True)]) && to == Object([]) && junk != TILDE
    ensures var patches := PatchesOf([], Diffs(from, to, cs, junk));
            (forall i :: 0 <= i < |patches| ==> Readable(patches[i], cs)) &&
            var o := ApplyAll(from, patches, cs);
            (key == [97, TILDE, 98] ==> !(o.status == 0 && Equal(o.doc, to, cs))) &&
            (key == [97, TILDE] ==> o.status == 0 && Equal(o.doc, to, cs))
  {
    hide Diffs, Apply, Readable, PatchesOf;
    RemovalFits(from, to, key, cs);
    if key == [97, TILDE, 98] {
      assert key[..2][1] == TILDE;
    }
    hide Equal, Expressible;
    EqualToItself(from, cs);
    PatchesReachTarget(from, to, from, cs, junk);
  }

  lemma RemovalFits(from: Json, to: Json, key: CStr, cs: bool)
    requires from == Object([Keyed(key, True)]) && to == Object([])
    ensures Expressible(from, to, cs) <==> LastClean(key)
  {
    var ms, ns := from.members, to.members;
    assert FindKey(ns, key, cs) == |ns|;
    assert !FoundEqual(ms[0], ns, cs);
    assert !Covered(ms, ns, cs);
    assert !Equal(from, to, cs) && !Whole(from, to);
    hide Equal, LastClean, FindKey;
    assert MemberFits(ms[0], ns, cs) <==> LastClean(key);
    assert MembersFit(ms, ns, cs) <==> MemberFits(ms[0], ns, cs);
  }

  /** Keys that differ by nothing but case are outside the domain even where case counts: the removal of
      `a` takes `A` away, because detaching looks for keys without regard to case. */
  lemma CaseOnlyKeysFail(from: Json, to: Json, junk: Byte)
    requires from == Object([Keyed([65], True), Keyed([97], True)]) && to == Object([Keyed([65], True)])
    ensures WellKeyed(from, true) && WellKeyed(to, true)
    ensures var o := RunEdits(from, Diffs(from, to, true, junk), true);
            o == Outcome(0, Object([Keyed([97], True)])) && !Equal(o.doc, to, true)
  {
    hide RunEdits, Diffs;
    CaseOnlyDiffs(from, to, junk);
    CaseOnlyRun(from);
    assert !FoundEqual(to.members[0], [Keyed([97], True)], true);
  }

  lemma CaseOnlyRun(from: Json)
    requires from == Object([Keyed([65], True), Keyed([97], True)])
    ensures RunEdits(from, [Edit(OpRemove, [[97]], None)], true) == Outcome(0, Object([Keyed([97], True)]))
  {
    hide RunEdits, RunOp, DecodeToken, Join;
    var ms, a := from.members, [97];
    DecodeClean(a, 0);
    OneTokenPath(a);
    RunOne(from, Edit(OpRemove, [a], None), true);
    RunAtObject(ms, OpRemove, a, None, true);
    assert Fold([65], false)[0] == Fold(a, false)[0];
    assert FindKey(ms, a, false) == 0;
    assert RemoveAt(ms, 0) == [Keyed([97], True)];
  }

  lemma CaseOnlyDiffs(from: Json, to: Json, junk: Byte)
    requires from == Object([Keyed([65], True), Keyed([97], True)]) && to == Object([Keyed([65], True)])
    ensures Diffs(from, to, true, junk) == [Edit(OpRemove, [[97]], None)]
  {
    hide WalkDiffs, EncodeKey, Diff;
    var s, t := from.members, to.members;
    CaseOnlySorted(s, t);
    hide Sort;
    assert s[1..] == [Keyed([97], True)] && t[1..] == [] && s[1..][1..] == [];
    assert Clean([97]);
    WalkSplit(from, s, t, true, junk);
    WalkSplit(from, s[1..], t[1..], true, junk);
    NothingToWalkFor(from, s[1..][1..], t[1..], true, junk);
    assert Diffs(True, True, true, junk) == [];
  }

  lemma CaseOnlySorted(s: Members, t: Members)
    requires s == [Keyed([65], True), Keyed([97], True)] && t == [Keyed([65], True)]
    ensures Sort(s, true) == s && Sort(t, true) == t && KeyOrder(s[0].key, t[0].key, true) == 0
  {
    assert KeyLess(s[0].key, s[1].key, true);
    DiffZeroIffEqual(s[0].key, t[0].key);
  }
}
