/** Which members of an object an edit touches, when the key in its path is not what it leads to. */
module PatchTargets {
  import opened Sequences
  import opened CStrings
  import opened Json
  import opened Lookups
  import opened Pointers
  import opened Patch
  import opened PathKeys
  import opened PatchMeaning
  import opened PatchApplication
  import opened PatchRuns

  /** The members whose keys are the same but for case. */
  ghost function ClassOf(ms: Members, f: CStr): Members {
    if ms == [] then [] else (if Fold(ms[0].key, false) == f then [ms[0]] else []) + ClassOf(ms[1..], f)
  }

  lemma ClassHead(ms: Members, f: CStr)
    requires ms != []
    ensures ClassOf(ms, f) == (if Fold(ms[0].key, false) == f then [ms[0]] else []) + ClassOf(ms[1..], f)
  {
  }

  lemma {:induction false} ClassSplit(a: Members, b: Members, f: CStr)
    ensures ClassOf(a + b, f) == ClassOf(a, f) + ClassOf(b, f)
  {
    if a == [] {
      assert a + b == b;
    } else {
      hide Fold, ClassOf;
      assert (a + b)[1..] == a[1..] + b && (a + b)[0] == a[0];
      ClassSplit(a[1..], b, f);
      ClassHead(a, f);
      ClassHead(a + b, f);
      Regroup(if Fold(a[0].key, false) == f then [a[0]] else [], ClassOf(a[1..], f), ClassOf(b, f));
    }
  }

  lemma ClassOfOne(m: Keyed<Json>, f: CStr)
    ensures ClassOf([m], f) == if Fold(m.key, false) == f then [m] else []
  {
    assert [m][1..] == [];
  }

  lemma ClassAround(ms: Members, i: nat, f: CStr)
    requires i < |ms| && Fold(ms[i].key, false) != f
    ensures ClassOf(ms, f) == ClassOf(ms[..i], f) + ClassOf(ms[i+1..], f)
  {
    hide Fold, ClassOf;
    assert ms == ms[..i] + ([ms[i]] + ms[i+1..]);
    ClassSplit(ms[..i], [ms[i]] + ms[i+1..], f);
    ClassSplit([ms[i]], ms[i+1..], f);
    ClassOfOne(ms[i], f);
  }

  lemma FoldCoarser(a: CStr, b: CStr, cs: bool)
    requires Fold(a, cs) == Fold(b, cs)
    ensures Fold(a, false) == Fold(b, false)
  {
  }

  /** What a lookup finds depends on the members of the class of its key. */
  lemma {:induction false} ClassLookup(ms: Members, key: CStr, cs: bool)
    ensures Lookup(ms, key, cs) == Lookup(ClassOf(ms, Fold(key, false)), key, cs)
  {
    if ms != [] {
      hide Lookup, Fold;
      var head := ClassOf([ms[0]], Fold(key, false));
      ClassLookup(ms[1..], key, cs);
      ClassOfOne(ms[0], Fold(key, false));
      HeadAndRest(ms, ms[0], ms[1..]);
      LookupSplit([ms[0]], ms[1..], key, cs);
      LookupSplit(head, ClassOf(ms[1..], Fold(key, false)), key, cs);
      OneLookup(ms[0], key, cs);
      NoLookup(key, cs);
      if Fold(ms[0].key, cs) == Fold(key, cs) {
        FoldCoarser(ms[0].key, key, cs);
      }
    }
  }

  /** Only members of the class of a key are touched. */
  ghost predicate Spared(ms: Members, ns: Members, key: CStr) {
    forall f :: f != Fold(key, false) ==> ClassOf(ns, f) == ClassOf(ms, f)
  }

  lemma WithoutSpares(ms: Members, key: CStr, cs: bool)
    ensures Spared(ms, Without(ms, key, cs), key)
  {
    hide Fold, ClassOf;
    var i := FindKey(ms, key, cs);
    if i < |ms| {
      FoldCoarser(ms[i].key, key, cs);
      forall f | f != Fold(key, false) ensures ClassOf(RemoveAt(ms, i), f) == ClassOf(ms, f) {
        ClassAround(ms, i, f);
        assert RemoveAt(ms, i) == ms[..i] + ms[i+1..];
        ClassSplit(ms[..i], ms[i+1..], f);
      }
    }
  }

  lemma SetSpares(ms: Members, key: CStr, value: Json, cs: bool)
    ensures Spared(ms, SetMember(ms, key, value, cs), key)
  {
    hide Fold, ClassOf, Without;
    WithoutSpares(ms, key, cs);
    forall f | f != Fold(key, false) ensures ClassOf(SetMember(ms, key, value, cs), f) == ClassOf(ms, f) {
      ClassSplit(Without(ms, key, cs), [Keyed(key, value)], f);
      ClassOfOne(Keyed(key, value), f);
      assert ClassOf(Without(ms, key, cs), f) + [] == ClassOf(Without(ms, key, cs), f);
    }
  }

  lemma UpdateSpares(ms: Members, i: nat, x: Json)
    requires i < |ms|
    ensures Spared(ms, ms[i := Keyed(ms[i].key, x)], ms[i].key)
  {
    hide Fold, ClassOf;
    var ns := ms[i := Keyed(ms[i].key, x)];
    forall f | f != Fold(ms[i].key, false) ensures ClassOf(ns, f) == ClassOf(ms, f) {
      ClassAround(ms, i, f);
      ClassAround(ns, i, f);
      assert ns[..i] == ms[..i] && ns[i+1..] == ms[i+1..];
    }
  }

  /** A key in a path leads to a name: as the last token, to what it is decoded to; on the way, to what it matches. */
  ghost predicate Led(key: CStr, whole: bool, name: CStr, junk: Byte, cs: bool) {
    var token := EncodeKey(key, junk);
    if whole && SLASH !in token then name == DecodeToken(token, 0, 0) else MatchesToken(name, token, cs)
  }

  ghost predicate Fits(key: CStr, whole: bool) {
    if whole then LastClean(key) else Clean(key)
  }

  lemma {:induction false} TokenSlash(key: CStr, junk: Byte)
    ensures SLASH in EncodeKey(key, junk) ==> junk == SLASH && SLASH in key
    ensures junk == SLASH && SLASH in key ==> SLASH in EncodeKey(key, junk)
  {
    if key != [] {
      hide EncodeKey;
      EncodeStep(key, junk);
      TokenSlash(key[1..], junk);
      assert key == [key[0]] + key[1..];
    }
  }

  /** A key that does not fit leads further on. */
  lemma LedOn(key: CStr, whole: bool, name: CStr, junk: Byte, cs: bool)
    requires junk != TILDE && Led(key, whole, name, junk, cs) && !Fits(key, whole)
    ensures Moves(key, name, junk)
  {
    hide EncodeKey, DecodeToken, MatchesToken, LastClean, Moves;
    var token := EncodeKey(key, junk);
    TokenSlash(key, junk);
    if whole && SLASH !in token {
      DecodeMoves(key, junk);
    } else {
      if Clean(key) {
        CleanIsLastClean(key);
      }
      assert token + [] == token;
      MatchMoves(name, key, [], junk, cs);
    }
  }

  /** A key that fits leads to itself. */
  lemma LedHome(key: CStr, whole: bool, name: CStr, junk: Byte, cs: bool)
    requires Led(key, whole, name, junk, cs) && Fits(key, whole)
    ensures Fold(name, false) == Fold(key, false)
  {
    hide EncodeKey, DecodeToken, MatchesToken, Fold;
    var token := EncodeKey(key, junk);
    TokenSlash(key, junk);
    if whole {
      assert token[0..] == token && token[..0] + key == key;
      DecodeLastClean(token, 0, key, junk);
    } else {
      assert key + [] == key;
      CleanTokenMatches(name, key, [], cs);
      FoldCoarser(name, key, cs);
    }
  }

  ghost predicate Composed(e: Edit) {
    Simple(e) && (e.value.None? <==> e.op.OpRemove?)
  }

  /** An edit below one key of an object that succeeds leaves an object, and touches the class of one name only. */
  lemma OpSpares(ms: Members, e: Edit, key: CStr, junk: Byte, cs: bool) returns (name: CStr)
    requires Composed(e) && e.tokens != [] && e.tokens[0] == EncodeKey(key, junk)
    requires RunOp(Object(ms), e.op, Join(e.tokens), e.value, cs).status == 0
    ensures var o := RunOp(Object(ms), e.op, Join(e.tokens), e.value, cs);
            o.doc.Object? && Led(key, |e.tokens| == 1, name, junk, cs) && Spared(ms, o.doc.members, name)
  {
    hide RunOp, Join, EncodeKey, DecodeToken, MatchesToken, Spared, SetMember, Step, FindToken;
    var token, tail := e.tokens[0], Join(e.tokens[1..]);
    JoinHead(e.tokens);
    if SLASH in token {
      var n := TokenLength(token);
      SlashThere(token);
      var seg, back := token[..n], token[n..] + tail;
      assert [SLASH] + token + tail == [SLASH] + seg + back;
      name := BelowSpares(ms, e, seg, back, cs);
      assert seg + token[n..] == token;
      MatchIgnoresRest(name, seg, token[n..], cs);
    } else if |e.tokens| > 1 {
      JoinNotEmpty(e.tokens[1..]);
      name := BelowSpares(ms, e, token, tail, cs);
    } else {
      name := DecodeToken(token, 0, 0);
      NoTail(e.tokens);
      AtObjectSpares(ms, e, token, cs);
    }
  }

  lemma SlashThere(token: CStr)
    requires SLASH in token
    ensures var n := TokenLength(token); n < |token| && token[n] == SLASH && SLASH !in token[..n]
  {
  }

  lemma NoTail(tokens: seq<CStr>)
    requires |tokens| == 1
    ensures Join(tokens) == [SLASH] + tokens[0]
  {
    assert tokens[1..] == [] && Join([]) == [];
  }

  lemma BelowSpares(ms: Members, e: Edit, token: CStr, rest: CStr, cs: bool) returns (name: CStr)
    requires Composed(e) && SLASH !in token && rest != [] && rest[0] == SLASH
    requires RunOp(Object(ms), e.op, [SLASH] + token + rest, e.value, cs).status == 0
    ensures var o := RunOp(Object(ms), e.op, [SLASH] + token + rest, e.value, cs);
            o.doc.Object? && MatchesToken(name, token, cs) && Spared(ms, o.doc.members, name)
  {
    hide RunOp, MatchesToken, Spared;
    RunOpBelow(Object(ms), e.op, token, rest, e.value, cs);
    var i := FindToken(ms, token, cs);
    name := ms[i].key;
    UpdateSpares(ms, i, RunOp(ms[i].item, e.op, rest, e.value, cs).doc);
  }

  lemma AtObjectSpares(ms: Members, e: Edit, token: CStr, cs: bool)
    requires Composed(e) && SLASH !in token
    requires RunOp(Object(ms), e.op, [SLASH] + token, e.value, cs).status == 0
    ensures var o := RunOp(Object(ms), e.op, [SLASH] + token, e.value, cs);
            o.doc.Object? && Spared(ms, o.doc.members, DecodeToken(token, 0, 0))
  {
    hide RunOp, DecodeToken, SetMember, ClassOf;
    var child := DecodeToken(token, 0, 0);
    RunAtObject(ms, e.op, token, e.value, cs);
    if e.op.OpAdd? {
      SetSpares(ms, child, e.value.value, cs);
    } else {
      WithoutSpares(ms, child, false);
      if e.op.OpReplace? {
        SetSpares(Without(ms, child, false), child, e.value.value, cs);
      }
    }
  }

  /** The key an edit was made for is in its path. */
  ghost predicate MadeFor(es: seq<Edit>, keys: seq<CStr>, junk: Byte) {
    |keys| == |es| && forall i :: 0 <= i < |es| ==> Composed(es[i]) && es[i].tokens != [] && es[i].tokens[0] == EncodeKey(keys[i], junk)
  }

  ghost predicate LeadsElsewhere(key: CStr, whole: bool, f: CStr, junk: Byte, cs: bool) {
    forall name :: Led(key, whole, name, junk, cs) ==> Fold(name, false) != f
  }

  /** What no edit leads to stays as it is. */
  lemma {:induction false} RunSpares(ms: Members, es: seq<Edit>, keys: seq<CStr>, f: CStr, junk: Byte, cs: bool)
    requires MadeFor(es, keys, junk) && RunEdits(Object(ms), es, cs).status == 0
    requires forall i :: 0 <= i < |es| ==> LeadsElsewhere(keys[i], |es[i].tokens| == 1, f, junk, cs)
    ensures var o := RunEdits(Object(ms), es, cs); o.doc.Object? && ClassOf(o.doc.members, f) == ClassOf(ms, f)
    decreases |es|
  {
    hide RunOp, Join, EncodeKey, Led, Fold, ClassOf, Composed;
    if es != [] {
      var name := OpSpares(ms, es[0], keys[0], junk, cs);
      assert LeadsElsewhere(keys[0], |es[0].tokens| == 1, f, junk, cs);
      var o := RunOp(Object(ms), es[0].op, Join(es[0].tokens), es[0].value, cs);
      RunSpares(o.doc.members, es[1..], keys[1..], f, junk, cs);
    }
  }

  lemma MovesTransitive(a: CStr, b: CStr, c: CStr, junk: Byte)
    requires Moves(a, b, junk) && Moves(b, c, junk)
    ensures Moves(a, c, junk)
  {
    hide Count;
  }

  /** Among marked keys there is one that no marked key moves on to. */
  lemma {:induction false} LeastMoved(keys: seq<CStr>, marked: seq<bool>, junk: Byte) returns (i: nat)
    requires |marked| == |keys| && exists k :: 0 <= k < |keys| && marked[k]
    ensures i < |keys| && marked[i] && forall k :: 0 <= k < |keys| && marked[k] ==> !Moves(keys[k], keys[i], junk)
    decreases |keys|
  {
    var last := |keys| - 1;
    if exists k :: 0 <= k < last && marked[k] {
      var k :| 0 <= k < last && marked[k];
      assert marked[..last][k];
      i := LeastMoved(keys[..last], marked[..last], junk);
      assert forall k :: 0 <= k < last ==> keys[..last][k] == keys[k] && marked[..last][k] == marked[k];
      if marked[last] && Moves(keys[last], keys[i], junk) {
        forall k | 0 <= k < |keys| && marked[k] ensures !Moves(keys[k], keys[last], junk) {
          if k < last && Moves(keys[k], keys[last], junk) {
            MovesTransitive(keys[k], keys[last], keys[i], junk);
          }
        }
        i := last;
      }
    } else {
      i := last;
    }
  }

  /** Moving on depends on the class of the name only. */
  lemma MovesToClass(key: CStr, name: CStr, other: CStr, junk: Byte)
    requires Fold(name, false) == Fold(other, false)
    ensures Moves(key, name, junk) == Moves(key, other, junk)
  {
    SlashesFold(name, false);
    SlashesFold(other, false);
  }

  /** If some key of the edits does not fit, there is one whose class no edit leads to, provided keys of
      one class fit together. */
  lemma ClassLeftAlone(es: seq<Edit>, keys: seq<CStr>, junk: Byte, cs: bool) returns (i: nat)
    requires MadeFor(es, keys, junk) && junk != TILDE
    requires exists k :: 0 <= k < |es| && !Fits(keys[k], |es[k].tokens| == 1)
    requires forall k, l :: 0 <= k < |es| && 0 <= l < |es| && Fold(keys[k], false) == Fold(keys[l], false) ==>
               Fits(keys[k], |es[k].tokens| == 1) == Fits(keys[l], |es[l].tokens| == 1)
    ensures i < |es| && forall k :: 0 <= k < |es| ==> LeadsElsewhere(keys[k], |es[k].tokens| == 1, Fold(keys[i], false), junk, cs)
  {
    hide Fits, Led, Moves, EncodeKey, Composed, Fold;
    var marked := seq(|es|, k requires 0 <= k < |es| => !Fits(keys[k], |es[k].tokens| == 1));
    var k :| 0 <= k < |es| && !Fits(keys[k], |es[k].tokens| == 1);
    assert marked[k];
    i := LeastMoved(keys, marked, junk);
    forall k, name | 0 <= k < |es| && Led(keys[k], |es[k].tokens| == 1, name, junk, cs) ensures Fold(name, false) != Fold(keys[i], false) {
      if Fits(keys[k], |es[k].tokens| == 1) {
        LedHome(keys[k], |es[k].tokens| == 1, name, junk, cs);
      } else {
        LedOn(keys[k], |es[k].tokens| == 1, name, junk, cs);
        assert marked[k];
        if Fold(name, false) == Fold(keys[i], false) {
          MovesToClass(keys[k], name, keys[i], junk);
        }
      }
    }
  }
}
