/** JSON pointers. A node of a document is identified by its address: the child indices on the
    way from the root. */
module Pointers {
  import opened CStrings
  import opened Json
  import opened Decimals

  type Addr = seq<nat>

  function Kids(j: Json): (r: seq<Json>)
    ensures j.Array? ==> r == j.elems
    ensures j.Object? ==> |r| == |j.members| && forall i :: 0 <= i < |r| ==> r[i] == j.members[i].item
    ensures !j.Array? && !j.Object? ==> r == []
  {
    match j
    case Array(es) => es
    case Object(ms) => seq(|ms|, i requires 0 <= i < |ms| => ms[i].item)
    case _ => []
  }

  predicate ValidAddr(j: Json, a: Addr)
    decreases a
  {
    a == [] || (a[0] < |Kids(j)| && ValidAddr(Kids(j)[a[0]], a[1..]))
  }

  function At(j: Json, a: Addr): Json
    requires ValidAddr(j, a)
    decreases a
  {
    if a == [] then j else At(Kids(j)[a[0]], a[1..])
  }

  function WithKid(j: Json, i: nat, k: Json): (r: Json)
    requires i < |Kids(j)|
    ensures |Kids(r)| == |Kids(j)|
    ensures forall n :: 0 <= n < |Kids(j)| ==> Kids(r)[n] == if n == i then k else Kids(j)[n]
  {
    match j
    case Array(es) => Array(es[i := k])
    case Object(ms) => Object(ms[i := Keyed(ms[i].key, k)])
    case _ => j
  }

  /** The document with the node at an address replaced. */
  function Put(j: Json, a: Addr, x: Json): Json
    requires ValidAddr(j, a)
    decreases a
  {
    if a == [] then x else WithKid(j, a[0], Put(Kids(j)[a[0]], a[1..], x))
  }

  /** The length of the first token of a pointer whose leading slash is gone. */
  function TokenLength(p: CStr): (n: nat)
    ensures n <= |p|
    ensures forall k :: 0 <= k < n ==> p[k] != SLASH
    ensures EndsToken(CharAt(p, n))
    ensures n < |p| ==> p[n] == SLASH
  {
    if p == [] || p[0] == SLASH then 0 else 1 + TokenLength(p[1..])
  }

  /** `compare_pointers`: does a key match the first token, read with its escapes? */
  predicate MatchesToken(name: CStr, pointer: CStr, cs: bool) {
    if name == [] || pointer == [] || pointer[0] == SLASH then
      EndsToken(CharAt(pointer, 0)) == (name == [])
    else if pointer[0] == TILDE then
      if (CharAt(pointer, 1) == 48 && name[0] == TILDE) || (CharAt(pointer, 1) == 49 && name[0] == SLASH)
      then MatchesToken(name[1..], pointer[2..], cs)
      else false
    else if Fold(name[..1], cs) != Fold(pointer[..1], cs) then false
    else MatchesToken(name[1..], pointer[1..], cs)
  }

  method ComparePointers(name: CStr, pointer: CStr, cs: bool) returns (r: bool)
    ensures r == MatchesToken(name, pointer, cs)
  {
    var n, p := 0, 0;
    assert name[0..] == name && pointer[0..] == pointer;
    while n < |name| && p < |pointer| && pointer[p] != SLASH
      invariant n <= |name| && p <= |pointer|
      invariant MatchesToken(name, pointer, cs) == MatchesToken(name[n..], pointer[p..], cs)
      decreases |name| - n
    {
      var c, d := name[n], pointer[p];
      assert name[n..][1..] == name[n+1..] && pointer[p..][1..] == pointer[p+1..];
      assert name[n..][..1] == [c] && pointer[p..][..1] == [d];
      if d == TILDE {
        var e := CharAt(pointer, p + 1);
        assert e == CharAt(pointer[p..], 1);
        if (e != 48 || c != TILDE) && (e != 49 || c != SLASH) {
          return false;
        }
        assert pointer[p..][2..] == pointer[p+2..];
        p := p + 1;
      } else if (!cs && ToLower(c) != ToLower(d)) || (cs && c != d) {
        assert Fold([c], cs)[0] != Fold([d], cs)[0];
        return false;
      } else {
        assert Fold([c], cs) == Fold([d], cs);
      }
      n, p := n + 1, p + 1;
    }
    assert CharAt(pointer, p) == CharAt(pointer[p..], 0);
    return (CharAt(pointer, p) != 0 && CharAt(pointer, p) != SLASH) == (n < |name|);
  }

  /** The index of the first member whose key matches the token, or the number of members. */
  function FindToken(ms: Members, pointer: CStr, cs: bool): (i: nat)
    ensures i <= |ms|
    ensures forall k :: 0 <= k < i ==> !MatchesToken(ms[k].key, pointer, cs)
    ensures i < |ms| ==> MatchesToken(ms[i].key, pointer, cs)
  {
    if ms == [] || MatchesToken(ms[0].key, pointer, cs) then 0 else 1 + FindToken(ms[1..], pointer, cs)
  }

  /** The child one token leads to. */
  function Step(j: Json, p: CStr, cs: bool): (r: Option<nat>)
    ensures r.Some? ==> r.value < |Kids(j)|
  {
    match j
    case Array(es) =>
      var i := DecodeIndex(p);
      if i.Some? && i.value < |es| then i else None
    case Object(ms) =>
      var i := FindToken(ms, p, cs);
      if i < |ms| then Some(i) else None
    case _ => None
  }

  /** `get_item_from_pointer`: the address a pointer leads to. Text in front of the first slash
      is ignored, because the walk ends there. */
  function GetItem(j: Json, p: CStr, cs: bool): (r: Option<Addr>)
    ensures r.Some? ==> ValidAddr(j, r.value)
    decreases |p|
  {
    if CharAt(p, 0) != SLASH then Some([])
    else
      var i := Step(j, p[1..], cs);
      if i.None? then None
      else
        var tail := GetItem(Kids(j)[i.value], p[1 + TokenLength(p[1..])..], cs);
        if tail.None? then None else Some([i.value] + tail.value)
  }

  /** The child a token selects, with the search loop over the members of an object. */
  method SelectChild(j: Json, p: CStr, cs: bool) returns (r: Option<nat>)
    ensures r == Step(j, p, cs)
  {
    match j
    case Array(es) =>
      var index := DecodeArrayIndex(p);
      return if index.Some? && index.value < |es| then index else None;
    case Object(ms) =>
      var i := 0;
      while i < |ms|
        invariant i <= |ms| && forall k :: 0 <= k < i ==> !MatchesToken(ms[k].key, p, cs)
      {
        var found := ComparePointers(ms[i].key, p, cs);
        if found {
          return Some(i);
        }
        i := i + 1;
      }
      return None;
    case _ => return None;
  }

  /** Skip to the next path token or the end of the string. */
  method SkipToken(p: CStr) returns (rest: CStr)
    ensures rest == p[TokenLength(p)..]
  {
    var position := 0;
    while CharAt(p, position) != 0 && CharAt(p, position) != SLASH
      invariant position <= TokenLength(p)
      decreases |p| - position
    {
      position := position + 1;
    }
    return p[position..];
  }

  ghost function Under(address: Addr, tail: Option<Addr>): Option<Addr> {
    if tail.None? then None else Some(address + tail.value)
  }

  lemma UnderNothing(tail: Option<Addr>)
    ensures Under([], tail) == tail
  {
    if tail.Some? {
      assert [] + tail.value == tail.value;
    }
  }

  lemma UnderMoves(address: Addr, i: nat, tail: Option<Addr>)
    ensures Under(address, Under([i], tail)) == Under(address + [i], tail)
  {
    if tail.Some? {
      assert address + ([i] + tail.value) == address + [i] + tail.value;
    }
  }

  /** The loop form: an element that moves down and a pointer that moves right. */
  method GetItemFromPointer(j: Json, p: CStr, cs: bool) returns (r: Option<Addr>)
    ensures r == GetItem(j, p, cs)
  {
    var element, address, rest := j, [], p;
    UnderNothing(GetItem(j, p, cs));
    while CharAt(rest, 0) == SLASH
      invariant GetItem(j, p, cs) == Under(address, GetItem(element, rest, cs))
      decreases |rest|
    {
      var child := SelectChild(element, rest[1..], cs);
      if child.None? {
        return None;
      }
      var next := SkipToken(rest[1..]);
      assert next == rest[1 + TokenLength(rest[1..])..];
      UnderMoves(address, child.value, GetItem(Kids(element)[child.value], next, cs));
      element, address, rest := Kids(element)[child.value], address + [child.value], next;
    }
    assert address + [] == address;
    return Some(address);
  }

  predicate Clean(s: CStr) {
    SLASH !in s && TILDE !in s
  }

  /** `encode_string_as_pointer`. In front of the digit for a slash it leaves the byte the buffer
      held before; a 0 there ends the text. A tilde gets the digit of a slash. */
  function EncodeKey(s: CStr, junk: Byte): (r: CStr)
    ensures Clean(s) ==> r == s
  {
    if s == [] then []
    else if s[0] == SLASH then if junk == 0 then [] else [junk, 49] + EncodeKey(s[1..], junk)
    else if s[0] == TILDE then [TILDE, 49] + EncodeKey(s[1..], junk)
    else [s[0]] + EncodeKey(s[1..], junk)
  }

  /** The path from a document to a node below it. */
  function PathTo(j: Json, a: Addr, junk: Byte): CStr
    requires ValidAddr(j, a)
    decreases a
  {
    if a == [] then []
    else
      var token := if j.Array? then Dec(a[0]) else if j.Object? then EncodeKey(j.members[a[0]].key, junk) else [];
      [SLASH] + token + PathTo(Kids(j)[a[0]], a[1..], junk)
  }

  /** `cJSONUtils_FindPointerFromObjectTo`: a depth-first search for one node. */
  method FindPointer(j: Json, here: Addr, target: Addr, junk: Byte) returns (r: Option<CStr>)
    ensures r == if here <= target && ValidAddr(j, target[|here|..]) then Some(PathTo(j, target[|here|..], junk)) else None
    decreases j
  {
    hide Kids, PathTo, EncodeKey, Dec, ValidAddr;
    if here == target {
      ThisIsIt(j, here, target, junk);
      return Some([]);
    }
    var kids, index := Kids(j), 0;
    while index < |kids|
      invariant index <= |kids|
      invariant forall k :: 0 <= k < index && here + [k] <= target ==> !ValidAddr(kids[k], target[|here|+1..])
    {
      KidsSmaller(j, index);
      var found := FindPointer(kids[index], here + [index], target, junk);
      if found.Some? {
        FoundBelow(j, here, target, index, junk);
        if j.Array? {
          return Some([SLASH] + Dec(index) + found.value);
        }
        if j.Object? {
          return Some([SLASH] + EncodeKey(j.members[index].key, junk) + found.value);
        }
        return None;
      }
      assert here + [index] <= target ==> target[|here + [index]|..] == target[|here|+1..];
      index := index + 1;
    }
    NotBelow(j, here, target);
    return None;
  }

  lemma ThisIsIt(j: Json, here: Addr, target: Addr, junk: Byte)
    requires here == target
    ensures ValidAddr(j, target[|here|..]) && PathTo(j, target[|here|..], junk) == []
  {
    assert target[|here|..] == [];
  }

  lemma FoundBelow(j: Json, here: Addr, target: Addr, index: nat, junk: Byte)
    requires index < |Kids(j)| && here + [index] <= target && ValidAddr(Kids(j)[index], target[|here + [index]|..])
    ensures here <= target && ValidAddr(j, target[|here|..])
    ensures var below := PathTo(Kids(j)[index], target[|here + [index]|..], junk);
            if j.Array? then PathTo(j, target[|here|..], junk) == [SLASH] + Dec(index) + below
            else j.Object? && PathTo(j, target[|here|..], junk) == [SLASH] + EncodeKey(j.members[index].key, junk) + below
  {
    hide Dec, EncodeKey;
    assert target[|here|..][0] == index && target[|here|..][1..] == target[|here + [index]|..];
  }

  lemma NotBelow(j: Json, here: Addr, target: Addr)
    requires here != target
    requires forall k :: 0 <= k < |Kids(j)| && here + [k] <= target ==> !ValidAddr(Kids(j)[k], target[|here|+1..])
    ensures !(here <= target && ValidAddr(j, target[|here|..]))
  {
    if here <= target {
      assert target[|here|..] != [];
      assert target[|here|..][1..] == target[|here|+1..];
      assert here + [target[|here|]] <= target;
    }
  }

  lemma KidsSmaller(j: Json, i: nat)
    requires i < |Kids(j)|
    ensures Kids(j)[i] < j
  {
  }

  /** Every array has an index for each of its elements that a `size_t` can hold. */
  ghost predicate Sized(j: Json) {
    match j
    case Array(es) => |es| < SIZE_LIMIT && forall i :: 0 <= i < |es| ==> Sized(es[i])
    case Object(ms) => forall i :: 0 <= i < |ms| ==> Sized(ms[i].item)
    case _ => true
  }

  lemma FoldsMatch(a: CStr, b: CStr, cs: bool)
    requires a != [] && b != []
    ensures Fold(a, cs) == Fold(b, cs) <==> Fold(a[..1], cs) == Fold(b[..1], cs) && Fold(a[1..], cs) == Fold(b[1..], cs)
  {
    hide Fold;
    FoldCons(a, cs);
    FoldCons(b, cs);
    var x, y := Fold(a, cs), Fold(b, cs);
    assert x[..1] == Fold(a[..1], cs) && x[1..] == Fold(a[1..], cs);
    assert y[..1] == Fold(b[..1], cs) && y[1..] == Fold(b[1..], cs);
  }

  lemma FoldCons(s: CStr, cs: bool)
    requires s != []
    ensures Fold(s, cs) == Fold(s[..1], cs) + Fold(s[1..], cs)
  {
    var x, y := Fold(s, cs), Fold(s[..1], cs) + Fold(s[1..], cs);
    forall i | 0 <= i < |x| ensures x[i] == y[i] {
    }
    assert x == y;
  }

  // Escaped keys

  /** The escapes of section 3 of RFC 6901. */
  function Rfc6901(key: CStr): CStr {
    if key == [] then []
    else (if key[0] == 126 then [126, 48] else if key[0] == 47 then [126, 49] else [key[0]]) + Rfc6901(key[1..])
  }

  lemma {:induction false} EscapedHasNoSlash(key: CStr)
    ensures 47 !in Rfc6901(key)
  {
    if key != [] {
      EscapedHasNoSlash(key[1..]);
    }
  }

  /** A token that is the escaped form of a key matches that key, up to case, and no other, for all keys. */
  lemma {:induction false} EscapedKeyMatches(name: CStr, key: CStr, rest: CStr, cs: bool)
    requires EndsToken(CharAt(rest, 0))
    ensures MatchesToken(name, Rfc6901(key) + rest, cs) <==> Fold(name, cs) == Fold(key, cs)
  {
    if key == [] {
      assert Rfc6901(key) + rest == rest;
    } else {
      hide Fold, MatchesToken, Rfc6901;
      EscapedKeyMatches(if name == [] then [] else name[1..], key[1..], rest, cs);
      EscapedHead(name, key, rest, cs);
      if name != [] {
        FoldsMatch(name, key, cs);
      }
    }
  }

  /** The first byte of a key, and the first bytes of its token. */
  lemma EscapedHead(name: CStr, key: CStr, rest: CStr, cs: bool)
    requires key != []
    ensures MatchesToken(name, Rfc6901(key) + rest, cs) <==>
            name != [] && Fold(name[..1], cs) == Fold(key[..1], cs) && MatchesToken(name[1..], Rfc6901(key[1..]) + rest, cs)
  {
    hide Fold, MatchesToken, Rfc6901;
    var p := Rfc6901(key) + rest;
    EscapedFirst(key, rest);
    if key[0] == TILDE || key[0] == SLASH {
      MatchEscape(name, p, key[0], cs);
      if name != [] {
        OnlyMarkFolds(name[0], key[0], cs);
        assert name[..1] == [name[0]] && key[..1] == [key[0]];
      }
    } else {
      MatchPlain(name, p, cs);
    }
  }

  lemma EscapedFirst(key: CStr, rest: CStr)
    requires key != []
    ensures var p := Rfc6901(key) + rest;
            if key[0] == TILDE || key[0] == SLASH then
              |p| > 1 && p[0] == TILDE && p[1] == (if key[0] == TILDE then 48 else 49) && p[2..] == Rfc6901(key[1..]) + rest
            else p != [] && p[0] == key[0] && p[..1] == key[..1] && p[1..] == Rfc6901(key[1..]) + rest
  {
    var below := Rfc6901(key[1..]);
    EscapedStep(key);
    hide Rfc6901;
    HeadAndTail(if key[0] == TILDE then [TILDE, 48] else if key[0] == SLASH then [TILDE, 49] else [key[0]], below, rest);
  }

  lemma EscapedStep(key: CStr)
    requires key != []
    ensures Rfc6901(key) ==
            (if key[0] == TILDE then [TILDE, 48] else if key[0] == SLASH then [TILDE, 49] else [key[0]]) + Rfc6901(key[1..])
  {
  }

  /** Every token that matches a name is the escaped form of some key: any other escape matches nothing. */
  lemma TokenMatchesExactly(name: CStr, token: CStr, rest: CStr, cs: bool)
    requires 47 !in token && EndsToken(CharAt(rest, 0))
    ensures MatchesToken(name, token + rest, cs) <==> exists key :: Rfc6901(key) == token && Fold(key, cs) == Fold(name, cs)
  {
    hide Rfc6901, Fold, MatchesToken;
    forall key | Rfc6901(key) == token ensures MatchesToken(name, token + rest, cs) <==> Fold(name, cs) == Fold(key, cs) {
      EscapedKeyMatches(name, key, rest, cs);
    }
    if MatchesToken(name, token + rest, cs) {
      var key := MatchedIsEscaped(name, token, rest, cs);
      assert Rfc6901(key) == token;
    }
  }

  lemma {:induction false} MatchedIsEscaped(name: CStr, token: CStr, rest: CStr, cs: bool) returns (key: CStr)
    requires 47 !in token && EndsToken(CharAt(rest, 0)) && MatchesToken(name, token + rest, cs)
    ensures Rfc6901(key) == token
    decreases |token|
  {
    var p := token + rest;
    key := [];
    if token != [] {
      hide MatchesToken, Fold;
      var c := token[0];
      if c != TILDE {
        MatchPlain(name, p, cs);
        assert p[1..] == token[1..] + rest;
      } else {
        MatchTilde(name, p, cs);
        assert p[|token|..] == rest;
        c := if token[1] == 48 then TILDE else SLASH;
        assert p[2..] == token[2..] + rest;
      }
      var n := if token[0] == TILDE then 2 else 1;
      var below := MatchedIsEscaped(name[1..], token[n..], rest, cs);
      key := [c] + below;
      assert key[1..] == below;
      assert token == token[..n] + token[n..];
    }
  }

  /** A key the encoding writes as a token that reads as the key. A slash gets its proper escape only
      when the buffer happens to hold a tilde already. */
  predicate Encodable(key: CStr, junk: Byte) {
    TILDE !in key && (SLASH in key ==> junk == TILDE)
  }

  lemma {:induction false} EncodedIsEscaped(key: CStr, junk: Byte)
    requires Encodable(key, junk)
    ensures EncodeKey(key, junk) == Rfc6901(key)
  {
    if key != [] {
      EncodedIsEscaped(key[1..], junk);
    }
  }

  lemma HeadAndTail(head: CStr, below: CStr, rest: CStr)
    ensures var p := head + below + rest; |p| >= |head| && p[..|head|] == head && p[|head|..] == below + rest
    ensures forall i :: 0 <= i < |head| ==> (head + below + rest)[i] == head[i]
  {
  }

  lemma MatchPlain(name: CStr, p: CStr, cs: bool)
    requires p != [] && p[0] != SLASH && p[0] != TILDE
    ensures MatchesToken(name, p, cs) <==>
            name != [] && Fold(name[..1], cs) == Fold(p[..1], cs) && MatchesToken(name[1..], p[1..], cs)
  {
    hide Fold;
  }

  lemma MatchTilde(name: CStr, p: CStr, cs: bool)
    requires p != [] && p[0] == TILDE
    ensures MatchesToken(name, p, cs) <==>
            name != [] && ((CharAt(p, 1) == 48 && name[0] == TILDE) || (CharAt(p, 1) == 49 && name[0] == SLASH)) &&
            MatchesToken(name[1..], p[2..], cs)
  {
    hide Fold;
  }

  lemma MatchEscape(name: CStr, p: CStr, mark: Char8, cs: bool)
    requires mark == TILDE || mark == SLASH
    requires |p| > 1 && p[0] == TILDE && p[1] == if mark == TILDE then 48 else 49
    ensures MatchesToken(name, p, cs) <==> name != [] && name[0] == mark && MatchesToken(name[1..], p[2..], cs)
  {
    hide Fold, MatchesToken;
    MatchTilde(name, p, cs);
  }

  lemma OnlyMarkFolds(c: Char8, mark: Char8, cs: bool)
    requires mark == TILDE || mark == SLASH
    ensures Fold([c], cs) == Fold([mark], cs) <==> c == mark
  {
    assert Fold([c], cs)[0] == Fold([mark], cs)[0] <==> c == mark;
  }

  lemma {:induction false} EscapedKeyFinds(ms: Members, key: CStr, rest: CStr, cs: bool)
    requires EndsToken(CharAt(rest, 0))
    ensures FindToken(ms, Rfc6901(key) + rest, cs) == FindKey(ms, key, cs)
  {
    if ms != [] {
      hide Fold, MatchesToken, Rfc6901;
      EscapedKeyMatches(ms[0].key, key, rest, cs);
      EscapedKeyFinds(ms[1..], key, rest, cs);
    }
  }

  lemma {:induction false} CleanIsEscaped(token: CStr)
    requires Clean(token)
    ensures Rfc6901(token) == token
  {
    if token != [] {
      CleanIsEscaped(token[1..]);
    }
  }

  lemma CleanTokenMatches(name: CStr, token: CStr, rest: CStr, cs: bool)
    requires Clean(token) && EndsToken(CharAt(rest, 0))
    ensures MatchesToken(name, token + rest, cs) <==> Fold(name, cs) == Fold(token, cs)
  {
    hide Fold, MatchesToken;
    CleanIsEscaped(token);
    EscapedKeyMatches(name, token, rest, cs);
  }

  lemma CleanTokenFinds(ms: Members, token: CStr, rest: CStr, cs: bool)
    requires Clean(token) && EndsToken(CharAt(rest, 0))
    ensures FindToken(ms, token + rest, cs) == FindKey(ms, token, cs)
  {
    hide Fold, MatchesToken;
    CleanIsEscaped(token);
    EscapedKeyFinds(ms, token, rest, cs);
  }

  /** Any other key does not match its own encoding. */
  lemma {:induction false} DirtyKeyNeverMatches(name: CStr, rest: CStr, junk: Byte, cs: bool)
    requires !Encodable(name, junk) && EndsToken(CharAt(rest, 0))
    ensures !MatchesToken(name, EncodeKey(name, junk) + rest, cs)
  {
    var p := EncodeKey(name, junk) + rest;
    if name[0] == SLASH {
      if junk == 0 {
        assert p == rest;
      } else if junk == TILDE {
        assert p[0] == TILDE && p[1] == 49 && p[2..] == EncodeKey(name[1..], junk) + rest;
        DirtyKeyNeverMatches(name[1..], rest, junk, cs);
      } else {
        assert p[0] == junk;
        if junk != SLASH {
          assert Fold(name[..1], cs)[0] == SLASH != Fold(p[..1], cs)[0];
        }
      }
    } else if name[0] == TILDE {
      assert p[0] == TILDE && p[1] == 49;
    } else {
      assert p[0] == name[0] && p[1..] == EncodeKey(name[1..], junk) + rest && p[..1] == name[..1];
      DirtyKeyNeverMatches(name[1..], rest, junk, cs);
    }
  }

  lemma PathStartsToken(j: Json, a: Addr, junk: Byte)
    requires ValidAddr(j, a)
    ensures EndsToken(CharAt(PathTo(j, a, junk), 0))
  {
  }

  /** On the way to the node every key can be written as a token, and is the first of its name. */
  ghost predicate CleanWay(j: Json, a: Addr, junk: Byte, cs: bool)
    requires ValidAddr(j, a)
    decreases a
  {
    a == [] || (
      (j.Object? ==> Encodable(j.members[a[0]].key, junk) && FindKey(j.members, j.members[a[0]].key, cs) == a[0]) &&
      CleanWay(Kids(j)[a[0]], a[1..], junk, cs))
  }

  lemma {:induction false} TokenLengthOf(token: CStr, rest: CStr)
    requires SLASH !in token && EndsToken(CharAt(rest, 0))
    ensures TokenLength(token + rest) == |token|
  {
    if token == [] {
      assert token + rest == rest;
    } else {
      assert (token + rest)[1..] == token[1..] + rest && (token + rest)[0] == token[0];
      TokenLengthOf(token[1..], rest);
    }
  }

  /** One step of the walk over a pointer that starts with a given token. */
  lemma GetItemStep(j: Json, token: CStr, tail: CStr, cs: bool)
    requires SLASH !in token && EndsToken(CharAt(tail, 0))
    ensures GetItem(j, [SLASH] + token + tail, cs) ==
            var i := Step(j, token + tail, cs);
            if i.None? then None
            else
              var below := GetItem(Kids(j)[i.value], tail, cs);
              if below.None? then None else Some([i.value] + below.value)
  {
    var p := [SLASH] + token + tail;
    assert p[1..] == token + tail;
    TokenLengthOf(token, tail);
    assert p[1 + |token|..] == tail;
  }

  lemma ArrayStep(j: Json, i: nat, tail: CStr, cs: bool)
    requires j.Array? && Sized(j) && i < |j.elems| && EndsToken(CharAt(tail, 0))
    ensures GetItem(j, [SLASH] + Dec(i) + tail, cs) == Under([i], GetItem(j.elems[i], tail, cs))
  {
    DecodePrintedIndex(i, tail);
    GetItemStep(j, Dec(i), tail, cs);
  }

  lemma MemberStep(j: Json, key: CStr, tail: CStr, cs: bool)
    requires j.Object? && EndsToken(CharAt(tail, 0))
    ensures var i := FindKey(j.members, key, cs);
            GetItem(j, [SLASH] + Rfc6901(key) + tail, cs) ==
            if i == |j.members| then None else Under([i], GetItem(j.members[i].item, tail, cs))
  {
    hide Fold, Rfc6901;
    EscapedHasNoSlash(key);
    EscapedKeyFinds(j.members, key, tail, cs);
    GetItemStep(j, Rfc6901(key), tail, cs);
  }

  /** The pointer of section 6 of RFC 6901 for a node: escaped keys, and indices in decimal. */
  function AddressPointer(j: Json, a: Addr): CStr
    requires ValidAddr(j, a)
    decreases a
  {
    if a == [] then []
    else
      var token := if j.Array? then Dec(a[0]) else if j.Object? then Rfc6901(j.members[a[0]].key) else [];
      [47] + token + AddressPointer(Kids(j)[a[0]], a[1..])
  }

  /** On the way to the node every key is the first of its name. */
  ghost predicate FirstOfName(j: Json, a: Addr, cs: bool)
    requires ValidAddr(j, a)
    decreases a
  {
    a == [] || (
      (j.Object? ==> forall i :: 0 <= i < a[0] ==> Fold(j.members[i].key, cs) != Fold(j.members[a[0]].key, cs)) &&
      FirstOfName(Kids(j)[a[0]], a[1..], cs))
  }

  lemma AddressStartsToken(j: Json, a: Addr)
    requires ValidAddr(j, a)
    ensures EndsToken(CharAt(AddressPointer(j, a), 0))
  {
  }

  /** The standard pointer of a node leads to that node exactly when no key on the way repeats an earlier sibling,
      whatever bytes the keys have. */
  lemma {:induction false} StandardPointerLeads(j: Json, a: Addr, cs: bool)
    requires ValidAddr(j, a) && Sized(j)
    ensures GetItem(j, AddressPointer(j, a), cs) == Some(a) <==> FirstOfName(j, a, cs)
    decreases a
  {
    hide GetItem, Rfc6901, Dec, Fold;
    if a == [] {
      NoToken(j, cs);
    } else {
      var i, kid := a[0], Kids(j)[a[0]];
      var tail := AddressPointer(kid, a[1..]);
      AddressStartsToken(kid, a[1..]);
      StandardPointerLeads(kid, a[1..], cs);
      if j.Array? {
        ArrayStep(j, i, tail, cs);
        UnderHead(i, GetItem(kid, tail, cs), a);
      } else {
        var k := FindKey(j.members, j.members[i].key, cs);
        MemberStep(j, j.members[i].key, tail, cs);
        UnderHead(k, GetItem(j.members[k].item, tail, cs), a);
      }
    }
  }

  lemma DirtyStep(j: Json, i: nat, tail: CStr, junk: Byte, cs: bool)
    requires j.Object? && i < |j.members| && !Encodable(j.members[i].key, junk) && EndsToken(CharAt(tail, 0))
    ensures var r := GetItem(j, [SLASH] + EncodeKey(j.members[i].key, junk) + tail, cs);
            r.None? || (r.value != [] && r.value[0] != i)
  {
    hide MatchesToken, EncodeKey, Encodable;
    var key := j.members[i].key;
    DirtyKeyNeverMatches(key, tail, junk, cs);
    var p := [SLASH] + EncodeKey(key, junk) + tail;
    assert p[1..] == EncodeKey(key, junk) + tail;
  }

  /** The pointer found for a node leads back to that node exactly when every key on the way can be
      written as a token and none repeats an earlier sibling. */
  lemma {:induction false} PointerRoundTrip(j: Json, a: Addr, junk: Byte, cs: bool)
    requires ValidAddr(j, a) && Sized(j)
    ensures GetItem(j, PathTo(j, a, junk), cs) == Some(a) <==> CleanWay(j, a, junk, cs)
    decreases a
  {
    hide GetItem, EncodeKey, Encodable, Dec, Fold;
    if a == [] {
      NoToken(j, cs);
    } else {
      var i, kid := a[0], Kids(j)[a[0]];
      var tail := PathTo(kid, a[1..], junk);
      PathStartsToken(kid, a[1..], junk);
      PointerRoundTrip(kid, a[1..], junk, cs);
      if j.Array? {
        ArrayStep(j, i, tail, cs);
        UnderHead(i, GetItem(kid, tail, cs), a);
      } else if Encodable(j.members[i].key, junk) {
        var k := FindKey(j.members, j.members[i].key, cs);
        EncodedIsEscaped(j.members[i].key, junk);
        MemberStep(j, j.members[i].key, tail, cs);
        UnderHead(k, GetItem(j.members[k].item, tail, cs), a);
      } else {
        DirtyStep(j, i, tail, junk, cs);
      }
    }
  }

  lemma NoToken(j: Json, cs: bool)
    ensures GetItem(j, [], cs) == Some([])
  {
  }

  lemma UnderHead(i: nat, tail: Option<Addr>, a: Addr)
    requires a != []
    ensures Under([i], tail) == Some(a) <==> i == a[0] && tail == Some(a[1..])
  {
    assert a == [a[0]] + a[1..];
    if tail.Some? {
      assert ([i] + tail.value)[1..] == tail.value;
    }
  }

  /** In a document with distinct clean keys every node is found again. */
  lemma {:induction false} EveryNodeFound(j: Json, a: Addr, junk: Byte, cs: bool)
    requires ValidAddr(j, a) && Sized(j) && WellKeyed(j, cs) && CleanKeys(j)
    ensures GetItem(j, PathTo(j, a, junk), cs) == Some(a)
  {
    CleanWayEverywhere(j, a, junk, cs);
    PointerRoundTrip(j, a, junk, cs);
  }

  ghost predicate CleanKeys(j: Json) {
    match j
    case Array(es) => forall i :: 0 <= i < |es| ==> CleanKeys(es[i])
    case Object(ms) => forall i :: 0 <= i < |ms| ==> Clean(ms[i].key) && CleanKeys(ms[i].item)
    case _ => true
  }

  lemma {:induction false} CleanWayEverywhere(j: Json, a: Addr, junk: Byte, cs: bool)
    requires ValidAddr(j, a) && WellKeyed(j, cs) && CleanKeys(j)
    ensures CleanWay(j, a, junk, cs)
    decreases a
  {
    if a != [] {
      CleanWayEverywhere(Kids(j)[a[0]], a[1..], junk, cs);
    }
  }
}
