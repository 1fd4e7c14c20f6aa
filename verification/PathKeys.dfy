/** Which keys survive being written into a path and read back from it, and where the others lead. */
module PathKeys {
  import opened CStrings
  import opened Json
  import opened Decimals
  import opened Pointers
  import opened Patch

  function Count(s: CStr, c: Char8): nat {
    if s == [] then 0 else (if s[0] == c then 1 else 0) + Count(s[1..], c)
  }

  lemma {:induction false} CountZero(s: CStr, c: Char8)
    ensures Count(s, c) == 0 <==> c !in s
  {
    if s != [] {
      CountZero(s[1..], c);
      assert s == [s[0]] + s[1..];
    }
  }

  lemma {:induction false} SlashesFold(s: CStr, cs: bool)
    ensures Count(Fold(s, cs), SLASH) == Count(s, SLASH)
  {
    if s != [] {
      SlashesFold(s[1..], cs);
      assert Fold(s, cs)[1..] == Fold(s[1..], cs);
    }
  }

  /** A key that the last token of a path can stand for: no slash, and no tilde but as its last byte. */
  predicate LastClean(key: CStr) {
    SLASH !in key && (key == [] || TILDE !in key[..|key|-1])
  }

  lemma CleanIsLastClean(key: CStr)
    requires Clean(key)
    ensures LastClean(key)
  {
  }

  /** How many bytes of a name the token of a key stands for. */
  function Reach(key: CStr, junk: Byte): nat {
    if key == [] then 0
    else if key[0] == SLASH then if junk == 0 || junk == SLASH then 0 else 2 + Reach(key[1..], junk)
    else 1 + Reach(key[1..], junk)
  }

  lemma {:induction false} ReachLength(key: CStr, junk: Byte)
    ensures SLASH !in key ==> Reach(key, junk) == |key|
    ensures SLASH in key ==> if junk == 0 || junk == SLASH then Reach(key, junk) < |key| else Reach(key, junk) > |key|
  {
    if key != [] {
      ReachLength(key[1..], junk);
      assert key == [key[0]] + key[1..];
    }
  }

  /** One key is further on than another: a token that does not stand for its own key leads there. */
  predicate Moves(key: CStr, name: CStr, junk: Byte) {
    (if junk == 0 || junk == SLASH then |name| < |key| else |name| > |key|) ||
    (|name| == |key| && Count(name, SLASH) > Count(key, SLASH))
  }

  lemma {:induction false} MatchReach(name: CStr, key: CStr, rest: CStr, junk: Byte, cs: bool)
    requires junk != TILDE && EndsToken(CharAt(rest, 0)) && MatchesToken(name, EncodeKey(key, junk) + rest, cs)
    ensures |name| == Reach(key, junk)
    ensures SLASH !in key ==> Count(name, SLASH) == Count(key, TILDE)
  {
    hide MatchesToken, EncodeKey, Fold;
    var p := EncodeKey(key, junk) + rest;
    EncodeFirst(key, rest, junk);
    if key == [] {
      MatchEnd(name, p, cs);
    } else if key[0] == SLASH {
      if junk == 0 || junk == SLASH {
        MatchEnd(name, p, cs);
      } else {
        MatchPlain(name, p, cs);
        MatchPlain(name[1..], p[1..], cs);
        assert p[1..][1..] == p[2..];
        MatchReach(name[1..][1..], key[1..], rest, junk, cs);
      }
    } else if key[0] == TILDE {
      MatchEscape(name, p, SLASH, cs);
      MatchReach(name[1..], key[1..], rest, junk, cs);
    } else {
      MatchPlain(name, p, cs);
      OnlyMarkFolds(p[0], SLASH, cs);
      assert name[..1] == [name[0]] && p[..1] == [p[0]];
      MatchReach(name[1..], key[1..], rest, junk, cs);
    }
  }

  lemma MatchEnd(name: CStr, p: CStr, cs: bool)
    requires EndsToken(CharAt(p, 0)) && MatchesToken(name, p, cs)
    ensures name == []
  {
  }

  /** The bytes a key starts with in a path. */
  lemma EncodeFirst(key: CStr, rest: CStr, junk: Byte)
    ensures var p := EncodeKey(key, junk) + rest;
            if key == [] then p == rest
            else
              var tail := EncodeKey(key[1..], junk) + rest;
              if key[0] == SLASH then
                if junk == 0 then p == rest else |p| > 1 && p[0] == junk && p[1] == 49 && p[2..] == tail
              else if key[0] == TILDE then |p| > 1 && p[0] == TILDE && p[1] == 49 && p[2..] == tail
              else p != [] && p[0] == key[0] && p[1..] == tail
  {
    if key != [] {
      var below := EncodeKey(key[1..], junk);
      EncodeStep(key, junk);
      hide EncodeKey;
      if key[0] == SLASH && junk != 0 {
        HeadAndTail([junk, 49], below, rest);
      } else if key[0] == TILDE {
        HeadAndTail([TILDE, 49], below, rest);
      } else if key[0] != SLASH {
        HeadAndTail([key[0]], below, rest);
      } else {
        assert [] + rest == rest;
      }
    } else {
      assert EncodeKey(key, junk) + rest == rest;
    }
  }

  lemma EncodeStep(key: CStr, junk: Byte)
    requires key != []
    ensures EncodeKey(key, junk) ==
            if key[0] == SLASH then if junk == 0 then [] else [junk, 49] + EncodeKey(key[1..], junk)
            else if key[0] == TILDE then [TILDE, 49] + EncodeKey(key[1..], junk)
            else [key[0]] + EncodeKey(key[1..], junk)
  {
  }

  /** As a token on the way, a key with a tilde or slash leads to other names only. */
  lemma MatchMoves(name: CStr, key: CStr, rest: CStr, junk: Byte, cs: bool)
    requires junk != TILDE && EndsToken(CharAt(rest, 0)) && MatchesToken(name, EncodeKey(key, junk) + rest, cs) && !Clean(key)
    ensures Moves(key, name, junk)
  {
    MatchReach(name, key, rest, junk, cs);
    ReachLength(key, junk);
    CountZero(key, TILDE);
    CountZero(key, SLASH);
  }

  /** Decoding goes on behind what it has written, and does not read what it has overwritten. */
  lemma {:induction false} DecodeReach(b: CStr, r: nat, d: nat, key: CStr, junk: Byte)
    requires d <= r <= |b| && b[r..] == EncodeKey(key, junk) && junk != TILDE && (junk == SLASH ==> SLASH !in key)
    ensures |DecodeToken(b, r, d)| == d + Reach(key, junk)
    ensures forall q :: 0 <= q <= d && q < |DecodeToken(b, r, d)| ==> DecodeToken(b, r, d)[q] == b[q]
    decreases |key|
  {
    hide DecodeToken, EncodeKey;
    EncodeFirst(key, [], junk);
    assert EncodeKey(key, junk) + [] == EncodeKey(key, junk);
    assert forall k :: r <= k < |b| ==> b[k] == b[r..][k-r];
    if key == [] || (key[0] == SLASH && junk == 0) {
      DecodeEnds(b, r, d);
    } else {
      assert EncodeKey(key[1..], junk) + [] == EncodeKey(key[1..], junk);
      if key[0] == SLASH {
        DecodePlain(b, r, d);
        DecodePlain(b, r + 1, d + 1);
        assert b[r..][2..] == b[r+2..];
        DecodeReach(b, r + 2, d + 2, key[1..], junk);
      } else if key[0] == TILDE {
        DecodeEscape(b, r, d);
        assert b[d+1 := SLASH][r+2..] == b[r..][2..];
        DecodeReach(b[d+1 := SLASH], r + 2, d + 1, key[1..], junk);
      } else {
        DecodePlain(b, r, d);
        assert b[r..][1..] == b[r+1..];
        DecodeReach(b, r + 1, d + 1, key[1..], junk);
      }
    }
  }

  lemma DecodeEnds(b: CStr, r: nat, d: nat)
    requires d <= r == |b|
    ensures DecodeToken(b, r, d) == b[..d]
  {
  }

  lemma DecodePlain(b: CStr, r: nat, d: nat)
    requires d <= r < |b| && b[r] != TILDE
    ensures DecodeToken(b, r, d) == DecodeToken(b, r + 1, d + 1)
  {
  }

  lemma DecodeEscape(b: CStr, r: nat, d: nat)
    requires d <= r && r + 1 < |b| && b[r] == TILDE && b[r+1] == 49
    ensures DecodeToken(b, r, d) == DecodeToken(b[d+1 := SLASH], r + 2, d + 1)
  {
  }

  /** Behind a tilde that is not the last byte, a slash appears. */
  lemma {:induction false} DecodeBreaks(b: CStr, r: nat, key: CStr, junk: Byte)
    requires r <= |b| && b[r..] == EncodeKey(key, junk) && junk != TILDE
    requires SLASH !in key && key != [] && TILDE in key[..|key|-1]
    ensures SLASH in DecodeToken(b, r, r)
    decreases |key|
  {
    hide DecodeToken, EncodeKey;
    EncodeFirst(key, [], junk);
    assert EncodeKey(key, junk) + [] == EncodeKey(key, junk) && EncodeKey(key[1..], junk) + [] == EncodeKey(key[1..], junk);
    assert forall k :: r <= k < |b| ==> b[k] == b[r..][k-r];
    if key[0] == TILDE {
      DecodeEscape(b, r, r);
      var c := b[r+1 := SLASH];
      assert c[r+2..] == b[r..][2..];
      DecodeReach(c, r + 2, r + 1, key[1..], junk);
      ReachLength(key[1..], junk);
      assert DecodeToken(c, r + 2, r + 1)[r+1] == SLASH;
    } else {
      DecodePlain(b, r, r);
      assert b[r..][1..] == b[r+1..];
      assert key[1..][..|key|-2] == key[..|key|-1][1..];
      DecodeBreaks(b, r + 1, key[1..], junk);
    }
  }

  /** As the last token, a key that is not clean enough is decoded to another one. */
  lemma DecodeMoves(key: CStr, junk: Byte)
    requires junk != TILDE && !LastClean(key) && (junk == SLASH ==> SLASH !in key)
    ensures Moves(key, DecodeToken(EncodeKey(key, junk), 0, 0), junk)
  {
    hide DecodeToken, EncodeKey;
    var b := EncodeKey(key, junk);
    assert b[0..] == b;
    DecodeReach(b, 0, 0, key, junk);
    ReachLength(key, junk);
    if SLASH !in key {
      DecodeBreaks(b, 0, key, junk);
      CountZero(DecodeToken(b, 0, 0), SLASH);
      CountZero(key, SLASH);
    }
  }

  /** One that is clean enough is decoded to itself. */
  lemma {:induction false} DecodeLastClean(b: CStr, r: nat, key: CStr, junk: Byte)
    requires r <= |b| && b[r..] == EncodeKey(key, junk) && LastClean(key)
    ensures DecodeToken(b, r, r) == b[..r] + key
    decreases |key|
  {
    hide DecodeToken, EncodeKey;
    EncodeFirst(key, [], junk);
    assert EncodeKey(key, junk) + [] == EncodeKey(key, junk);
    assert forall k :: r <= k < |b| ==> b[k] == b[r..][k-r];
    if key == [] {
      DecodeEnds(b, r, r);
    } else {
      assert EncodeKey(key[1..], junk) + [] == EncodeKey(key[1..], junk);
      if key[0] == TILDE {
        LoneTilde(key);
        assert key[1..] == [];
        EncodeNothing(junk);
        DecodeEscape(b, r, r);
        DecodeEnds(b[r+1 := SLASH], r + 2, r + 1);
        assert b[r+1 := SLASH][..r+1] == b[..r] + key;
      } else {
        DecodePlain(b, r, r);
        assert b[r..][1..] == b[r+1..];
        assert |key| > 1 ==> key[1..][..|key|-2] == key[..|key|-1][1..];
        DecodeLastClean(b, r + 1, key[1..], junk);
        assert b[..r+1] + key[1..] == b[..r] + key;
      }
    }
  }

  lemma LoneTilde(key: CStr)
    requires LastClean(key) && key != [] && key[0] == TILDE
    ensures |key| == 1
  {
    if |key| > 1 {
      FirstInFront(key);
    }
  }

  lemma FirstInFront(key: CStr)
    requires |key| > 1
    ensures key[0] in key[..|key|-1]
  {
    assert key[..|key|-1][0] == key[0];
  }

  lemma EncodeNothing(junk: Byte)
    ensures EncodeKey([], junk) == []
  {
  }

  /** What a path says in its last token is read back exactly for these keys. */
  lemma LastTokenRoundTrip(key: CStr, junk: Byte)
    requires junk != TILDE && (junk == SLASH ==> SLASH !in key)
    ensures DecodeToken(EncodeKey(key, junk), 0, 0) == key <==> LastClean(key)
  {
    hide DecodeToken, EncodeKey, LastClean;
    if LastClean(key) {
      var b := EncodeKey(key, junk);
      assert b[0..] == b && b[..0] + key == key;
      DecodeLastClean(b, 0, key, junk);
    } else {
      DecodeMoves(key, junk);
    }
  }

  // Standard tokens, as the last token of a path

  /** The byte at a place of a decoded token, when `b` was in the buffer. Bytes that need no decoding are not
      moved, and the slash of an escape goes one place too far. */
  function DecodedByte(key: CStr, i: nat, b: Char8): Char8
    requires i <= |key|
  {
    if i < |key| && key[i] == 126 then 126 else if i > 0 && key[i-1] == 47 then 47 else b
  }

  /** No escape at all, or one that is neither `~0` nor `~1`. */
  predicate NoEscape(x: CStr) {
    x == [] || (x[0] == 126 && CharAt(x, 1) != 48 && CharAt(x, 1) != 49)
  }

  /** What an escaped key at a place of the buffer is decoded to, with something that cannot be decoded behind it. */
  ghost predicate DecodedInto(t: CStr, b: CStr, d: nat, key: CStr, x: CStr) {
    d + |key| <= |b| && |t| == (if x == [] then d + |key| else |b|) && t[..d] == b[..d] &&
    (forall q :: d <= q < d + |key| ==> t[q] == DecodedByte(key, q - d, b[q])) &&
    (forall q :: d + |key| <= q < |t| ==> t[q] == if q == d + |key| then DecodedByte(key, |key|, b[q]) else b[q])
  }

  /** What any token is decoded to: it is an escaped key, perhaps with something behind it that starts with a bad
      escape, in front of which decoding stops and leaves the whole buffer. */
  lemma {:induction false} DecodedBytes(b: CStr, r: nat, d: nat, key: CStr, x: CStr)
    requires d <= r <= |b| && b[r..] == Rfc6901(key) + x && NoEscape(x)
    ensures DecodedInto(DecodeToken(b, r, d), b, d, key, x)
    decreases |key|
  {
    hide DecodeToken, Rfc6901, DecodedInto, NoEscape;
    if key == [] {
      NothingEscaped();
      assert b[r..] == x;
      DecodeStops(b, r, d, x);
    } else {
      EscapedFirst(key, x);
      var n := if key[0] == TILDE || key[0] == SLASH then 2 else 1;
      var c := if key[0] == TILDE then b[d := TILDE] else if key[0] == SLASH then b[d+1 := SLASH] else b;
      assert b[r] == b[r..][0] && (n == 2 ==> b[r+1] == b[r..][1]);
      assert c[r+n..] == b[r..][n..];
      if key[0] == TILDE {
        DecodeTilde(b, r, d);
      } else if key[0] == SLASH {
        DecodeEscape(b, r, d);
      } else {
        DecodePlain(b, r, d);
      }
      DecodedBytes(c, r + n, d + 1, key[1..], x);
      DecodedMore(b, c, DecodeToken(b, r, d), d, key, x);
    }
  }

  /** From what the rest of a key is decoded to, behind its first byte, to what the whole key is. */
  lemma DecodedMore(b: CStr, c: CStr, t: CStr, d: nat, key: CStr, x: CStr)
    requires key != [] && (key[0] == SLASH ==> d + 1 < |b|) && d < |b| && DecodedInto(t, c, d + 1, key[1..], x)
    requires c == if key[0] == TILDE then b[d := TILDE] else if key[0] == SLASH then b[d+1 := SLASH] else b
    ensures DecodedInto(t, b, d, key, x)
  {
    assert t[..d] == t[..d+1][..d] && b[..d] == c[..d+1][..d] && t[d] == t[..d+1][d];
  }

  lemma NothingEscaped()
    ensures Rfc6901([]) == []
  {
  }

  lemma DecodeStops(b: CStr, r: nat, d: nat, x: CStr)
    requires d <= r <= |b| && b[r..] == x && NoEscape(x)
    ensures DecodedInto(DecodeToken(b, r, d), b, d, [], x)
  {
    if x != [] {
      assert b[r] == x[0] && CharAt(b, r + 1) == CharAt(x, 1);
    }
  }

  lemma DecodeTilde(b: CStr, r: nat, d: nat)
    requires d <= r && r + 1 < |b| && b[r] == TILDE && b[r+1] == 48
    ensures DecodeToken(b, r, d) == DecodeToken(b[d := TILDE], r + 2, d + 1)
  {
  }

  /** The escaped form of a key is decoded to that key exactly when there is no slash in the key, and every byte
      that is not a tilde stands at the same place in the escaped form. */
  lemma EscapedDecodesExactly(key: CStr)
    ensures |Rfc6901(key)| >= |key|
    ensures DecodeToken(Rfc6901(key), 0, 0) == key <==>
            47 !in key && forall i :: 0 <= i < |key| && key[i] != 126 ==> Rfc6901(key)[i] == key[i]
  {
    hide DecodeToken, Rfc6901;
    var e := Rfc6901(key);
    var t := DecodeToken(e, 0, 0);
    assert e[0..] == e + [];
    DecodedBytes(e, 0, 0, key, []);
    EscapedHasNoSlash(key);
    if 47 in key {
      var i := FirstSlash(key);
      assert t[i] == e[i] && e[i] in e;
    } else if 47 !in key {
      forall i | 0 <= i < |key| ensures t[i] == if key[i] == 126 then 126 else e[i] {
        assert t[i] == DecodedByte(key, i, e[i]);
      }
    }
  }

  lemma FirstSlash(key: CStr) returns (i: nat)
    requires 47 in key
    ensures i < |key| && key[i] == 47 && 47 !in key[..i]
    ensures i > 0 ==> key[i-1] != 47
  {
    if key[0] == 47 {
      return 0;
    }
    assert key == [key[0]] + key[1..];
    i := FirstSlash(key[1..]);
    assert key[..i+1] == [key[0]] + key[1..][..i];
    i := i + 1;
    assert key[..i][i-1] in key[..i];
  }

  /** The token `m~0n` of the key `m~n` is decoded to `m~0`, although it has no slash; `m~` is read back. */
  lemma TildeInsideFails()
    ensures Rfc6901([109, 126, 110]) == [109, 126, 48, 110] && DecodeToken([109, 126, 48, 110], 0, 0) == [109, 126, 48]
    ensures Rfc6901([109, 126]) == [109, 126, 48] && DecodeToken([109, 126, 48], 0, 0) == [109, 126]
  {
    EscapedStep([109, 126, 110]);
    DecodePlain([109, 126, 48, 110], 0, 0);
    DecodePlain([109, 126, 48], 0, 0);
  }
}
