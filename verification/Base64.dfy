/** The Base64 encoder and decoder over a byte pointer and a length. */
module Base64 {
  import opened CStrings
  import opened Parsing

  const PAD: Byte := 61

  type Sextet = v: int | 0 <= v < 64

  /** The table of section 4 of RFC 4648. */
  function Letter(v: Sextet): (c: Byte)
    ensures c != PAD && c != 0
  {
    if v < 26 then 65 + v else if v < 52 then 71 + v else if v < 62 then v - 4 else if v == 62 then 43 else 47
  }

  predicate InTable(c: Byte) {
    65 <= c <= 90 || 97 <= c <= 122 || 48 <= c <= 57 || c == 43 || c == 47
  }

  /** `QueryTable`, on the letters of the table. */
  function Value(c: Byte): (v: Sextet)
    requires InTable(c)
    ensures Letter(v) == c
  {
    if 65 <= c <= 90 then c - 65 else if 97 <= c <= 122 then c - 71 else if 48 <= c <= 57 then c + 4
    else if c == 43 then 62 else 63
  }

  lemma LetterValue(v: Sextet)
    ensures InTable(Letter(v)) && Value(Letter(v)) == v
  {
  }

  /** The shifts and masks of the encoder on bytes, as arithmetic. */
  lemma EncoderBits(a: bv16, b: bv16)
    requires a < 256 && b < 256
    ensures a >> 2 == a / 4 && a & 0x3F == a % 64
    ensures (a & 0x0F) << 2 == a % 16 * 4 && (a << 4) & 0x3F == a % 4 * 16
    ensures ((a << 4) | (b >> 4)) & 0x3F == a % 4 * 16 + b / 16
    ensures ((a << 2) | (b >> 6)) & 0x3F == a % 16 * 4 + b / 64
  {
  }

  /** The shifts of the decoder on the values of letters, cut to a byte, as arithmetic. */
  lemma DecoderBits(a: bv16, b: bv16)
    requires a < 64 && b < 64
    ensures (a << 2) | (b >> 4) == a * 4 + b / 16
    ensures ((a << 4) | (b >> 2)) & 0xFF == a % 16 * 16 + b / 4
    ensures ((a << 6) | b) & 0xFF == a % 4 * 64 + b
  {
  }

  // Encoding

  /** What the encoder appends for some bytes, when `after` is the byte behind them in memory. */
  function Encoded(s: Bytes, after: Byte): (r: Bytes)
    decreases |s|
  {
    if |s| == 0 then []
    else if |s| == 1 then [Letter(s[0] / 4), Letter(after % 4 * 16), PAD, PAD]
    else if |s| == 2 then [Letter(s[0] / 4), Letter(s[0] % 4 * 16 + s[1] / 16), Letter(s[1] % 16 * 4), PAD]
    else Group(s[0], s[1], s[2]) + Encoded(s[3..], after)
  }

  function Group(a: Byte, b: Byte, c: Byte): (r: Bytes)
    ensures |r| == 4
  {
    [Letter(a / 4), Letter(a % 4 * 16 + b / 16), Letter(b % 16 * 4 + c / 64), Letter(c % 64)]
  }

  /** The encoder: it appends to a buffer. With one byte left over it reads the byte behind the end. */
  method Encode(data: Bytes, length: nat, buf: Bytes) returns (r: Bytes)
    requires length <= |data| && (length % 3 == 1 ==> length < |data|)
    ensures r == buf + Encoded(data[..length], if length < |data| then data[length] else 0)
  {
    hide Letter, Encoded;
    r := buf;
    var cptr, datalen := 0, length;
    ghost var s, after := data[..length], if length < |data| then data[length] else 0;
    assert s[0..] == s;
    while datalen > 2
      invariant cptr + datalen == length && cptr % 3 == 0
      invariant r + Encoded(s[cptr..], after) == buf + Encoded(s, after)
    {
      EncodeTurn(r, s, cptr, after);
      var a, b, c := data[cptr], data[cptr+1], data[cptr+2];
      r := r + [Letter(a / 4)];
      r := r + [Letter(a % 4 * 16 + b / 16)];
      r := r + [Letter(b % 16 * 4 + c / 64)];
      r := r + [Letter(c % 64)];
      cptr, datalen := cptr + 3, datalen - 3;
    }
    r := EncodeLeftover(data, cptr, datalen, r, s, after);
  }

  /** The one or two bytes left over. */
  method EncodeLeftover(data: Bytes, cptr: nat, datalen: nat, buf: Bytes, ghost s: Bytes, ghost after: Byte) returns (r: Bytes)
    requires datalen < 3 && cptr + datalen == |s| <= |data| && s == data[..|s|]
    requires datalen == 1 ==> |s| < |data| && after == data[|s|]
    ensures r == buf + Encoded(s[cptr..], after)
  {
    hide Letter, Encoded;
    LastTurn(buf, s, cptr, after);
    r := buf;
    match datalen {
      case 2 =>
        r := r + [Letter(data[cptr] / 4)];
        r := r + [Letter(data[cptr] % 4 * 16 + data[cptr+1] / 16)];
        r := r + [Letter(data[cptr+1] % 16 * 4)];
        r := r + [PAD];
      case 1 =>
        r := r + [Letter(data[cptr] / 4)];
        r := r + [Letter(data[cptr+1] % 4 * 16)];
        r := r + [PAD];
        r := r + [PAD];
      case _ =>
    }
  }

  lemma EncodeTurn(r: Bytes, s: Bytes, at: nat, after: Byte)
    requires at + 2 < |s|
    ensures var g := Group(s[at], s[at+1], s[at+2]);
            r + Encoded(s[at..], after) == r + [g[0]] + [g[1]] + [g[2]] + [g[3]] + Encoded(s[at+3..], after)
  {
    hide Letter;
    assert s[at..][3..] == s[at+3..];
    var g := Group(s[at], s[at+1], s[at+2]);
    assert g == [g[0], g[1], g[2], g[3]];
    assert r + (g + Encoded(s[at+3..], after)) == r + [g[0]] + [g[1]] + [g[2]] + [g[3]] + Encoded(s[at+3..], after);
  }

  lemma LastTurn(r: Bytes, s: Bytes, at: nat, after: Byte)
    requires at <= |s| <= at + 2
    ensures var left := Encoded(s[at..], after);
            r + left == if left == [] then r else r + [left[0]] + [left[1]] + [left[2]] + [left[3]]
    ensures Encoded(s[at..], after) ==
            if |s| == at then []
            else if |s| == at + 1 then [Letter(s[at] / 4), Letter(after % 4 * 16), PAD, PAD]
            else [Letter(s[at] / 4), Letter(s[at] % 4 * 16 + s[at+1] / 16), Letter(s[at+1] % 16 * 4), PAD]
  {
    hide Letter;
  }

  /** The overload for C strings, whose terminator is the byte behind the end. */
  method EncodeText(text: CStr) returns (r: Bytes)
    ensures r == Encoded(text, 0)
  {
    var c := Buffer(text);
    assert c[..|text|] == text;
    r := Encode(c, |text|, []);
    assert [] + Encoded(text, 0) == Encoded(text, 0);
  }

  // Decoding

  predicate AllInTable(t: Bytes) {
    forall i :: 0 <= i < |t| ==> InTable(t[i])
  }

  /** How many pads the decoder strips. */
  function Pads(t: Bytes): (n: nat)
    requires |t| >= 2
    ensures n <= 2
  {
    (if t[|t|-1] == PAD then 1 else 0) + (if t[|t|-2] == PAD then 1 else 0)
  }

  /** Letters without pads. One letter alone cannot be left. */
  function DecodedLetters(t: Bytes): Bytes
    requires AllInTable(t) && |t| % 4 != 1
    decreases |t|
  {
    if |t| == 0 then []
    else if |t| == 2 then [First(t)]
    else if |t| == 3 then [First(t), Second(t)]
    else [First(t), Second(t), Third(t)] + DecodedLetters(t[4..])
  }

  function First(t: Bytes): Byte
    requires AllInTable(t) && |t| >= 2
  {
    Value(t[0]) * 4 + Value(t[1]) / 16
  }

  function Second(t: Bytes): Byte
    requires AllInTable(t) && |t| >= 3
  {
    Value(t[1]) % 16 * 16 + Value(t[2]) / 4
  }

  function Third(t: Bytes): Byte
    requires AllInTable(t) && |t| >= 4
  {
    Value(t[2]) % 4 * 64 + Value(t[3])
  }

  /** What the decoder asks of its caller: some bytes, and only letters in front of the pads. */
  predicate Decodable(t: Bytes) {
    t != [] && (|t| % 4 == 0 ==> AllInTable(t[..|t|-Pads(t)]))
  }

  /** The decoded bytes, or nothing where the length is not a multiple of 4. */
  function Decoded(t: Bytes): Option<Bytes>
    requires Decodable(t)
  {
    if |t| % 4 != 0 then None else Some(DecodedLetters(t[..|t|-Pads(t)]))
  }

  /** The decoder. */
  method Decode(data: Bytes, buf: Bytes) returns (r: Option<Bytes>)
    requires Decodable(data)
    ensures r == if Decoded(data).None? then None else Some(buf + Decoded(data).value)
  {
    var datalen := |data|;
    if datalen % 4 != 0 {
      return None;
    }
    var sub := 0;
    if data[datalen-1] == PAD {
      sub := sub + 1;
    }
    if data[datalen-2] == PAD {
      sub := sub + 1;
    }
    var out := DecodeStripped(data, datalen - sub, buf);
    return Some(out);
  }

  /** The loop over groups of four letters. */
  method DecodeStripped(data: Bytes, length: nat, buf: Bytes) returns (out: Bytes)
    requires length <= |data| && length % 4 != 1 && AllInTable(data[..length])
    ensures out == buf + DecodedLetters(data[..length])
  {
    hide Value, DecodedLetters, InTable;
    ghost var t := data[..length];
    var datalen, cptr := length, 0;
    out := buf;
    assert t[0..] == t;
    while datalen > 3
      invariant cptr + datalen == |t| && cptr % 4 == 0 && AllInTable(t)
      invariant datalen >= 0 && out + DecodedLetters(t[cptr..]) == buf + DecodedLetters(t)
    {
      DecodeTurn(out, t, cptr);
      assert forall k :: cptr <= k < cptr + 4 ==> data[k] == t[k];
      var a0: int, a1: int, a2: int, a3: int := Value(data[cptr]), Value(data[cptr+1]), Value(data[cptr+2]), Value(data[cptr+3]);
      AreBytes(a0, a1, a2, a3);
      out := out + [a0 * 4 + a1 / 16];
      out := out + [a1 % 16 * 16 + a2 / 4];
      out := out + [a2 % 4 * 64 + a3];
      cptr, datalen := cptr + 4, datalen - 4;
    }
    out := DecodeLeftover(data, cptr, datalen, out, t);
  }

  lemma AreBytes(a0: int, a1: int, a2: int, a3: int)
    requires 0 <= a0 < 64 && 0 <= a1 < 64 && 0 <= a2 < 64 && 0 <= a3 < 64
    ensures 0 <= a0 * 4 + a1 / 16 < 256 && 0 <= a1 % 16 * 16 + a2 / 4 < 256 && 0 <= a2 % 4 * 64 + a3 < 256
  {
  }

  /** The two or three letters left over. */
  method DecodeLeftover(data: Bytes, cptr: nat, datalen: nat, buf: Bytes, ghost t: Bytes) returns (out: Bytes)
    requires datalen < 4 && datalen != 1 && cptr + datalen == |t| <= |data| && t == data[..|t|] && AllInTable(t)
    ensures out == buf + DecodedLetters(t[cptr..])
  {
    hide Value, DecodedLetters;
    LastLetters(buf, t, cptr);
    out := buf;
    match datalen {
      case 2 =>
        assert AllInTable(t) && data[cptr] == t[cptr] && data[cptr+1] == t[cptr+1];
        var a0: int, a1: int := Value(data[cptr]), Value(data[cptr+1]);
        out := out + [a0 * 4 + a1 / 16];
      case 3 =>
        assert AllInTable(t) && data[cptr] == t[cptr] && data[cptr+1] == t[cptr+1] && data[cptr+2] == t[cptr+2];
        var a0: int, a1: int, a2: int := Value(data[cptr]), Value(data[cptr+1]), Value(data[cptr+2]);
        out := out + [a0 * 4 + a1 / 16];
        out := out + [a1 % 16 * 16 + a2 / 4];
      case _ =>
    }
  }

  lemma DecodeTurn(out: Bytes, t: Bytes, at: nat)
    requires AllInTable(t) && at + 3 < |t| && |t[at..]| % 4 != 1
    ensures var u := t[at..];
            out + DecodedLetters(u) == out + [First(u)] + [Second(u)] + [Third(u)] + DecodedLetters(t[at+4..])
  {
    hide Value;
    var u := t[at..];
    assert u[4..] == t[at+4..];
    assert out + ([First(u), Second(u), Third(u)] + DecodedLetters(u[4..])) ==
           out + [First(u)] + [Second(u)] + [Third(u)] + DecodedLetters(u[4..]);
  }

  lemma LastLetters(out: Bytes, t: Bytes, at: nat)
    requires AllInTable(t) && at <= |t| <= at + 3 && |t| != at + 1
    ensures var u := t[at..];
            out + DecodedLetters(u) ==
            if |u| == 0 then out else if |u| == 2 then out + [First(u)] else out + [First(u)] + [Second(u)]
  {
    hide Value;
  }

  // What both promise

  /** The output is always four bytes for every three begun. */
  lemma {:induction false} EncodedLength(s: Bytes, after: Byte)
    ensures |Encoded(s, after)| == (|s| + 2) / 3 * 4
    decreases |s|
  {
    if |s| > 2 {
      EncodedLength(s[3..], after);
    }
  }

  /** What comes back: the bytes, except that a byte left over alone keeps its upper six bits and
      takes the lower two of the byte behind it. */
  function Returned(s: Bytes, after: Byte): (r: Bytes)
    ensures |r| == |s|
  {
    if |s| % 3 != 1 then s else s[|s|-1 := s[|s|-1] / 4 * 4 + after % 4]
  }

  /** The letters of the encoding, without its pads. */
  function PadCount(s: Bytes): (n: nat)
    ensures n <= 2
  {
    (3 - |s| % 3) % 3
  }

  /** What the encoding promises the decoder. */
  ghost predicate Returns(s: Bytes, t: Bytes, back: Bytes) {
    var n := |t| - PadCount(s);
    n >= 0 && AllInTable(t[..n]) && n % 4 != 1 && DecodedLetters(t[..n]) == back &&
    |t| % 4 == 0 && (s != [] ==> |t| >= 4 && Pads(t) == PadCount(s)) && (s == [] ==> t == [])
  }

  lemma {:induction false} LettersReturn(s: Bytes, after: Byte)
    ensures Returns(s, Encoded(s, after), Returned(s, after))
    decreases |s|
  {
    hide Returns, Letter, Value;
    if |s| == 0 {
      assert Encoded(s, after) == [];
      NothingReturns(s);
    } else if |s| == 1 {
      OneReturns(s, after);
    } else if |s| == 2 {
      TwoReturn(s, after);
    } else {
      LettersReturn(s[3..], after);
      GroupReturns(s, Encoded(s[3..], after), Returned(s[3..], after));
      ReturnedGroup(s, after);
    }
  }

  lemma NothingReturns(s: Bytes)
    requires s == []
    ensures Returns(s, [], s)
  {
  }

  lemma OneReturns(s: Bytes, after: Byte)
    requires |s| == 1
    ensures Returns(s, Encoded(s, after), Returned(s, after))
  {
    hide Letter, Value;
    var t := Encoded(s, after);
    LetterValue(s[0] / 4);
    LetterValue(after % 4 * 16);
    assert t[..2] == [t[0], t[1]];
  }

  lemma ThreeBack(x: Sextet, y: Sextet, z: Sextet)
    requires InTable(Letter(x)) && InTable(Letter(y)) && InTable(Letter(z))
    requires Value(Letter(x)) == x && Value(Letter(y)) == y && Value(Letter(z)) == z
    ensures var t := [Letter(x), Letter(y), Letter(z)];
            AllInTable(t) && DecodedLetters(t) == [Joined(x, y, 4, 16), Joined(y % 16, z, 16, 4)]
  {
    hide Letter, Value, InTable;
  }

  lemma TwoReturn(s: Bytes, after: Byte)
    requires |s| == 2
    ensures Returns(s, Encoded(s, after), Returned(s, after))
  {
    hide Letter, Value, InTable, Joined;
    var t := Encoded(s, after);
    var x, y, z := s[0] / 4, s[0] % 4 * 16 + s[1] / 16, s[1] % 16 * 4;
    LetterValue(x);
    LetterValue(y);
    LetterValue(z);
    ShiftsBack(s[0], s[1], 0, x, y, z, 0);
    ThreeBack(x, y, z);
    assert t[..3] == [t[0], t[1], t[2]];
  }

  lemma ReturnedGroup(s: Bytes, after: Byte)
    requires |s| > 2
    ensures Returned(s, after) == [s[0], s[1], s[2]] + Returned(s[3..], after)
  {
  }

  lemma GroupReturns(s: Bytes, t: Bytes, back: Bytes)
    requires |s| > 2 && Returns(s[3..], t, back)
    ensures Returns(s, Group(s[0], s[1], s[2]) + t, [s[0], s[1], s[2]] + back)
  {
    hide Letter, Value, Group, DecodedLetters, InTable;
    var g := Group(s[0], s[1], s[2]);
    var n := |t| - PadCount(s[3..]);
    SamePads(s);
    GroupBack(s[0], s[1], s[2], t[..n]);
    assert (g + t)[..n+4] == g + t[..n];
    GroupPads(s[0], s[1], s[2], t);
  }

  lemma SamePads(s: Bytes)
    requires |s| > 2
    ensures PadCount(s) == PadCount(s[3..])
  {
  }

  lemma GroupPads(a: Byte, b: Byte, c: Byte, t: Bytes)
    requires |t| % 4 == 0
    ensures Pads(Group(a, b, c) + t) == if t == [] then 0 else Pads(t)
  {
    hide Letter;
  }

  /** What the shifts of the decoder make of those of the encoder. */
  lemma ShiftsBack(a: Byte, b: Byte, c: Byte, x: int, y: int, z: int, w: int)
    requires x == a / 4 && y == a % 4 * 16 + b / 16 && z == b % 16 * 4 + c / 64 && w == c % 64
    ensures Joined(x, y, 4, 16) == a && Joined(y % 16, z, 16, 4) == b && Joined(z % 4, w, 64, 1) == c
  {
  }

  /** A group of letters in front of some letters decodes to its three bytes in front of theirs. */
  lemma GroupBack(a: Byte, b: Byte, c: Byte, u: Bytes)
    requires AllInTable(u) && |u| % 4 != 1
    ensures var t := Group(a, b, c) + u;
            AllInTable(t) && |t| % 4 != 1 && DecodedLetters(t) == [a, b, c] + DecodedLetters(u)
  {
    hide Letter, Value, InTable, DecodedLetters, Joined;
    var x, y, z, w := a / 4, a % 4 * 16 + b / 16, b % 16 * 4 + c / 64, c % 64;
    LetterValue(x);
    LetterValue(y);
    LetterValue(z);
    LetterValue(w);
    ShiftsBack(a, b, c, x, y, z, w);
    LettersBack(x, y, z, w, u);
  }

  lemma LettersBack(x: Sextet, y: Sextet, z: Sextet, w: Sextet, u: Bytes)
    requires AllInTable(u) && |u| % 4 != 1
    requires InTable(Letter(x)) && InTable(Letter(y)) && InTable(Letter(z)) && InTable(Letter(w))
    requires Value(Letter(x)) == x && Value(Letter(y)) == y && Value(Letter(z)) == z && Value(Letter(w)) == w
    ensures var t := [Letter(x), Letter(y), Letter(z), Letter(w)] + u;
            AllInTable(t) && |t| % 4 != 1 &&
            DecodedLetters(t) == [Joined(x, y, 4, 16), Joined(y % 16, z, 16, 4), Joined(z % 4, w, 64, 1)] + DecodedLetters(u)
  {
    hide Letter, Value, InTable, DecodedLetters, Joined, First, Second, Third;
    var g: Bytes := [Letter(x), Letter(y), Letter(z), Letter(w)];
    var t := g + u;
    assert AllInTable(g);
    LettersBehind(g, u);
    DecodedGroup(t);
    BytesOfLetters(t, x, y, z, w);
  }

  lemma BytesOfLetters(t: Bytes, x: Sextet, y: Sextet, z: Sextet, w: Sextet)
    requires AllInTable(t) && |t| >= 4
    requires Value(t[0]) == x && Value(t[1]) == y && Value(t[2]) == z && Value(t[3]) == w
    ensures First(t) == Joined(x, y, 4, 16) && Second(t) == Joined(y % 16, z, 16, 4) && Third(t) == Joined(z % 4, w, 64, 1)
  {
    hide Value, InTable;
  }

  lemma LettersBehind(g: Bytes, u: Bytes)
    requires AllInTable(g) && AllInTable(u)
    ensures AllInTable(g + u) && (g + u)[|g|..] == u
  {
    hide InTable;
  }

  lemma DecodedGroup(t: Bytes)
    requires AllInTable(t) && |t| % 4 != 1 && |t| >= 4
    ensures DecodedLetters(t) == [First(t), Second(t), Third(t)] + DecodedLetters(t[4..])
  {
    hide Value, InTable;
  }

  /** One value shifted up and one shifted down. */
  function Joined(high: int, low: int, up: int, down: int): (r: int)
    requires down > 0
  {
    high * up + low / down
  }

  /** The round trip: every byte string comes back, but for the lower two bits of a last byte left
      over alone. */
  lemma RoundTrip(s: Bytes, after: Byte)
    requires s != []
    ensures Decodable(Encoded(s, after)) && Decoded(Encoded(s, after)) == Some(Returned(s, after))
    ensures Returned(s, after) == s <==> |s| % 3 != 1 || s[|s|-1] % 4 == after % 4
  {
    hide DecodedLetters, Encoded, InTable;
    LettersReturn(s, after);
  }

  // The standard

  /** Table 1 of RFC 4648: the upper-case letters, the lower-case letters, the digits, plus and slash. */
  const TABLE: Bytes := CAPITALS + SMALLS + [48, 49, 50, 51, 52, 53, 54, 55, 56, 57, 43, 47]

  /** The letters of the encoder are those of the table. */
  lemma LetterOfTable(v: Sextet)
    ensures |TABLE| == 64 && Letter(v) == TABLE[v]
  {
    if v < 26 {
      LettersInOrder(v);
    } else if v < 52 {
      LettersInOrder(v - 26);
    }
    assert |CAPITALS| == 26 && |SMALLS| == 26;
    hide CAPITALS, SMALLS;
  }

  /** The decoder takes the letters of the table and no others, each for its place there. */
  lemma ValueOfTable(c: Byte)
    ensures InTable(c) <==> c in TABLE
    ensures InTable(c) ==> TABLE[Value(c)] == c
  {
    forall v: Sextet ensures Letter(v) == TABLE[v] && InTable(Letter(v)) && |TABLE| == 64 {
      LetterOfTable(v);
      LetterValue(v);
    }
    hide TABLE, Letter;
    if InTable(c) {
      assert TABLE[Value(c)] == c;
    }
  }

  /** The encoding of section 4 of RFC 4648: 24 bits at a time, with zero bits added at the end. */
  function Standard(s: Bytes): Bytes
    decreases |s|
  {
    if |s| == 0 then []
    else if |s| == 1 then Sextets(Bits(s[0], 0, 0))[..2] + [61, 61]
    else if |s| == 2 then Sextets(Bits(s[0], s[1], 0))[..3] + [61]
    else Sextets(Bits(s[0], s[1], s[2])) + Standard(s[3..])
  }

  /** Three bytes as one number. */
  function Bits(a: int, b: int, c: int): int {
    (a * 256 + b) * 256 + c
  }

  /** The letters of a 24-bit number, six bits at a time. */
  function Sextets(v: int): (r: Bytes)
    requires 0 <= v < 0x100_0000
    ensures |r| == 4
  {
    [TABLE[v / 64 / 64 / 64], TABLE[v / 64 / 64 % 64], TABLE[v / 64 % 64], TABLE[v % 64]]
  }

  lemma SextetsAreGroup(a: Byte, b: Byte, c: Byte)
    ensures Sextets(Bits(a, b, c)) == Group(a, b, c)
  {
    SixBitsAtATime(a, b, c);
    hide Letter, TABLE, Bits;
    LetterOfTable(a / 4);
    LetterOfTable(a % 4 * 16 + b / 16);
    LetterOfTable(b % 16 * 4 + c / 64);
    LetterOfTable(c % 64);
  }

  lemma SixBitsAtATime(a: Byte, b: Byte, c: Byte)
    ensures var v := Bits(a, b, c);
            0 <= v < 0x100_0000 && v / 64 / 64 / 64 == a / 4 && v / 64 / 64 % 64 == a % 4 * 16 + b / 16 &&
            v / 64 % 64 == b % 16 * 4 + c / 64 && v % 64 == c % 64
  {
    var v := Bits(a, b, c);
    assert v / 64 == (a as int * 256 + b) * 4 + c / 64;
    assert v / 64 / 64 == a as int * 16 + b / 16;
  }

  /** The encoder follows the standard exactly when no byte is left over alone, or the byte behind
      it happens to have the same lower two bits. */
  lemma {:induction false} StandardEncoding(s: Bytes, after: Byte)
    ensures Encoded(s, after) == Standard(s) <==> |s| % 3 != 1 || s[|s|-1] % 4 == after % 4
    decreases |s|
  {
    hide Encoded, Standard;
    if |s| <= 2 {
      StandardLeftover(s, after);
    } else {
      StandardStep(s, after);
      StandardEncoding(s[3..], after);
      SameTails(Group(s[0], s[1], s[2]), Encoded(s[3..], after), Standard(s[3..]));
    }
  }

  lemma StandardLeftover(s: Bytes, after: Byte)
    requires |s| <= 2
    ensures Encoded(s, after) == Standard(s) <==> |s| != 1 || s[0] % 4 == after % 4
  {
    hide Letter, Value, Sextets, Bits;
    if |s| == 1 {
      SextetsAreGroup(s[0], 0, 0);
      LetterValue(s[0] % 4 * 16);
      LetterValue(after % 4 * 16);
      assert Standard(s) == [Letter(s[0] / 4), Letter(s[0] % 4 * 16), PAD, PAD];
      assert Encoded(s, after)[1] == Letter(after % 4 * 16);
    } else if |s| == 2 {
      SextetsAreGroup(s[0], s[1], 0);
    }
  }

  /** The standard encoding of any bytes is decoded to these bytes. */
  lemma StandardDecodes(s: Bytes)
    requires s != []
    ensures Decodable(Standard(s)) && Decoded(Standard(s)) == Some(s)
  {
    hide Encoded, Standard, Decoded, Decodable;
    StandardEncoding(s, s[|s|-1]);
    RoundTrip(s, s[|s|-1]);
  }

  lemma StandardStep(s: Bytes, after: Byte)
    requires |s| > 2
    ensures Standard(s) == Group(s[0], s[1], s[2]) + Standard(s[3..])
    ensures Encoded(s, after) == Group(s[0], s[1], s[2]) + Encoded(s[3..], after)
  {
    hide Letter, Sextets, Group;
    SextetsAreGroup(s[0], s[1], s[2]);
  }

  lemma SameTails(g: Bytes, a: Bytes, b: Bytes)
    ensures g + a == g + b <==> a == b
  {
    if g + a == g + b {
      assert a == (g + a)[|g|..] && b == (g + b)[|g|..];
    }
  }
}
