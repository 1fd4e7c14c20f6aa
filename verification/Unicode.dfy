/** `\u` escapes: four hex digits, surrogate pairs, and the UTF-8 bytes of a code point. */
module Unicode {
  import opened CStrings
  import opened Rendering

  const LOWER_U: Char8 := 117

  predicate IsHexDigit(b: Byte) {
    48 <= b <= 57 || 65 <= b <= 70 || 97 <= b <= 102
  }

  function HexValue(b: Byte): (v: nat)
    requires IsHexDigit(b)
    ensures v < 16
  {
    if b <= 57 then b - 48 else if b <= 70 then b - 55 else b - 87
  }

  predicate HexDigitsAt(c: Bytes, at: nat)
    requires at + 4 <= |c|
  {
    IsHexDigit(c[at]) && IsHexDigit(c[at+1]) && IsHexDigit(c[at+2]) && IsHexDigit(c[at+3])
  }

  /** `parse_hex4`: text that is not four hex digits counts as 0. */
  function Hex4(c: Bytes, at: nat): (v: nat)
    requires at + 4 <= |c|
    ensures v < 0x10000
    ensures v != 0 ==> HexDigitsAt(c, at)
  {
    if HexDigitsAt(c, at) then
      ((HexValue(c[at]) * 16 + HexValue(c[at+1])) * 16 + HexValue(c[at+2])) * 16 + HexValue(c[at+3])
    else 0
  }

  /** The value of the first hex digits. */
  function HexPrefix(c: Bytes, at: nat, n: nat): nat
    requires at + n <= |c| && forall k :: at <= k < at + n ==> IsHexDigit(c[k])
  {
    if n == 0 then 0 else HexPrefix(c, at, n - 1) * 16 + HexValue(c[at+n-1])
  }

  method ParseHex4(c: Bytes, at: nat) returns (h: nat)
    requires at + 4 <= |c|
    ensures h == Hex4(c, at)
  {
    h := 0;
    for i := 0 to 4
      invariant forall k :: at <= k < at + i ==> IsHexDigit(c[k])
      invariant h == HexPrefix(c, at, i) * (if i < 4 then 16 else 1)
    {
      var b := c[at+i];
      if b >= 48 && b <= 57 {
        h := h + (b - 48);
      } else if b >= 65 && b <= 70 {
        h := h + (10 + b - 65);
      } else if b >= 97 && b <= 102 {
        h := h + (10 + b - 97);
      } else {
        return 0;
      }
      if i < 3 {
        h := h * 16;
      }
    }
    assert HexPrefix(c, at, 1) == HexValue(c[at]);
    assert HexPrefix(c, at, 2) == HexValue(c[at]) * 16 + HexValue(c[at+1]);
    assert HexPrefix(c, at, 3) == HexPrefix(c, at, 2) * 16 + HexValue(c[at+2]);
  }

  predicate IsScalar(cp: nat) {
    cp < 0xD800 || 0xE000 <= cp <= 0x10FFFF
  }

  /** The UTF-8 form of a code point, the bit operations written as arithmetic. */
  function Utf8(cp: nat): (r: Bytes)
    requires cp <= 0x10FFFF
    ensures 1 <= |r| <= 4
    ensures cp < 0x10000 ==> |r| <= 3
  {
    if cp < 0x80 then [cp]
    else if cp < 0x800 then [0xC0 + cp / 64, 0x80 + cp % 64]
    else if cp < 0x10000 then [0xE0 + cp / 64 / 64, 0x80 + cp / 64 % 64, 0x80 + cp % 64]
    else [0xF0 + cp / 64 / 64 / 64, 0x80 + cp / 64 / 64 % 64, 0x80 + cp / 64 % 64, 0x80 + cp % 64]
  }

  /** The bit operations of the encoder are this arithmetic. */
  lemma BitsAreArithmetic(x: bv32)
    ensures ((x | 0x80) & 0xBF) == 0x80 + x % 64 && x >> 6 == x / 64
    ensures x < 0x20 ==> ((x | 0xC0) & 0xFF) == 0xC0 + x
    ensures x < 0x10 ==> ((x | 0xE0) & 0xFF) == 0xE0 + x
    ensures x < 0x08 ==> ((x | 0xF0) & 0xFF) == 0xF0 + x
    ensures x & 0x3FF == x % 1024
  {
  }

  datatype Literal = BadLiteral | Literal(consumed: nat, codepoint: nat)

  /** The code point of the literal at a place that holds a backslash and a `u`. */
  function ReadLiteral(c: Bytes, at: nat, end: nat): (r: Literal)
    requires at <= end <= |c|
    ensures r.Literal? ==> at + r.consumed <= end && IsScalar(r.codepoint)
    ensures r.Literal? ==> (r.consumed == 6 && r.codepoint < 0x10000) || r.consumed == 12
  {
    if end - at < 6 then BadLiteral
    else
      var first := Hex4(c, at + 2);
      if 0xDC00 <= first <= 0xDFFF then BadLiteral
      else if 0xD800 <= first <= 0xDBFF then
        if end - (at + 6) < 6 || c[at+6] != BACKSLASH || c[at+7] != LOWER_U then BadLiteral
        else
          var second := Hex4(c, at + 8);
          if second < 0xDC00 || second > 0xDFFF then BadLiteral
          else Literal(12, 0x10000 + first % 1024 * 1024 + second % 1024)
      else Literal(6, first)
  }

  /** `utf16_literal_to_utf8`: the bytes are written back to front behind the output pointer. */
  method Utf16LiteralToUtf8(c: Bytes, at: nat, end: nat, output: array<Byte>, position: nat) returns (consumed: nat, next: nat)
    requires at <= end <= |c|
    requires var r := ReadLiteral(c, at, end); r.Literal? ==> position + |Utf8(r.codepoint)| <= output.Length
    modifies output
    ensures var r := ReadLiteral(c, at, end);
            if r.BadLiteral? then consumed == 0 && next == position && output[..] == old(output[..])
            else consumed == r.consumed && next == position + |Utf8(r.codepoint)| <= output.Length &&
                 output[..next] == old(output[..position]) + Utf8(r.codepoint)
  {
    if end - at < 6 {
      return 0, position;
    }
    var first := ParseHex4(c, at + 2);
    var codepoint := first;
    consumed := 6;
    if first >= 0xDC00 && first <= 0xDFFF {
      return 0, position;
    }
    if first >= 0xD800 && first <= 0xDBFF {
      if end - (at + 6) < 6 {
        return 0, position;
      }
      if c[at+6] != BACKSLASH || c[at+7] != LOWER_U {
        return 0, position;
      }
      var second := ParseHex4(c, at + 8);
      if second < 0xDC00 || second > 0xDFFF {
        return 0, position;
      }
      codepoint := 0x10000 + first % 1024 * 1024 + second % 1024;
      consumed := 12;
    }
    next := WriteUtf8(codepoint, output, position);
  }

  method WriteUtf8(cp: nat, output: array<Byte>, position: nat) returns (next: nat)
    requires cp <= 0x10FFFF && position + |Utf8(cp)| <= output.Length
    modifies output
    ensures next == position + |Utf8(cp)| && output[..next] == old(output[..position]) + Utf8(cp)
  {
    hide Utf8, Shifted;
    var length := if cp < 0x80 then 1 else if cp < 0x800 then 2 else if cp < 0x10000 then 3 else 4;
    var mark := if length == 1 then 0 else if length == 2 then 0xC0 else if length == 3 then 0xE0 else 0xF0;
    Utf8ByByte(cp, length, mark);
    var rest, k := cp, length - 1;
    while k > 0
      invariant 0 <= k < length
      invariant rest == Shifted(cp, length - 1 - k)
      invariant forall i :: k < i < length ==> output[position+i] == Utf8(cp)[i]
      invariant forall i :: 0 <= i < position ==> output[i] == old(output[i])
    {
      output[position+k] := 0x80 + rest % 64;
      ShiftOnce(cp, length - 1 - k);
      rest, k := rest / 64, k - 1;
    }
    output[position] := mark + rest;
    next := position + length;
    assert output[..next] == output[..position] + output[position..next];
    assert output[position..next] == Utf8(cp);
  }

  /** The marker is on the first byte; every other one takes six bits of what is left. */
  lemma Utf8ByByte(cp: nat, length: nat, mark: nat)
    requires cp <= 0x10FFFF
    requires length == if cp < 0x80 then 1 else if cp < 0x800 then 2 else if cp < 0x10000 then 3 else 4
    requires mark == if length == 1 then 0 else if length == 2 then 0xC0 else if length == 3 then 0xE0 else 0xF0
    ensures |Utf8(cp)| == length && Utf8(cp)[0] == mark + Shifted(cp, length - 1)
    ensures Shifted(cp, 0) == cp
    ensures forall i :: 0 < i < length ==> Utf8(cp)[i] == 0x80 + Shifted(cp, length - 1 - i) % 64
  {
  }

  lemma ShiftOnce(cp: nat, times: nat)
    requires times < 3
    ensures Shifted(cp, times + 1) == Shifted(cp, times) / 64
  {
  }

  /** A code point after some turns of the encoding loop. */
  function Shifted(cp: nat, times: nat): nat
    requires times <= 3
  {
    if times == 0 then cp else if times == 1 then cp / 64 else if times == 2 then cp / 64 / 64 else cp / 64 / 64 / 64
  }

  /** A decoder after the table in section 4 of RFC 3629. */
  function DecodeUtf8(b: Bytes): Option<int> {
    if |b| == 1 && b[0] < 0x80 then Some(Low(b[0], 0))
    else if |b| == 2 && 0xC2 <= b[0] <= 0xDF && Continues(b[1]) then Some(Low(b[0], 0xC0) * 64 + Low(b[1], 0x80))
    else if |b| == 3 && 0xE0 <= b[0] <= 0xEF && Continues(b[1]) && Continues(b[2]) &&
            (b[0] == 0xE0 ==> b[1] >= 0xA0) && (b[0] == 0xED ==> b[1] <= 0x9F) then
      Some((Low(b[0], 0xE0) * 64 + Low(b[1], 0x80)) * 64 + Low(b[2], 0x80))
    else if |b| == 4 && 0xF0 <= b[0] <= 0xF4 && Continues(b[1]) && Continues(b[2]) && Continues(b[3]) &&
            (b[0] == 0xF0 ==> b[1] >= 0x90) && (b[0] == 0xF4 ==> b[1] <= 0x8F) then
      Some(((Low(b[0], 0xF0) * 64 + Low(b[1], 0x80)) * 64 + Low(b[2], 0x80)) * 64 + Low(b[3], 0x80))
    else None
  }

  /** The payload of a byte without its marker. */
  function Low(b: Byte, marker: int): int {
    b - marker
  }

  predicate Continues(b: Byte) {
    0x80 <= b <= 0xBF
  }

  /** The encoder and the decoder are inverse to each other on scalar values. */
  lemma Utf8RoundTrip(cp: nat)
    requires IsScalar(cp)
    ensures DecodeUtf8(Utf8(cp)) == Some(cp)
  {
  }

  lemma DecodedIsScalar(b: Bytes)
    requires DecodeUtf8(b).Some?
    ensures var cp := DecodeUtf8(b).value; cp >= 0 && IsScalar(cp) && Utf8(cp) == b
  {
    if |b| == 3 {
      ThreeBytes(b);
    } else if |b| == 4 {
      FourBytes(b);
    }
  }

  lemma ThreeBytes(b: Bytes)
    requires |b| == 3 && DecodeUtf8(b).Some?
    ensures var cp := DecodeUtf8(b).value; cp >= 0 && IsScalar(cp) && Utf8(cp) == b
  {
    var cp := DecodeUtf8(b).value;
    assert cp / 64 == Low(b[0], 0xE0) * 64 + Low(b[1], 0x80);
  }

  lemma FourBytes(b: Bytes)
    requires |b| == 4 && DecodeUtf8(b).Some?
    ensures var cp := DecodeUtf8(b).value; cp >= 0 && IsScalar(cp) && Utf8(cp) == b
  {
    var cp := DecodeUtf8(b).value;
    var x := Low(b[0], 0xF0) * 64 + Low(b[1], 0x80);
    assert cp / 64 == x * 64 + Low(b[2], 0x80);
    assert cp / 64 / 64 == x;
  }

  /** A hex digit in the case asked for. */
  function CasedDigit(d: nat, upper: bool): Byte
    requires d < 16
  {
    if upper && d >= 10 then 55 + d else HexDigit(d)
  }

  /** Four hex digits, each in its own case. */
  function HexText(v: nat, upper: seq<bool>): (r: Bytes)
    requires v < 0x10000 && |upper| == 4
    ensures |r| == 4
  {
    var w := v / 16;
    var x := w / 16;
    [CasedDigit(x / 16, upper[0]), CasedDigit(x % 16, upper[1]), CasedDigit(w % 16, upper[2]), CasedDigit(v % 16, upper[3])]
  }

  /** The escape of a scalar value, as section 7 of RFC 8259 writes it, with hex digits of either case. */
  function LiteralText(cp: nat, upper: seq<bool>): Bytes
    requires IsScalar(cp) && |upper| == 8
  {
    if cp < 0x10000 then [BACKSLASH, LOWER_U] + HexText(cp, upper[..4])
    else
      [BACKSLASH, LOWER_U] + HexText(0xD800 + (cp - 0x10000) / 1024, upper[..4]) +
      [BACKSLASH, LOWER_U] + HexText(0xDC00 + (cp - 0x10000) % 1024, upper[4..])
  }

  /** The escape stands in a buffer. */
  predicate EscapeAt(c: Bytes, at: nat, end: nat, cp: nat, upper: seq<bool>)
    requires at <= end <= |c| && IsScalar(cp) && |upper| == 8
  {
    var t := LiteralText(cp, upper);
    at + |t| <= end && c[at..at+|t|] == t
  }

  lemma HexTextReads(c: Bytes, at: nat, v: nat, upper: seq<bool>)
    requires v < 0x10000 && |upper| == 4 && at + 4 <= |c| && c[at..at+4] == HexText(v, upper)
    ensures Hex4(c, at) == v
  {
    hide CasedDigit;
    var t := c[at..at+4];
    assert c[at] == t[0] && c[at+1] == t[1] && c[at+2] == t[2] && c[at+3] == t[3];
    CasedValue(v / 16 / 16 / 16, upper[0]);
    CasedValue(v / 16 / 16 % 16, upper[1]);
    CasedValue(v / 16 % 16, upper[2]);
    CasedValue(v % 16, upper[3]);
  }

  lemma CasedValue(d: nat, upper: bool)
    requires d < 16
    ensures IsHexDigit(CasedDigit(d, upper)) && HexValue(CasedDigit(d, upper)) == d
  {
  }

  /** Which of four digits are upper-case letters. */
  function CasesAt(c: Bytes, at: nat): (upper: seq<bool>)
    requires at + 4 <= |c|
    ensures |upper| == 4
  {
    [65 <= c[at] <= 70, 65 <= c[at+1] <= 70, 65 <= c[at+2] <= 70, 65 <= c[at+3] <= 70]
  }

  /** Hex digits are the text of what they read as. */
  lemma HexTextStands(c: Bytes, at: nat)
    requires at + 4 <= |c| && HexDigitsAt(c, at)
    ensures c[at..at+4] == HexText(Hex4(c, at), CasesAt(c, at))
  {
    hide CasedDigit, HexValue, IsHexDigit;
    DigitStands(c[at]);
    DigitStands(c[at+1]);
    DigitStands(c[at+2]);
    DigitStands(c[at+3]);
    var h, x, y, z := HexValue(c[at]), HexValue(c[at+1]), HexValue(c[at+2]), HexValue(c[at+3]);
    var v := Hex4(c, at);
    assert v / 16 == (h * 16 + x) * 16 + y && v / 16 / 16 == h * 16 + x;
    assert c[at..at+4] == [c[at], c[at+1], c[at+2], c[at+3]];
  }

  lemma DigitStands(b: Byte)
    requires IsHexDigit(b)
    ensures CasedDigit(HexValue(b), 65 <= b <= 70) == b
  {
  }

  lemma PairReads(c: Bytes, at: nat, end: nat, high: nat, low: nat)
    requires high < 1024 && low < 1024 && at + 12 <= end <= |c|
    requires Hex4(c, at + 2) == 0xD800 + high && Hex4(c, at + 8) == 0xDC00 + low
    requires c[at+6] == BACKSLASH && c[at+7] == LOWER_U
    ensures ReadLiteral(c, at, end) == Literal(12, 0x10000 + high * 1024 + low)
  {
    hide Hex4;
    assert (0xD800 + high) % 1024 == high && (0xDC00 + low) % 1024 == low;
  }

  /** The escape of every scalar value is read back, in 6 or 12 bytes, whatever follows. */
  lemma LiteralRoundTrip(c: Bytes, at: nat, end: nat, cp: nat, upper: seq<bool>)
    requires IsScalar(cp) && |upper| == 8 && at <= end <= |c| && EscapeAt(c, at, end, cp, upper)
    ensures ReadLiteral(c, at, end) == Literal(if cp < 0x10000 then 6 else 12, cp)
    ensures DecodeUtf8(Utf8(ReadLiteral(c, at, end).codepoint)) == Some(cp)
  {
    Utf8RoundTrip(cp);
    hide HexText, Hex4, Utf8, DecodeUtf8;
    var t := LiteralText(cp, upper);
    Subtext(c, at, t, 2, 6);
    if cp < 0x10000 {
      assert t[2..6] == HexText(cp, upper[..4]);
      HexTextReads(c, at + 2, cp, upper[..4]);
    } else {
      Subtext(c, at, t, 6, 7);
      Subtext(c, at, t, 7, 8);
      Subtext(c, at, t, 8, 12);
      PairRoundTrip(c, at, end, cp, upper);
    }
  }

  lemma Subtext(c: Bytes, at: nat, t: Bytes, i: nat, k: nat)
    requires at + |t| <= |c| && c[at..at+|t|] == t && i < k <= |t|
    ensures c[at+i..at+k] == t[i..k] && c[at+i] == t[i]
  {
    var u, x, y := c[at..at+|t|], c[at+i..at+k], t[i..k];
    forall l | 0 <= l < k - i ensures x[l] == y[l] {
      assert u[i+l] == c[at+i+l];
    }
    assert x == y && u[i] == c[at+i];
  }

  lemma PairRoundTrip(c: Bytes, at: nat, end: nat, cp: nat, upper: seq<bool>)
    requires 0x10000 <= cp <= 0x10FFFF && |upper| == 8 && at + 12 <= end <= |c|
    requires var t := LiteralText(cp, upper);
             c[at+2..at+6] == t[2..6] && c[at+6] == t[6] && c[at+7] == t[7] && c[at+8..at+12] == t[8..12]
    ensures ReadLiteral(c, at, end) == Literal(12, cp)
  {
    hide HexText, Hex4, LiteralText;
    SplitPair(cp, upper);
    var high, low := (cp - 0x10000) / 1024, (cp - 0x10000) % 1024;
    HexTextReads(c, at + 2, 0xD800 + high, upper[..4]);
    HexTextReads(c, at + 8, 0xDC00 + low, upper[4..]);
    PairReads(c, at, end, high, low);
  }

  lemma SplitPair(cp: nat, upper: seq<bool>)
    requires 0x10000 <= cp <= 0x10FFFF && |upper| == 8
    ensures var t := LiteralText(cp, upper);
            |t| == 12 && t[0] == BACKSLASH && t[1] == LOWER_U &&
            t[2..6] == HexText(0xD800 + (cp - 0x10000) / 1024, upper[..4]) && t[6] == BACKSLASH && t[7] == LOWER_U &&
            t[8..12] == HexText(0xDC00 + (cp - 0x10000) % 1024, upper[4..])
  {
    hide HexText;
  }

  ghost predicate SomeEscapeAt(c: Bytes, at: nat, end: nat)
    requires at <= end <= |c|
  {
    exists cp: nat, upper: seq<bool> :: IsScalar(cp) && |upper| == 8 && EscapeAt(c, at, end, cp, upper)
  }

  /** Of the literals that are not cut short and start with hex digits, exactly the escapes of scalar
      values are accepted; digits that are not hex digits read as 0. */
  lemma AcceptedExactly(c: Bytes, at: nat, end: nat)
    requires at + 2 <= end <= |c| && c[at] == BACKSLASH && c[at+1] == LOWER_U
    ensures ReadLiteral(c, at, end).Literal? <==>
            at + 6 <= end && (HexDigitsAt(c, at + 2) ==> SomeEscapeAt(c, at, end))
  {
    hide HexText, Hex4, LiteralText, EscapeAt, HexDigitsAt;
    var r := ReadLiteral(c, at, end);
    if at + 6 <= end {
      if !HexDigitsAt(c, at + 2) {
        assert Hex4(c, at + 2) == 0;
      } else if r.Literal? {
        ReadIsEscape(c, at, end);
      } else if SomeEscapeAt(c, at, end) {
        var cp: nat, upper: seq<bool> :| IsScalar(cp) && |upper| == 8 && EscapeAt(c, at, end, cp, upper);
        LiteralRoundTrip(c, at, end, cp, upper);
      }
    }
  }

  lemma ReadIsEscape(c: Bytes, at: nat, end: nat)
    requires at + 6 <= end <= |c| && c[at] == BACKSLASH && c[at+1] == LOWER_U && HexDigitsAt(c, at + 2)
    requires ReadLiteral(c, at, end).Literal?
    ensures SomeEscapeAt(c, at, end)
  {
    hide HexText, Hex4, HexDigitsAt, CasesAt;
    var r := ReadLiteral(c, at, end);
    HexTextStands(c, at + 2);
    if r.consumed == 6 {
      var upper := CasesAt(c, at + 2) + CasesAt(c, at + 2);
      assert upper[..4] == CasesAt(c, at + 2);
      assert c[at..at+6] == [c[at], c[at+1]] + c[at+2..at+6];
      assert EscapeAt(c, at, end, r.codepoint, upper);
    } else {
      PairIsEscape(c, at, end);
    }
  }

  lemma PairIsEscape(c: Bytes, at: nat, end: nat)
    requires at + 12 <= end <= |c| && c[at] == BACKSLASH && c[at+1] == LOWER_U && HexDigitsAt(c, at + 2)
    requires ReadLiteral(c, at, end).Literal? && ReadLiteral(c, at, end).consumed == 12
    ensures SomeEscapeAt(c, at, end)
  {
    hide HexText, Hex4, HexDigitsAt, CasesAt, LiteralText;
    var cp, first, second := ReadLiteral(c, at, end).codepoint, Hex4(c, at + 2), Hex4(c, at + 8);
    assert HexDigitsAt(c, at + 8);
    HexTextStands(c, at + 2);
    HexTextStands(c, at + 8);
    var upper := CasesAt(c, at + 2) + CasesAt(c, at + 8);
    assert upper[..4] == CasesAt(c, at + 2) && upper[4..] == CasesAt(c, at + 8);
    SurrogateParts(first, second);
    SplitPair(cp, upper);
    var t, u := LiteralText(cp, upper), c[at..at+12];
    assert u == [c[at], c[at+1]] + c[at+2..at+6] + [c[at+6], c[at+7]] + c[at+8..at+12];
    assert t == [t[0], t[1]] + t[2..6] + [t[6], t[7]] + t[8..12];
    assert EscapeAt(c, at, end, cp, upper);
  }

  lemma SurrogateParts(first: nat, second: nat)
    requires 0xD800 <= first <= 0xDBFF && 0xDC00 <= second <= 0xDFFF
    ensures var cp := 0x10000 + first % 1024 * 1024 + second % 1024;
            0x10000 <= cp <= 0x10FFFF && 0xD800 + (cp - 0x10000) / 1024 == first && 0xDC00 + (cp - 0x10000) % 1024 == second
  {
  }
}
