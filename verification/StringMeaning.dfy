/** The string reader reads exactly the strings of the grammar, each as what it spells. */
module StringMeaning {
  import opened CStrings
  import opened Rendering
  import opened Unicode
  import opened StringReader
  import opened Grammar

  // How a string is written

  /** The printer escapes quotes, backslashes and control bytes and nothing else: with the short escape if there is one,
      and otherwise as `\u00` and two hex digits in lower case. */
  lemma EscapeExactly(x: Char8, letter: Byte)
    ensures Escape(x) == [x] <==> x >= 32 && x != 34 && x != 92
    ensures Escape(x) != [x] && (letter, x) in SHORT_ESCAPES ==> Escape(x) == [92, letter]
    ensures Escape(x) != [x] && (forall l: Byte :: (l, x) !in SHORT_ESCAPES) ==>
            Escape(x) == [92, 117, 48, 48, HEX_DIGITS[x/16], HEX_DIGITS[x%16]]
  {
    ShortEscape(letter, x);
    ShortLetters();
    if x < 32 {
      TableInOrder(x / 16);
      TableInOrder(x % 16);
    }
    hide SHORT_ESCAPES, HEX_DIGITS;
  }

  lemma ShortLetters()
    ensures (98, 8) in SHORT_ESCAPES && (102, 12) in SHORT_ESCAPES && (110, 10) in SHORT_ESCAPES && (114, 13) in SHORT_ESCAPES
    ensures (116, 9) in SHORT_ESCAPES && (34, 34) in SHORT_ESCAPES && (92, 92) in SHORT_ESCAPES
  {
    assert SHORT_ESCAPES[0] == (34, 34) && SHORT_ESCAPES[1] == (92, 92) && SHORT_ESCAPES[3] == (98, 8) && SHORT_ESCAPES[4] == (102, 12);
    assert SHORT_ESCAPES[5] == (110, 10) && SHORT_ESCAPES[6] == (114, 13) && SHORT_ESCAPES[7] == (116, 9);
  }

  // Where a string ends

  lemma {:induction false} ScanExactly(c: Bytes, i: nat, e: nat)
    requires i <= e < |c|
    ensures ScanEnd(c, i) == Some(e) <==> c[e] == 34 && Inner(c, i, e)
    decreases e - i
  {
    if i < e {
      if c[i] == 92 {
        if i + 2 <= e {
          ScanExactly(c, i + 2, e);
        }
      } else {
        ScanExactly(c, i + 1, e);
      }
    }
  }

  // What a string spells

  /** Hex digits are those of the table, each for its place there. */
  lemma DigitsOfTable(b: Byte)
    ensures IsHexDigit(b) <==> b in HEX_DIGITS
    ensures IsHexDigit(b) ==> HexValue(b) == Digit(b)
  {
    forall i: nat | i < 22 ensures HEX_DIGITS[i] == (if i < 10 then 48 + i else if i < 16 then 87 + i else 49 + i) {
      TableInOrder(i);
    }
    assert |HEX_DIGITS| == 22;
    hide HEX_DIGITS;
    if IsHexDigit(b) {
      var i: nat := if b <= 57 then b - 48 else if b <= 70 then b - 49 else b - 87;
      assert HEX_DIGITS[i] == b;
    }
  }

  lemma TableInOrder(i: nat)
    requires i < 22
    ensures HEX_DIGITS[i] == if i < 10 then 48 + i else if i < 16 then 87 + i else 49 + i
  {
  }

  lemma UnitIsHex4(c: Bytes, at: nat)
    requires at + 4 <= |c|
    ensures HexDigitsAt(c, at) <==> FourDigits(c, at)
    ensures Hex4(c, at) == if FourDigits(c, at) then Unit(c, at) else 0
  {
    DigitsOfTable(c[at]);
    DigitsOfTable(c[at+1]);
    DigitsOfTable(c[at+2]);
    DigitsOfTable(c[at+3]);
    hide HexValue, IsHexDigit, Digit, HEX_DIGITS;
  }

  /** Only the encoder's bytes are decoded to a code point. */
  lemma OnlyUtf8(b: Bytes, cp: nat)
    requires IsScalar(cp)
    ensures DecodeUtf8(b) == Some(cp) <==> b == Utf8(cp)
  {
    hide DecodeUtf8, Utf8;
    Utf8RoundTrip(cp);
    if DecodeUtf8(b) == Some(cp) {
      DecodedIsScalar(b);
    }
  }

  /** A literal is accepted exactly when it is a character, and gives its bytes. */
  lemma CharacterExactly(c: Bytes, i: nat, e: nat, b: Bytes)
    requires i + 6 <= e <= |c|
    ensures var r := ReadLiteral(c, i, e);
            CharacterAt(c, i, e, b) <==> r.Literal? && b == Utf8(r.codepoint)
    ensures var r := ReadLiteral(c, i, e);
            r.Literal? ==> r.consumed == CharacterLength(c, i)
  {
    hide Hex4, Unit, FourDigits, HexDigitsAt, Utf8, DecodeUtf8;
    UnitIsHex4(c, i + 2);
    if !FourDigits(c, i + 2) {
      ZeroByte();
    } else if OpensPair(c, i) {
      if i + 12 <= e {
        UnitIsHex4(c, i + 8);
        PairValue(Hex4(c, i + 2), Hex4(c, i + 8));
        var r := ReadLiteral(c, i, e);
        if r.Literal? {
          OnlyUtf8(b, r.codepoint);
        }
      }
    } else {
      var r := ReadLiteral(c, i, e);
      if r.Literal? {
        OnlyUtf8(b, r.codepoint);
      }
    }
  }

  lemma ZeroByte()
    ensures Utf8(0) == [0]
  {
  }

  lemma PairValue(first: nat, second: nat)
    ensures 0xD800 <= first <= 0xDBFF ==> first % 1024 == first - 0xD800
    ensures 0xDC00 <= second <= 0xDFFF ==> second % 1024 == second - 0xDC00
  {
  }

  /** One turn of the second pass reads what stands at a place, and nothing else stands there. */
  lemma TurnExactly(c: Bytes, i: nat, e: nat, b: Bytes)
    requires i < e < |c| && c[e] == 34
    ensures var d := DecodeOne(c, i, e);
            Spells(c, i, e, b) <==>
            d.Decoded? && |d.bytes| <= |b| && b[..|d.bytes|] == d.bytes && Spells(c, i + d.consumed, e, b[|d.bytes|..])
  {
    if c[i] != 92 {
      hide Spells, DecodeOne;
      TurnPlain(c, i, e, b);
    } else if c[i+1] != 117 {
      hide Spells, DecodeOne;
      TurnShort(c, i, e, b);
    } else {
      hide Spells, DecodeOne;
      TurnCharacter(c, i, e, b);
    }
  }

  lemma TurnPlain(c: Bytes, i: nat, e: nat, b: Bytes)
    requires i < e < |c| && c[e] == 34 && c[i] != 92
    ensures DecodeOne(c, i, e) == Decoded([c[i]], 1)
    ensures Spells(c, i, e, b) <==> 1 <= |b| && b[..1] == [c[i]] && Spells(c, i + 1, e, b[1..])
  {
    assert b != [] ==> b[..1] == [b[0]];
  }

  lemma ShortEscape(letter: Byte, b: Byte)
    ensures (letter, b) in SHORT_ESCAPES <==>
            (letter == 34 && b == 34) || (letter == 92 && b == 92) || (letter == 47 && b == 47) || (letter == 98 && b == 8) ||
            (letter == 102 && b == 12) || (letter == 110 && b == 10) || (letter == 114 && b == 13) || (letter == 116 && b == 9)
  {
  }

  lemma TurnShort(c: Bytes, i: nat, e: nat, b: Bytes)
    requires i < e < |c| && c[e] == 34 && c[i] == 92 && c[i+1] != 117
    ensures var d := DecodeOne(c, i, e);
            Spells(c, i, e, b) <==>
            d.Decoded? && |d.bytes| <= |b| && b[..|d.bytes|] == d.bytes && Spells(c, i + d.consumed, e, b[|d.bytes|..])
  {
    var d := DecodeOne(c, i, e);
    assert d.Decoded? ==> |d.bytes| == 1 && d.consumed == 2;
    if b != [] {
      ShortEscape(c[i+1], b[0]);
      assert b[..1] == [b[0]];
    }
    hide SHORT_ESCAPES;
  }

  lemma TurnCharacter(c: Bytes, i: nat, e: nat, b: Bytes)
    requires i < e < |c| && c[e] == 34 && c[i] == 92 && c[i+1] == 117
    ensures var d := DecodeOne(c, i, e);
            Spells(c, i, e, b) <==>
            d.Decoded? && |d.bytes| <= |b| && b[..|d.bytes|] == d.bytes && Spells(c, i + d.consumed, e, b[|d.bytes|..])
  {
    hide ReadLiteral, CharacterAt, CharacterLength, Utf8;
    if i + 6 <= e {
      var r := ReadLiteral(c, i, e);
      forall n: nat | n <= |b| ensures CharacterAt(c, i, e, b[..n]) <==> r.Literal? && b[..n] == Utf8(r.codepoint) {
        CharacterExactly(c, i, e, b[..n]);
      }
      CharacterExactly(c, i, e, []);
      if r.Literal? {
        var n := |Utf8(r.codepoint)|;
        assert n <= |b| && b[..n] == Utf8(r.codepoint) ==> CharacterAt(c, i, e, b[..n]);
      }
    } else {
      CutShort(c, i, e);
    }
  }

  lemma CutShort(c: Bytes, i: nat, e: nat)
    requires i <= e <= |c| && e < i + 6
    ensures ReadLiteral(c, i, e).BadLiteral?
  {
  }

  /** The second pass writes exactly what a string spells. */
  lemma {:induction false} UnescapeExactly(c: Bytes, i: nat, e: nat, b: Bytes)
    requires i <= e + 1 && e < |c| && c[e] == 34
    ensures Unescape(c, i, e) == Some(b) <==> Spells(c, i, e, b)
    decreases e + 1 - i
  {
    if i < e {
      hide Spells, DecodeOne;
      TurnExactly(c, i, e, b);
      var d := DecodeOne(c, i, e);
      if d.Decoded? && |d.bytes| <= |b| {
        UnescapeExactly(c, i + d.consumed, e, b[|d.bytes|..]);
        assert b == b[..|d.bytes|] + b[|d.bytes|..];
      }
      var rest := if d.Decoded? then Unescape(c, i + d.consumed, e) else None;
      if rest.Some? {
        assert (d.bytes + rest.value)[..|d.bytes|] == d.bytes && (d.bytes + rest.value)[|d.bytes|..] == rest.value;
      }
    }
  }

  lemma {:induction false} CTextExactly(b: Bytes, x: CStr)
    ensures CText(b) == x <==> UpToZero(b, x)
  {
    var n := |CText(b)|;
    CTextIs(b);
    if UpToZero(b, x) {
      CTextOf(b, |x|);
    }
  }

  lemma {:induction false} CTextIs(b: Bytes)
    ensures UpToZero(b, CText(b))
  {
    if b != [] && b[0] != 0 {
      CTextIs(b[1..]);
      var t := CText(b[1..]);
      assert b[..1+|t|] == [b[0]] + b[1..][..|t|];
    }
  }

  /** Reading a string succeeds exactly on the strings of the grammar. */
  lemma StringExactly(c: Bytes, o: nat, k: nat, x: CStr)
    requires o < |c|
    ensures ParseString(c, o) == Parsed(x, k) <==> StringAt(c, o, k, x)
  {
    hide ScanEnd, Unescape, Inner, Spells, CText, UpToZero;
    if o + 2 <= k <= |c| {
      var e := k - 1;
      ScanExactly(c, o + 1, e);
      if c[e] == 34 {
        forall b: Bytes ensures Unescape(c, o + 1, e) == Some(b) <==> Spells(c, o + 1, e, b) {
          UnescapeExactly(c, o + 1, e, b);
        }
        forall b: Bytes ensures CText(b) == x <==> UpToZero(b, x) {
          CTextExactly(b, x);
        }
        var u := Unescape(c, o + 1, e);
        if u.Some? {
          assert Spells(c, o + 1, e, u.value);
        }
        if StringAt(c, o, k, x) {
          var b: Bytes :| Spells(c, o + 1, e, b) && UpToZero(b, x);
          assert Unescape(c, o + 1, e) == Some(b);
        }
      }
    }
  }
}
