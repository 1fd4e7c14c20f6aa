/** The texts of RFC 8259 and the documents they denote, byte by byte, with what the parser takes besides: bytes up to
    32 as white space, any byte but a quote or backslash in a string, `\u` with bad digits as a zero byte, and whatever
    `strtod` makes of a number. A place is an index into a buffer; a part goes from one place up to another. */
module Grammar {
  import opened CStrings
  import opened Json
  import opened Unicode
  import opened Parsing

  ghost predicate Space(c: Bytes, o: nat, k: nat) {
    o <= k <= |c| && forall i :: o <= i < k ==> c[i] <= 32
  }

  ghost predicate Word(c: Bytes, o: nat, k: nat, text: Bytes) {
    o <= k <= |c| && c[o..k] == text
  }

  // Numbers

  predicate InNumber(b: Byte) {
    48 <= b <= 57 || b == 43 || b == 45 || b == 46 || b == 69 || b == 101
  }

  /** As many bytes that can stand in a number as there are, but no more than 63. */
  ghost predicate Run(c: Bytes, o: nat, r: nat) {
    o <= r <= |c| && r <= o + 63 && (forall i :: o <= i < r ==> InNumber(c[i])) && (r < |c| && r < o + 63 ==> !InNumber(c[r]))
  }

  ghost function RunText(c: Bytes, o: nat, r: nat): CStr
    requires Run(c, o, r)
  {
    assert forall i :: 0 <= i < |c[o..r]| ==> c[o..r][i] == c[o+i];
    c[o..r]
  }

  /** A minus or a digit, and what `strtod` takes of the run. */
  ghost predicate NumberAt(c: Bytes, o: nat, k: nat, n: Num, f: Strtod) {
    o < k <= |c| && (c[o] == 45 || 48 <= c[o] <= 57) && exists r: nat :: Run(c, o, r) && f(RunText(c, o, r)) == (n, k - o)
  }

  // Strings

  /** No quote but behind a backslash, and no backslash left alone. */
  predicate Inner(c: Bytes, i: nat, e: nat)
    requires i <= e <= |c|
    decreases e - i
  {
    if i == e then true
    else if c[i] == 92 then i + 2 <= e && Inner(c, i + 2, e)
    else c[i] != 34 && Inner(c, i + 1, e)
  }

  /** What may follow a backslash, and the byte it stands for. */
  const SHORT_ESCAPES: seq<(Byte, Byte)> := [(34, 34), (92, 92), (47, 47), (98, 8), (102, 12), (110, 10), (114, 13), (116, 9)]

  /** The digits from 0 to 9, then from a to f and from A to F. */
  const HEX_DIGITS: Bytes := [48, 49, 50, 51, 52, 53, 54, 55, 56, 57, 97, 98, 99, 100, 101, 102, 65, 66, 67, 68, 69, 70]

  ghost function Digit(b: Byte): nat
    requires b in HEX_DIGITS
  {
    var i: nat :| i < |HEX_DIGITS| && HEX_DIGITS[i] == b;
    if i < 16 then i else i - 6
  }

  predicate FourDigits(c: Bytes, i: nat)
    requires i + 4 <= |c|
  {
    c[i] in HEX_DIGITS && c[i+1] in HEX_DIGITS && c[i+2] in HEX_DIGITS && c[i+3] in HEX_DIGITS
  }

  ghost function Unit(c: Bytes, i: nat): nat
    requires i + 4 <= |c| && FourDigits(c, i)
  {
    ((Digit(c[i]) * 16 + Digit(c[i+1])) * 16 + Digit(c[i+2])) * 16 + Digit(c[i+3])
  }

  /** Two escapes make one character when the first unit is a high surrogate. */
  ghost predicate OpensPair(c: Bytes, i: nat)
    requires i + 6 <= |c|
  {
    FourDigits(c, i + 2) && 0xD800 <= Unit(c, i + 2) <= 0xDBFF
  }

  /** The bytes of the character at a place that holds a backslash and a `u`, in UTF-8. */
  ghost predicate CharacterAt(c: Bytes, i: nat, e: nat, b: Bytes)
    requires i + 6 <= e <= |c|
  {
    if !FourDigits(c, i + 2) then b == [0]
    else if OpensPair(c, i) then
      i + 12 <= e && c[i+6] == 92 && c[i+7] == 117 && FourDigits(c, i + 8) && 0xDC00 <= Unit(c, i + 8) <= 0xDFFF &&
      DecodeUtf8(b) == Some(0x10000 + (Unit(c, i + 2) - 0xD800) * 0x400 + (Unit(c, i + 8) - 0xDC00))
    else !(0xDC00 <= Unit(c, i + 2) <= 0xDFFF) && DecodeUtf8(b) == Some(Unit(c, i + 2))
  }

  ghost function CharacterLength(c: Bytes, i: nat): nat
    requires i + 6 <= |c|
  {
    if OpensPair(c, i) then 12 else 6
  }

  /** The bytes a string stands for, from a place inside it to the quote at its end. Bad digits may hide a backslash,
      so that a later one stands in front of that quote; it takes the quote. */
  ghost predicate Spells(c: Bytes, i: nat, e: nat, b: Bytes)
    requires i <= e + 1 && e < |c|
    decreases e + 1 - i
  {
    if i >= e then b == []
    else if c[i] != 92 then b != [] && b[0] == c[i] && Spells(c, i + 1, e, b[1..])
    else if c[i+1] != 117 then b != [] && (c[i+1], b[0]) in SHORT_ESCAPES && Spells(c, i + 2, e, b[1..])
    else
      i + 6 <= e && i + CharacterLength(c, i) <= e &&
      exists n: nat :: n <= |b| && CharacterAt(c, i, e, b[..n]) && Spells(c, i + CharacterLength(c, i), e, b[n..])
  }

  /** What a C reader sees of some bytes. */
  predicate UpToZero(b: Bytes, x: CStr) {
    |x| <= |b| && b[..|x|] == x && (|x| < |b| ==> b[|x|] == 0)
  }

  ghost predicate StringAt(c: Bytes, o: nat, k: nat, x: CStr) {
    o + 2 <= k <= |c| && c[o] == 34 && c[k-1] == 34 && Inner(c, o + 1, k - 1) &&
    exists b: Bytes :: Spells(c, o + 1, k - 1, b) && UpToZero(b, x)
  }

  // Values

  ghost predicate ValueAt(c: Bytes, o: nat, k: nat, j: Json, f: Strtod)
    decreases j, 0
  {
    match j
    case Null => Word(c, o, k, [110, 117, 108, 108])
    case False => Word(c, o, k, [102, 97, 108, 115, 101])
    case True => Word(c, o, k, [116, 114, 117, 101])
    case Number(n) => NumberAt(c, o, k, n, f)
    case Text(s) => StringAt(c, o, k, s)
    case Array(es) =>
      o + 2 <= k <= |c| && c[o] == 91 && c[k-1] == 93 &&
      if es == [] then Space(c, o + 1, k - 1) else ElementsAt(c, o + 1, k - 1, es, f)
    case Object(ms) =>
      o + 2 <= k <= |c| && c[o] == 123 && c[k-1] == 125 &&
      if ms == [] then Space(c, o + 1, k - 1) else MembersAt(c, o + 1, k - 1, ms, f)
    case _ => false
  }

  /** A value with white space around it. */
  ghost predicate SpacedAt(c: Bytes, o: nat, k: nat, j: Json, f: Strtod)
    decreases j, 1
  {
    exists p: nat, q: nat :: Space(c, o, p) && ValueAt(c, p, q, j, f) && Space(c, q, k)
  }

  /** Values with commas between them. */
  ghost predicate ElementsAt(c: Bytes, o: nat, k: nat, es: seq<Json>, f: Strtod)
    requires es != []
    decreases es, 0
  {
    if |es| == 1 then SpacedAt(c, o, k, es[0], f)
    else exists r: nat :: r < |c| && SpacedAt(c, o, r, es[0], f) && c[r] == 44 && ElementsAt(c, r + 1, k, es[1..], f)
  }

  /** A name, a colon and a value, with white space around each of them. */
  ghost predicate MemberAt(c: Bytes, o: nat, k: nat, m: Keyed<Json>, f: Strtod)
    decreases m, 0
  {
    exists r: nat :: r < |c| && NameAt(c, o, r, m.key) && c[r] == 58 && SpacedAt(c, r + 1, k, m.item, f)
  }

  ghost predicate NameAt(c: Bytes, o: nat, r: nat, key: CStr) {
    exists p: nat, q: nat :: Space(c, o, p) && StringAt(c, p, q, key) && Space(c, q, r)
  }

  /** Members with commas between them. */
  ghost predicate MembersAt(c: Bytes, o: nat, k: nat, ms: Members, f: Strtod)
    requires ms != []
    decreases ms, 0
  {
    if |ms| == 1 then MemberAt(c, o, k, ms[0], f)
    else exists r: nat :: r < |c| && MemberAt(c, o, r, ms[0], f) && c[r] == 44 && MembersAt(c, r + 1, k, ms[1..], f)
  }

  // Whole texts

  /** Where a text starts, behind a byte order mark that has something behind it. */
  function Start(text: CStr): (o: nat)
    ensures o <= |text|
  {
    if |text| >= 4 && text[0] == 239 && text[1] == 187 && text[2] == 191 then 3 else 0
  }

  /** The whole text denotes a document. */
  ghost predicate Denotes(text: CStr, j: Json, f: Strtod) {
    SpacedAt(Buffer(text), Start(text), |text|, j, f)
  }

  /** The text up to some place does. */
  ghost predicate BeginsWith(text: CStr, k: nat, j: Json, f: Strtod) {
    exists p: nat :: Space(Buffer(text), Start(text), p) && ValueAt(Buffer(text), p, k, j, f)
  }
}
