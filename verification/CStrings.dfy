/** C strings and the two orders the library compares keys with. A C string is modelled as the
    bytes in front of its terminator, so its elements are never 0. */
module CStrings {
  type Byte = b: int | 0 <= b < 256
  type Char8 = c: Byte | c != 0 witness 1
  type Bytes = seq<Byte>
  type CStr = seq<Char8>

  datatype Option<+T> = None | Some(value: T)

  const SLASH: Char8 := 47
  const TILDE: Char8 := 126
  const DASH: Char8 := 45
  const ZERO: Char8 := 48
  const NINE: Char8 := 57

  /** `tolower` of the C locale. */
  function ToLower(c: Char8): Char8 {
    if 65 <= c <= 90 then c + 32 else c
  }

  /** What two keys are compared by: themselves, or their lower-case forms. */
  function Fold(s: CStr, caseSensitive: bool): (r: CStr)
    ensures |r| == |s|
  {
    if caseSensitive then s else seq(|s|, i requires 0 <= i < |s| => ToLower(s[i]))
  }

  /** The byte at an index, or the terminator. */
  function CharAt(s: CStr, i: nat): Byte {
    if i < |s| then s[i] else 0
  }

  /** `strcmp`: the difference at the first place where the strings differ, terminator included. */
  function Diff(a: CStr, b: CStr): int {
    if CharAt(a, 0) != CharAt(b, 0) || a == [] then CharAt(a, 0) - CharAt(b, 0)
    else Diff(a[1..], b[1..])
  }

  function KeyOrder(a: CStr, b: CStr, caseSensitive: bool): int {
    Diff(Fold(a, caseSensitive), Fold(b, caseSensitive))
  }

  predicate KeyLess(a: CStr, b: CStr, caseSensitive: bool) {
    KeyOrder(a, b, caseSensitive) < 0
  }

  lemma {:induction false} DiffZeroIffEqual(a: CStr, b: CStr)
    ensures Diff(a, b) == 0 <==> a == b
  {
    if a != [] && b != [] && a[0] == b[0] {
      DiffZeroIffEqual(a[1..], b[1..]);
      assert a == [a[0]] + a[1..] && b == [b[0]] + b[1..];
    }
  }

  lemma {:induction false} DiffAntisymmetric(a: CStr, b: CStr)
    ensures Diff(a, b) == -Diff(b, a)
  {
    if a != [] && b != [] && a[0] == b[0] {
      DiffAntisymmetric(a[1..], b[1..]);
    }
  }

  lemma {:induction false} DiffTransitive(a: CStr, b: CStr, c: CStr)
    requires Diff(a, b) <= 0 && Diff(b, c) <= 0
    ensures Diff(a, c) <= 0
    ensures Diff(a, b) < 0 || Diff(b, c) < 0 ==> Diff(a, c) < 0
  {
    if a != [] && b != [] && c != [] && a[0] == b[0] == c[0] {
      DiffTransitive(a[1..], b[1..], c[1..]);
    }
  }

  /** Both key orders are total orders on the folded keys. */
  lemma KeyOrderIsTotal(a: CStr, b: CStr, c: CStr, caseSensitive: bool)
    ensures KeyOrder(a, b, caseSensitive) == 0 <==> Fold(a, caseSensitive) == Fold(b, caseSensitive)
    ensures KeyOrder(a, b, caseSensitive) == -KeyOrder(b, a, caseSensitive)
    ensures KeyOrder(a, b, caseSensitive) <= 0 && KeyOrder(b, c, caseSensitive) <= 0 ==> KeyOrder(a, c, caseSensitive) <= 0
    ensures KeyOrder(a, b, caseSensitive) <= 0 && KeyOrder(b, c, caseSensitive) < 0 ==> KeyOrder(a, c, caseSensitive) < 0
    ensures KeyOrder(a, b, caseSensitive) < 0 && KeyOrder(b, c, caseSensitive) <= 0 ==> KeyOrder(a, c, caseSensitive) < 0
  {
    var x, y, z := Fold(a, caseSensitive), Fold(b, caseSensitive), Fold(c, caseSensitive);
    DiffZeroIffEqual(x, y);
    DiffAntisymmetric(x, y);
    if Diff(x, y) <= 0 && Diff(y, z) <= 0 {
      DiffTransitive(x, y, z);
    }
  }

  /** Skipping a common prefix does not change the difference. */
  lemma {:induction false} DiffSkip(a: CStr, b: CStr, n: nat)
    requires n <= |a| && n <= |b| && a[..n] == b[..n]
    ensures Diff(a, b) == Diff(a[n..], b[n..])
  {
    if n == 0 {
      assert a[0..] == a && b[0..] == b;
    } else {
      assert a[0] == a[..n][0] == b[..n][0] == b[0];
      assert a[1..][..n-1] == a[..n][1..] == b[..n][1..] == b[1..][..n-1];
      DiffSkip(a[1..], b[1..], n - 1);
      assert a[1..][n-1..] == a[n..] && b[1..][n-1..] == b[n..];
    }
  }

  /** `compare_strings`: null pointers are never equal; otherwise the loop walks both strings
      until the folded bytes differ or both end. */
  method CompareStrings(string1: Option<CStr>, string2: Option<CStr>, caseSensitive: bool) returns (r: int)
    ensures string1.None? || string2.None? ==> r == 1
    ensures string1.Some? && string2.Some? ==> r == KeyOrder(string1.value, string2.value, caseSensitive)
  {
    if string1.None? || string2.None? {
      return 1;
    }
    var a, b := string1.value, string2.value;
    if caseSensitive {
      return Diff(a, b);
    }
    ghost var x, y := Fold(a, false), Fold(b, false);
    var i := 0;
    while FoldedAt(a, i) == FoldedAt(b, i)
      invariant i <= |a| && i <= |b| && x[..i] == y[..i]
      decreases |a| - i
    {
      if CharAt(a, i) == 0 {
        DiffSkip(x, y, i);
        return 0;
      }
      assert x[..i+1] == x[..i] + [x[i]] && y[..i+1] == y[..i] + [y[i]];
      i := i + 1;
    }
    DiffSkip(x, y, i);
    r := FoldedAt(a, i) - FoldedAt(b, i);
  }

  function FoldedAt(s: CStr, i: nat): Byte {
    if i < |s| then ToLower(s[i]) else 0
  }

  // The two orders and the letters, apart from the functions above

  const CAPITALS: CStr :=
    [65, 66, 67, 68, 69, 70, 71, 72, 73, 74, 75, 76, 77, 78, 79, 80, 81, 82, 83, 84, 85, 86, 87, 88, 89, 90]
  const SMALLS: CStr :=
    [97, 98, 99, 100, 101, 102, 103, 104, 105, 106, 107, 108, 109,
     110, 111, 112, 113, 114, 115, 116, 117, 118, 119, 120, 121, 122]

  /** The same byte, or one letter in its two cases. */
  ghost predicate SameButForCase(c: Char8, d: Char8) {
    c == d ||
    exists i :: 0 <= i < 26 && ((c == CAPITALS[i] && d == SMALLS[i]) || (c == SMALLS[i] && d == CAPITALS[i]))
  }

  lemma LettersInOrder(i: nat)
    requires i < 26
    ensures CAPITALS[i] == 65 + i && SMALLS[i] == 97 + i
  {
  }

  lemma FoldsToSame(c: Char8, d: Char8)
    ensures ToLower(c) == ToLower(d) <==> SameButForCase(c, d)
  {
    forall i: nat | i < 26 ensures CAPITALS[i] == 65 + i && SMALLS[i] == 97 + i {
      LettersInOrder(i);
    }
    hide CAPITALS, SMALLS;
    if c != d && ToLower(c) == ToLower(d) {
      var i := if c < d then c - 65 else d - 65;
      assert CAPITALS[i] == 65 + i;
    }
  }

  /** Without regard to case, two keys are the same when they are byte for byte, up to the case of the 26 letters. */
  lemma FoldPairsLetters(a: CStr, b: CStr)
    ensures Fold(a, false) == Fold(b, false) <==> |a| == |b| && forall i :: 0 <= i < |a| ==> SameButForCase(a[i], b[i])
  {
    hide SameButForCase;
    var x, y := Fold(a, false), Fold(b, false);
    if |a| == |b| {
      forall i | 0 <= i < |a| ensures x[i] == y[i] <==> SameButForCase(a[i], b[i]) {
        FoldsToSame(a[i], b[i]);
      }
    }
  }

  /** The place where two strings first differ. */
  ghost predicate PartAt(a: CStr, b: CStr, n: nat) {
    n <= |a| && n <= |b| && a[..n] == b[..n] && CharAt(a, n) != CharAt(b, n)
  }

  /** `strcmp` is the difference of the bytes at that place, so a string comes before another one when it
      has the smaller byte there, or ends there. */
  lemma DiffIsLexicographic(a: CStr, b: CStr)
    ensures a != b ==> exists n: nat :: PartAt(a, b, n)
    ensures forall n: nat :: PartAt(a, b, n) ==> Diff(a, b) == CharAt(a, n) - CharAt(b, n)
  {
    if a != b {
      WherePart(a, b);
    }
    forall n: nat | PartAt(a, b, n) ensures Diff(a, b) == CharAt(a, n) - CharAt(b, n) {
      DiffSkip(a, b, n);
    }
  }

  lemma {:induction false} WherePart(a: CStr, b: CStr)
    requires a != b
    ensures exists n: nat :: PartAt(a, b, n)
  {
    if CharAt(a, 0) != CharAt(b, 0) {
      assert PartAt(a, b, 0);
    } else {
      assert a == [a[0]] + a[1..] && b == [b[0]] + b[1..];
      WherePart(a[1..], b[1..]);
      var n: nat :| PartAt(a[1..], b[1..], n);
      assert a[..n+1] == [a[0]] + a[1..][..n] && b[..n+1] == [b[0]] + b[1..][..n];
      assert PartAt(a, b, n + 1);
    }
  }

  /** The C string a buffer starts with. */
  function CText(bytes: Bytes): CStr {
    if bytes == [] || bytes[0] == 0 then [] else [bytes[0]] + CText(bytes[1..])
  }

  lemma {:induction false} CTextOf(bytes: Bytes, n: nat)
    requires n <= |bytes| && (n < |bytes| ==> bytes[n] == 0)
    requires forall k :: 0 <= k < n ==> bytes[k] != 0
    ensures CText(bytes) == bytes[..n]
  {
    if n > 0 {
      CTextOf(bytes[1..], n - 1);
    }
  }
}
