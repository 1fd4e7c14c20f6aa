/** Minifying a text does not change the document it denotes. */
module MinifyMeaning {
  import opened CStrings
  import opened Json
  import opened Rendering
  import opened Unicode
  import opened StringReader
  import opened Parsing
  import opened Grammar
  import opened ParseMeaning
  import opened Minify
  import opened MinifyScan
  import opened TextRoundTrip

  /** No quote stands behind two backslashes, so that minifying ends every string where it ends. */
  ghost predicate PlainEnds(c: Bytes) {
    forall i: nat :: !QuoteBehindTwo(c, i)
  }

  predicate QuoteBehindTwo(c: Bytes, i: nat) {
    i + 2 < |c| && c[i] == 92 && c[i+1] == 92 && c[i+2] == 34
  }

  /** A part of a text. */
  ghost function Part(c: Bytes, o: nat, k: nat): (t: CStr)
    requires NulTerminated(c) && o <= k < |c|
    ensures |t| == k - o && forall i :: o <= i < k ==> t[i-o] == c[i]
  {
    assert forall i :: 0 <= i < |c[o..k]| ==> c[o..k][i] == c[o+i];
    c[o..k]
  }

  /** Behind the part the scanner is outside of strings again. */
  ghost predicate Calm(c: Bytes, o: nat, k: nat)
    requires NulTerminated(c) && o <= k < |c|
  {
    After(Outside, Part(c, o, k)) == Outside
  }

  /** What stays of the part. */
  ghost function Rest(c: Bytes, o: nat, k: nat): CStr
    requires NulTerminated(c) && o <= k < |c|
  {
    Kept(Outside, Part(c, o, k))
  }

  lemma CalmJoin(c: Bytes, o: nat, r: nat, k: nat)
    requires NulTerminated(c) && o <= r <= k < |c| && Calm(c, o, r) && Calm(c, r, k)
    ensures Calm(c, o, k) && Rest(c, o, k) == Rest(c, o, r) + Rest(c, r, k)
  {
    hide After, Kept, NulTerminated;
    assert Part(c, o, k) == Part(c, o, r) + Part(c, r, k);
    KeptSplit(Outside, Part(c, o, r), Part(c, r, k));
  }

  lemma NothingCalm(c: Bytes, o: nat)
    requires NulTerminated(c) && o < |c|
    ensures Calm(c, o, o) && Rest(c, o, o) == []
  {
    assert Part(c, o, o) == [];
  }

  // Parts that stay as they are

  lemma PlainCalm(c: Bytes, o: nat, k: nat)
    requires NulTerminated(c) && o <= k < |c| && PlainToken(Part(c, o, k))
    ensures Calm(c, o, k) && Rest(c, o, k) == Part(c, o, k)
  {
    hide NulTerminated, After, Kept;
    PlainStays(Part(c, o, k));
  }

  /** A byte that is neither white space nor a quote nor a slash. */
  lemma ByteCalm(c: Bytes, o: nat)
    requires NulTerminated(c) && o + 1 < |c| && c[o] > 32 && c[o] != 34 && c[o] != 47
    ensures Calm(c, o, o + 1) && Rest(c, o, o + 1) == [c[o]]
  {
    hide NulTerminated;
    assert Part(c, o, o + 1) == [c[o]];
    PlainCalm(c, o, o + 1);
  }

  predicate Blanks(t: CStr) {
    forall i :: 0 <= i < |t| ==> t[i] <= 32
  }

  lemma {:induction false} SpaceCalm(c: Bytes, o: nat, k: nat)
    requires NulTerminated(c) && Space(c, o, k) && k < |c|
    ensures Calm(c, o, k) && Blanks(Rest(c, o, k))
    decreases k - o
  {
    hide NulTerminated, After, Kept;
    if o == k {
      NothingCalm(c, o);
    } else {
      SpaceCalm(c, o + 1, k);
      BlankCalm(c, o);
      CalmJoin(c, o, o + 1, k);
    }
  }

  lemma BlankCalm(c: Bytes, o: nat)
    requires NulTerminated(c) && o + 1 < |c| && c[o] <= 32
    ensures Calm(c, o, o + 1) && Blanks(Rest(c, o, o + 1))
  {
    hide After, Kept, NulTerminated;
    var t := Part(c, o, o + 1);
    KeptHead(Outside, t);
    assert t[1..] == [] && t[o-o] == c[o];
    NothingKept(Outside);
  }

  lemma WordCalm(c: Bytes, o: nat, k: nat, text: Bytes)
    requires NulTerminated(c) && Word(c, o, k, text) && k < |c| && forall i :: 0 <= i < |text| ==> text[i] >= 97
    ensures Calm(c, o, k) && Rest(c, o, k) == Part(c, o, k)
  {
    hide NulTerminated;
    forall i | o <= i < k ensures c[i] >= 97 {
      assert c[i] == c[o..k][i-o];
    }
    var t := Part(c, o, k);
    forall i | 0 <= i < |t| ensures t[i] >= 97 {
      assert t[(o+i)-o] == c[o+i];
    }
    PlainCalm(c, o, k);
  }

  lemma NumberCalm(c: Bytes, o: nat, k: nat, n: Num, f: Strtod)
    requires NulTerminated(c) && NumberAt(c, o, k, n, f) && k < |c|
    ensures Calm(c, o, k) && Rest(c, o, k) == Part(c, o, k)
    ensures k <= o + 63 && forall i :: o <= i < k ==> InNumber(c[i])
  {
    hide NulTerminated;
    var r: nat :| Run(c, o, r) && f(RunText(c, o, r)) == (n, k - o);
    assert f(RunText(c, o, r)).1 <= |RunText(c, o, r)|;
    var t := Part(c, o, k);
    forall i | 0 <= i < |t| ensures InNumber(t[i]) {
      assert t[(o+i)-o] == c[o+i];
    }
    PlainCalm(c, o, k);
  }

  /** The quotes inside a string stand behind backslashes. */
  lemma {:induction false} InnerQuotes(c: Bytes, i: nat, e: nat)
    requires i <= e <= |c| && Inner(c, i, e)
    ensures forall l :: i < l < e && c[l] == 34 ==> c[l-1] == 92
    ensures i < e && c[i] == 34 ==> false
    ensures i < e && c[e-1] == 92 ==> i < e - 1 && c[e-2] == 92
    decreases e - i
  {
    if i < e {
      InnerQuotes(c, if c[i] == 92 then i + 2 else i + 1, e);
    }
  }

  lemma NotBothBackslashes(c: Bytes, k: nat)
    requires PlainEnds(c) && 2 < k <= |c| && c[k-1] == 34 && c[k-2] == 92
    ensures c[k-3] != 92
  {
    assert !QuoteBehindTwo(c, k - 3);
  }

  lemma StringCalm(c: Bytes, o: nat, k: nat, x: CStr)
    requires NulTerminated(c) && PlainEnds(c) && StringAt(c, o, k, x) && k < |c|
    ensures Calm(c, o, k) && Rest(c, o, k) == Part(c, o, k)
  {
    hide NulTerminated, After, Kept, Inner, Spells;
    InnerQuotes(c, o + 1, k - 1);
    var t := Part(c, o, k);
    forall i | 0 <= i < |t| ensures t[i] == c[o+i] {
      assert t[(o+i)-o] == c[o+i];
    }
    if k > 2 && c[k-2] == 92 {
      NotBothBackslashes(c, k);
    }
    assert QuotedToken(t);
    PieceStays(Token(t));
  }

  // Every value leaves the scanner where it was

  lemma {:induction false} ValueCalm(c: Bytes, o: nat, k: nat, j: Json, f: Strtod)
    requires NulTerminated(c) && PlainEnds(c) && ValueAt(c, o, k, j, f) && k < |c|
    ensures o <= k && Calm(c, o, k)
    decreases j, 0
  {
    hide NulTerminated, PlainEnds, Calm, Rest, StringAt, NumberAt, ElementsAt, MembersAt;
    ParseMeaning.FirstByte(c, o, k, j, f);
    match j
    case Null => WordCalm(c, o, k, [110, 117, 108, 108]);
    case False => WordCalm(c, o, k, [102, 97, 108, 115, 101]);
    case True => WordCalm(c, o, k, [116, 114, 117, 101]);
    case Number(n) => NumberCalm(c, o, k, n, f);
    case Text(s) => StringCalm(c, o, k, s);
    case Array(es) =>
      if es == [] {
        SpaceCalm(c, o + 1, k - 1);
      } else {
        ElementsCalm(c, o + 1, k - 1, es, f);
      }
      AroundCalm(c, o, k);
    case Object(ms) =>
      if ms == [] {
        SpaceCalm(c, o + 1, k - 1);
      } else {
        MembersCalm(c, o + 1, k - 1, ms, f);
      }
      AroundCalm(c, o, k);
  }

  /** A calm part with a bracket or brace on either side. */
  lemma AroundCalm(c: Bytes, o: nat, k: nat)
    requires NulTerminated(c) && o + 2 <= k < |c| && Calm(c, o + 1, k - 1) && c[o] > 47 && c[k-1] > 47
    ensures Calm(c, o, k) && Rest(c, o, k) == [c[o]] + Rest(c, o + 1, k - 1) + [c[k-1]]
  {
    hide NulTerminated, Calm, Rest;
    ByteCalm(c, o);
    ByteCalm(c, k - 1);
    CalmJoin(c, o, o + 1, k - 1);
    CalmJoin(c, o, k - 1, k);
  }

  lemma {:induction false} SpacedCalm(c: Bytes, o: nat, k: nat, j: Json, f: Strtod)
    requires NulTerminated(c) && PlainEnds(c) && SpacedAt(c, o, k, j, f) && k < |c|
    ensures o < k && Calm(c, o, k)
    decreases j, 1
  {
    hide NulTerminated, PlainEnds, Calm, Rest, ValueAt;
    var p: nat, q: nat :| Space(c, o, p) && ValueAt(c, p, q, j, f) && Space(c, q, k);
    ParseMeaning.FirstByte(c, p, q, j, f);
    SpaceCalm(c, o, p);
    ValueCalm(c, p, q, j, f);
    SpaceCalm(c, q, k);
    CalmJoin(c, o, p, q);
    CalmJoin(c, o, q, k);
  }

  lemma {:induction false} ElementsCalm(c: Bytes, o: nat, k: nat, es: seq<Json>, f: Strtod)
    requires NulTerminated(c) && PlainEnds(c) && es != [] && ElementsAt(c, o, k, es, f) && k < |c|
    ensures o < k && Calm(c, o, k)
    decreases es, 0
  {
    hide NulTerminated, PlainEnds, Calm, Rest, SpacedAt;
    var r := ElementsPart(c, o, k, es, f);
    if |es| > 1 {
      ElementsCalm(c, r + 1, k, es[1..], f);
      SpacedCalm(c, o, r, es[0], f);
      ByteCalm(c, r);
      CalmJoin(c, o, r, r + 1);
      CalmJoin(c, o, r + 1, k);
    } else {
      SpacedCalm(c, o, r, es[0], f);
    }
  }

  lemma NameCalm(c: Bytes, o: nat, r: nat, key: CStr)
    requires NulTerminated(c) && PlainEnds(c) && NameAt(c, o, r, key) && r < |c|
    ensures o < r && Calm(c, o, r)
  {
    hide NulTerminated, PlainEnds, Calm, Rest, StringAt;
    var p: nat, q: nat :| Space(c, o, p) && StringAt(c, p, q, key) && Space(c, q, r);
    FirstOfString(c, p, q, key);
    SpaceCalm(c, o, p);
    StringCalm(c, p, q, key);
    SpaceCalm(c, q, r);
    CalmJoin(c, o, p, q);
    CalmJoin(c, o, q, r);
  }

  lemma {:induction false} MemberCalm(c: Bytes, o: nat, k: nat, m: Keyed<Json>, f: Strtod)
    requires NulTerminated(c) && PlainEnds(c) && MemberAt(c, o, k, m, f) && k < |c|
    ensures o < k && Calm(c, o, k)
    decreases m, 1
  {
    hide NulTerminated, PlainEnds, Calm, Rest, SpacedAt, NameAt;
    var r: nat :| r < |c| && NameAt(c, o, r, m.key) && c[r] == 58 && SpacedAt(c, r + 1, k, m.item, f);
    NameCalm(c, o, r, m.key);
    SpacedCalm(c, r + 1, k, m.item, f);
    ByteCalm(c, r);
    CalmJoin(c, o, r, r + 1);
    CalmJoin(c, o, r + 1, k);
  }

  lemma {:induction false} MembersCalm(c: Bytes, o: nat, k: nat, ms: Members, f: Strtod)
    requires NulTerminated(c) && PlainEnds(c) && ms != [] && MembersAt(c, o, k, ms, f) && k < |c|
    ensures o < k && Calm(c, o, k)
    decreases ms, 0
  {
    hide NulTerminated, PlainEnds, Calm, Rest, MemberAt;
    var r := MembersPart(c, o, k, ms, f);
    if |ms| > 1 {
      MembersCalm(c, r + 1, k, ms[1..], f);
      MemberCalm(c, o, r, ms[0], f);
      ByteCalm(c, r);
      CalmJoin(c, o, r, r + 1);
      CalmJoin(c, o, r + 1, k);
    } else {
      MemberCalm(c, o, r, ms[0], f);
    }
  }

  // What stays denotes the same

  /** What stays of a part stands at a place of another buffer. */
  ghost predicate Copied(c: Bytes, o: nat, k: nat, d: Bytes, p: nat)
    requires NulTerminated(c) && o <= k < |c|
  {
    p <= |d| && StartsWith(d, p, Rest(c, o, k))
  }

  lemma CopiedSplit(c: Bytes, o: nat, r: nat, k: nat, d: Bytes, p: nat)
    requires NulTerminated(c) && o <= r <= k < |c| && Calm(c, o, r) && Calm(c, r, k) && Copied(c, o, k, d, p)
    ensures |Rest(c, o, k)| == |Rest(c, o, r)| + |Rest(c, r, k)| && p + |Rest(c, o, k)| <= |d|
    ensures Copied(c, o, r, d, p) && Copied(c, r, k, d, p + |Rest(c, o, r)|)
  {
    hide NulTerminated, Calm, Rest, StartsWith;
    CalmJoin(c, o, r, k);
    Split(d, p, Rest(c, o, r), Rest(c, r, k));
    InBuffer(d, p, Rest(c, o, k));
  }

  lemma SpaceStays(c: Bytes, o: nat, k: nat, d: Bytes, p: nat)
    requires NulTerminated(c) && Space(c, o, k) && k < |c| && Copied(c, o, k, d, p)
    ensures Space(d, p, p + |Rest(c, o, k)|)
  {
    hide NulTerminated, Rest, StartsWith;
    SpaceCalm(c, o, k);
    var t := Rest(c, o, k);
    InBuffer(d, p, t);
    forall i | p <= i < p + |t| ensures d[i] <= 32 {
      ByteAt(d, p, t, i - p);
    }
  }

  lemma ByteStays(c: Bytes, o: nat, d: Bytes, p: nat)
    requires NulTerminated(c) && o + 1 < |c| && c[o] > 47 && Copied(c, o, o + 1, d, p)
    ensures |Rest(c, o, o + 1)| == 1 && p < |d| && d[p] == c[o]
  {
    hide NulTerminated, Rest, StartsWith;
    ByteCalm(c, o);
    InBuffer(d, p, Rest(c, o, o + 1));
    ByteAt(d, p, Rest(c, o, o + 1), 0);
  }

  /** The same bytes, some places further on or back. */
  ghost predicate Shifted(c: Bytes, i: nat, e: nat, d: Bytes, h: int) {
    i <= e <= |c| && 0 <= i + h && e + h <= |d| && forall l :: i <= l < e ==> c[l] == d[l+h]
  }

  /** A part that stays as it is. */
  lemma SameBytes(c: Bytes, o: nat, k: nat, d: Bytes, p: nat)
    requires NulTerminated(c) && o <= k < |c| && Rest(c, o, k) == Part(c, o, k) && Copied(c, o, k, d, p)
    ensures |Rest(c, o, k)| == k - o && Shifted(c, o, k, d, p - o)
  {
    hide NulTerminated, Rest;
    var t := Part(c, o, k);
    forall l | o <= l < k ensures c[l] == d[l+(p-o)] {
      assert d[p..p+|t|][l-o] == t[l-o];
    }
  }

  lemma NumberStays(c: Bytes, o: nat, k: nat, n: Num, f: Strtod, d: Bytes, p: nat)
    requires NulTerminated(c) && NumberAt(c, o, k, n, f) && k < |c| && !InNumber(c[k]) && Copied(c, o, k, d, p)
    requires p + |Rest(c, o, k)| < |d| && !InNumber(d[p+|Rest(c, o, k)|])
    ensures NumberAt(d, p, p + |Rest(c, o, k)|, n, f)
  {
    hide NulTerminated, Rest, StartsWith, Copied;
    NumberCalm(c, o, k, n, f);
    SameBytes(c, o, k, d, p);
    var r: nat :| Run(c, o, r) && f(RunText(c, o, r)) == (n, k - o);
    assert r == k;
    var e := p + (k - o);
    forall i | p <= i < e ensures InNumber(d[i]) {
      assert c[i-(p-o)] == d[i];
    }
    assert Run(d, p, e);
    SameRun(c, o, k, d, p);
  }

  lemma SameRun(c: Bytes, o: nat, k: nat, d: Bytes, p: nat)
    requires o <= k && Run(c, o, k) && Run(d, p, p + (k - o)) && Shifted(c, o, k, d, p - o)
    ensures RunText(c, o, k) == RunText(d, p, p + (k - o)) && (o < k ==> c[o] == d[p])
  {
    var s, t := RunText(c, o, k), RunText(d, p, p + (k - o));
    forall i | 0 <= i < |s| ensures s[i] == t[i] {
      assert c[o+i] == d[o+i+(p-o)];
    }
  }

  lemma {:induction false} InnerStays(c: Bytes, i: nat, e: nat, d: Bytes, h: int)
    requires Shifted(c, i, e, d, h)
    ensures Inner(c, i, e) == Inner(d, i + h, e + h)
    decreases e - i
  {
    if i < e {
      assert c[i] == d[i+h];
      var n := if c[i] == 92 then 2 else 1;
      if i + n <= e {
        InnerStays(c, i + n, e, d, h);
      }
    }
  }

  lemma UnitStays(c: Bytes, i: nat, d: Bytes, h: int)
    requires Shifted(c, i, i + 4, d, h)
    ensures FourDigits(c, i) == FourDigits(d, i + h) && (FourDigits(c, i) ==> Unit(c, i) == Unit(d, i + h))
  {
    hide Digit, HEX_DIGITS;
    assert c[i] == d[i+h] && c[i+1] == d[i+1+h] && c[i+2] == d[i+2+h] && c[i+3] == d[i+3+h];
  }

  lemma CharacterStays(c: Bytes, i: nat, e: nat, d: Bytes, h: int, b: Bytes)
    requires Shifted(c, i, e, d, h) && i + 6 <= e
    ensures CharacterAt(c, i, e, b) == CharacterAt(d, i + h, e + h, b) && CharacterLength(c, i) == CharacterLength(d, i + h)
  {
    hide Unit, FourDigits, DecodeUtf8;
    UnitStays(c, i + 2, d, h);
    if i + 12 <= e {
      UnitStays(c, i + 8, d, h);
      assert c[i+6] == d[i+6+h] && c[i+7] == d[i+7+h];
    }
  }

  lemma {:induction false} SpellsStays(c: Bytes, i: nat, e: nat, d: Bytes, h: int, b: Bytes)
    requires i <= e + 1 && e < |c| && 0 <= i + h && 0 <= e + h && (if i <= e then Shifted(c, i, e + 1, d, h) else e + h < |d|)
    ensures Spells(c, i, e, b) == Spells(d, i + h, e + h, b)
    decreases e + 1 - i
  {
    hide CharacterAt, CharacterLength, SHORT_ESCAPES;
    if i < e {
      assert c[i] == d[i+h] && c[i+1] == d[i+1+h];
      if c[i] != 92 {
        if b != [] {
          SpellsStays(c, i + 1, e, d, h, b[1..]);
        }
      } else if c[i+1] != 117 {
        if b != [] {
          SpellsStays(c, i + 2, e, d, h, b[1..]);
        }
      } else if i + 6 <= e {
        CharacterStays(c, i, e, d, h, []);
        var n := CharacterLength(c, i);
        if i + n <= e {
          forall l: nat | l <= |b|
            ensures CharacterAt(c, i, e, b[..l]) == CharacterAt(d, i + h, e + h, b[..l])
            ensures Spells(c, i + n, e, b[l..]) == Spells(d, i + n + h, e + h, b[l..])
          {
            CharacterStays(c, i, e, d, h, b[..l]);
            CharacterForward(c, i);
            SpellsStays(c, i + n, e, d, h, b[l..]);
          }
        }
      }
    }
  }

  lemma CharacterForward(c: Bytes, i: nat)
    requires i + 6 <= |c|
    ensures CharacterLength(c, i) >= 6
  {
  }

  lemma StringStays(c: Bytes, o: nat, k: nat, x: CStr, d: Bytes, p: nat)
    requires NulTerminated(c) && PlainEnds(c) && StringAt(c, o, k, x) && k < |c| && Copied(c, o, k, d, p)
    ensures StringAt(d, p, p + |Rest(c, o, k)|, x)
  {
    hide NulTerminated, Rest, Copied, Inner, Spells, UpToZero;
    StringCalm(c, o, k, x);
    SameBytes(c, o, k, d, p);
    var h := p - o;
    assert c[o] == d[o+h] && c[k-1] == d[k-1+h];
    InnerStays(c, o + 1, k - 1, d, h);
    var b: Bytes :| Spells(c, o + 1, k - 1, b) && UpToZero(b, x);
    SpellsStays(c, o + 1, k - 1, d, h, b);
  }

  lemma WordStays(c: Bytes, o: nat, k: nat, text: Bytes, d: Bytes, p: nat)
    requires NulTerminated(c) && Word(c, o, k, text) && k < |c| && Copied(c, o, k, d, p) && forall i :: 0 <= i < |text| ==> text[i] >= 97
    ensures Word(d, p, p + |Rest(c, o, k)|, text)
  {
    hide NulTerminated, Rest, Copied;
    WordCalm(c, o, k, text);
    SameBytes(c, o, k, d, p);
    var h, t := p - o, d[p..p+(k-o)];
    forall i | 0 <= i < |text| ensures t[i] == text[i] {
      assert c[o+i] == d[o+i+h] && c[o..k][i] == c[o+i];
    }
    assert t == text;
  }

  /** A value stays, if numbers go on neither in the one text nor in the other. */
  lemma {:induction false} ValueStays(c: Bytes, o: nat, k: nat, j: Json, f: Strtod, d: Bytes, p: nat)
    requires NulTerminated(c) && PlainEnds(c) && ValueAt(c, o, k, j, f) && k < |c| && !InNumber(c[k])
    requires o <= k && Copied(c, o, k, d, p) && p + |Rest(c, o, k)| < |d| && !InNumber(d[p+|Rest(c, o, k)|])
    ensures ValueAt(d, p, p + |Rest(c, o, k)|, j, f)
    decreases j, 0
  {
    hide NulTerminated, PlainEnds, Calm, Rest, Copied, StringAt, NumberAt, ElementsAt, MembersAt, Space, Word, InNumber;
    ParseMeaning.FirstByte(c, o, k, j, f);
    match j
    case Null => WordStays(c, o, k, [110, 117, 108, 108], d, p);
    case False => WordStays(c, o, k, [102, 97, 108, 115, 101], d, p);
    case True => WordStays(c, o, k, [116, 114, 117, 101], d, p);
    case Number(n) => NumberStays(c, o, k, n, f, d, p);
    case Text(s) => StringStays(c, o, k, s, d, p);
    case Array(es) => ArrayStays(c, o, k, es, f, d, p);
    case Object(ms) => ObjectStays(c, o, k, ms, f, d, p);
  }

  /** What stands between brackets or braces. */
  lemma AroundStays(c: Bytes, o: nat, k: nat, d: Bytes, p: nat)
    requires NulTerminated(c) && o + 2 <= k < |c| && Calm(c, o + 1, k - 1) && c[o] > 47 && c[k-1] > 47 && Copied(c, o, k, d, p)
    ensures |Rest(c, o, k)| == 2 + |Rest(c, o + 1, k - 1)| && p + |Rest(c, o, k)| <= |d|
    ensures Copied(c, o + 1, k - 1, d, p + 1) && d[p] == c[o] && d[p+1+|Rest(c, o + 1, k - 1)|] == c[k-1]
  {
    hide NulTerminated, Calm, Rest, Copied;
    ByteCalm(c, o);
    ByteCalm(c, k - 1);
    CalmJoin(c, o, o + 1, k - 1);
    CopiedSplit(c, o, k - 1, k, d, p);
    CopiedSplit(c, o, o + 1, k - 1, d, p);
    ByteStays(c, o, d, p);
    ByteStays(c, k - 1, d, p + |Rest(c, o, k - 1)|);
  }

  lemma {:induction false} ArrayStays(c: Bytes, o: nat, k: nat, es: seq<Json>, f: Strtod, d: Bytes, p: nat)
    requires NulTerminated(c) && PlainEnds(c) && ValueAt(c, o, k, Array(es), f) && o <= k < |c| && Copied(c, o, k, d, p)
    ensures ValueAt(d, p, p + |Rest(c, o, k)|, Array(es), f)
    decreases es, 2
  {
    hide NulTerminated, PlainEnds, Calm, Rest, Copied, ElementsAt, Space, ValueAt;
    ArrayAt(c, o, k, es, f);
    ArrayAt(d, p, p + |Rest(c, o, k)|, es, f);
    if es == [] {
      SpaceCalm(c, o + 1, k - 1);
      AroundStays(c, o, k, d, p);
      SpaceStays(c, o + 1, k - 1, d, p + 1);
    } else {
      ElementsCalm(c, o + 1, k - 1, es, f);
      AroundStays(c, o, k, d, p);
      ElementsStay(c, o + 1, k - 1, es, f, d, p + 1);
    }
  }

  lemma {:induction false} ObjectStays(c: Bytes, o: nat, k: nat, ms: Members, f: Strtod, d: Bytes, p: nat)
    requires NulTerminated(c) && PlainEnds(c) && ValueAt(c, o, k, Object(ms), f) && o <= k < |c| && Copied(c, o, k, d, p)
    ensures ValueAt(d, p, p + |Rest(c, o, k)|, Object(ms), f)
    decreases ms, 2
  {
    hide NulTerminated, PlainEnds, Calm, Rest, Copied, MembersAt, Space, ValueAt;
    ObjectAt(c, o, k, ms, f);
    ObjectAt(d, p, p + |Rest(c, o, k)|, ms, f);
    if ms == [] {
      SpaceCalm(c, o + 1, k - 1);
      AroundStays(c, o, k, d, p);
      SpaceStays(c, o + 1, k - 1, d, p + 1);
    } else {
      MembersCalm(c, o + 1, k - 1, ms, f);
      AroundStays(c, o, k, d, p);
      MembersStay(c, o + 1, k - 1, ms, f, d, p + 1);
    }
  }

  /** White space in front of a byte that does not go on with a number: neither does its first byte. */
  lemma SpaceEnds(c: Bytes, o: nat, k: nat)
    requires Space(c, o, k) && k < |c| && !InNumber(c[k])
    ensures !InNumber(c[o])
  {
  }

  lemma {:induction false} SpacedStays(c: Bytes, o: nat, k: nat, j: Json, f: Strtod, d: Bytes, p: nat)
    requires NulTerminated(c) && PlainEnds(c) && SpacedAt(c, o, k, j, f) && k < |c| && !InNumber(c[k])
    requires o <= k && Copied(c, o, k, d, p) && p + |Rest(c, o, k)| < |d| && !InNumber(d[p+|Rest(c, o, k)|])
    ensures SpacedAt(d, p, p + |Rest(c, o, k)|, j, f)
    decreases j, 1
  {
    hide NulTerminated, PlainEnds, Calm, Rest, Copied, ValueAt, InNumber, SpacedAt;
    var q, r := SpacedParts(c, o, k, j, f);
    SpaceCalm(c, o, q);
    ValueCalm(c, q, r, j, f);
    SpaceCalm(c, r, k);
    CalmJoin(c, o, q, r);
    CopiedSplit(c, o, r, k, d, p);
    CopiedSplit(c, o, q, r, d, p);
    var p1, p2 := p + |Rest(c, o, q)|, p + |Rest(c, o, r)|;
    SpaceStays(c, o, q, d, p);
    SpaceStays(c, r, k, d, p2);
    SpaceEnds(c, r, k);
    SpaceEnds(d, p2, p + |Rest(c, o, k)|);
    ValueStays(c, q, r, j, f, d, p1);
    ValueSpaced(d, p, p1, p2, p + |Rest(c, o, k)|, j, f);
  }

  lemma SpacedParts(c: Bytes, o: nat, k: nat, j: Json, f: Strtod) returns (q: nat, r: nat)
    requires SpacedAt(c, o, k, j, f)
    ensures o <= q < r <= k <= |c| && Space(c, o, q) && ValueAt(c, q, r, j, f) && Space(c, r, k)
  {
    hide ValueAt;
    q, r :| Space(c, o, q) && ValueAt(c, q, r, j, f) && Space(c, r, k);
    ParseMeaning.FirstByte(c, q, r, j, f);
  }

  lemma {:induction false} ElementsStay(c: Bytes, o: nat, k: nat, es: seq<Json>, f: Strtod, d: Bytes, p: nat)
    requires NulTerminated(c) && PlainEnds(c) && es != [] && ElementsAt(c, o, k, es, f) && k < |c| && !InNumber(c[k])
    requires o <= k && Copied(c, o, k, d, p) && p + |Rest(c, o, k)| < |d| && !InNumber(d[p+|Rest(c, o, k)|])
    ensures ElementsAt(d, p, p + |Rest(c, o, k)|, es, f)
    decreases es, 0
  {
    hide NulTerminated, PlainEnds, Calm, Rest, Copied, SpacedAt, ElementsAt;
    var r := ElementsPart(c, o, k, es, f);
    if |es| > 1 {
      SpacedCalm(c, o, r, es[0], f);
      ElementsCalm(c, r + 1, k, es[1..], f);
      ByteCalm(c, r);
      CalmJoin(c, r, r + 1, k);
      CopiedSplit(c, o, r, k, d, p);
      var p1 := p + |Rest(c, o, r)|;
      CopiedSplit(c, r, r + 1, k, d, p1);
      CommaStays(c, r, d, p1);
      SpacedStays(c, o, r, es[0], f, d, p);
      ElementsStay(c, r + 1, k, es[1..], f, d, p1 + 1);
      ElementsJoin(d, p, p1, p + |Rest(c, o, k)|, es, f);
    } else {
      SpacedStays(c, o, k, es[0], f, d, p);
      OneElementAt(d, p, p + |Rest(c, o, k)|, es, f);
    }
  }

  /** A comma or a colon. */
  lemma CommaStays(c: Bytes, r: nat, d: Bytes, p: nat)
    requires NulTerminated(c) && r + 1 < |c| && (c[r] == 44 || c[r] == 58) && Copied(c, r, r + 1, d, p)
    ensures |Rest(c, r, r + 1)| == 1 && p < |d| && d[p] == c[r] && !InNumber(d[p])
  {
    hide NulTerminated, Rest, StartsWith;
    ByteCalm(c, r);
    InBuffer(d, p, Rest(c, r, r + 1));
    ByteAt(d, p, Rest(c, r, r + 1), 0);
  }

  lemma NameStays(c: Bytes, o: nat, r: nat, key: CStr, d: Bytes, p: nat)
    requires NulTerminated(c) && PlainEnds(c) && NameAt(c, o, r, key) && o <= r < |c| && Copied(c, o, r, d, p)
    ensures NameAt(d, p, p + |Rest(c, o, r)|, key)
  {
    hide NulTerminated, PlainEnds, Calm, Rest, Copied, StringAt;
    var q: nat, s: nat :| Space(c, o, q) && StringAt(c, q, s, key) && Space(c, s, r);
    FirstOfString(c, q, s, key);
    SpaceCalm(c, o, q);
    StringCalm(c, q, s, key);
    SpaceCalm(c, s, r);
    CalmJoin(c, o, q, s);
    CopiedSplit(c, o, s, r, d, p);
    CopiedSplit(c, o, q, s, d, p);
    SpaceStays(c, o, q, d, p);
    StringStays(c, q, s, key, d, p + |Rest(c, o, q)|);
    SpaceStays(c, s, r, d, p + |Rest(c, o, s)|);
  }

  lemma {:induction false} MemberStays(c: Bytes, o: nat, k: nat, m: Keyed<Json>, f: Strtod, d: Bytes, p: nat)
    requires NulTerminated(c) && PlainEnds(c) && MemberAt(c, o, k, m, f) && k < |c| && !InNumber(c[k])
    requires o <= k && Copied(c, o, k, d, p) && p + |Rest(c, o, k)| < |d| && !InNumber(d[p+|Rest(c, o, k)|])
    ensures MemberAt(d, p, p + |Rest(c, o, k)|, m, f)
    decreases m, 1
  {
    hide NulTerminated, PlainEnds, Calm, Rest, Copied, SpacedAt, NameAt, InNumber;
    var r: nat :| r < |c| && NameAt(c, o, r, m.key) && c[r] == 58 && SpacedAt(c, r + 1, k, m.item, f);
    NameCalm(c, o, r, m.key);
    SpacedCalm(c, r + 1, k, m.item, f);
    ByteCalm(c, r);
    CalmJoin(c, r, r + 1, k);
    CopiedSplit(c, o, r, k, d, p);
    var p1 := p + |Rest(c, o, r)|;
    CopiedSplit(c, r, r + 1, k, d, p1);
    CommaStays(c, r, d, p1);
    NameStays(c, o, r, m.key, d, p);
    SpacedStays(c, r + 1, k, m.item, f, d, p1 + 1);
  }

  lemma {:induction false} MembersStay(c: Bytes, o: nat, k: nat, ms: Members, f: Strtod, d: Bytes, p: nat)
    requires NulTerminated(c) && PlainEnds(c) && ms != [] && MembersAt(c, o, k, ms, f) && k < |c| && !InNumber(c[k])
    requires o <= k && Copied(c, o, k, d, p) && p + |Rest(c, o, k)| < |d| && !InNumber(d[p+|Rest(c, o, k)|])
    ensures MembersAt(d, p, p + |Rest(c, o, k)|, ms, f)
    decreases ms, 0
  {
    hide NulTerminated, PlainEnds, Calm, Rest, Copied, MemberAt, MembersAt;
    var r := MembersPart(c, o, k, ms, f);
    if |ms| > 1 {
      MemberCalm(c, o, r, ms[0], f);
      MembersCalm(c, r + 1, k, ms[1..], f);
      ByteCalm(c, r);
      CalmJoin(c, r, r + 1, k);
      CopiedSplit(c, o, r, k, d, p);
      var p1 := p + |Rest(c, o, r)|;
      CopiedSplit(c, r, r + 1, k, d, p1);
      CommaStays(c, r, d, p1);
      MemberStays(c, o, r, ms[0], f, d, p);
      MembersStay(c, r + 1, k, ms[1..], f, d, p1 + 1);
      MembersJoin(d, p, p1, p + |Rest(c, o, k)|, ms, f);
    } else {
      MemberStays(c, o, k, ms[0], f, d, p);
      OneMemberAt(d, p, p + |Rest(c, o, k)|, ms, f);
    }
  }

  // Whole texts

  lemma EndsInBuffer(text: CStr)
    requires PlainEnds(text)
    ensures PlainEnds(Buffer(text))
  {
    var c := Buffer(text);
    forall i: nat ensures !QuoteBehindTwo(c, i) {
      assert !QuoteBehindTwo(text, i);
    }
  }

  lemma WholePart(text: CStr)
    ensures Part(Buffer(text), 0, |text|) == text && !InNumber(Buffer(text)[|text|])
    ensures StartsWith(Buffer(text), 0, text)
    ensures Rest(Buffer(text), 0, |text|) == Minified(text)
  {
    assert Part(Buffer(text), 0, |text|) == text;
    MinifiedByScan(text);
  }

  /** A byte order mark stays. */
  lemma MarkStays(text: CStr)
    requires Start(text) == 3
    ensures var c := Buffer(text); Calm(c, 0, 3) && Rest(c, 0, 3) == [239, 187, 191]
  {
    hide After, Kept;
    var c := Buffer(text);
    assert Part(c, 0, 3) == [239, 187, 191];
    PlainCalm(c, 0, 3);
  }

  lemma NoMark(text: CStr)
    ensures Start(text) == 0 || (Start(text) == 3 && |text| > 3)
    ensures Start(text) == if |text| >= 4 && text[..3] == [239, 187, 191] then 3 else 0
  {
    if |text| >= 4 {
      assert text[..3] == [text[0], text[1], text[2]];
    }
  }

  lemma SpacedFirst(d: Bytes, o: nat, k: nat, j: Json, f: Strtod)
    requires SpacedAt(d, o, k, j, f)
    ensures o < k <= |d| && d[o] < 128
  {
    hide ValueAt;
    var q, r := SpacedParts(d, o, k, j, f);
    ParseMeaning.FirstByte(d, q, r, j, f);
  }

  /** A text in which no quote stands behind two backslashes denotes the same document when it is minified. */
  lemma MinifyKeepsDocument(text: CStr, j: Json, f: Strtod)
    requires Denotes(text, j, f) && PlainEnds(text)
    ensures Denotes(Minified(text), j, f)
  {
    hide Minified, SpacedAt, NulTerminated, PlainEnds, Calm, Rest, Start, InNumber, StartsWith;
    var c, m, o := Buffer(text), Minified(text), Start(text);
    var d := Buffer(m);
    EndsInBuffer(text);
    WholePart(text);
    WholePart(m);
    NoMark(text);
    NoMark(m);
    SpacedCalm(c, o, |text|, j, f);
    if o == 3 {
      MarkStays(text);
      CopiedSplit(c, 0, 3, |text|, d, 0);
      SpacedStays(c, 3, |text|, j, f, d, 3);
      SpacedFirst(d, 3, |m|, j, f);
      CalmJoin(c, 0, 3, |text|);
      assert m[..3] == [239, 187, 191];
    } else {
      SpacedStays(c, 0, |text|, j, f, d, 0);
      SpacedFirst(d, 0, |m|, j, f);
      assert |m| >= 4 ==> m[..3][0] == m[0] == d[0];
    }
  }

  /** Whatever such a text is parsed to, its minified form is parsed to as well. */
  lemma ParseMinified(text: CStr, f: Strtod)
    requires PlainEnds(text)
    ensures var r := ParseWithOpts(text, true, f);
            r.Parsed? ==> ParseWithOpts(Minified(text), true, f) == Parsed(r.value, |Minified(text)|)
  {
    hide ParseWithOpts, Denotes, Minified, PlainEnds, Nesting;
    var r := ParseWithOpts(text, true, f);
    if r.Parsed? {
      ParsesExactly(text, r.value, r.next, f);
      MinifyKeepsDocument(text, r.value, f);
      ParsesExactly(Minified(text), r.value, |Minified(text)|, f);
    }
  }

  // Where it fails

  /** The printed text of an array of two strings, a backslash and one that needs no escapes. */
  lemma TwoStrings(s: CStr)
    requires EscapeAll(s) == s
    ensures Render(Array([Text([92]), Text(s)]), false, 0) == [91, 34, 92, 92, 34, 44, 34] + s + [34, 93]
  {
    hide EscapeAll;
    var es := [Text([92]), Text(s)];
    BackslashText();
    ElementsText(es, false, 1);
    ElementsText(es[1..], false, 1);
    assert es[1..] == [Text(s)];
    hide RenderElements;
    assert RenderElements(es, false, 1) == [34, 92, 92, 34] + [44] + ([34] + s + [34]);
  }

  lemma BackslashText()
    ensures RenderString([92]) == [34, 92, 92, 34]
  {
    assert EscapeAll([92]) == [92, 92];
  }

  lemma NoEscapes()
    ensures EscapeAll([97, 32, 98]) == [97, 32, 98] && EscapeAll([97, 98]) == [97, 98]
  {
    assert EscapeAll([98]) == [98] && EscapeAll([32, 98]) == [32, 98];
  }

  lemma TakenForOutside(s: CStr)
    requires After(Outside, s) == Outside
    ensures var front: CStr := [91, 34, 92, 92, 34, 44, 34]; Minified(front + s + [34, 93]) == front + Kept(Outside, s) + [34, 93]
  {
    hide Minified, Kept, After;
    var bracket: CStr, quoted: CStr, end: CStr := [91], [34, 92, 92, 34, 44, 34], [34, 93];
    var front := bracket + quoted;
    assert front == [91, 34, 92, 92, 34, 44, 34];
    PieceStays(Token(bracket));
    PieceStays(Token(quoted));
    KeptSplit(Outside, bracket, quoted);
    KeptSplit(Outside, front, s);
    KeptSplit(Outside, front + s, end);
    KeptHead(Outside, end);
    KeptHead(Quoted, end[1..]);
    NothingKept(Quoted);
    assert end[1..][1..] == [];
    MinifiedByScan(front + s + end);
  }

  /** Behind a string that ends in a backslash the scanner takes the next one for what stands outside, and
      drops its space: a text of the printer denotes another document when it is minified. */
  lemma SpaceInStringLost()
    ensures var j, lost := Array([Text([92]), Text([97, 32, 98])]), Array([Text([92]), Text([97, 98])]);
            Minified(Render(j, false, 0)) == Render(lost, false, 0)
  {
    hide Minified, Render, Kept, After, EscapeAll;
    NoEscapes();
    TwoStrings([97, 32, 98]);
    TwoStrings([97, 98]);
    var s: CStr := [97, 32, 98];
    KeptHead(Outside, s);
    KeptHead(Outside, s[1..]);
    KeptHead(Outside, s[1..][1..]);
    assert s[1..][1..][1..] == [];
    NothingKept(Outside);
    TakenForOutside(s);
  }
}
