/** What minifying does to a text, byte by byte: a scanner of its own, and comments and white space between tokens. */
module MinifyScan {
  import opened Sequences
  import opened CStrings
  import opened Minify

  /** Where a scanner is: between strings and comments, behind a slash there, in a string, behind a backslash in one,
      in a comment up to the end of the line, in a comment with an end of its own, and behind a star in that. */
  datatype Mode = Outside | Slash | Quoted | Escaped | Line | Block | Star

  function Next(m: Mode, c: Char8): Mode {
    match m
    case Outside => if c == 34 then Quoted else if c == 47 then Slash else Outside
    case Slash => if c == 47 then Line else if c == 42 then Block else if c == 34 then Quoted else Outside
    case Quoted => if c == 34 then Outside else if c == 92 then Escaped else Quoted
    case Escaped => if c == 92 then Escaped else Quoted
    case Line => if c == 10 then Outside else Line
    case Block => if c == 42 then Star else Block
    case Star => if c == 47 then Outside else if c == 42 then Star else Block
  }

  /** The bytes that stay: those of strings, and outside of strings and comments all but white space and slashes. */
  predicate Stays(m: Mode, c: Char8) {
    match m
    case Outside => c != 9 && c != 10 && c != 13 && c != 32 && c != 47
    case Slash => c != 9 && c != 10 && c != 13 && c != 32 && c != 47 && c != 42
    case Quoted => true
    case Escaped => true
    case _ => false
  }

  function After(m: Mode, t: CStr): Mode
    decreases |t|
  {
    if t == [] then m else After(Next(m, t[0]), t[1..])
  }

  function Kept(m: Mode, t: CStr): CStr
    decreases |t|
  {
    if t == [] then [] else (if Stays(m, t[0]) then [t[0]] else []) + Kept(Next(m, t[0]), t[1..])
  }

  lemma KeptHead(m: Mode, t: CStr)
    requires t != []
    ensures Kept(m, t) == if Stays(m, t[0]) then [t[0]] + Kept(Next(m, t[0]), t[1..]) else Kept(Next(m, t[0]), t[1..])
    ensures After(m, t) == After(Next(m, t[0]), t[1..])
  {
    var rest := Kept(Next(m, t[0]), t[1..]);
    assert [] + rest == rest;
  }

  lemma {:induction false} KeptSplit(m: Mode, a: CStr, b: CStr)
    ensures Kept(m, a + b) == Kept(m, a) + Kept(After(m, a), b) && After(m, a + b) == After(After(m, a), b)
    decreases |a|
  {
    hide Kept, After, Stays, Next;
    if a == [] {
      NothingKept(m);
      assert a + b == b && [] + Kept(m, b) == Kept(m, b);
    } else {
      assert (a + b)[0] == a[0] && (a + b)[1..] == a[1..] + b;
      KeptHead(m, a);
      KeptHead(m, a + b);
      var n := Next(m, a[0]);
      KeptSplit(n, a[1..], b);
      Regroup([a[0]], Kept(n, a[1..]), Kept(After(m, a), b));
    }
  }

  lemma NothingKept(m: Mode)
    ensures Kept(m, []) == [] && After(m, []) == m
  {
  }

  // Minifying is scanning

  lemma {:induction false} LineScan(s: CStr)
    ensures Kept(Line, s) == Kept(Outside, s[LineLength(s)..])
  {
    if s == [] {
      NothingKept(Line);
      NothingKept(Outside);
    } else {
      hide Kept;
      KeptHead(Line, s);
      LineScan(s[1..]);
      assert s[1+LineLength(s[1..])..] == s[1..][LineLength(s[1..])..];
    }
  }

  lemma {:induction false} BlockScan(s: CStr)
    ensures Kept(Block, s) == Kept(Outside, s[CommentLength(s)..])
    decreases |s|
  {
    hide Kept;
    if s == [] {
      NothingKept(Block);
      NothingKept(Outside);
    } else {
      KeptHead(Block, s);
      if s[0] == 42 {
        if |s| > 1 {
          KeptHead(Star, s[1..]);
          KeptHead(Block, s[1..]);
        } else {
          NothingKept(Star);
          NothingKept(Block);
        }
        assert |s| > 1 ==> s[1..][1..] == s[2..];
      }
      BlockScan(s[1..]);
      assert s[1+CommentLength(s[1..])..] == s[1..][CommentLength(s[1..])..];
    }
  }

  lemma {:induction false} QuoteScan(s: CStr)
    ensures var n := StringLength(s); Kept(Quoted, s) == s[..n] + Kept(Outside, s[n..])
    decreases |s|
  {
    hide Kept, StringLength;
    if s == [] {
      NothingKept(Quoted);
      NothingKept(Outside);
      StringEnds(s, 0);
    } else {
      var n := StringLength(s);
      StringTurn(s, 0);
      assert s[0..] == s;
      KeptHead(Quoted, s);
      if s[0] == 34 {
        assert s[..1] == [s[0]];
      } else if s[0] == 92 && CharAt(s, 1) == 34 {
        KeptHead(Escaped, s[1..]);
        assert s[1..][1..] == s[2..];
        QuoteScan(s[2..]);
        CopiedOn(s, 2, n - 2);
      } else {
        if s[0] == 92 {
          if |s| > 1 {
            KeptHead(Escaped, s[1..]);
            KeptHead(Quoted, s[1..]);
          } else {
            NothingKept(Escaped);
            NothingKept(Quoted);
          }
        }
        QuoteScan(s[1..]);
        CopiedOn(s, 1, n - 1);
      }
    }
  }

  /** What is copied in two parts. */
  lemma CopiedOn(s: CStr, k: nat, n: nat)
    requires k + n <= |s|
    ensures s[k..][n..] == s[k+n..]
    ensures forall rest: CStr :: s[..k] + (s[k..][..n] + rest) == s[..k+n] + rest
    ensures k == 1 ==> s[..k] == [s[0]]
    ensures k == 2 ==> forall rest: CStr :: [s[0]] + ([s[1]] + rest) == s[..k] + rest
  {
    assert s[..k] + s[k..][..n] == s[..k+n];
  }

  /** The minifier keeps exactly the bytes the scanner keeps, on every text. */
  lemma {:induction false} MinifiedByScan(t: CStr)
    ensures Minified(t) == Kept(Outside, t)
    decreases |t|
  {
    hide Kept, Minified, LineLength, CommentLength, StringLength;
    if t == [] {
      NothingToMinify(t);
      NothingKept(Outside);
    } else {
      OneTurn(t);
      KeptHead(Outside, t);
      var (copied, length) := Turn(t);
      MinifiedByScan(t[length..]);
      if t[0] == 47 {
        SlashScan(t);
      } else if t[0] == 34 {
        var n := StringLength(t[1..]);
        QuoteScan(t[1..]);
        CopiedOn(t, 1, n);
      }
      assert [] + Kept(Outside, t[length..]) == Kept(Outside, t[length..]);
    }
  }

  lemma SlashScan(t: CStr)
    requires t != [] && t[0] == 47
    ensures Turn(t).0 == [] && Kept(Slash, t[1..]) == Kept(Outside, t[Turn(t).1..])
  {
    hide Kept, LineLength, CommentLength, StringLength;
    if |t| == 1 {
      NothingKept(Slash);
      NothingKept(Outside);
    } else {
      KeptHead(Slash, t[1..]);
      assert t[1..][1..] == t[2..];
      if t[1] == 47 {
        LineScan(t[2..]);
        CopiedOn(t, 2, LineLength(t[2..]));
      } else if t[1] == 42 {
        BlockScan(t[2..]);
        CopiedOn(t, 2, CommentLength(t[2..]));
      } else {
        KeptHead(Outside, t[1..]);
      }
    }
  }

  /** Behind a text that ends outside of strings and comments, minifying starts afresh. */
  lemma MinifiedBehind(front: CStr, rest: CStr)
    requires After(Outside, front) == Outside
    ensures Minified(front + rest) == Minified(front) + Minified(rest)
  {
    hide Kept, After, Minified;
    MinifiedByScan(front);
    MinifiedByScan(rest);
    MinifiedByScan(front + rest);
    KeptSplit(Outside, front, rest);
  }

  // Comments

  /** Two slashes, anything but a newline, and a newline. */
  predicate LineComment(t: CStr) {
    |t| > 2 && t[0] == 47 && t[1] == 47 && 10 !in t[2..|t|-1] && t[|t|-1] == 10
  }

  /** A slash and a star, and behind them no star in front of a slash but at the end. */
  predicate BlockComment(t: CStr) {
    |t| > 3 && t[0] == 47 && t[1] == 42 && t[|t|-2] == 42 && t[|t|-1] == 47 &&
    forall i :: 2 <= i < |t| - 2 ==> !(t[i] == 42 && t[i+1] == 47)
  }

  predicate Comment(t: CStr) {
    LineComment(t) || BlockComment(t)
  }

  /** Nothing stays of a text, behind which the scanner is where it was. */
  ghost predicate Vanishes(t: CStr) {
    After(Outside, t) == Outside && Kept(Outside, t) == []
  }

  lemma {:induction false} InLine(body: CStr)
    requires 10 !in body
    ensures After(Line, body) == Line && Kept(Line, body) == []
  {
    if body != [] {
      hide Kept, After;
      KeptHead(Line, body);
      assert body == [body[0]] + body[1..];
      InLine(body[1..]);
    } else {
      NothingKept(Line);
    }
  }

  /** A comment that has not met a star in front of a slash is still open. */
  lemma {:induction false} InBlock(m: Mode, body: CStr)
    requires m == Block || m == Star
    requires forall i :: 0 <= i < |body| - 1 ==> !(body[i] == 42 && body[i+1] == 47)
    requires m == Star && body != [] ==> body[0] != 47
    ensures Kept(m, body) == []
    ensures After(m, body) == if body == [] then m else if body[|body|-1] == 42 then Star else Block
    decreases |body|
  {
    hide Kept, After;
    if body == [] {
      NothingKept(m);
    } else {
      KeptHead(m, body);
      InBlock(Next(m, body[0]), body[1..]);
    }
  }

  lemma CommentVanishes(t: CStr)
    requires Comment(t)
    ensures Vanishes(t)
  {
    hide Kept, After;
    KeptHead(Outside, t);
    KeptHead(Slash, t[1..]);
    assert t[1..][1..] == t[2..];
    if LineComment(t) {
      var body, end := t[2..|t|-1], t[|t|-1..];
      assert t[2..] == body + end && end == [10] && end[1..] == [];
      InLine(body);
      KeptSplit(Line, body, end);
      KeptHead(Line, end);
      NothingKept(Outside);
    } else {
      var body, end := t[2..|t|-1], t[|t|-1..];
      assert t[2..] == body + end && end == [47] && end[1..] == [] && body[|body|-1] == 42;
      InBlock(Block, body);
      KeptSplit(Block, body, end);
      KeptHead(Star, end);
      NothingKept(Outside);
    }
  }

  /** Taking out a comment changes nothing, wherever it stands outside of strings and other comments. */
  lemma CommentsGo(front: CStr, comment: CStr, rest: CStr)
    requires After(Outside, front) == Outside && Comment(comment)
    ensures Minified(front + comment + rest) == Minified(front) + Minified(rest)
  {
    hide Kept, After, Minified, Comment;
    CommentVanishes(comment);
    KeptSplit(Outside, front, comment);
    MinifiedBehind(front + comment, rest);
    MinifiedBehind(front, comment);
    MinifiedByScan(comment);
    assert Minified(front) + [] == Minified(front);
  }

  /** A comment that the text ends in goes as well. */
  lemma OpenCommentsGo(front: CStr, body: CStr)
    requires After(Outside, front) == Outside
    ensures 10 !in body ==> Minified(front + ([47, 47] + body)) == Minified(front)
    ensures (forall i :: 0 <= i < |body| - 1 ==> !(body[i] == 42 && body[i+1] == 47)) ==>
            Minified(front + ([47, 42] + body)) == Minified(front)
  {
    hide Kept, After, Minified;
    assert Minified(front) + [] == Minified(front);
    if 10 !in body {
      InLine(body);
      OpenedKept([47, 47] + body, body);
      MinifiedBehind(front, [47, 47] + body);
      MinifiedByScan([47, 47] + body);
    }
    if forall i :: 0 <= i < |body| - 1 ==> !(body[i] == 42 && body[i+1] == 47) {
      InBlock(Block, body);
      OpenedKept([47, 42] + body, body);
      MinifiedBehind(front, [47, 42] + body);
      MinifiedByScan([47, 42] + body);
    }
  }

  lemma OpenedKept(t: CStr, body: CStr)
    requires t == [47, 47] + body || t == [47, 42] + body
    ensures Kept(Outside, t) == Kept(if t[1] == 47 then Line else Block, body)
  {
    hide Kept, After;
    KeptHead(Outside, t);
    KeptHead(Slash, t[1..]);
    assert t[1..][1..] == body;
  }

  // Tokens with white space and comments between them

  datatype Piece = Token(text: CStr) | Blank(text: CStr)

  /** A string with every quote inside behind a backslash, and none at its end. */
  predicate QuotedToken(t: CStr) {
    |t| > 1 && t[0] == 34 && t[|t|-1] == 34 && t[|t|-2] != 92 &&
    forall i :: 0 < i < |t| - 1 && t[i] == 34 ==> t[i-1] == 92
  }

  /** No white space, no quote and no slash. */
  predicate PlainToken(t: CStr) {
    forall i :: 0 <= i < |t| ==> t[i] != 9 && t[i] != 10 && t[i] != 13 && t[i] != 32 && t[i] != 34 && t[i] != 47
  }

  predicate IsPiece(p: Piece) {
    match p
    case Token(t) => QuotedToken(t) || PlainToken(t)
    case Blank(t) => t == [9] || t == [10] || t == [13] || t == [32] || Comment(t)
  }

  function Written(ps: seq<Piece>): CStr {
    if ps == [] then [] else ps[0].text + Written(ps[1..])
  }

  function Tokens(ps: seq<Piece>): CStr {
    if ps == [] then [] else (if ps[0].Token? then ps[0].text else []) + Tokens(ps[1..])
  }

  lemma {:induction false} PlainStays(t: CStr)
    requires PlainToken(t)
    ensures After(Outside, t) == Outside && Kept(Outside, t) == t
  {
    if t == [] {
      NothingKept(Outside);
    } else {
      hide Kept, After;
      KeptHead(Outside, t);
      PlainStays(t[1..]);
      assert t == [t[0]] + t[1..];
    }
  }

  lemma {:induction false} InString(m: Mode, t: CStr)
    requires m == Quoted || m == Escaped
    requires t != [] && t[|t|-1] == 34 && if |t| == 1 then m == Quoted else t[|t|-2] != 92
    requires t[0] == 34 && |t| > 1 ==> m == Escaped
    requires forall i :: 0 < i < |t| - 1 && t[i] == 34 ==> t[i-1] == 92
    ensures After(m, t) == Outside && Kept(m, t) == t
    decreases |t|
  {
    hide Kept, After;
    KeptHead(m, t);
    assert t == [t[0]] + t[1..];
    if |t| == 1 {
      NothingKept(Outside);
    } else {
      InString(Next(m, t[0]), t[1..]);
    }
  }

  lemma PieceStays(p: Piece)
    requires IsPiece(p)
    ensures After(Outside, p.text) == Outside && Kept(Outside, p.text) == if p.Token? then p.text else []
  {
    hide Kept, After, Comment, PlainToken;
    var t := p.text;
    if p.Token? {
      if PlainToken(t) {
        PlainStays(t);
      } else {
        KeptHead(Outside, t);
        assert t == [t[0]] + t[1..];
        InString(Quoted, t[1..]);
      }
    } else if Comment(t) {
      CommentVanishes(t);
    } else {
      KeptHead(Outside, t);
      NothingKept(Outside);
    }
  }

  /** Minifying leaves the tokens of a text, whatever white space and comments stand in front of, between
      and behind them. */
  lemma {:induction false} TokensStay(ps: seq<Piece>)
    requires forall i :: 0 <= i < |ps| ==> IsPiece(ps[i])
    ensures Minified(Written(ps)) == Tokens(ps)
  {
    hide Minified, Kept, After, IsPiece;
    if ps == [] {
      NothingToMinify(Written(ps));
    } else {
      PieceStays(ps[0]);
      MinifiedBehind(ps[0].text, Written(ps[1..]));
      MinifiedByScan(ps[0].text);
      TokensStay(ps[1..]);
    }
  }
}
