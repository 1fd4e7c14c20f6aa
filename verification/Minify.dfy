/** `cJSON_Minify`: white space, comments and stray slashes go, in place. */
module Minify {
  import opened Sequences
  import opened CStrings
  import opened Json
  import opened Rendering

  const STAR: Char8 := 42

  predicate IsSpace(c: Byte) {
    c == SPACE || c == TAB || c == 13 || c == NEWLINE
  }

  /** How much of a one-line comment there is, behind its slashes. */
  function LineLength(s: CStr): (n: nat)
    ensures n <= |s|
  {
    if s == [] then 0 else if s[0] == NEWLINE then 1 else 1 + LineLength(s[1..])
  }

  /** How much of a comment there is, behind its opening. */
  function CommentLength(s: CStr): (n: nat)
    ensures n <= |s|
  {
    if s == [] then 0 else if s[0] == STAR && CharAt(s, 1) == SLASH then 2 else 1 + CommentLength(s[1..])
  }

  /** How much of a string is copied, behind its opening quote. A quote behind a backslash never
      ends it, not even when the backslash is escaped itself. */
  function StringLength(s: CStr): (n: nat)
    ensures n <= |s|
  {
    if s == [] then 0
    else if s[0] == QUOTE then 1
    else if s[0] == BACKSLASH && CharAt(s, 1) == QUOTE then 2 + StringLength(s[2..])
    else 1 + StringLength(s[1..])
  }

  function Minified(s: CStr): (r: CStr)
    ensures |r| <= |s|
    decreases |s|
  {
    if s == [] then []
    else if IsSpace(s[0]) then Minified(s[1..])
    else if s[0] == SLASH then
      if CharAt(s, 1) == SLASH then Minified(s[2+LineLength(s[2..])..])
      else if CharAt(s, 1) == STAR then Minified(s[2+CommentLength(s[2..])..])
      else Minified(s[1..])
    else if s[0] == QUOTE then
      var n := 1 + StringLength(s[1..]);
      s[..n] + Minified(s[n..])
    else [s[0]] + Minified(s[1..])
  }

  /** A buffer that holds what is left of a text from a place on, up to the terminator. */
  ghost predicate Holds(a: array<Byte>, text: CStr, from: nat)
    reads a
  {
    from <= |text| < a.Length && (forall k :: from <= k < |text| ==> a[k] == text[k]) && a[|text|] == 0
  }

  /** `skip_oneline_comment`. */
  method SkipLine(a: array<Byte>, ghost text: CStr, start: nat) returns (json: nat)
    requires start + 2 <= |text| && Holds(a, text, start)
    ensures json == start + 2 + LineLength(text[start+2..])
  {
    json := start + 2;
    while a[json] != 0
      invariant start + 2 <= json <= |text|
      invariant json + LineLength(text[json..]) == start + 2 + LineLength(text[start+2..])
      decreases |text| - json
    {
      assert text[json..][1..] == text[json+1..];
      if a[json] == NEWLINE {
        return json + 1;
      }
      json := json + 1;
    }
  }

  /** `skip_multiline_comment`. */
  method SkipComment(a: array<Byte>, ghost text: CStr, start: nat) returns (json: nat)
    requires start + 2 <= |text| && Holds(a, text, start)
    ensures json == start + 2 + CommentLength(text[start+2..])
  {
    json := start + 2;
    while a[json] != 0
      invariant start + 2 <= json <= |text|
      invariant json + CommentLength(text[json..]) == start + 2 + CommentLength(text[start+2..])
      decreases |text| - json
    {
      assert text[json..][1..] == text[json+1..];
      if a[json] == STAR && a[json+1] == SLASH {
        return json + 2;
      }
      json := json + 1;
    }
  }

  /** One turn of the loop that copies a string. */
  method CopyTurn(a: array<Byte>, ghost text: CStr, json: nat, into: nat) returns (next: nat, to: nat, ended: bool)
    requires into <= json < |text| && Holds(a, text, json)
    modifies a
    ensures json < next <= |text| && to - into == next - json && Holds(a, text, next)
    ensures StringLength(text[json..]) == next - json + if ended then 0 else StringLength(text[next..])
    ensures forall k :: 0 <= k < into ==> a[k] == old(a[k])
    ensures forall k :: into <= k < to ==> a[k] == text[json-into+k]
  {
    hide StringLength;
    StringTurn(text, json);
    next, to, ended := json, into, false;
    a[to] := a[next];
    if a[next] == QUOTE {
      a[to] := QUOTE;
      return next + 1, to + 1, true;
    } else if a[next] == BACKSLASH && a[next+1] == QUOTE {
      a[to+1] := a[next+1];
      next, to := next + 1, to + 1;
    }
    next, to := next + 1, to + 1;
  }

  /** `minify_string`: the write position stays where it was relative to the read position. */
  method CopyString(a: array<Byte>, ghost text: CStr, start: nat, to: nat) returns (json: nat, into: nat)
    requires to <= start < |text| && Holds(a, text, start) && text[start] == QUOTE
    modifies a
    ensures json == start + 1 + StringLength(text[start+1..]) && into - to == json - start
    ensures into <= json && Holds(a, text, json)
    ensures forall k :: 0 <= k < to ==> a[k] == old(a[k])
    ensures forall k :: to <= k < into ==> a[k] == text[start-to+k]
  {
    hide StringLength;
    a[to] := a[start];
    json, into := start + 1, to + 1;
    while a[json] != 0
      invariant start + 1 <= json <= |text| && into - to == json - start && Holds(a, text, json)
      invariant json + StringLength(text[json..]) == start + 1 + StringLength(text[start+1..])
      invariant forall k :: 0 <= k < to ==> a[k] == old(a[k])
      invariant forall k :: to <= k < into ==> a[k] == text[start-to+k]
      decreases |text| - json
    {
      var ended;
      json, into, ended := CopyTurn(a, text, json, into);
      if ended {
        return;
      }
    }
    StringEnds(text, json);
  }

  lemma StringTurn(text: CStr, at: nat)
    requires at < |text|
    ensures StringLength(text[at..]) ==
            if text[at] == QUOTE then 1
            else if text[at] == BACKSLASH && CharAt(text, at + 1) == QUOTE then 2 + StringLength(text[at+2..])
            else 1 + StringLength(text[at+1..])
  {
    assert text[at..][1..] == text[at+1..];
    if at + 2 <= |text| {
      assert text[at..][2..] == text[at+2..];
    }
  }

  lemma StringEnds(text: CStr, at: nat)
    requires at == |text|
    ensures StringLength(text[at..]) == 0
  {
  }

  /** What is copied next, and how far the text is read for it. */
  function Turn(s: CStr): (r: (CStr, nat))
    requires s != []
    ensures 0 < r.1 <= |s|
  {
    if IsSpace(s[0]) then ([], 1)
    else if s[0] == SLASH then
      if CharAt(s, 1) == SLASH then ([], 2 + LineLength(s[2..]))
      else if CharAt(s, 1) == STAR then ([], 2 + CommentLength(s[2..]))
      else ([], 1)
    else if s[0] == QUOTE then (s[..1+StringLength(s[1..])], 1 + StringLength(s[1..]))
    else ([s[0]], 1)
  }

  lemma OneTurn(s: CStr)
    requires s != []
    ensures Minified(s) == Turn(s).0 + Minified(s[Turn(s).1..])
  {
    hide StringLength, LineLength, CommentLength;
    var rest := Minified(s[Turn(s).1..]);
    assert [] + rest == rest;
  }

  lemma NothingToMinify(s: CStr)
    requires s == []
    ensures Minified(s) == []
  {
  }

  /** One turn of the loop. */
  method TakeTurn(a: array<Byte>, ghost text: CStr, start: nat, to: nat) returns (json: nat, into: nat)
    requires to <= start < |text| && Holds(a, text, start)
    modifies a
    ensures Holds(a, text, json) && into <= json && start < json
    ensures var (copied, length) := Turn(text[start..]);
            json == start + length && into == to + |copied| &&
            forall k :: to <= k < into ==> a[k] == copied[k-to]
    ensures forall k :: 0 <= k < to ==> a[k] == old(a[k])
  {
    hide StringLength, LineLength, CommentLength;
    ghost var s := text[start..];
    assert s[1..] == text[start+1..];
    into := to;
    if IsSpace(a[start]) {
      json := start + 1;
    } else if a[start] == SLASH {
      if a[start+1] == SLASH {
        assert s[2..] == text[start+2..];
        json := SkipLine(a, text, start);
      } else if a[start+1] == STAR {
        assert s[2..] == text[start+2..];
        json := SkipComment(a, text, start);
      } else {
        json := start + 1;
      }
    } else if a[start] == QUOTE {
      json, into := CopyString(a, text, start, to);
    } else {
      a[into] := a[start];
      json, into := start + 1, to + 1;
    }
  }

  /** `cJSON_Minify`. The write position never passes the read position. */
  method MinifyBuffer(a: array<Byte>, ghost text: CStr)
    requires Holds(a, text, 0)
    modifies a
    ensures var m := Minified(text); |m| < a.Length && a[..|m|] == m && a[|m|] == 0
  {
    hide Minified, Turn;
    var json, into := 0, 0;
    ghost var out: CStr := [];
    assert text[0..] == text && [] + Minified(text) == Minified(text);
    while a[json] != 0
      invariant into <= json && Holds(a, text, json)
      invariant |out| == into && forall k :: 0 <= k < into ==> a[k] == out[k]
      invariant out + Minified(text[json..]) == Minified(text)
      decreases |text| - json
    {
      ghost var copied, rest := Turn(text[json..]).0, text[json..][Turn(text[json..]).1..];
      OneTurn(text[json..]);
      Regroup(out, copied, Minified(rest));
      ghost var start := json;
      json, into := TakeTurn(a, text, json, into);
      assert rest == text[json..];
      out := out + copied;
    }
    NothingToMinify(text[json..]);
    assert out + [] == out;
    a[into] := 0;
  }

  // Idempotence

  /** The string ends with a quote. */
  predicate Closed(s: CStr) {
    s != [] &&
    (s[0] == QUOTE || if s[0] == BACKSLASH && CharAt(s, 1) == QUOTE then Closed(s[2..]) else Closed(s[1..]))
  }

  /** How far the scan of a string goes in one step, when it goes on. */
  function StringStep(s: CStr): (n: nat)
    requires s != []
    ensures n <= |s|
  {
    if s[0] == BACKSLASH && CharAt(s, 1) == QUOTE then 2 else 1
  }

  lemma StringOn(s: CStr)
    requires s != [] && s[0] != QUOTE
    ensures StringLength(s) == StringStep(s) + StringLength(s[StringStep(s)..])
    ensures Closed(s) <==> Closed(s[StringStep(s)..])
  {
  }

  lemma ClosedNotEmpty(s: CStr)
    requires Closed(s)
    ensures StringLength(s) > 0
  {
  }

  /** A closed string ends at the same place whatever comes behind it; another one takes the rest of the text. */
  lemma {:induction false} StringStops(s: CStr, rest: CStr)
    ensures var n := StringLength(s);
            if Closed(s) then StringLength(s[..n] + rest) == n else n == |s|
    decreases |s|
  {
    if s != [] && s[0] != QUOTE {
      hide StringLength, Closed;
      var n, k := StringLength(s), StringStep(s);
      StringOn(s);
      StringStops(s[k..], rest);
      if Closed(s) {
        ClosedNotEmpty(s[k..]);
        var u := s[..n] + rest;
        assert u[k..] == s[k..][..n-k] + rest;
        assert u[0] == s[0] && u[1] == s[1];
        StringOn(u);
      }
    }
  }

  /** On every text, minifying again changes nothing. */
  lemma {:induction false} MinifyIdempotent(s: CStr)
    ensures Minified(Minified(s)) == Minified(s)
    decreases |s|
  {
    hide StringLength, LineLength, CommentLength, Closed, Minified;
    if s == [] {
      NothingToMinify(s);
    } else {
      var (copied, length) := Turn(s);
      var rest := s[length..];
      OneTurn(s);
      MinifyIdempotent(rest);
      if copied == [] {
        assert [] + Minified(rest) == Minified(rest);
      } else if s[0] == QUOTE {
        CopiedString(s, Minified(rest));
      } else {
        CopiedByte(s[0], Minified(rest));
      }
    }
  }

  lemma CopiedByte(c: Char8, m: CStr)
    requires !IsSpace(c) && c != SLASH && c != QUOTE
    ensures Minified([c] + m) == [c] + Minified(m)
  {
    assert ([c] + m)[1..] == m;
  }

  lemma CopiedString(s: CStr, m: CStr)
    requires s != [] && s[0] == QUOTE && m == Minified(s[1+StringLength(s[1..])..]) && Minified(m) == m
    ensures var n := 1 + StringLength(s[1..]); Minified(s[..n] + m) == s[..n] + m
  {
    hide StringLength, Closed, Minified;
    var n := 1 + StringLength(s[1..]);
    StringStops(s[1..], m);
    if Closed(s[1..]) {
      assert (s[..n] + m)[1..] == s[1..][..n-1] + m;
      StringMinified(s[..n], m);
    } else {
      assert s[n..] == [] && s[..n] == s;
      NothingToMinify(s[n..]);
      OneTurn(s);
      assert s + m == s;
    }
  }

  lemma StringMinified(t: CStr, rest: CStr)
    requires t != [] && t[0] == QUOTE && StringLength((t + rest)[1..]) == |t| - 1
    ensures Minified(t + rest) == t + Minified(rest)
  {
    hide StringLength, Minified;
    OneTurn(t + rest);
    assert (t + rest)[..|t|] == t && (t + rest)[|t|..] == rest;
  }

  // Minifying what the printer wrote

  /** In front of any text, the one becomes the other. */
  ghost predicate Becomes(p: CStr, q: CStr) {
    forall rest: CStr :: Minified(p + rest) == q + Minified(rest)
  }

  lemma BecomesBoth(p1: CStr, q1: CStr, p2: CStr, q2: CStr)
    requires Becomes(p1, q1) && Becomes(p2, q2)
    ensures Becomes(p1 + p2, q1 + q2)
  {
    hide Minified;
    forall rest: CStr ensures Minified(p1 + p2 + rest) == q1 + q2 + Minified(rest) {
      Regroup(p1, p2, rest);
      Regroup(q1, q2, Minified(rest));
      assert Minified(p1 + (p2 + rest)) == q1 + Minified(p2 + rest);
    }
  }

  lemma {:induction false} OrdinaryBecomes(t: CStr)
    requires forall i :: 0 <= i < |t| ==> !IsSpace(t[i]) && t[i] != SLASH && t[i] != QUOTE
    ensures Becomes(t, t)
  {
    if t == [] {
      NothingBecomes(t, t);
    } else {
      OrdinaryBecomes(t[1..]);
      forall rest: CStr ensures Minified([t[0]] + rest) == [t[0]] + Minified(rest) {
        CopiedByte(t[0], rest);
      }
      BecomesBoth([t[0]], [t[0]], t[1..], t[1..]);
      assert [t[0]] + t[1..] == t;
    }
  }

  lemma NothingBecomes(p: CStr, q: CStr)
    requires p == [] && q == []
    ensures Becomes(p, q)
  {
    hide Minified;
    forall rest: CStr ensures Minified(p + rest) == q + Minified(rest) {
      assert p + rest == rest && q + Minified(rest) == Minified(rest);
    }
  }

  lemma {:induction false} BlankBecomes(t: CStr, none: CStr)
    requires none == [] && forall i :: 0 <= i < |t| ==> IsSpace(t[i])
    ensures Becomes(t, none)
  {
    if t == [] {
      NothingBecomes(t, none);
    } else {
      BlankBecomes(t[1..], none);
      forall rest: CStr ensures Minified([t[0]] + rest) == none + Minified(rest) {
        assert ([t[0]] + rest)[1..] == rest && none + Minified(rest) == Minified(rest);
      }
      BecomesBoth([t[0]], none, t[1..], none);
      assert [t[0]] + t[1..] == t && none + none == none;
    }
  }

  /** A byte of a string is copied as it was escaped, unless it is a backslash in front of the closing quote. */
  lemma EscapeLength(x: Char8, t: CStr)
    requires t != [] && (x == BACKSLASH ==> t[0] != QUOTE)
    ensures StringLength(Escape(x) + t) == |Escape(x)| + StringLength(t)
  {
    var u := Escape(x) + t;
    if |Escape(x)| == 1 {
      assert u[1..] == t;
    } else if |Escape(x)| == 2 {
      assert u[1..][1..] == t && u[2..] == t;
    } else {
      ControlLength(x, t);
    }
  }

  lemma ControlLength(x: Char8, t: CStr)
    requires |Escape(x)| == 6
    ensures StringLength(Escape(x) + t) == 6 + StringLength(t)
  {
    var u := Escape(x) + t;
    PlainLength(u);
    PlainLength(u[1..]);
    PlainLength(u[1..][1..]);
    assert u[1..][1..][1..] == u[3..] && u[3..][1..][1..][1..] == t;
    PlainLength(u[3..]);
    PlainLength(u[3..][1..]);
    PlainLength(u[3..][1..][1..]);
  }

  lemma PlainLength(u: CStr)
    requires u != [] && u[0] != QUOTE && (u[0] == BACKSLASH ==> CharAt(u, 1) != QUOTE)
    ensures StringLength(u) == 1 + StringLength(u[1..])
  {
  }

  predicate EndsTame(s: CStr) {
    s == [] || s[|s|-1] != BACKSLASH
  }

  lemma {:induction false} EscapedLength(s: CStr, rest: CStr)
    requires EndsTame(s)
    ensures StringLength(EscapeAll(s) + ([QUOTE] + rest)) == |EscapeAll(s)| + 1
  {
    hide StringLength;
    if s == [] {
      assert EscapeAll(s) + ([QUOTE] + rest) == [QUOTE] + rest;
      QuoteLength([QUOTE] + rest);
    } else {
      var t := EscapeAll(s[1..]) + ([QUOTE] + rest);
      EscapedLength(s[1..], rest);
      if s[0] == BACKSLASH {
        assert s[1..] != [] && t[0] == Escape(s[1])[0];
      }
      EscapeLength(s[0], t);
      Regroup(Escape(s[0]), EscapeAll(s[1..]), [QUOTE] + rest);
    }
  }

  lemma QuoteLength(u: CStr)
    requires u != [] && u[0] == QUOTE
    ensures StringLength(u) == 1
  {
  }

  lemma StringBecomes(s: CStr)
    requires EndsTame(s)
    ensures Becomes(RenderString(s), RenderString(s))
  {
    hide StringLength, EscapeAll;
    var r, inner := RenderString(s), EscapeAll(s);
    forall rest: CStr ensures Minified(r + rest) == r + Minified(rest) {
      EscapedLength(s, rest);
      assert (r + rest)[1..] == inner + ([QUOTE] + rest);
      StringMinified(r, rest);
    }
  }

  /** In front of any text, the one becomes the other and leaves a string open: what follows is copied
      up to the quote that is taken to end the string. */
  ghost predicate Opens(p: CStr, q: CStr) {
    forall rest: CStr :: Minified(p + rest) == q + rest[..StringLength(rest)] + Minified(rest[StringLength(rest)..])
  }

  /** Whatever follows, the one does not become a text that starts with the other. */
  ghost predicate Differs(p: CStr, q: CStr) {
    exists k: nat :: k < |q| && DiffersAt(p, q[k], k)
  }

  ghost predicate DiffersAt(p: CStr, c: Char8, k: nat) {
    forall rest: CStr :: k < |Minified(p + rest)| && Minified(p + rest)[k] != c
  }

  /** The three things that can happen. */
  ghost predicate Comes(p: CStr, q: CStr, tame: bool, kept: bool) {
    if tame then Becomes(p, q) else if kept then Opens(p, q) else Differs(p, q)
  }

  lemma {:induction false} EscapedOpen(s: CStr, rest: CStr)
    requires !EndsTame(s)
    ensures StringLength(EscapeAll(s) + ([QUOTE] + rest)) == |EscapeAll(s)| + 1 + StringLength(rest)
  {
    hide StringLength, EscapeAll;
    EscapeFirst(s);
    if |s| == 1 {
      LastBackslash(rest);
      assert EscapeAll(s) + ([QUOTE] + rest) == [BACKSLASH, BACKSLASH, QUOTE] + rest;
    } else {
      var t := EscapeAll(s[1..]) + ([QUOTE] + rest);
      EscapedOpen(s[1..], rest);
      EscapeFirst(s[1..]);
      EscapeLength(s[0], t);
      Regroup(Escape(s[0]), EscapeAll(s[1..]), [QUOTE] + rest);
    }
  }

  lemma EscapeFirst(s: CStr)
    requires s != []
    ensures EscapeAll(s) == Escape(s[0]) + EscapeAll(s[1..]) && EscapeAll(s) != [] && EscapeAll(s)[0] != QUOTE
    ensures |s| == 1 ==> EscapeAll(s) == Escape(s[0])
  {
  }

  lemma LastBackslash(rest: CStr)
    ensures StringLength([BACKSLASH, BACKSLASH, QUOTE] + rest) == 3 + StringLength(rest)
  {
    hide StringLength;
    var u := [BACKSLASH, BACKSLASH, QUOTE] + rest;
    PlainLength(u);
    assert u[1..] == [BACKSLASH, QUOTE] + rest && u[1..][2..] == rest;
    SkippedQuote(u[1..]);
  }

  lemma SkippedQuote(u: CStr)
    requires |u| > 1 && u[0] == BACKSLASH && u[1] == QUOTE
    ensures StringLength(u) == 2 + StringLength(u[2..])
  {
  }

  lemma StringOpens(s: CStr)
    requires !EndsTame(s)
    ensures Opens(RenderString(s), RenderString(s))
  {
    hide StringLength, EscapeAll, EndsTame, Minified;
    var r, inner := RenderString(s), EscapeAll(s);
    forall rest: CStr ensures Minified(r + rest) == r + rest[..StringLength(rest)] + Minified(rest[StringLength(rest)..]) {
      var n := StringLength(rest);
      EscapedOpen(s, rest);
      var t := r + rest[..n];
      assert t + rest[n..] == r + rest && (t + rest[n..])[1..] == inner + ([QUOTE] + rest);
      StringMinified(t, rest[n..]);
    }
  }

  lemma StringComes(s: CStr)
    ensures Comes(RenderString(s), RenderString(s), EndsTame(s), true)
  {
    hide Becomes, Opens, RenderString;
    if EndsTame(s) {
      StringBecomes(s);
    } else {
      StringOpens(s);
    }
  }

  lemma DiffersOn(p1: CStr, q1: CStr, p2: CStr, q2: CStr)
    requires Differs(p1, q1)
    ensures Differs(p1 + p2, q1 + q2)
  {
    hide Minified;
    var k: nat :| k < |q1| && DiffersAt(p1, q1[k], k);
    forall rest: CStr ensures k < |Minified(p1 + p2 + rest)| && Minified(p1 + p2 + rest)[k] != q1[k] {
      Regroup(p1, p2, rest);
      assert k < |Minified(p1 + (p2 + rest))|;
    }
    assert DiffersAt(p1 + p2, (q1 + q2)[k], k);
  }

  /** What the second part does, behind a first part that is done. */
  lemma ComesBehind(p1: CStr, q1: CStr, p2: CStr, q2: CStr, tame: bool, kept: bool)
    requires Becomes(p1, q1) && Comes(p2, q2, tame, kept)
    ensures Comes(p1 + p2, q1 + q2, tame, kept)
  {
    hide Becomes, Opens, Differs;
    if tame {
      BecomesBoth(p1, q1, p2, q2);
    } else if kept {
      OpensBehind(p1, q1, p2, q2);
    } else {
      DiffersBehind(p1, q1, p2, q2);
    }
  }

  lemma OpensBehind(p1: CStr, q1: CStr, p2: CStr, q2: CStr)
    requires Becomes(p1, q1) && Opens(p2, q2)
    ensures Opens(p1 + p2, q1 + q2)
  {
    hide Minified, StringLength;
    forall rest: CStr
      ensures Minified(p1 + p2 + rest) == q1 + q2 + rest[..StringLength(rest)] + Minified(rest[StringLength(rest)..])
    {
      Regroup(p1, p2, rest);
      assert Minified(p1 + (p2 + rest)) == q1 + Minified(p2 + rest);
      RegroupFour(q1, q2, rest[..StringLength(rest)], Minified(rest[StringLength(rest)..]));
    }
  }

  lemma DiffersBehind(p1: CStr, q1: CStr, p2: CStr, q2: CStr)
    requires Becomes(p1, q1) && Differs(p2, q2)
    ensures Differs(p1 + p2, q1 + q2)
  {
    hide Minified;
    var k: nat :| k < |q2| && DiffersAt(p2, q2[k], k);
    var n := |q1| + k;
    forall rest: CStr ensures n < |Minified(p1 + p2 + rest)| && Minified(p1 + p2 + rest)[n] != q2[k] {
      Regroup(p1, p2, rest);
      assert Minified(p1 + (p2 + rest)) == q1 + Minified(p2 + rest);
      assert k < |Minified(p2 + rest)|;
    }
    assert (q1 + q2)[n] == q2[k] && DiffersAt(p1 + p2, (q1 + q2)[n], n);
  }

  /** An open string swallows an ordinary byte, and stays open. */
  lemma OpensOn(p: CStr, q: CStr, c: Char8)
    requires Opens(p, q) && c != QUOTE && c != BACKSLASH
    ensures Opens(p + [c], q + [c])
  {
    hide Minified, StringLength;
    forall rest: CStr
      ensures Minified(p + [c] + rest) == q + [c] + rest[..StringLength(rest)] + Minified(rest[StringLength(rest)..])
    {
      var n, u := StringLength(rest), [c] + rest;
      Regroup(p, [c], rest);
      assert u[1..] == rest;
      PlainLength(u);
      assert Minified(p + u) == q + u[..StringLength(u)] + Minified(u[StringLength(u)..]);
      assert u[..1+n] == [c] + rest[..n] && u[1+n..] == rest[n..];
      Regroup(q, [c], rest[..n]);
    }
  }

  /** White space behind an open string stays. */
  lemma OpenSpoilt(p1: CStr, q1: CStr, front: CStr, w: Char8, p2: CStr, q2: CStr)
    requires Opens(p1, q1) && q2 != [] && w != q2[0]
    requires forall i :: 0 <= i < |front| ==> front[i] != QUOTE && front[i] != BACKSLASH
    ensures Differs(p1 + (front + [w]) + p2, q1 + front + q2)
  {
    hide Minified, StringLength;
    var p, q, k := p1 + (front + [w]) + p2, q1 + front + q2, |q1| + |front|;
    forall rest: CStr ensures k < |Minified(p + rest)| && Minified(p + rest)[k] != q2[0] {
      var x := front + ([w] + (p2 + rest));
      assert p + rest == p1 + x;
      ScansPast(front, [w] + (p2 + rest));
      assert x[|front|] == w;
      assert Minified(p1 + x) == q1 + x[..StringLength(x)] + Minified(x[StringLength(x)..]);
    }
    assert q[k] == q2[0] && DiffersAt(p, q[k], k);
  }

  lemma {:induction false} ScansPast(front: CStr, rest: CStr)
    requires rest != [] && forall i :: 0 <= i < |front| ==> front[i] != QUOTE && front[i] != BACKSLASH
    ensures StringLength(front + rest) > |front|
  {
    if front == [] {
      assert front + rest == rest;
    } else {
      assert (front + rest)[1..] == front[1..] + rest;
      ScansPast(front[1..], rest);
    }
  }

  /** Two parts with an ordinary byte and white space between them, of which only the byte should stay. */
  lemma ComesSpaced(p1: CStr, q1: CStr, tame: bool, kept: bool, front: CStr, w: Char8, p2: CStr, q2: CStr, tame2: bool, kept2: bool)
    requires Comes(p1, q1, tame, kept) && Comes(p2, q2, tame2, kept2) && q2 != [] && w != q2[0]
    requires IsSpace(w) && (front == [] || front == [COMMA] || front == [COLON])
    ensures Comes(p1 + (front + [w]) + p2, q1 + front + q2, tame && tame2, tame && kept2)
  {
    hide Becomes, Opens, Differs, IsSpace;
    if tame {
      FrontBecomes(front, w);
      BecomesBoth(p1, q1, front + [w], front);
      ComesBehind(p1 + (front + [w]), q1 + front, p2, q2, tame2, kept2);
    } else if kept {
      OpenSpoilt(p1, q1, front, w, p2, q2);
    } else {
      DiffersOn(p1, q1, front + [w], front);
      DiffersOn(p1 + (front + [w]), q1 + front, p2, q2);
    }
  }

  lemma FrontBecomes(front: CStr, w: Char8)
    requires IsSpace(w) && (front == [] || front == [COMMA] || front == [COLON])
    ensures Becomes(front + [w], front)
  {
    hide Becomes;
    OrdinaryBecomes(front);
    BlankBecomes([w], []);
    BecomesBoth(front, front, [w], []);
    assert front + [] == front;
  }

  /** No key or string ends in a backslash. */
  ghost predicate Tame(j: Json) {
    match j
    case Text(s) => EndsTame(s)
    case Array(es) => forall i :: 0 <= i < |es| ==> Tame(es[i])
    case Object(ms) => forall i :: 0 <= i < |ms| ==> EndsTame(ms[i].key) && Tame(ms[i].item)
    case _ => true
  }

  ghost predicate AllTame(es: seq<Json>) {
    forall i :: 0 <= i < |es| ==> Tame(es[i])
  }

  ghost predicate AllTameMembers(ms: Members) {
    forall i :: 0 <= i < |ms| ==> EndsTame(ms[i].key) && Tame(ms[i].item)
  }

  /** No white space follows a string that ends in a backslash: the only such string is the document,
      or the last element of an array that is the document, or the last element of such an array, and so on. */
  ghost predicate KeepsText(j: Json) {
    match j
    case Text(_) => true
    case Array(es) => LastKeepsText(es)
    case _ => Tame(j)
  }

  ghost predicate LastKeepsText(es: seq<Json>) {
    es != [] ==> KeepsText(es[|es|-1]) && forall i :: 0 <= i < |es| - 1 ==> Tame(es[i])
  }

  /** An ordinary byte with white space around it. */
  lemma SpacedBecomes(before: CStr, c: Char8, after: CStr)
    requires !IsSpace(c) && c != SLASH && c != QUOTE
    requires (forall i :: 0 <= i < |before| ==> IsSpace(before[i])) && (forall i :: 0 <= i < |after| ==> IsSpace(after[i]))
    ensures Becomes(before + [c] + after, [c])
  {
    hide Becomes;
    OrdinaryBecomes([c]);
    BlankBecomes(before, []);
    BlankBecomes(after, []);
    BecomesBoth(before, [], [c], [c]);
    BecomesBoth(before + [c], [] + [c], after, []);
    assert [] + [c] + [] == [c];
  }

  lemma BracesBecome(d: nat, e: nat)
    ensures Becomes(OpenObject(true), OpenObject(false)) && Becomes(CloseObject(true, d), CloseObject(false, e))
  {
    hide Becomes;
    SpacedBecomes([], OPEN_BRACE, [NEWLINE]);
    assert [] + [OPEN_BRACE] + [NEWLINE] == OpenObject(true);
    SpacedBecomes(Tabs(d), CLOSE_BRACE, []);
    assert Tabs(d) + [CLOSE_BRACE] + [] == CloseObject(true, d);
    assert CloseObject(false, e) == [CLOSE_BRACE];
  }

  /** No value starts with white space. */
  lemma FirstByte(j: Json, d: nat)
    requires Plain(j)
    ensures var t := Render(j, false, d); t != [] && !IsSpace(t[0])
  {
    hide EscapeAll, RenderElements, RenderMembers;
  }

  /** What minifying makes of the formatted text of a value, in front of whatever follows. */
  lemma {:induction false} ValueComes(j: Json, d: nat, e: nat)
    requires Plain(j)
    ensures Comes(Render(j, true, d), Render(j, false, e), Tame(j), KeepsText(j))
    decreases j, 0
  {
    hide Becomes, Opens, Differs, RenderElements, RenderMembers, RenderString, EndsTame;
    match j
    case Text(s) => StringComes(s);
    case Array(es) => ArrayComes(es, d, e);
    case Object(ms) => ObjectComes(ms, d, e);
    case _ => OrdinaryBecomes(Render(j, true, d));
  }

  lemma {:induction false} ArrayComes(es: seq<Json>, d: nat, e: nat)
    requires forall i :: 0 <= i < |es| ==> Plain(es[i])
    ensures Comes(Render(Array(es), true, d), Render(Array(es), false, e), AllTame(es), LastKeepsText(es))
    decreases es, 1
  {
    hide Becomes, Opens, Differs, RenderElements, AllTame, LastKeepsText, Comes;
    ElementsCome(es, d + 1, e + 1);
    OrdinaryBecomes([OPEN_BRACKET]);
    var p, q := RenderElements(es, true, d + 1), RenderElements(es, false, e + 1);
    ComesBehind([OPEN_BRACKET], [OPEN_BRACKET], p, q, AllTame(es), LastKeepsText(es));
    BracketComes([OPEN_BRACKET] + p, [OPEN_BRACKET] + q, AllTame(es), LastKeepsText(es));
  }

  lemma BracketComes(p: CStr, q: CStr, tame: bool, kept: bool)
    requires Comes(p, q, tame, kept)
    ensures Comes(p + [CLOSE_BRACKET], q + [CLOSE_BRACKET], tame, kept)
  {
    hide Becomes, Opens, Differs;
    if tame {
      OrdinaryBecomes([CLOSE_BRACKET]);
      BecomesBoth(p, q, [CLOSE_BRACKET], [CLOSE_BRACKET]);
    } else if kept {
      OpensOn(p, q, CLOSE_BRACKET);
    } else {
      DiffersOn(p, q, [CLOSE_BRACKET], [CLOSE_BRACKET]);
    }
  }

  lemma {:induction false} ElementsCome(es: seq<Json>, d: nat, e: nat)
    requires forall i :: 0 <= i < |es| ==> Plain(es[i])
    ensures Comes(RenderElements(es, true, d), RenderElements(es, false, e), AllTame(es), LastKeepsText(es))
    decreases es, 0
  {
    hide Becomes, Opens, Differs, Render, Tame, Plain, KeepsText, IsSpace;
    if es == [] {
      NothingBecomes(RenderElements(es, true, d), RenderElements(es, false, e));
    } else {
      ValueComes(es[0], d, e);
      var x, y := Render(es[0], true, d), Render(es[0], false, e);
      if |es| == 1 {
        OneElement(es, true, d);
        OneElement(es, false, e);
      } else {
        hide Comes;
        ElementsCome(es[1..], d, e);
        TameHead(es);
        var p, q := RenderElements(es[1..], true, d), RenderElements(es[1..], false, e);
        FirstElementByte(es[1..], e);
        Spaces();
        ComesSpaced(x, y, Tame(es[0]), KeepsText(es[0]), [COMMA], SPACE, p, q, AllTame(es[1..]), LastKeepsText(es[1..]));
        assert [COMMA] + [SPACE] == Separator(true);
      }
    }
  }

  lemma OneElement(es: seq<Json>, format: bool, d: nat)
    requires |es| == 1
    ensures RenderElements(es, format, d) == Render(es[0], format, d)
  {
    hide Render;
    assert es[1..] == [] && RenderElements([], format, d) == [];
  }

  lemma TameHead(es: seq<Json>)
    requires |es| > 1
    ensures AllTame(es) <==> Tame(es[0]) && AllTame(es[1..])
    ensures LastKeepsText(es) <==> Tame(es[0]) && LastKeepsText(es[1..])
  {
    hide Tame, KeepsText;
    assert forall i :: 0 < i < |es| ==> es[i] == es[1..][i-1];
    assert es[|es|-1] == es[1..][|es|-2];
  }

  lemma FirstElementByte(es: seq<Json>, d: nat)
    requires es != [] && Plain(es[0])
    ensures var t := RenderElements(es, false, d); t != [] && !IsSpace(t[0])
  {
    hide Plain, Render, IsSpace;
    FirstByte(es[0], d);
  }

  lemma {:induction false} ObjectComes(ms: Members, d: nat, e: nat)
    requires forall i :: 0 <= i < |ms| ==> Plain(ms[i].item)
    ensures Comes(Render(Object(ms), true, d), Render(Object(ms), false, e), AllTameMembers(ms), false)
    decreases ms, 1
  {
    hide Becomes, Opens, Differs, RenderMembers, AllTameMembers, Comes, OpenObject, CloseObject;
    MembersCome(ms, d + 1, e + 1, d, e);
    BracesBecome(d, e);
    var p, q := RenderMembers(ms, true, d + 1), RenderMembers(ms, false, e + 1);
    ComesBehind(OpenObject(true), OpenObject(false), p + CloseObject(true, d), q + CloseObject(false, e),
                AllTameMembers(ms), false);
    Regroup(OpenObject(true), p, CloseObject(true, d));
    Regroup(OpenObject(false), q, CloseObject(false, e));
  }

  /** Members and the brace behind them. */
  lemma {:induction false} MembersCome(ms: Members, d: nat, e: nat, d0: nat, e0: nat)
    requires forall i :: 0 <= i < |ms| ==> Plain(ms[i].item)
    ensures Comes(RenderMembers(ms, true, d) + CloseObject(true, d0), RenderMembers(ms, false, e) + CloseObject(false, e0),
                  AllTameMembers(ms), false)
    decreases ms, 0
  {
    hide Becomes, Opens, Differs, Render, Tame, Plain, KeepsText, IsSpace, MemberHead, MemberEnd, CloseObject, RenderString;
    if ms == [] {
      BracesBecome(d0, e0);
      assert [] + CloseObject(true, d0) == CloseObject(true, d0) && [] + CloseObject(false, e0) == CloseObject(false, e0);
    } else {
      hide Comes, AllTameMembers;
      var m, front: CStr := ms[0], if |ms| == 1 then [] else [COMMA];
      var p, q := RenderMembers(ms[1..], true, d) + CloseObject(true, d0), RenderMembers(ms[1..], false, e) + CloseObject(false, e0);
      var x, y := Render(m.item, true, d), Render(m.item, false, e);
      ValueComes(m.item, d, e);
      MembersCome(ms[1..], d, e, d0, e0);
      BehindMember(ms[1..], e, e0);
      Spaces();
      ComesSpaced(x, y, Tame(m.item), KeepsText(m.item), front, NEWLINE, p, q, AllTameMembers(ms[1..]), false);
      p, q := x + (front + [NEWLINE]) + p, y + front + q;
      FirstByte(m.item, e);
      assert q[0] == y[0];
      NameComes(m.key, d);
      ComesSpaced(Tabs(d) + RenderString(m.key), RenderString(m.key), EndsTame(m.key), true,
                  [COLON], TAB, p, q, Tame(m.item) && AllTameMembers(ms[1..]), false);
      MembersText(ms, true, d, d0);
      MembersText(ms, false, e, e0);
      TameFirst(ms);
    }
  }

  lemma Spaces()
    ensures IsSpace(SPACE) && IsSpace(TAB) && IsSpace(NEWLINE) && !IsSpace(QUOTE) && !IsSpace(CLOSE_BRACE)
  {
  }

  lemma NameComes(key: CStr, d: nat)
    ensures Comes(Tabs(d) + RenderString(key), RenderString(key), EndsTame(key), true)
  {
    hide Comes, RenderString, Becomes;
    var r := RenderString(key);
    BlankBecomes(Tabs(d), []);
    StringComes(key);
    ComesBehind(Tabs(d), [], r, r, EndsTame(key), true);
    assert [] + r == r;
  }

  /** Behind a member comes the quote of a key, or the closing brace. */
  lemma BehindMember(ms: Members, d: nat, d0: nat)
    ensures var t := RenderMembers(ms, false, d) + CloseObject(false, d0);
            t != [] && t[0] == if ms == [] then CLOSE_BRACE else QUOTE
  {
    hide Render, EscapeAll;
  }

  lemma MembersText(ms: Members, format: bool, d: nat, d0: nat)
    requires ms != []
    ensures var m, front: CStr := ms[0], if |ms| == 1 then [] else [COMMA];
            var rest := RenderMembers(ms[1..], format, d) + CloseObject(format, d0);
            RenderMembers(ms, format, d) + CloseObject(format, d0) ==
            if format then
              Tabs(d) + RenderString(m.key) + ([COLON] + [TAB]) + (Render(m.item, true, d) + (front + [NEWLINE]) + rest)
            else RenderString(m.key) + [COLON] + (Render(m.item, false, d) + front + rest)
  {
    hide Render, RenderString, CloseObject, Tabs;
    var m, last := ms[0], |ms| == 1;
    RenderMembersHead(ms, format, d);
    hide RenderMembers;
    var front: CStr := if last then [] else [COMMA];
    assert MemberEnd(last, true) == front + [NEWLINE] && MemberEnd(last, false) == front;
    assert MemberHead(m.key, true, d) == Tabs(d) + RenderString(m.key) + ([COLON] + [TAB]);
    assert MemberHead(m.key, false, d) == RenderString(m.key) + [COLON];
    FiveParts(MemberHead(m.key, format, d), Render(m.item, format, d), MemberEnd(last, format),
              RenderMembers(ms[1..], format, d), CloseObject(format, d0));
  }

  lemma RenderMembersHead(ms: Members, format: bool, d: nat)
    requires ms != []
    ensures RenderMembers(ms, format, d) ==
            MemberHead(ms[0].key, format, d) + Render(ms[0].item, format, d) + MemberEnd(|ms| == 1, format) +
            RenderMembers(ms[1..], format, d)
  {
    hide Render;
  }

  lemma FiveParts(a: CStr, b: CStr, c: CStr, d: CStr, e: CStr)
    ensures a + b + c + d + e == a + (b + c + (d + e))
  {
  }

  lemma TameFirst(ms: Members)
    requires ms != []
    ensures AllTameMembers(ms) <==> EndsTame(ms[0].key) && Tame(ms[0].item) && AllTameMembers(ms[1..])
  {
    hide Tame, EndsTame;
    assert forall i :: 0 < i < |ms| ==> ms[i] == ms[1..][i-1];
  }

  /** Minifying the formatted text gives the unformatted one exactly when no white space follows a key
      or string that ends in a backslash. */
  lemma MinifyRendered(j: Json)
    requires Plain(j)
    ensures Minified(Render(j, true, 0)) == Render(j, false, 0) <==> KeepsText(j)
  {
    hide Render, Minified, StringLength, Tame, KeepsText;
    var p, q := Render(j, true, 0), Render(j, false, 0);
    ValueComes(j, 0, 0);
    TameKeepsText(j);
    assert p + [] == p;
    NothingToMinify([]);
    if Tame(j) {
      assert Minified(p + []) == q + Minified([]);
    } else if KeepsText(j) {
      var none: CStr := [];
      assert Minified(p + none) == q + none[..StringLength(none)] + Minified(none[StringLength(none)..]);
    } else {
      var k: nat :| k < |q| && DiffersAt(p, q[k], k);
      assert k < |Minified(p + [])|;
    }
  }

  lemma {:induction false} TameKeepsText(j: Json)
    ensures Tame(j) ==> KeepsText(j)
  {
    if j.Array? && j.elems != [] {
      TameKeepsText(j.elems[|j.elems|-1]);
    }
  }

  /** A string that ends in a backslash is taken to go on, and the space behind it stays. */
  lemma TrailingBackslashFails(j: Json)
    requires j == Array([Text([BACKSLASH]), Null])
    ensures Plain(j) && Minified(Render(j, true, 0)) != Render(j, false, 0)
  {
    hide Minified, Render;
    assert !Tame(j.elems[0]);
    MinifyRendered(j);
  }
}
