/** How printed text is laid out, apart from how it is put together: where there is white space, and how much. */
module Layout {
  import opened Sequences
  import opened CStrings
  import opened Json
  import opened Decimals
  import opened Rendering

  /** What comes behind a string, from behind its opening quote. */
  function BehindString(t: CStr): (r: CStr)
    ensures |r| <= |t|
    decreases |t|
  {
    if t == [] then []
    else if t[0] == 34 then t[1..]
    else if t[0] == 92 && |t| > 1 then BehindString(t[2..])
    else BehindString(t[1..])
  }

  function TabsAhead(t: CStr): (n: nat)
    ensures n <= |t|
  {
    if t == [] || t[0] != 9 then 0 else 1 + TabsAhead(t[1..])
  }

  /** The containers that are open, objects as true, and the last of them. */
  type Open = seq<bool>

  predicate InObject(open: Open) {
    open != [] && open[|open|-1]
  }

  predicate InArray(open: Open) {
    open != [] && !open[|open|-1]
  }

  function Closed(open: Open): Open
    requires open != []
  {
    open[..|open|-1]
  }

  /** Outside of strings there is no white space but this, in the formatted text only: one space behind each comma of an
      array; one tab behind each colon; and a newline behind the opening brace and behind each member of an object, with
      as many tabs as containers are open in front of a name, and one less in front of the closing brace. */
  predicate LaidOut(t: CStr, open: Open, format: bool)
    decreases |t|
  {
    if t == [] then open == []
    else if t[0] == 34 then LaidOut(BehindString(t[1..]), open, format)
    else if t[0] == 91 then LaidOut(t[1..], open + [false], format)
    else if t[0] == 93 then InArray(open) && LaidOut(t[1..], Closed(open), format)
    else if t[0] == 123 then (format ==> CharAt(t, 1) == 10) && LaidOut(t[1..], open + [true], format)
    else if t[0] == 125 then !format && InObject(open) && LaidOut(t[1..], Closed(open), format)
    else if t[0] == 58 && format then CharAt(t, 1) == 9 && LaidOut(t[2..], open, format)
    else if t[0] == 44 && format then
      if InArray(open) then CharAt(t, 1) == 32 && LaidOut(t[2..], open, format)
      else CharAt(t, 1) == 10 && LaidOut(t[1..], open, format)
    else if t[0] == 10 then format && InObject(open) && LineLaidOut(t[1..], open)
    else t[0] > 32 && LaidOut(t[1..], open, format)
  }

  /** A line from its first byte on. */
  predicate LineLaidOut(t: CStr, open: Open)
    requires InObject(open)
    decreases |t|, 1
  {
    var n := TabsAhead(t);
    n < |t| &&
    if t[n] == 125 then n == |open| - 1 && LaidOut(t[n+1..], Closed(open), true)
    else t[n] == 34 && n == |open| && LaidOut(t[n..], open, true)
  }

  // One part of a text at a time

  lemma {:induction false} OrdinaryLaidOut(t: CStr, rest: CStr, open: Open, format: bool)
    requires forall i :: 0 <= i < |t| ==> 32 < t[i] < 128 && t[i] !in [34, 44, 58, 91, 93, 123, 125]
    ensures LaidOut(t + rest, open, format) == LaidOut(rest, open, format)
  {
    if t == [] {
      assert t + rest == rest;
    } else {
      assert (t + rest)[0] == t[0] && (t + rest)[1..] == t[1..] + rest;
      OrdinaryLaidOut(t[1..], rest, open, format);
    }
  }

  lemma {:induction false} PlainSkipped(p: CStr, t: CStr)
    requires 34 !in p && 92 !in p
    ensures BehindString(p + t) == BehindString(t)
  {
    if p == [] {
      assert p + t == t;
    } else {
      assert (p + t)[0] == p[0] && p[0] in p && (p + t)[1..] == p[1..] + t;
      PlainSkipped(p[1..], t);
    }
  }

  lemma EscapeSkipped(x: Char8, t: CStr)
    ensures BehindString(Escape(x) + t) == BehindString(t)
  {
    var e := Escape(x);
    if |e| == 1 {
      PlainSkipped(e, t);
    } else {
      assert (e + t)[2..] == e[2..] + t;
      PlainSkipped(e[2..], t);
    }
  }

  lemma {:induction false} StringSkipped(s: CStr, rest: CStr)
    ensures BehindString(EscapeAll(s) + ([34] + rest)) == rest
  {
    if s == [] {
      assert EscapeAll(s) + ([34] + rest) == [34] + rest;
    } else {
      hide BehindString;
      StringSkipped(s[1..], rest);
      EscapeSkipped(s[0], EscapeAll(s[1..]) + ([34] + rest));
      Regroup(Escape(s[0]), EscapeAll(s[1..]), [34] + rest);
    }
  }

  lemma StringLaidOut(s: CStr, rest: CStr, open: Open, format: bool)
    ensures LaidOut(RenderString(s) + rest, open, format) == LaidOut(rest, open, format)
  {
    StringSkipped(s, rest);
    var t := RenderString(s) + rest;
    assert t[0] == 34 && t[1..] == EscapeAll(s) + ([34] + rest);
    hide EscapeAll, BehindString, RenderString;
  }

  lemma ColonLaidOut(rest: CStr, open: Open, format: bool)
    ensures LaidOut(ColonText(format) + rest, open, format) == LaidOut(rest, open, format)
  {
    var t := ColonText(format) + rest;
    assert t[|ColonText(format)|..] == rest;
  }

  lemma SeparatorLaidOut(rest: CStr, open: Open, format: bool)
    requires InArray(open)
    ensures LaidOut(Separator(format) + rest, open, format) == LaidOut(rest, open, format)
  {
    var t := Separator(format) + rest;
    assert t[|Separator(format)|..] == rest;
  }

  lemma CommaLaidOut(rest: CStr, open: Open, format: bool)
    requires InObject(open) && (format ==> CharAt(rest, 0) == 10)
    ensures LaidOut([COMMA] + rest, open, format) == LaidOut(rest, open, format)
  {
    var t := [COMMA] + rest;
    assert t[1..] == rest && CharAt(t, 1) == CharAt(rest, 0);
  }

  lemma {:induction false} TabsCounted(n: nat, rest: CStr)
    requires CharAt(rest, 0) != 9
    ensures TabsAhead(Tabs(n) + rest) == n
  {
    var t := Tabs(n) + rest;
    if n == 0 {
      assert t == rest;
    } else {
      assert t[1..] == Tabs(n - 1) + rest;
      TabsCounted(n - 1, rest);
    }
  }

  lemma NameLineLaidOut(rest: CStr, open: Open)
    requires InObject(open) && CharAt(rest, 0) == 34
    ensures LaidOut([NEWLINE] + (Tabs(|open|) + rest), open, true) == LaidOut(rest, open, true)
  {
    var u := Tabs(|open|) + rest;
    var t := [NEWLINE] + u;
    TabsCounted(|open|, rest);
    assert t[1..] == u && u[|open|..] == rest && u[|open|] == rest[0];
    hide LaidOut;
    LineStarts(t, open);
  }

  lemma LineStarts(t: CStr, open: Open)
    requires InObject(open) && t != [] && t[0] == 10
    ensures LaidOut(t, open, true) == LineLaidOut(t[1..], open)
  {
  }

  lemma BraceLaidOut(rest: CStr, open: Open, format: bool)
    requires InObject(open)
    ensures LaidOut((if format then [NEWLINE] else []) + (CloseObject(format, |open| - 1) + rest), open, format) ==
            LaidOut(rest, Closed(open), format)
  {
    var close := [CLOSE_BRACE] + rest;
    if format {
      BraceLineLaidOut(rest, open);
      assert CloseObject(true, |open| - 1) + rest == Tabs(|open| - 1) + close;
    } else {
      assert [] + (CloseObject(false, |open| - 1) + rest) == close;
      assert close[1..] == rest;
    }
  }

  lemma BraceLineLaidOut(rest: CStr, open: Open)
    requires InObject(open)
    ensures LaidOut([NEWLINE] + (Tabs(|open| - 1) + ([CLOSE_BRACE] + rest)), open, true) == LaidOut(rest, Closed(open), true)
  {
    hide LaidOut;
    var n, close := |open| - 1, [CLOSE_BRACE] + rest;
    var u := Tabs(n) + close;
    var t := [NEWLINE] + u;
    TabsCounted(n, close);
    assert t[1..] == u && u[n..] == close && u[n+1..] == rest;
    assert u[n] == close[0];
    LineStarts(t, open);
  }

  // Values

  /** The text of a value at some depth is laid out in front of whatever is. */
  lemma {:induction false} ValueLaidOut(j: Json, rest: CStr, open: Open, format: bool)
    requires Plain(j)
    ensures LaidOut(Render(j, format, |open|) + rest, open, format) == LaidOut(rest, open, format)
    decreases j, 0
  {
    hide LaidOut, RenderElements, RenderMembers, RenderString, Dec, OpenObject, CloseObject;
    if j.Text? {
      StringLaidOut(j.s, rest, open, format);
    } else if j.Array? {
      ArrayLaidOut(j.elems, rest, open, format);
    } else if j.Object? {
      ObjectLaidOut(j.members, rest, open, format);
    } else {
      OrdinaryText(j, format, |open|);
      OrdinaryLaidOut(Render(j, format, |open|), rest, open, format);
    }
  }

  lemma OrdinaryText(j: Json, format: bool, n: nat)
    requires Plain(j) && !j.Text? && !j.Array? && !j.Object?
    ensures var t := Render(j, format, n); forall i :: 0 <= i < |t| ==> 32 < t[i] < 128 && t[i] !in [34, 44, 58, 91, 93, 123, 125]
  {
    hide Dec;
  }

  lemma {:induction false} ArrayLaidOut(es: seq<Json>, rest: CStr, open: Open, format: bool)
    requires forall i :: 0 <= i < |es| ==> Plain(es[i])
    ensures LaidOut(Render(Array(es), format, |open|) + rest, open, format) == LaidOut(rest, open, format)
    decreases es, 1
  {
    hide LaidOut, RenderElements, Plain;
    var inner, close := RenderElements(es, format, |open| + 1), [CLOSE_BRACKET] + rest;
    assert Render(Array(es), format, |open|) + rest == [OPEN_BRACKET] + (inner + close);
    BracketsLaidOut(inner + close, rest, open, format);
    ElementsLaidOut(es, close, open + [false], format);
  }

  lemma BracketsLaidOut(inside: CStr, rest: CStr, open: Open, format: bool)
    ensures LaidOut([OPEN_BRACKET] + inside, open, format) == LaidOut(inside, open + [false], format)
    ensures LaidOut([CLOSE_BRACKET] + rest, open + [false], format) == LaidOut(rest, open, format)
  {
    assert ([OPEN_BRACKET] + inside)[1..] == inside && ([CLOSE_BRACKET] + rest)[1..] == rest;
    assert Closed(open + [false]) == open;
  }

  lemma {:induction false} ElementsLaidOut(es: seq<Json>, rest: CStr, open: Open, format: bool)
    requires InArray(open) && forall i :: 0 <= i < |es| ==> Plain(es[i])
    ensures LaidOut(RenderElements(es, format, |open|) + rest, open, format) == LaidOut(rest, open, format)
    decreases es, 0
  {
    hide LaidOut, Render, Plain, InArray;
    if es == [] {
      assert RenderElements(es, format, |open|) + rest == rest;
    } else {
      var head, tail := Render(es[0], format, |open|), RenderElements(es[1..], format, |open|);
      ElementsLaidOut(es[1..], rest, open, format);
      if |es| > 1 {
        SeparatorLaidOut(tail + rest, open, format);
        ValueLaidOut(es[0], Separator(format) + (tail + rest), open, format);
        assert head + Separator(format) + tail + rest == head + (Separator(format) + (tail + rest));
      } else {
        ValueLaidOut(es[0], tail + rest, open, format);
        assert head + [] + tail + rest == head + (tail + rest);
      }
    }
  }

  lemma {:induction false} ObjectLaidOut(ms: Members, rest: CStr, open: Open, format: bool)
    requires forall i :: 0 <= i < |ms| ==> Plain(ms[i].item)
    ensures LaidOut(Render(Object(ms), format, |open|) + rest, open, format) == LaidOut(rest, open, format)
    decreases ms, 1
  {
    hide LaidOut, RenderMembers, Plain, CloseObject;
    var line: CStr := if format then [NEWLINE] else [];
    var inner, close := RenderMembers(ms, format, |open| + 1), CloseObject(format, |open|) + rest;
    assert Render(Object(ms), format, |open|) + rest == [OPEN_BRACE] + (line + (inner + close));
    OpenLaidOut(line + (inner + close), open, format);
    MembersLaidOut(ms, rest, open + [true], format);
    assert Closed(open + [true]) == open;
  }

  lemma OpenLaidOut(inside: CStr, open: Open, format: bool)
    requires format ==> CharAt(inside, 0) == 10
    ensures LaidOut([OPEN_BRACE] + inside, open, format) == LaidOut(inside, open + [true], format)
  {
    var t := [OPEN_BRACE] + inside;
    assert t[1..] == inside && CharAt(t, 1) == CharAt(inside, 0);
  }

  lemma ObjectIsOpen(open: Open)
    requires InObject(open)
    ensures open != []
  {
  }

  /** Members from the end of the line in front of them, and the brace behind them. */
  lemma {:induction false} MembersLaidOut(ms: Members, rest: CStr, open: Open, format: bool)
    requires InObject(open) && forall i :: 0 <= i < |ms| ==> Plain(ms[i].item)
    ensures var line: CStr := if format then [NEWLINE] else [];
            var close := CloseObject(format, |open| - 1) + rest;
            LaidOut(line + (RenderMembers(ms, format, |open|) + close), open, format) == LaidOut(rest, Closed(open), format)
    decreases ms, 0
  {
    hide LaidOut, Render, Plain, InObject, CloseObject, RenderString, ColonText, Tabs;
    ObjectIsOpen(open);
    var line: CStr := if format then [NEWLINE] else [];
    var close := CloseObject(format, |open| - 1) + rest;
    if ms == [] {
      assert RenderMembers(ms, format, |open|) + close == close;
      BraceLaidOut(rest, open, format);
    } else {
      var m, value := ms[0], Render(ms[0].item, format, |open|);
      var below := line + (RenderMembers(ms[1..], format, |open|) + close);
      var comma: CStr := if |ms| == 1 then [] else [COMMA];
      MembersLaidOut(ms[1..], rest, open, format);
      if |ms| > 1 {
        CommaLaidOut(below, open, format);
      } else {
        assert comma + below == below;
      }
      ValueLaidOut(m.item, comma + below, open, format);
      ColonLaidOut(value + (comma + below), open, format);
      StringLaidOut(m.key, ColonText(format) + (value + (comma + below)), open, format);
      LineText(ms, close, |open|, format);
      if format {
        NameLineLaidOut(RenderString(m.key) + (ColonText(format) + (value + (comma + below))), open);
      }
    }
  }

  lemma LineText(ms: Members, close: CStr, n: nat, format: bool)
    requires ms != []
    ensures var line: CStr := if format then [NEWLINE] else [];
            var comma: CStr := if |ms| == 1 then [] else [COMMA];
            var value, tail := Render(ms[0].item, format, n), RenderMembers(ms[1..], format, n);
            var name := RenderString(ms[0].key) + (ColonText(format) + (value + (comma + (line + (tail + close)))));
            CharAt(name, 0) == 34 &&
            line + (RenderMembers(ms, format, n) + close) == if format then [NEWLINE] + (Tabs(n) + name) else name
  {
    hide Render, ColonText, EscapeAll, Tabs, RenderMembers;
    var key, colon, value := RenderString(ms[0].key), ColonText(format), Render(ms[0].item, format, n);
    var tail := RenderMembers(ms[1..], format, n);
    var line: CStr := if format then [NEWLINE] else [];
    var comma: CStr := if |ms| == 1 then [] else [COMMA];
    assert key[0] == 34;
    MembersHead(ms, format, n);
    hide RenderString;
    LineParts(Indent(format, n), key, colon, value, comma, line, tail, close);
    var name := key + (colon + (value + (comma + (line + (tail + close)))));
    assert name[0] == key[0];
    assert line + (Indent(format, n) + name) == if format then [NEWLINE] + (Tabs(n) + name) else name;
  }

  lemma LineParts(indent: CStr, key: CStr, colon: CStr, value: CStr, comma: CStr, line: CStr, tail: CStr, close: CStr)
    ensures indent + key + colon + value + (comma + line) + tail + close ==
            indent + (key + (colon + (value + (comma + (line + (tail + close))))))
  {
  }

  lemma MembersHead(ms: Members, format: bool, n: nat)
    requires ms != []
    ensures RenderMembers(ms, format, n) ==
            MemberHead(ms[0].key, format, n) + Render(ms[0].item, format, n) + MemberEnd(|ms| == 1, format) +
            RenderMembers(ms[1..], format, n)
  {
    hide Render;
  }

  /** Both formats are laid out as they should be, for every document. */
  lemma RenderLaidOut(j: Json, format: bool)
    requires Plain(j)
    ensures LaidOut(Render(j, format, 0), [], format)
  {
    hide Render, Plain;
    ValueLaidOut(j, [], [], format);
    assert Render(j, format, 0) + [] == Render(j, format, 0);
  }
}
