/** The printed text of a document denotes it, so that parsing undoes printing, for both formats and exactly
    within the nesting limit. */
module TextRoundTrip {
  import opened CStrings
  import opened Json
  import opened Decimals
  import opened Rendering
  import opened Unicode
  import opened StringReader
  import opened Parsing
  import opened Grammar
  import opened StringMeaning
  import opened ParseMeaning

  // Texts at a place of the buffer

  lemma Split(c: Bytes, o: nat, a: CStr, b: CStr)
    requires o <= |c| && StartsWith(c, o, a + b)
    ensures StartsWith(c, o, a) && StartsWith(c, o + |a|, b)
  {
    var t := c[o..o+|a+b|];
    assert t[..|a|] == a && t[|a|..] == b;
    assert c[o..o+|a|] == t[..|a|] && c[o+|a|..o+|a|+|b|] == t[|a|..];
  }

  lemma SplitFour(c: Bytes, o: nat, t: CStr, t1: CStr, t2: CStr, t3: CStr, t4: CStr)
    requires t == t1 + t2 + t3 + t4 && o <= |c| && StartsWith(c, o, t)
    ensures var o2 := o + |t1|;
            var o3 := o2 + |t2|;
            var o4 := o3 + |t3|;
            o + |t| == o4 + |t4| <= |c| && StartsWith(c, o, t1) && StartsWith(c, o2, t2) &&
            StartsWith(c, o3, t3) && StartsWith(c, o4, t4)
  {
    Split(c, o, t1 + t2 + t3, t4);
    Split(c, o, t1 + t2, t3);
    Split(c, o, t1, t2);
  }

  lemma ByteAt(c: Bytes, o: nat, t: CStr, k: nat)
    requires o <= |c| && StartsWith(c, o, t) && k < |t|
    ensures c[o+k] == t[k]
  {
    assert c[o..o+|t|][k] == c[o+k];
  }

  // Strings

  /** The first pass steps over an escaped byte, and the second one reads it back. */
  lemma EscapeReads(c: Bytes, i: nat, x: Char8, end: nat)
    requires i + |Escape(x)| <= end < |c| && StartsWith(c, i, Escape(x))
    ensures ScanEnd(c, i) == ScanEnd(c, i + |Escape(x)|)
    ensures DecodeOne(c, i, end) == Decoded([x], |Escape(x)|)
  {
    var t := Escape(x);
    ByteAt(c, i, t, 0);
    if |t| > 1 {
      ByteAt(c, i, t, 1);
    }
    if |t| == 6 {
      ControlReads(c, i, x, end);
    }
  }

  lemma ControlReads(c: Bytes, i: nat, x: Char8, end: nat)
    requires |Escape(x)| == 6 && i + 6 <= end < |c| && StartsWith(c, i, Escape(x))
    ensures ScanEnd(c, i + 2) == ScanEnd(c, i + 6)
    ensures ReadLiteral(c, i, end) == Literal(6, x) && Utf8(x) == [x]
  {
    var t := Escape(x);
    ByteAt(c, i, t, 2);
    ByteAt(c, i, t, 3);
    ByteAt(c, i, t, 4);
    ByteAt(c, i, t, 5);
    assert ScanEnd(c, i + 4) == ScanEnd(c, i + 5) == ScanEnd(c, i + 6);
    assert Hex4(c, i + 2) == x;
  }

  lemma {:induction false} EscapedReads(c: Bytes, i: nat, s: CStr, end: nat)
    requires end == i + |EscapeAll(s)| < |c| && c[end] == QUOTE && StartsWith(c, i, EscapeAll(s))
    ensures ScanEnd(c, i) == Some(end) && Unescape(c, i, end) == Some(s)
    decreases s
  {
    hide StartsWith, Escape, EscapeAll, DecodeOne, ScanEnd, Unescape;
    if s == [] {
      NothingReads(c, i, s, end);
    } else {
      var x, rest := s[0], s[1..];
      var next := i + |Escape(x)|;
      EscapeHead(s, x, rest);
      Split(c, i, Escape(x), EscapeAll(rest));
      EscapedReads(c, next, rest, end);
      EscapeReads(c, i, x, end);
      UnescapeOne(c, i, end, x, rest);
    }
  }

  lemma NothingReads(c: Bytes, i: nat, s: CStr, end: nat)
    requires s == [] && end == i + |EscapeAll(s)| < |c| && c[end] == QUOTE
    ensures ScanEnd(c, i) == Some(end) && Unescape(c, i, end) == Some(s)
  {
  }

  lemma EscapeHead(s: CStr, x: Char8, rest: CStr)
    requires s != [] && x == s[0] && rest == s[1..]
    ensures EscapeAll(s) == Escape(x) + EscapeAll(rest) && s == [x] + rest
  {
  }

  lemma UnescapeOne(c: Bytes, i: nat, end: nat, x: Char8, rest: CStr)
    requires i < end < |c| && DecodeOne(c, i, end) == Decoded([x], |Escape(x)|)
    requires i + |Escape(x)| <= end && Unescape(c, i + |Escape(x)|, end) == Some(rest)
    ensures Unescape(c, i, end) == Some([x] + rest)
  {
    hide DecodeOne, Escape;
  }

  /** A printed string is read back, whatever bytes it has. */
  lemma StringReads(c: Bytes, o: nat, s: CStr)
    requires o <= |c| && StartsWith(c, o, RenderString(s))
    ensures o < |c| && ParseString(c, o) == Parsed(s, o + |RenderString(s)|)
  {
    var t, inner := RenderString(s), EscapeAll(s);
    ByteAt(c, o, t, 0);
    ByteAt(c, o, t, |t| - 1);
    Split(c, o, [QUOTE] + inner, [QUOTE]);
    Split(c, o, [QUOTE], inner);
    EscapedReads(c, o + 1, s, o + 1 + |inner|);
    CTextOf(s, |s|);
    assert s[..|s|] == s;
  }

  // Numbers

  lemma {:induction false} NumberTextReads(c: Bytes, o: nat, t: CStr, room: nat)
    requires o + |t| < |c| && |t| < room && StartsWith(c, o, t) && !NumberByte(c[o+|t|])
    requires forall k :: 0 <= k < |t| ==> NumberByte(t[k])
    ensures NumberText(c, o, room) == t
    decreases t
  {
    if t != [] {
      ByteAt(c, o, t, 0);
      assert t == [t[0]] + t[1..];
      Split(c, o, [t[0]], t[1..]);
      NumberTextReads(c, o + 1, t[1..], room - 1);
    }
  }

  lemma DecIntBytes(n: Num)
    ensures DecInt(n) != [] && forall k :: 0 <= k < |DecInt(n)| ==> NumberByte(DecInt(n)[k])
  {
  }

  lemma NumberReads(c: Bytes, o: nat, n: Num, f: Strtod)
    requires NulTerminated(c) && ReadsIntegers(f) && o + |DecInt(n)| < |c| && StartsWith(c, o, DecInt(n))
    requires !InNumber(c[o+|DecInt(n)|])
    ensures ParseNumber(c, o, f) == Parsed(Number(n), o + |DecInt(n)|)
  {
    var t := DecInt(n);
    hide SkipRun, NumberText, NulTerminated, Dec;
    DecIntLength(n);
    DecIntBytes(n);
    NumberTextReads(c, o, t, 63);
    assert DecText(n) == t;
  }

  // Values

  lemma PrintedFirst(j: Json, format: bool, level: nat)
    requires Plain(j)
    ensures var t := Render(j, format, level); t != [] && 32 < t[0] < 128
  {
    hide RenderElements, RenderMembers, EscapeAll, Dec;
  }

  /** The text of a value, followed by a byte that does not go on with a number, stands for the value. */
  lemma {:induction false} ValueWritten(j: Json, c: Bytes, o: nat, f: Strtod, format: bool, level: nat)
    requires NulTerminated(c) && ReadsIntegers(f) && Plain(j)
    requires o + |Render(j, format, level)| < |c| && StartsWith(c, o, Render(j, format, level))
    requires !InNumber(c[o+|Render(j, format, level)|])
    ensures ValueAt(c, o, o + |Render(j, format, level)|, j, f)
    decreases j, 0
  {
    hide StartsWith, NulTerminated, ReadsIntegers, RenderElements, RenderMembers, RenderString, DecInt, ValueAt, InNumber,
         OpenObject, CloseObject;
    match j {
      case Number(n) => NumberWritten(n, c, o, f);
      case Text(s) => TextWritten(s, c, o, f);
      case Array(es) => ArrayWritten(es, c, o, f, format, level);
      case Object(ms) => ObjectWritten(ms, c, o, f, format, level);
      case _ => WordWritten(j, c, o, f);
    }
  }

  lemma NumberWritten(n: Num, c: Bytes, o: nat, f: Strtod)
    requires NulTerminated(c) && ReadsIntegers(f) && o + |DecInt(n)| < |c| && StartsWith(c, o, DecInt(n))
    requires !InNumber(c[o+|DecInt(n)|])
    ensures ValueAt(c, o, o + |DecInt(n)|, Number(n), f)
  {
    hide ParseNumber, StartsWith, NulTerminated, ReadsIntegers, Dec, NumberAt, InNumber;
    NumberReads(c, o, n, f);
    NumberExactly(c, o, o + |DecInt(n)|, Number(n), f);
    DigitFirst(c, o, n);
  }

  lemma TextWritten(s: CStr, c: Bytes, o: nat, f: Strtod)
    requires o <= |c| && StartsWith(c, o, RenderString(s))
    ensures ValueAt(c, o, o + |RenderString(s)|, Text(s), f)
  {
    hide ParseString, StartsWith, RenderString, StringAt;
    StringReads(c, o, s);
    StringExactly(c, o, o + |RenderString(s)|, s);
  }

  lemma DigitFirst(c: Bytes, o: nat, n: Num)
    requires o <= |c| && StartsWith(c, o, DecInt(n))
    ensures o < |c| && (c[o] == 45 || 48 <= c[o] <= 57)
  {
    hide Dec;
    ByteAt(c, o, DecInt(n), 0);
  }

  lemma WordWritten(j: Json, c: Bytes, o: nat, f: Strtod)
    requires o <= |c| && (j.Null? || j.False? || j.True?) && StartsWith(c, o, Render(j, false, 0))
    ensures ValueAt(c, o, o + |Render(j, false, 0)|, j, f)
  {
    hide StartsWith;
    WordExactly(c, o, Render(j, false, 0));
  }

  lemma ArrayLayout(es: seq<Json>, c: Bytes, o: nat, format: bool, level: nat)
    requires o <= |c| && StartsWith(c, o, Render(Array(es), format, level))
    ensures var end := o + 1 + |RenderElements(es, format, level + 1)|;
            end < |c| && StartsWith(c, o + 1, RenderElements(es, format, level + 1)) && c[end] == CLOSE_BRACKET &&
            c[o] == OPEN_BRACKET && o + |Render(Array(es), format, level)| == end + 1
  {
    hide StartsWith, RenderElements;
    var t := RenderElements(es, format, level + 1);
    Split(c, o, [OPEN_BRACKET] + t, [CLOSE_BRACKET]);
    Split(c, o, [OPEN_BRACKET], t);
    ByteAt(c, o, [OPEN_BRACKET], 0);
    InBuffer(c, o + 1 + |t|, [CLOSE_BRACKET]);
    ByteAt(c, o + 1 + |t|, [CLOSE_BRACKET], 0);
  }

  lemma EmptyElements(format: bool, level: nat)
    ensures RenderElements([], format, level) == [] && RenderMembers([], format, level) == []
  {
  }

  lemma InBuffer(c: Bytes, o: nat, t: CStr)
    requires o <= |c| && StartsWith(c, o, t)
    ensures o + |t| <= |c|
  {
  }

  /** Where the first element stands, and the rest behind it. */
  ghost predicate ElementsLaid(es: seq<Json>, c: Bytes, q: nat, format: bool, level: nat)
    requires es != []
  {
    var b := q + |Render(es[0], format, level)|;
    var end := q + |RenderElements(es, format, level)|;
    b <= end <= |c| && StartsWith(c, q, Render(es[0], format, level)) &&
    if |es| == 1 then b == end
    else
      var next := b + |Separator(format)|;
      next <= end && c[b] == COMMA && Space(c, b + 1, next) &&
      StartsWith(c, next, RenderElements(es[1..], format, level)) &&
      end == next + |RenderElements(es[1..], format, level)|
  }

  lemma ElementsLayout(es: seq<Json>, c: Bytes, q: nat, format: bool, level: nat)
    requires es != [] && q <= |c| && StartsWith(c, q, RenderElements(es, format, level))
    ensures ElementsLaid(es, c, q, format, level)
  {
    hide StartsWith, Render, RenderElements;
    ElementsText(es, format, level);
    if |es| > 1 {
      ListLayout(c, q, Render(es[0], format, level), RenderElements(es[1..], format, level), format);
    } else {
      InBuffer(c, q, Render(es[0], format, level));
    }
  }

  /** An element, a separator and the other elements. */
  lemma ListLayout(c: Bytes, q: nat, head: CStr, tail: CStr, format: bool)
    requires q <= |c| && StartsWith(c, q, head + Separator(format) + tail)
    ensures var b := q + |head|;
            var next := b + |Separator(format)|;
            next + |tail| <= |c| && StartsWith(c, q, head) && c[b] == COMMA && Space(c, b + 1, next) && StartsWith(c, next, tail)
  {
    hide StartsWith, Separator, Space;
    var sep := Separator(format);
    Split(c, q, head + sep, tail);
    Split(c, q, head, sep);
    InBuffer(c, q + |head| + |sep|, tail);
    SeparatorLayout(c, q + |head|, format);
  }

  lemma ElementsText(es: seq<Json>, format: bool, level: nat)
    requires es != []
    ensures RenderElements(es, format, level) ==
            if |es| == 1 then Render(es[0], format, level)
            else Render(es[0], format, level) + Separator(format) + RenderElements(es[1..], format, level)
  {
    if |es| == 1 {
      EmptyElements(format, level);
      var head, none: CStr := Render(es[0], format, level), [];
      assert head + none + none == head;
    }
  }

  lemma SeparatorLayout(c: Bytes, b: nat, format: bool)
    requires b <= |c| && StartsWith(c, b, Separator(format))
    ensures var next := b + |Separator(format)|;
            next <= |c| && c[b] == COMMA && Space(c, b + 1, next)
  {
    hide StartsWith;
    InBuffer(c, b, Separator(format));
    ByteAt(c, b, Separator(format), 0);
    if format {
      ByteAt(c, b, Separator(format), 1);
    }
  }

  lemma {:induction false} ArrayWritten(es: seq<Json>, c: Bytes, o: nat, f: Strtod, format: bool, level: nat)
    requires NulTerminated(c) && ReadsIntegers(f) && forall i :: 0 <= i < |es| ==> Plain(es[i])
    requires o <= |c| && StartsWith(c, o, Render(Array(es), format, level))
    ensures ValueAt(c, o, o + |Render(Array(es), format, level)|, Array(es), f)
    decreases es, 2
  {
    hide StartsWith, NulTerminated, ReadsIntegers, Plain, RenderElements, ElementsAt, Space;
    ArrayLayout(es, c, o, format, level);
    NothingBetween(c, o + 1);
    ElementsWritten(es, c, o + 1, o + 1, f, format, level + 1);
  }

  lemma {:induction false} ElementsWritten(es: seq<Json>, c: Bytes, o: nat, q: nat, f: Strtod, format: bool, level: nat)
    requires NulTerminated(c) && ReadsIntegers(f) && forall i :: 0 <= i < |es| ==> Plain(es[i])
    requires Space(c, o, q) && StartsWith(c, q, RenderElements(es, format, level))
    requires var end := q + |RenderElements(es, format, level)|; end < |c| && c[end] == CLOSE_BRACKET
    ensures var end := q + |RenderElements(es, format, level)|;
            if es == [] then Space(c, o, end) else ElementsAt(c, o, end, es, f)
    decreases es, 1
  {
    hide NulTerminated, ReadsIntegers, Plain, StartsWith, Render, RenderElements, ValueAt, ElementsAt, SpacedAt;
    if es == [] {
      EmptyElements(format, level);
    } else {
      var b := q + |Render(es[0], format, level)|;
      var end := q + |RenderElements(es, format, level)|;
      ElementsLayout(es, c, q, format, level);
      ValueWritten(es[0], c, q, f, format, level);
      ValueSpaced(c, o, q, b, b, es[0], f);
      if |es| > 1 {
        ElementsWritten(es[1..], c, b + 1, b + |Separator(format)|, f, format, level);
        ElementsJoin(c, o, b, end, es, f);
      } else {
        OneElementAt(c, o, end, es, f);
      }
    }
  }

  lemma ValueSpaced(c: Bytes, o: nat, p: nat, q: nat, k: nat, j: Json, f: Strtod)
    requires Space(c, o, p) && ValueAt(c, p, q, j, f) && Space(c, q, k)
    ensures SpacedAt(c, o, k, j, f)
  {
    hide ValueAt, Space;
  }

  lemma SpaceJoin(c: Bytes, o: nat, p: nat, q: nat)
    requires Space(c, o, p) && Space(c, p, q)
    ensures Space(c, o, q)
  {
  }

  /** Where the parts of an object stand. */
  ghost predicate ObjectLaid(ms: Members, c: Bytes, o: nat, format: bool, level: nat) {
    var q := o + |OpenObject(format)|;
    var end := q + |RenderMembers(ms, format, level + 1)|;
    end <= |c| && c[o] == OPEN_BRACE && Space(c, o + 1, q) && StartsWith(c, q, RenderMembers(ms, format, level + 1)) &&
    StartsWith(c, end, CloseObject(format, level))
  }

  lemma ObjectLayout(ms: Members, c: Bytes, o: nat, format: bool, level: nat)
    requires o <= |c| && StartsWith(c, o, Render(Object(ms), format, level))
    ensures ObjectLaid(ms, c, o, format, level)
    ensures |Render(Object(ms), format, level)| ==
            |OpenObject(format)| + |RenderMembers(ms, format, level + 1)| + |CloseObject(format, level)|
  {
    hide StartsWith, RenderMembers, CloseObject, Render;
    ObjectText(ms, format, level);
    var t, start, close := RenderMembers(ms, format, level + 1), OpenObject(format), CloseObject(format, level);
    Split(c, o, start + t, close);
    Split(c, o, start, t);
    ByteAt(c, o, start, 0);
    if format {
      ByteAt(c, o, start, 1);
    }
    InBuffer(c, o + |start|, t);
  }

  lemma ObjectText(ms: Members, format: bool, level: nat)
    ensures Render(Object(ms), format, level) ==
            OpenObject(format) + RenderMembers(ms, format, level + 1) + CloseObject(format, level)
  {
  }

  lemma CloseLayout(c: Bytes, end: nat, format: bool, level: nat)
    requires end <= |c| && StartsWith(c, end, CloseObject(format, level))
    ensures var z := end + |Indent(format, level)|;
            z < |c| && Space(c, end, z) && c[z] == CLOSE_BRACE && (!format ==> z == end)
  {
    var close := CloseObject(format, level);
    forall k | end <= k < end + |close| ensures c[k] == close[k-end] {
      ByteAt(c, end, close, k - end);
    }
  }

  /** Where the parts of the first member stand, and the rest behind it. */
  ghost predicate MembersLaid(ms: Members, c: Bytes, q: nat, format: bool, level: nat)
    requires ms != []
  {
    var k := q + |Indent(format, level)|;
    var a := k + |RenderString(ms[0].key)|;
    var v := a + |ColonText(format)|;
    var b := v + |Render(ms[0].item, format, level)|;
    var next := b + |MemberEnd(|ms| == 1, format)|;
    var end := q + |RenderMembers(ms, format, level)|;
    next <= end <= |c| && Space(c, q, k) && StartsWith(c, k, RenderString(ms[0].key)) &&
    c[a] == COLON && Space(c, a + 1, v) && StartsWith(c, v, Render(ms[0].item, format, level)) &&
    if |ms| == 1 then next == end && Space(c, b, end) && if format then c[b] == NEWLINE else b == end
    else
      c[b] == COMMA && Space(c, b + 1, next) && StartsWith(c, next, RenderMembers(ms[1..], format, level)) &&
      end == next + |RenderMembers(ms[1..], format, level)|
  }

  lemma MembersLayout(ms: Members, c: Bytes, q: nat, format: bool, level: nat)
    requires ms != [] && q <= |c| && StartsWith(c, q, RenderMembers(ms, format, level))
    ensures MembersLaid(ms, c, q, format, level)
  {
    hide StartsWith, Render, RenderMembers, RenderString, MemberEnd, MemberHead, Indent, ColonText, Space;
    var head, value := MemberHead(ms[0].key, format, level), Render(ms[0].item, format, level);
    var last, tail := MemberEnd(|ms| == 1, format), RenderMembers(ms[1..], format, level);
    MembersText(ms, format, level);
    SplitFour(c, q, RenderMembers(ms, format, level), head, value, last, tail);
    HeadLayout(c, q, ms[0].key, format, level);
    EndLayout(c, q + |head| + |value|, |ms| == 1, format);
  }

  lemma MembersText(ms: Members, format: bool, level: nat)
    requires ms != []
    ensures RenderMembers(ms, format, level) ==
            MemberHead(ms[0].key, format, level) + Render(ms[0].item, format, level) + MemberEnd(|ms| == 1, format) +
            RenderMembers(ms[1..], format, level)
    ensures |ms| == 1 ==> RenderMembers(ms[1..], format, level) == []
  {
  }

  lemma HeadLayout(c: Bytes, q: nat, key: CStr, format: bool, level: nat)
    requires q <= |c| && StartsWith(c, q, MemberHead(key, format, level))
    ensures var k := q + |Indent(format, level)|;
            var a := k + |RenderString(key)|;
            var v := a + |ColonText(format)|;
            v == q + |MemberHead(key, format, level)| <= |c| && Space(c, q, k) && StartsWith(c, k, RenderString(key)) &&
            c[a] == COLON && Space(c, a + 1, v)
  {
    hide StartsWith, RenderString;
    var indent, name, colon := Indent(format, level), RenderString(key), ColonText(format);
    InBuffer(c, q, MemberHead(key, format, level));
    Split(c, q, indent + name, colon);
    Split(c, q, indent, name);
    forall k | q <= k < q + |indent| ensures c[k] <= 32 {
      ByteAt(c, q, indent, k - q);
    }
    var a := q + |indent| + |name|;
    ByteAt(c, a, colon, 0);
    if format {
      ByteAt(c, a, colon, 1);
    }
  }

  lemma EndLayout(c: Bytes, b: nat, last: bool, format: bool)
    requires b <= |c| && StartsWith(c, b, MemberEnd(last, format))
    ensures var next := b + |MemberEnd(last, format)|;
            next <= |c| &&
            if last then Space(c, b, next) && (if format then c[b] == NEWLINE else b == next) else c[b] == COMMA && Space(c, b + 1, next)
  {
    var t := MemberEnd(last, format);
    forall k | b <= k < b + |t| ensures c[k] == t[k-b] {
      ByteAt(c, b, t, k - b);
    }
  }

  lemma {:induction false} ObjectWritten(ms: Members, c: Bytes, o: nat, f: Strtod, format: bool, level: nat)
    requires NulTerminated(c) && ReadsIntegers(f) && forall i :: 0 <= i < |ms| ==> Plain(ms[i].item)
    requires o <= |c| && StartsWith(c, o, Render(Object(ms), format, level))
    ensures ValueAt(c, o, o + |Render(Object(ms), format, level)|, Object(ms), f)
    decreases ms, 2
  {
    hide NulTerminated, ReadsIntegers, Plain, StartsWith, Render, RenderMembers, MembersAt, OpenObject, Indent, Space;
    ObjectLayout(ms, c, o, format, level);
    var q := o + |OpenObject(format)|;
    var end := q + |RenderMembers(ms, format, level + 1)|;
    var z := end + |Indent(format, level)|;
    CloseLayout(c, end, format, level);
    MembersWritten(ms, c, o + 1, q, z, f, format, level + 1);
    SpaceOrder(c, o + 1, q);
  }

  /** Members, with white space up to the brace behind them. */
  lemma {:induction false} MembersWritten(ms: Members, c: Bytes, o: nat, q: nat, z: nat, f: Strtod, format: bool, level: nat)
    requires NulTerminated(c) && ReadsIntegers(f) && forall i :: 0 <= i < |ms| ==> Plain(ms[i].item)
    requires Space(c, o, q) && StartsWith(c, q, RenderMembers(ms, format, level))
    requires var end := q + |RenderMembers(ms, format, level)|;
             Space(c, end, z) && z < |c| && c[z] == CLOSE_BRACE && (!format ==> z == end)
    ensures if ms == [] then Space(c, o, z) else MembersAt(c, o, z, ms, f)
    decreases ms, 1
  {
    hide NulTerminated, ReadsIntegers, Plain, StartsWith, Render, RenderMembers, RenderString, MembersAt, MemberAt, Indent,
         ColonText, Space;
    SpaceOrder(c, o, q);
    if ms == [] {
      EmptyElements(format, level);
      SpaceJoin(c, o, q, z);
    } else {
      MembersLayout(ms, c, q, format, level);
      var k := q + |Indent(format, level)|;
      var b := k + |RenderString(ms[0].key)| + |ColonText(format)| + |Render(ms[0].item, format, level)|;
      if |ms| > 1 {
        FirstWritten(ms, c, o, q, f, format, level);
        MembersWritten(ms[1..], c, b + 1, b + |MemberEnd(false, format)|, z, f, format, level);
        MembersJoin(c, o, b, z, ms, f);
      } else {
        LastWritten(ms, c, o, q, z, f, format, level);
        OneMemberAt(c, o, z, ms, f);
      }
    }
  }

  lemma {:induction false} FirstWritten(ms: Members, c: Bytes, o: nat, q: nat, f: Strtod, format: bool, level: nat)
    requires NulTerminated(c) && ReadsIntegers(f) && |ms| > 1 && Plain(ms[0].item)
    requires Space(c, o, q) && MembersLaid(ms, c, q, format, level)
    ensures var b := q + |Indent(format, level)| + |RenderString(ms[0].key)| + |ColonText(format)| + |Render(ms[0].item, format, level)|;
            b < |c| && MemberAt(c, o, b, ms[0], f)
    decreases ms, 0
  {
    hide NulTerminated, ReadsIntegers, Plain, StartsWith, Render, RenderMembers, RenderString, MemberAt, Indent, ColonText, Space;
    var k := q + |Indent(format, level)|;
    var b := k + |RenderString(ms[0].key)| + |ColonText(format)| + |Render(ms[0].item, format, level)|;
    SpaceJoin(c, o, q, k);
    NothingBetween(c, b);
    MemberWritten(ms[0], c, o, k, b, f, format, level);
  }

  lemma {:induction false} LastWritten(ms: Members, c: Bytes, o: nat, q: nat, z: nat, f: Strtod, format: bool, level: nat)
    requires NulTerminated(c) && ReadsIntegers(f) && |ms| == 1 && Plain(ms[0].item)
    requires Space(c, o, q) && MembersLaid(ms, c, q, format, level)
    requires var end := q + |RenderMembers(ms, format, level)|;
             Space(c, end, z) && z < |c| && c[z] == CLOSE_BRACE && (!format ==> z == end)
    ensures MemberAt(c, o, z, ms[0], f)
    decreases ms, 0
  {
    hide NulTerminated, ReadsIntegers, Plain, StartsWith, Render, RenderMembers, RenderString, MemberAt, Indent, ColonText, Space;
    var k := q + |Indent(format, level)|;
    var b := k + |RenderString(ms[0].key)| + |ColonText(format)| + |Render(ms[0].item, format, level)|;
    SpaceJoin(c, o, q, k);
    SpaceJoin(c, b, q + |RenderMembers(ms, format, level)|, z);
    MemberWritten(ms[0], c, o, k, z, f, format, level);
  }

  lemma NothingBetween(c: Bytes, b: nat)
    requires b <= |c|
    ensures Space(c, b, b)
  {
  }

  /** A member whose name starts at `k`, with nothing but white space from its end to `z`. */
  lemma {:induction false} MemberWritten(m: Keyed<Json>, c: Bytes, o: nat, k: nat, z: nat, f: Strtod, format: bool, level: nat)
    requires NulTerminated(c) && ReadsIntegers(f) && Plain(m.item)
    requires Space(c, o, k) && StartsWith(c, k, RenderString(m.key))
    requires var a := k + |RenderString(m.key)|;
             var v := a + |ColonText(format)|;
             var b := v + |Render(m.item, format, level)|;
             a < |c| && v <= |c| && c[a] == COLON && Space(c, a + 1, v) && StartsWith(c, v, Render(m.item, format, level)) &&
             b < |c| && !InNumber(c[b]) && Space(c, b, z)
    ensures MemberAt(c, o, z, m, f)
    decreases m, 1
  {
    hide NulTerminated, ReadsIntegers, Plain, StartsWith, Render, RenderString, ValueAt, StringAt, SpacedAt, ColonText, ParseString;
    var a := k + |RenderString(m.key)|;
    var v := a + |ColonText(format)|;
    StringReads(c, k, m.key);
    StringExactly(c, k, a, m.key);
    assert NameAt(c, o, a, m.key) by {
      assert Space(c, a, a);
    }
    ValueWritten(m.item, c, v, f, format, level);
    ValueSpaced(c, a + 1, v, v + |Render(m.item, format, level)|, z, m.item, f);
  }

  /** So it is read as that value and no further: exactly when the nesting stays within the limit. */
  lemma ValueReads(j: Json, c: Bytes, o: nat, depth: nat, f: Strtod, format: bool, level: nat)
    requires NulTerminated(c) && ReadsIntegers(f) && Plain(j) && depth <= NESTING_LIMIT
    requires o + |Render(j, format, level)| < |c| && StartsWith(c, o, Render(j, format, level))
    requires !InNumber(c[o+|Render(j, format, level)|])
    ensures ParseValue(c, o, depth, f) == Within(depth + Nesting(j), j, o + |Render(j, format, level)|)
  {
    hide NulTerminated, ReadsIntegers, Plain, Render, StartsWith, ParseValue, ValueAt, Nesting, Within;
    ValueWritten(j, c, o, f, format, level);
    ValueExactly(c, o, depth, f, j, o + |Render(j, format, level)|);
  }

  // Documents

  /** The text of a document in either format denotes that document, however deep it nests. */
  lemma {:induction false} RenderDenotes(j: Json, format: bool, f: Strtod)
    requires Plain(j) && ReadsIntegers(f)
    ensures Denotes(Render(j, format, 0), j, f) && BeginsWith(Render(j, format, 0), |Render(j, format, 0)|, j, f)
  {
    hide ValueAt, ReadsIntegers, Render, Plain;
    var t := Render(j, format, 0);
    var c := Buffer(t);
    PrintedFirst(j, format, 0);
    ValueWritten(j, c, 0, f, format, 0);
    ValueSpaced(c, 0, 0, |t|, |t|, j, f);
  }

  /** The text of a document is read back whole, as the same tree with its members in order,
      exactly when the document is nested at most 1000 deep; a deeper one is refused. */
  lemma ParseRendered(j: Json, format: bool, requireEnd: bool, f: Strtod)
    requires Plain(j) && ReadsIntegers(f)
    ensures ParseWithOpts(Render(j, format, 0), requireEnd, f) == Within(Nesting(j), j, |Render(j, format, 0)|)
  {
    hide ParseWithOpts, Denotes, BeginsWith, ReadsIntegers, Render, Nesting, Plain;
    var t := Render(j, format, 0);
    RenderDenotes(j, format, f);
    if requireEnd {
      ParsesExactly(t, j, |t|, f);
    } else {
      ParsesPrefix(t, j, |t|, f);
    }
  }

  /** Printing loses nothing: two documents with the same text are the same tree. */
  lemma RenderInjective(j: Json, k: Json, format: bool, otherFormat: bool, f: Strtod)
    requires Plain(j) && Plain(k) && Nesting(j) <= NESTING_LIMIT && ReadsIntegers(f)
    requires Render(j, format, 0) == Render(k, otherFormat, 0)
    ensures j == k
  {
    hide ParseWithOpts, Render, Nesting, Plain;
    ParseRendered(j, format, true, f);
    ParseRendered(k, otherFormat, true, f);
  }
}
