/** What the parser reads from a terminated text. */
module Parsing {
  import opened CStrings
  import opened Json
  import opened Decimals
  import opened Rendering
  import opened StringReader

  const NESTING_LIMIT := 1000

  /** A buffer that ends with its only 0. */
  ghost predicate NulTerminated(c: Bytes) {
    c != [] && c[|c|-1] == 0 && forall i :: 0 <= i < |c| - 1 ==> c[i] != 0
  }

  /** `strtod`: the number at the start of a text, and how many bytes it takes. */
  type Strtod = f: CStr -> (Num, nat) | forall t: CStr :: f(t).1 <= |t| witness (t => (0, 0))

  /** A `strtod` that reads plain decimal integers whole. */
  ghost predicate ReadsIntegers(f: Strtod) {
    forall n: Num :: f(DecText(n)) == (n, |DecText(n)|)
  }

  function DecText(n: Num): CStr {
    Render(Number(n), false, 0)
  }

  /** Different integers have different texts, so there is such a `strtod`. */
  lemma IntegersCanBeRead()
    ensures exists f: Strtod :: ReadsIntegers(f)
  {
    hide DecText;
    var f: Strtod := t => ReadDecimal(t);
    forall n: Num ensures f(DecText(n)) == (n, |DecText(n)|) {
      var t := DecText(n);
      var m: Num :| DecText(m) == t && ReadDecimal(t) == (m, |t|);
      DecTextInjective(n, m);
    }
    assert ReadsIntegers(f);
  }

  ghost function ReadDecimal(t: CStr): (Num, nat) {
    if exists n: Num :: DecText(n) == t then
      var n: Num :| DecText(n) == t;
      (n, |t|)
    else (0, 0)
  }

  lemma DecTextInjective(n: Num, m: Num)
    requires DecText(n) == DecText(m)
    ensures n == m
  {
    hide Dec, Accumulate;
    SignedText(n);
    SignedText(m);
    AccumulateDec(if n < 0 then -n else n);
    AccumulateDec(if m < 0 then -m else m);
  }

  lemma SignedText(n: Num)
    ensures var t := DecText(n);
            if n < 0 then t != [] && t[0] == DASH && t[1..] == Dec(-n) else t == Dec(n) && t[0] != DASH
  {
    hide Dec;
  }

  function SkipRun(c: Bytes, o: nat): (p: nat)
    requires o <= |c|
    ensures o <= p <= |c|
    ensures p < |c| ==> c[p] > 32
    ensures forall k :: o <= k < p ==> c[k] <= 32
    decreases |c| - o
  {
    if o < |c| && c[o] <= 32 then SkipRun(c, o + 1) else o
  }

  /** `buffer_skip_whitespace`: the terminator counts as white space, and a skip to the end steps back. */
  function SkipSpace(c: Bytes, o: nat): (p: nat)
    requires NulTerminated(c) && o <= |c|
    ensures p < |c| && (o < |c| ==> o <= p)
  {
    var p := SkipRun(c, o);
    if p == |c| then p - 1 else p
  }

  predicate NumberByte(b: Byte) {
    48 <= b <= 57 || b == 43 || b == 45 || b == 101 || b == 69 || b == 46
  }

  /** The bytes `parse_number` copies: at most 63 that can stand in a number. */
  function NumberText(c: Bytes, o: nat, room: nat): (t: CStr)
    requires o <= |c|
    ensures o + |t| <= |c| && |t| <= room
    ensures forall k :: 0 <= k < |t| ==> NumberByte(t[k]) && t[k] == c[o+k]
    decreases room
  {
    if room == 0 || o == |c| || !NumberByte(c[o]) then [] else [c[o]] + NumberText(c, o + 1, room - 1)
  }

  function ParseNumber(c: Bytes, o: nat, f: Strtod): (r: Parsed<Json>)
    requires NulTerminated(c) && o < |c|
    ensures r.Parsed? ==> o < r.next < |c|
  {
    var text := NumberText(c, o, 63);
    NumberTextStops(c, o);
    var (n, used) := f(text);
    if used == 0 then Failed else Parsed(Number(n), o + used)
  }

  lemma NumberTextStops(c: Bytes, o: nat)
    requires NulTerminated(c) && o < |c|
    ensures o + |NumberText(c, o, 63)| < |c|
  {
    var t := NumberText(c, o, 63);
    assert t != [] ==> t[|t|-1] == c[o+|t|-1];
  }

  predicate StartsWith(c: Bytes, o: nat, text: CStr)
    requires o <= |c|
  {
    o + |text| <= |c| && c[o..o+|text|] == text
  }

  function ParseValue(c: Bytes, o: nat, depth: nat, f: Strtod): (r: Parsed<Json>)
    requires NulTerminated(c) && o < |c|
    ensures r.Parsed? ==> o < r.next < |c|
    decreases |c| - o, 1
  {
    if StartsWith(c, o, NULL_TEXT) then ParsedWord(c, o, NULL_TEXT, Null)
    else if StartsWith(c, o, FALSE_TEXT) then ParsedWord(c, o, FALSE_TEXT, False)
    else if StartsWith(c, o, TRUE_TEXT) then ParsedWord(c, o, TRUE_TEXT, True)
    else if c[o] == QUOTE then
      var s := ParseString(c, o);
      if s.Failed? then Failed else Parsed(Text(s.value), s.next)
    else if c[o] == DASH || 48 <= c[o] <= 57 then ParseNumber(c, o, f)
    else if c[o] == OPEN_BRACKET then ParseArray(c, o, depth, f)
    else if c[o] == OPEN_BRACE then ParseObject(c, o, depth, f)
    else Failed
  }

  function ParsedWord(c: Bytes, o: nat, word: CStr, j: Json): (r: Parsed<Json>)
    requires NulTerminated(c) && o <= |c| && word != [] && StartsWith(c, o, word)
    ensures r.Parsed? && o < r.next < |c|
  {
    assert c[o+|word|-1] == c[o..o+|word|][|word|-1] == word[|word|-1];
    Parsed(j, o + |word|)
  }

  function ParseArray(c: Bytes, o: nat, depth: nat, f: Strtod): (r: Parsed<Json>)
    requires NulTerminated(c) && o < |c| && c[o] == OPEN_BRACKET
    ensures r.Parsed? ==> o < r.next < |c|
    decreases |c| - o, 0
  {
    if depth >= NESTING_LIMIT then Failed
    else
      var p := SkipSpace(c, o + 1);
      if c[p] == CLOSE_BRACKET then Parsed(Array([]), p + 1)
      else
        var es := ParseElements(c, p, depth + 1, f);
        if es.Failed? then Failed else Parsed(Array(es.value), es.next)
  }

  /** One element, and the white space around it. */
  function ParseElement(c: Bytes, o: nat, depth: nat, f: Strtod): (r: Parsed<Json>)
    requires NulTerminated(c) && o < |c|
    ensures r.Parsed? ==> o < r.next < |c|
    decreases |c| - o, 2
  {
    var v := ParseValue(c, SkipSpace(c, o), depth, f);
    if v.Failed? then Failed else Parsed(v.value, SkipSpace(c, v.next))
  }

  /** The elements from a place behind a bracket or a comma, and the closing bracket. */
  function ParseElements(c: Bytes, o: nat, depth: nat, f: Strtod): (r: Parsed<seq<Json>>)
    requires NulTerminated(c) && o < |c|
    ensures r.Parsed? ==> o < r.next < |c|
    decreases |c| - o, 3
  {
    var e := ParseElement(c, o, depth, f);
    if e.Failed? then Failed
    else if c[e.next] == COMMA then
      var rest := ParseElements(c, e.next + 1, depth, f);
      if rest.Failed? then Failed else Parsed([e.value] + rest.value, rest.next)
    else if c[e.next] == CLOSE_BRACKET then Parsed([e.value], e.next + 1)
    else Failed
  }

  function ParseObject(c: Bytes, o: nat, depth: nat, f: Strtod): (r: Parsed<Json>)
    requires NulTerminated(c) && o < |c| && c[o] == OPEN_BRACE
    ensures r.Parsed? ==> o < r.next < |c|
    decreases |c| - o, 0
  {
    if depth >= NESTING_LIMIT then Failed
    else
      var p := SkipSpace(c, o + 1);
      if c[p] == CLOSE_BRACE then Parsed(Object([]), p + 1)
      else
        var ms := ParseMembers(c, p, depth + 1, f);
        if ms.Failed? then Failed else Parsed(Object(ms.value), ms.next)
  }

  /** One member: a name, a colon and a value, and the white space around them. */
  function ParseMember(c: Bytes, o: nat, depth: nat, f: Strtod): (r: Parsed<Keyed<Json>>)
    requires NulTerminated(c) && o < |c|
    ensures r.Parsed? ==> o < r.next < |c|
    decreases |c| - o, 2
  {
    var name := ParseString(c, SkipSpace(c, o));
    if name.Failed? then Failed
    else
      var q := SkipSpace(c, name.next);
      if c[q] != COLON then Failed
      else
        var v := ParseValue(c, SkipSpace(c, q + 1), depth, f);
        if v.Failed? then Failed else Parsed(Keyed(name.value, v.value), SkipSpace(c, v.next))
  }

  function ParseMembers(c: Bytes, o: nat, depth: nat, f: Strtod): (r: Parsed<Members>)
    requires NulTerminated(c) && o < |c|
    ensures r.Parsed? ==> o < r.next < |c|
    decreases |c| - o, 3
  {
    var m := ParseMember(c, o, depth, f);
    if m.Failed? then Failed
    else if c[m.next] == COMMA then
      var rest := ParseMembers(c, m.next + 1, depth, f);
      if rest.Failed? then Failed else Parsed([m.value] + rest.value, rest.next)
    else if c[m.next] == CLOSE_BRACE then Parsed([m.value], m.next + 1)
    else Failed
  }

  /** No input gets the parser deeper than the limit: a value read at some depth nests no deeper than what is left. */
  lemma {:induction false} ValueWithinLimit(c: Bytes, o: nat, depth: nat, f: Strtod)
    requires NulTerminated(c) && o < |c| && depth <= NESTING_LIMIT
    ensures var r := ParseValue(c, o, depth, f);
            r.Parsed? ==> depth + Nesting(r.value) <= NESTING_LIMIT
    decreases |c| - o, 1
  {
    hide ParseString, ParseNumber, StartsWith, SkipSpace, ParseElements, ParseMembers;
    if c[o] == OPEN_BRACKET && depth < NESTING_LIMIT {
      ElementsWithinLimit(c, SkipSpace(c, o + 1), depth + 1, f);
    } else if c[o] == OPEN_BRACE && depth < NESTING_LIMIT {
      MembersWithinLimit(c, SkipSpace(c, o + 1), depth + 1, f);
    }
    NumberIsFlat(c, o, f);
  }

  lemma NumberIsFlat(c: Bytes, o: nat, f: Strtod)
    requires NulTerminated(c) && o < |c|
    ensures var r := ParseNumber(c, o, f); r.Parsed? ==> r.value.Number?
  {
  }

  lemma {:induction false} ElementsWithinLimit(c: Bytes, o: nat, depth: nat, f: Strtod)
    requires NulTerminated(c) && o < |c| && depth <= NESTING_LIMIT
    ensures var r := ParseElements(c, o, depth, f);
            r.Parsed? ==> depth + DeepestElement(r.value) <= NESTING_LIMIT
    decreases |c| - o, 3
  {
    hide ParseValue, SkipSpace;
    ValueWithinLimit(c, SkipSpace(c, o), depth, f);
    var e := ParseElement(c, o, depth, f);
    if e.Parsed? && c[e.next] == COMMA {
      ElementsWithinLimit(c, e.next + 1, depth, f);
    }
  }

  lemma {:induction false} MembersWithinLimit(c: Bytes, o: nat, depth: nat, f: Strtod)
    requires NulTerminated(c) && o < |c| && depth <= NESTING_LIMIT
    ensures var r := ParseMembers(c, o, depth, f);
            r.Parsed? ==> depth + DeepestMember(r.value) <= NESTING_LIMIT
    decreases |c| - o, 3
  {
    hide ParseMember;
    var m := ParseMember(c, o, depth, f);
    MemberWithinLimit(c, o, depth, f);
    if m.Parsed? && c[m.next] == COMMA {
      MembersWithinLimit(c, m.next + 1, depth, f);
    }
  }

  lemma {:induction false} MemberWithinLimit(c: Bytes, o: nat, depth: nat, f: Strtod)
    requires NulTerminated(c) && o < |c| && depth <= NESTING_LIMIT
    ensures var r := ParseMember(c, o, depth, f);
            r.Parsed? ==> depth + Nesting(r.value.item) <= NESTING_LIMIT
    decreases |c| - o, 2
  {
    hide ParseValue, ParseString, SkipSpace;
    var name := ParseString(c, SkipSpace(c, o));
    if name.Parsed? {
      var q := SkipSpace(c, name.next);
      if c[q] == COLON {
        ValueWithinLimit(c, SkipSpace(c, q + 1), depth, f);
      }
    }
  }

  /** `skip_utf8_bom`. */
  function SkipMark(c: Bytes): (o: nat)
    ensures o == 0 || o == 3 < |c|
  {
    if |c| > 4 && c[..3] == [0xEF, 0xBB, 0xBF] then 3 else 0
  }

  function Buffer(text: CStr): (c: Bytes)
    ensures NulTerminated(c) && |c| == |text| + 1 && c[..|text|] == text
  {
    var t: Bytes := text;
    t + [0]
  }

  /** `cJSON_ParseWithOpts`, from the text in front of a terminator; the place it stops at. */
  function ParseWithOpts(text: CStr, requireEnd: bool, f: Strtod): Parsed<Json> {
    var c := Buffer(text);
    var r := ParseValue(c, SkipSpace(c, SkipMark(c)), 0, f);
    if r.Failed? || !requireEnd then r
    else
      var p := SkipSpace(c, r.next);
      if c[p] == 0 then Parsed(r.value, p) else Failed
  }
}
