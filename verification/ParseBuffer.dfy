/** The parser as it runs: an offset and a depth over a buffer. */
module ParseBuffers {
  import opened CStrings
  import opened Json
  import opened Rendering
  import opened Unicode
  import opened StringReader
  import opened Parsing

  class ParseBuffer {
    const content: Bytes
    var offset: nat
    /** How deeply nested the input is at the offset. */
    var depth: nat
    const strtod: Strtod

    ghost predicate Valid()
      reads this
    {
      NulTerminated(content) && offset < |content| && depth <= NESTING_LIMIT
    }

    constructor (content: Bytes, strtod: Strtod)
      requires NulTerminated(content)
      ensures Valid() && this.content == content && this.strtod == strtod && offset == 0 && depth == 0
    {
      this.content := content;
      this.strtod := strtod;
      offset, depth := 0, 0;
    }

    /** `buffer_skip_whitespace`. */
    method SkipWhitespace()
      requires NulTerminated(content) && offset <= |content| && depth <= NESTING_LIMIT
      modifies this`offset
      ensures Valid() && offset == SkipSpace(content, old(offset))
    {
      while offset < |content| && content[offset] <= 32
        invariant old(offset) <= offset <= |content| && SkipRun(content, offset) == SkipRun(content, old(offset))
      {
        offset := offset + 1;
      }
      if offset == |content| {
        offset := offset - 1;
      }
    }

    /** The first pass of `parse_string`: the closing quote, and how many bytes are escaped. */
    method MeasureString() returns (end: Option<nat>, skipped: nat)
      requires Valid()
      ensures end == ScanEnd(content, offset + 1)
      ensures end.Some? ==> end.value - (offset + 1) - skipped == Weight(content, offset + 1, end.value)
    {
      var i := offset + 1;
      skipped := 0;
      while i < |content| && content[i] != QUOTE
        invariant offset + 1 <= i && skipped <= i - (offset + 1) && ScanEnd(content, i) == ScanEnd(content, offset + 1)
        invariant ScanEnd(content, i).Some? ==>
          var e := ScanEnd(content, i).value;
          i - (offset + 1) - skipped + Weight(content, i, e) == Weight(content, offset + 1, e)
        decreases |content| - i
      {
        if content[i] == BACKSLASH {
          if i + 1 >= |content| {
            return None, skipped;
          }
          skipped := skipped + 1;
          i := i + 1;
        }
        i := i + 1;
      }
      return if i < |content| then Some(i) else None, skipped;
    }

    /** The second pass of `parse_string`. What it writes fits, whether or not it is in step. */
    method DecodeString(output: array<Byte>, start: nat, end: nat) returns (length: Option<nat>, stopped: nat)
      requires OnTrack(content, start, end) && output.Length == Weight(content, start, end) + 2
      modifies output
      ensures var u := Unescape(content, start, end);
              if u.None? then length.None?
              else length == Some(|u.value|) && |u.value| < output.Length && output[..|u.value|] == u.value
      ensures stopped <= end + 1
    {
      hide DecodeOne, Unescape, Weight, WithinBudget, OnTrack, Behind;
      StartInBudget(content, start, end);
      var i: nat, n: nat := start, 0;
      ghost var budget: int := Weight(content, start, end);
      ghost var u: Bytes, whole := [], Unescape(content, start, end);
      BehindNothing(whole);
      while i < end
        invariant i <= end + 1 && WithinBudget(content, i, end, budget)
        invariant budget >= 0 && n + budget + 2 <= output.Length && output[..n] == u
        invariant whole == Behind(u, Unescape(content, i, end))
        decreases end + 1 - i
      {
        ghost var d := DecodeOne(content, i, end);
        if d.Decoded? {
          TurnWithinBudget(content, i, end, budget);
          BehindTurn(u, content, i, end);
        }
        var consumed;
        consumed, n := DecodeTurn(output, n, i, end);
        if consumed == 0 {
          RefusedBehind(u, content, i, end);
          return None, i;
        }
        u, budget := u + d.bytes, budget - |d.bytes|;
        i := i + consumed;
      }
      NothingBehind(u, content, i, end);
      return Some(n), i;
    }

    /** One turn of the second pass. */
    method DecodeTurn(output: array<Byte>, n: nat, i: nat, end: nat) returns (consumed: nat, next: nat)
      requires i < end < |content|
      requires var d := DecodeOne(content, i, end); d.Decoded? ==> n + |d.bytes| <= output.Length
      modifies output
      ensures var d := DecodeOne(content, i, end);
              if d.Refused? then consumed == 0
              else consumed == d.consumed && next == n + |d.bytes| <= output.Length && output[..next] == old(output[..n]) + d.bytes
    {
      next := n;
      if content[i] != BACKSLASH {
        output[n] := content[i];
        return 1, n + 1;
      }
      consumed := 2;
      match content[i+1] {
        case 98 => output[n] := 8;
        case 102 => output[n] := 12;
        case 110 => output[n] := 10;
        case 114 => output[n] := 13;
        case 116 => output[n] := 9;
        case 34 => output[n] := content[i+1];
        case 92 => output[n] := content[i+1];
        case 47 => output[n] := content[i+1];
        case 117 =>
          consumed, next := Utf16LiteralToUtf8(content, i, end, output, n);
          return;
        case _ => return 0, n;
      }
      next := n + 1;
    }

    /** `parse_string`: the array has exactly the size the first pass computed. */
    method ReadString() returns (r: Option<CStr>)
      requires Valid()
      modifies this`offset
      ensures var p := ParseString(content, old(offset));
              if p.Failed? then r.None? else r == Some(p.value) && offset == p.next
    {
      var start := offset + 1;
      if content[offset] != QUOTE {
        offset := start;
        return None;
      }
      var end, skipped := MeasureString();
      if end.None? {
        offset := start;
        return None;
      }
      var output := new Byte[end.value - offset - skipped + 1];
      var length, stopped := DecodeString(output, start, end.value);
      if length.None? {
        offset := stopped;
        return None;
      }
      output[length.value] := 0;
      offset := end.value + 1;
      CTextStops(Unescape(content, start, end.value).value, output[..]);
      r := Some(CText(output[..]));
    }

    /** The loop of `parse_number` that copies what can stand in a number. */
    method CopyNumber() returns (text: CStr)
      requires Valid()
      ensures text == NumberText(content, offset, 63)
    {
      hide NumberText, NumberByte, NulTerminated;
      ghost var whole := NumberText(content, offset, 63);
      text := [];
      NoNumberText(content, offset);
      var i := 0;
      while i < 63 && offset + i < |content| && NumberByte(content[offset+i])
        invariant i <= 63 && offset + i <= |content| && whole == text + NumberText(content, offset + i, 63 - i)
      {
        NumberTurn(text, content, offset + i, 63 - i);
        text := text + [content[offset+i]];
        i := i + 1;
      }
      NumberEnd(content, offset + i, 63 - i);
      assert text + [] == text;
    }

    /** `parse_number`. */
    method ReadNumber() returns (r: Option<Json>)
      requires Valid()
      modifies this`offset
      ensures Result(r, ParseNumber(content, old(offset), strtod)) && depth == old(depth)
    {
      hide NumberText;
      var text := CopyNumber();
      NumberTextStops(content, offset);
      var (n, used) := strtod(text);
      if used == 0 {
        return None;
      }
      offset := offset + used;
      return Some(Number(n));
    }

    /** The result is what the text says, and the offset stands behind it; the depth stays within the limit either way. */
    ghost predicate Result<T>(r: Option<T>, p: Parsed<T>)
      reads this
    {
      match p
      case Failed => r.None? && depth <= NESTING_LIMIT
      case Parsed(value, next) => r == Some(value) && offset == next && Valid()
    }

    predicate AtWord(word: CStr)
      requires offset <= |content|
      reads this
    {
      StartsWith(content, offset, word)
    }

    /** `parse_value`. */
    method ReadValue() returns (r: Option<Json>)
      requires Valid()
      modifies this
      ensures Result(r, ParseValue(content, old(offset), old(depth), strtod)) && (r.Some? ==> depth == old(depth))
      decreases |content| - offset, 1
    {
      hide ParseArray, ParseObject, ParseNumber, ParseString;
      if AtWord(NULL_TEXT) {
        offset := offset + |NULL_TEXT|;
        return Some(Null);
      }
      if AtWord(FALSE_TEXT) {
        offset := offset + |FALSE_TEXT|;
        return Some(False);
      }
      if AtWord(TRUE_TEXT) {
        offset := offset + |TRUE_TEXT|;
        return Some(True);
      }
      var c := content[offset];
      if c == QUOTE {
        var s := ReadString();
        return if s.None? then None else Some(Text(s.value));
      }
      if c == DASH || 48 <= c <= 57 {
        r := ReadNumber();
      } else if c == OPEN_BRACKET {
        r := ReadArray();
      } else if c == OPEN_BRACE {
        r := ReadObject();
      } else {
        r := None;
      }
    }

    /** `parse_array`. */
    method ReadArray() returns (r: Option<Json>)
      requires Valid() && content[offset] == OPEN_BRACKET
      modifies this
      ensures Result(r, ParseArray(content, old(offset), old(depth), strtod)) && (r.Some? ==> depth == old(depth))
      decreases |content| - offset, 0
    {
      hide ParseElements, SkipSpace, SkipRun;
      if depth >= NESTING_LIMIT {
        return None;
      }
      depth := depth + 1;
      offset := offset + 1;
      SkipWhitespace();
      if content[offset] == CLOSE_BRACKET {
        depth := depth - 1;
        offset := offset + 1;
        return Some(Array([]));
      }
      var es := ReadElements();
      if es.None? {
        return None;
      }
      depth := depth - 1;
      return Some(Array(es.value));
    }

    /** One turn of the loop over the elements. */
    method ReadElement() returns (r: Option<Json>)
      requires Valid()
      modifies this
      ensures Result(r, ParseElement(content, old(offset), old(depth), strtod)) && (r.Some? ==> depth == old(depth))
      decreases |content| - offset, 2
    {
      SkipWhitespace();
      r := ReadValue();
      if r.Some? {
        SkipWhitespace();
      }
    }

    /** The loop over the elements, which first steps back in front of the first one. */
    method ReadElements() returns (r: Option<seq<Json>>)
      requires Valid() && offset > 0
      modifies this
      ensures Result(r, ParseElements(content, old(offset), old(depth), strtod)) && (r.Some? ==> depth == old(depth))
      decreases |content| - offset, 3
    {
      hide ParseElements, ParseElement, SkipSpace, SkipRun;
      var items: seq<Json> := [];
      offset := offset - 1;
      ghost var whole := ParseElements(content, old(offset), depth, strtod);
      BeforeNothing(whole);
      while true
        invariant offset + 1 < |content| && old(offset) <= offset + 1 && depth == old(depth) && NulTerminated(content)
        invariant whole == Before(items, ParseElements(content, offset + 1, depth, strtod))
        decreases |content| - offset
      {
        ElementsTurn(items, content, offset + 1, depth, strtod);
        offset := offset + 1;
        var e := ReadElement();
        if e.None? {
          return None;
        }
        items := items + [e.value];
        if content[offset] != COMMA {
          break;
        }
      }
      if content[offset] != CLOSE_BRACKET {
        return None;
      }
      offset := offset + 1;
      return Some(items);
    }

    /** `parse_object`. */
    method ReadObject() returns (r: Option<Json>)
      requires Valid() && content[offset] == OPEN_BRACE
      modifies this
      ensures Result(r, ParseObject(content, old(offset), old(depth), strtod)) && (r.Some? ==> depth == old(depth))
      decreases |content| - offset, 0
    {
      hide ParseMembers, SkipSpace, SkipRun;
      if depth >= NESTING_LIMIT {
        return None;
      }
      depth := depth + 1;
      offset := offset + 1;
      SkipWhitespace();
      if content[offset] == CLOSE_BRACE {
        depth := depth - 1;
        offset := offset + 1;
        return Some(Object([]));
      }
      var ms := ReadMembers();
      if ms.None? {
        return None;
      }
      depth := depth - 1;
      return Some(Object(ms.value));
    }

    /** Name, colon and value of a member. */
    method ReadMember() returns (r: Option<Keyed<Json>>)
      requires Valid()
      modifies this
      ensures Result(r, ParseMember(content, old(offset), old(depth), strtod)) && (r.Some? ==> depth == old(depth))
      decreases |content| - offset, 2
    {
      hide ParseValue, ParseString, SkipSpace, SkipRun;
      SkipWhitespace();
      var name := ReadString();
      if name.None? {
        return None;
      }
      SkipWhitespace();
      if content[offset] != COLON {
        return None;
      }
      offset := offset + 1;
      SkipWhitespace();
      var v := ReadValue();
      if v.None? {
        return None;
      }
      SkipWhitespace();
      return Some(Keyed(name.value, v.value));
    }

    method ReadMembers() returns (r: Option<Members>)
      requires Valid() && offset > 0
      modifies this
      ensures Result(r, ParseMembers(content, old(offset), old(depth), strtod)) && (r.Some? ==> depth == old(depth))
      decreases |content| - offset, 3
    {
      hide ParseMembers, ParseMember, SkipSpace, SkipRun;
      var items: Members := [];
      offset := offset - 1;
      ghost var whole := ParseMembers(content, old(offset), depth, strtod);
      BeforeNothing(whole);
      while true
        invariant offset + 1 < |content| && old(offset) <= offset + 1 && depth == old(depth) && NulTerminated(content)
        invariant whole == Before(items, ParseMembers(content, offset + 1, depth, strtod))
        decreases |content| - offset
      {
        MembersTurn(items, content, offset + 1, depth, strtod);
        offset := offset + 1;
        var m := ReadMember();
        if m.None? {
          return None;
        }
        items := items + [m.value];
        if content[offset] != COMMA {
          break;
        }
      }
      if content[offset] != CLOSE_BRACE {
        return None;
      }
      offset := offset + 1;
      return Some(items);
    }
  }

  /** `cJSON_ParseWithOpts` on the text in front of a terminator. */
  method ParseText(text: CStr, requireEnd: bool, f: Strtod) returns (r: Option<Json>, end: nat)
    ensures match ParseWithOpts(text, requireEnd, f)
            case Failed => r.None?
            case Parsed(j, next) => r == Some(j) && end == next
  {
    var b := new ParseBuffer(Buffer(text), f);
    if |b.content| > 4 && b.content[..3] == [0xEF, 0xBB, 0xBF] {
      b.offset := 3;
    }
    b.SkipWhitespace();
    r := b.ReadValue();
    if r.None? {
      return None, 0;
    }
    if requireEnd {
      b.SkipWhitespace();
      if b.content[b.offset] != 0 {
        return None, 0;
      }
    }
    end := b.offset;
  }

  ghost function Before<T>(items: seq<T>, rest: Parsed<seq<T>>): Parsed<seq<T>> {
    if rest.Failed? then Failed else Parsed(items + rest.value, rest.next)
  }

  lemma BeforeNothing<T>(rest: Parsed<seq<T>>)
    ensures Before([], rest) == rest
  {
    if rest.Parsed? {
      assert [] + rest.value == rest.value;
    }
  }

  lemma BeforeMore<T>(items: seq<T>, item: T, rest: Parsed<seq<T>>)
    ensures Before(items, Before([item], rest)) == Before(items + [item], rest)
  {
    if rest.Parsed? {
      assert items + ([item] + rest.value) == items + [item] + rest.value;
    }
  }

  /** One turn of the loop over the elements. */
  lemma ElementsTurn(items: seq<Json>, c: Bytes, o: nat, depth: nat, f: Strtod)
    requires NulTerminated(c) && o < |c|
    ensures var whole := Before(items, ParseElements(c, o, depth, f));
            match ParseElement(c, o, depth, f)
            case Failed => whole.Failed?
            case Parsed(e, q) =>
              if c[q] == COMMA then whole == Before(items + [e], ParseElements(c, q + 1, depth, f))
              else if c[q] == CLOSE_BRACKET then whole == Parsed(items + [e], q + 1)
              else whole.Failed?
  {
    hide ParseElement, ParseValue, SkipSpace;
    var e := ParseElement(c, o, depth, f);
    if e.Parsed? && c[e.next] == COMMA {
      BeforeMore(items, e.value, ParseElements(c, e.next + 1, depth, f));
    }
  }

  lemma MembersTurn(items: Members, c: Bytes, o: nat, depth: nat, f: Strtod)
    requires NulTerminated(c) && o < |c|
    ensures var whole := Before(items, ParseMembers(c, o, depth, f));
            match ParseMember(c, o, depth, f)
            case Failed => whole.Failed?
            case Parsed(m, q) =>
              if c[q] == COMMA then whole == Before(items + [m], ParseMembers(c, q + 1, depth, f))
              else if c[q] == CLOSE_BRACE then whole == Parsed(items + [m], q + 1)
              else whole.Failed?
  {
    hide ParseMember, ParseValue, SkipSpace;
    var m := ParseMember(c, o, depth, f);
    if m.Parsed? && c[m.next] == COMMA {
      BeforeMore(items, m.value, ParseMembers(c, m.next + 1, depth, f));
    }
  }

  lemma NoNumberText(c: Bytes, o: nat)
    requires o <= |c|
    ensures var none: CStr := []; none + NumberText(c, o, 63) == NumberText(c, o, 63)
  {
  }

  lemma NumberTurn(front: CStr, c: Bytes, o: nat, room: nat)
    requires room > 0 && o < |c| && NumberByte(c[o])
    ensures c[o] != 0 && front + NumberText(c, o, room) == front + [c[o]] + NumberText(c, o + 1, room - 1)
  {
    assert front + ([c[o]] + NumberText(c, o + 1, room - 1)) == front + [c[o]] + NumberText(c, o + 1, room - 1);
  }

  lemma NumberEnd(c: Bytes, o: nat, room: nat)
    requires o <= |c| && (room == 0 || o == |c| || !NumberByte(c[o]))
    ensures NumberText(c, o, room) == []
  {
  }

  ghost function Behind(front: Bytes, rest: Option<Bytes>): Option<Bytes> {
    if rest.None? then None else Some(front + rest.value)
  }

  lemma BehindNothing(rest: Option<Bytes>)
    ensures Behind([], rest) == rest
  {
    if rest.Some? {
      assert [] + rest.value == rest.value;
    }
  }

  lemma StartInBudget(c: Bytes, start: nat, end: nat)
    requires OnTrack(c, start, end)
    ensures start <= end < |c| && c[end] == QUOTE && Weight(c, start, end) >= 0 && WithinBudget(c, start, end, Weight(c, start, end))
  {
  }

  lemma NothingBehind(front: Bytes, c: Bytes, i: nat, end: nat)
    requires end <= i <= end + 1 && end < |c|
    ensures Behind(front, Unescape(c, i, end)) == Some(front)
  {
    assert front + [] == front;
  }

  lemma RefusedBehind(front: Bytes, c: Bytes, i: nat, end: nat)
    requires i < end < |c| && DecodeOne(c, i, end).Refused?
    ensures Behind(front, Unescape(c, i, end)).None?
  {
  }

  lemma BehindTurn(front: Bytes, c: Bytes, i: nat, end: nat)
    requires i < end < |c| && DecodeOne(c, i, end).Decoded?
    ensures var d := DecodeOne(c, i, end);
            Behind(front, Unescape(c, i, end)) == Behind(front + d.bytes, Unescape(c, i + d.consumed, end))
  {
    var d := DecodeOne(c, i, end);
    var rest := Unescape(c, i + d.consumed, end);
    if rest.Some? {
      assert front + (d.bytes + rest.value) == front + d.bytes + rest.value;
    }
  }
}
