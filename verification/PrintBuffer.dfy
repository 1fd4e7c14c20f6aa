/** The printers: text written into a buffer that grows, or into one of a fixed size. */
module PrintBuffers {
  import opened Sequences
  import opened CStrings
  import opened Json
  import opened Decimals
  import opened Rendering

  /** Copy a text into an array. */
  method Write(b: array<Byte>, at: nat, text: CStr)
    requires at + |text| <= b.Length
    modifies b
    ensures b[..at+|text|] == old(b[..at]) + text
  {
    for i := 0 to |text|
      invariant forall k :: at <= k < at + i ==> b[k] == text[k-at]
      invariant forall k :: 0 <= k < at ==> b[k] == old(b[k])
    {
      b[at+i] := text[i];
    }
  }

  /** How many bytes escaping adds. */
  method CountEscapes(s: CStr) returns (escapes: nat)
    ensures |s| + escapes == |EscapeAll(s)|
  {
    escapes := 0;
    assert s[0..] == s;
    for i := 0 to |s|
      invariant i + escapes + |EscapeAll(s[i..])| == |EscapeAll(s)|
    {
      assert s[i..][1..] == s[i+1..];
      if s[i] == QUOTE || s[i] == BACKSLASH || s[i] == 8 || s[i] == 12 || s[i] == NEWLINE || s[i] == 13 || s[i] == TAB {
        escapes := escapes + 1;
      } else if s[i] < 32 {
        escapes := escapes + 5;
      }
    }
  }

  lemma {:induction false} NothingEscaped(s: CStr)
    ensures |EscapeAll(s)| >= |s|
    ensures |EscapeAll(s)| == |s| ==> EscapeAll(s) == s
  {
    if s != [] {
      NothingEscaped(s[1..]);
    }
  }

  lemma EscapeStep(s: CStr, i: nat)
    requires i < |s|
    ensures EscapeAll(s[i..]) == Escape(s[i]) + EscapeAll(s[i+1..])
  {
    assert s[i..][1..] == s[i+1..];
  }

  lemma EscapeNothing(s: CStr)
    ensures EscapeAll(s[|s|..]) == []
  {
  }

  /** Copy a string, escaping what needs it. */
  method WriteEscaped(b: array<Byte>, at: nat, s: CStr)
    requires at + |EscapeAll(s)| <= b.Length
    modifies b
    ensures b[..at+|EscapeAll(s)|] == old(b[..at]) + EscapeAll(s)
  {
    hide Escape, EscapeAll;
    var output := at;
    ghost var start, done: CStr, all := b[..at], [], EscapeAll(s);
    assert s[0..] == s && [] + all == all && start + [] == start;
    for i := 0 to |s|
      invariant all == done + EscapeAll(s[i..])
      invariant output == at + |done| && output + |EscapeAll(s[i..])| <= b.Length && b[..output] == start + done
    {
      ghost var piece := Escape(s[i]);
      EscapeStep(s, i);
      Regroup(done, piece, EscapeAll(s[i+1..]));
      Regroup(start, done, piece);
      Write(b, output, Escape(s[i]));
      output := output + |Escape(s[i])|;
      done := done + piece;
    }
    EscapeNothing(s);
    assert done + [] == done;
  }

  /** The filling pass of `print_string_ptr`. */
  method FillString(b: array<Byte>, at: nat, s: CStr, escapes: nat)
    requires |s| + escapes == |EscapeAll(s)| && at + |RenderString(s)| < b.Length
    modifies b
    ensures b[..at+|RenderString(s)|] == old(b[..at]) + RenderString(s) && b[at+|RenderString(s)|] == 0
  {
    hide EscapeAll;
    if escapes == 0 {
      NothingEscaped(s);
      Write(b, at, [QUOTE] + s + [QUOTE]);
    } else {
      Write(b, at, [QUOTE]);
      WriteEscaped(b, at + 1, s);
      Write(b, at + 1 + |s| + escapes, [QUOTE]);
    }
    b[at+|s|+escapes+2] := 0;
  }

  function ElementText(e: Json, last: bool, format: bool, depth: nat): CStr {
    Render(e, format, depth) + (if last then [] else Separator(format))
  }

  function MemberText(m: Keyed<Json>, last: bool, format: bool, depth: nat): CStr {
    MemberHead(m.key, format, depth) + Render(m.item, format, depth) + MemberEnd(last, format)
  }

  function ArrayText(es: seq<Json>, format: bool, depth: nat): CStr {
    [OPEN_BRACKET] + RenderElements(es, format, depth + 1) + [CLOSE_BRACKET]
  }

  function ObjectText(ms: Members, format: bool, depth: nat): CStr {
    OpenObject(format) + RenderMembers(ms, format, depth + 1) + CloseObject(format, depth)
  }

  /** What has been written and stepped over, and what has been written behind it. */
  datatype Written = Written(done: Bytes, pending: CStr)

  class PrintBuffer {
    var buffer: array<Byte>
    var length: nat
    var offset: nat
    var depth: nat
    const noalloc: bool
    const format: bool
    /** Whether the hooks offer a reallocation. */
    const reallocates: bool
    ghost var written: Written

    ghost predicate Valid()
      reads this, buffer
    {
      match written
      case Written(done, pending) =>
        buffer.Length == length <= INT_MAX && (offset < length || offset == length == 0) &&
        |done| <= offset <= |done| + |pending| <= length && buffer[..|done|+|pending|] == done + pending
    }

    ghost predicate Terminated()
      reads this, buffer
    {
      match written
      case Written(done, pending) => |done| + |pending| < buffer.Length && buffer[|done|+|pending|] == 0
    }

    /** The size the buffer may reach. */
    function Limit(): nat
      reads this
    {
      if noalloc then length else INT_MAX
    }

    /** The state is good, and the buffer is the one it was, or a new one where growing is allowed. */
    twostate predicate Kept()
      reads this, buffer
    {
      match written
      case Written(_, _) =>
        Valid() && Limit() == old(Limit()) && (noalloc ==> buffer == old(buffer)) && (buffer == old(buffer) || fresh(buffer))
    }

    /** A text was written and stepped over. */
    twostate predicate Stepped(text: CStr)
      reads this
    {
      match written
      case Written(done, pending) => pending == [] && done == old(written.done) + text && depth == old(depth)
    }

    /** A text was written and terminated; the offset may still lag behind its end. */
    twostate predicate Printed(text: CStr)
      reads this, buffer
    {
      match written
      case Written(done, pending) => Terminated() && done == old(written.done) && pending == text && depth == old(depth)
    }

    /** A buffer that starts with one size, as `print`, `cJSON_PrintBuffered` and
        `cJSON_PrintPreallocated` make them. */
    constructor (buffer: array<Byte>, noalloc: bool, format: bool, reallocates: bool)
      requires buffer.Length <= INT_MAX
      ensures Valid() && this.buffer == buffer && written == Written([], []) && depth == 0
      ensures this.noalloc == noalloc && this.format == format
    {
      this.buffer := buffer;
      length := buffer.Length;
      offset := 0;
      depth := 0;
      this.noalloc := noalloc;
      this.format := format;
      this.reallocates := reallocates;
      written := Written([], []);
    }

    /** `ensure`: room for `needed` bytes at the offset, and one more. */
    method Ensure(needed: nat) returns (ok: bool)
      requires Valid() && written.pending == []
      modifies this`buffer, this`length
      ensures ok == (offset + needed + 1 <= old(Limit()))
      ensures ok ==> offset + needed + 1 <= length
      ensures Kept()
    {
      if length > 0 && offset >= length {
        return false;
      }
      if needed > INT_MAX {
        return false;
      }
      var size := needed + offset + 1;
      if size <= length {
        return true;
      }
      if noalloc {
        return false;
      }
      var newsize := size * 2;
      if size > INT_MAX / 2 {
        if size > INT_MAX {
          return false;
        }
        newsize := INT_MAX;
      }
      var newbuffer := new Byte[newsize];
      var kept := if reallocates then length else if length == 0 then 0 else offset + 1;
      forall i | 0 <= i < kept {
        newbuffer[i] := buffer[i];
      }
      assert newbuffer[..offset] == buffer[..offset];
      length := newsize;
      buffer := newbuffer;
      return true;
    }

    /** `update_offset`: move to the terminator. */
    method UpdateOffset()
      requires Valid() && Terminated()
      modifies this`offset, this`written
      ensures Valid() && written == Written(old(written.done + written.pending), [])
    {
      ghost var done, pending := written.done, written.pending;
      ghost var end := |done| + |pending|;
      assert forall k :: |done| <= k < end ==> buffer[k] == buffer[..end][k] == pending[k-|done|];
      while buffer[offset] != 0
        modifies this`offset
        invariant |done| <= offset <= end
        decreases buffer.Length - offset
      {
        offset := offset + 1;
      }
      written := Written(done + pending, []);
    }

    /** Reserve, write a text, and terminate it or not. */
    method Emit(text: CStr, needed: nat, terminate: bool) returns (ok: bool)
      requires Valid() && written.pending == [] && |text| <= needed
      modifies this`buffer, this`length, this`written, buffer
      ensures ok == (old(offset) + needed + 1 <= old(Limit()))
      ensures Kept()
      ensures ok ==> offset + |text| < length && written == Written(old(written.done), text)
      ensures ok && terminate ==> Printed(text)
    {
      ok := Ensure(needed);
      if ok {
        Place(text, terminate);
      }
    }

    /** Write a text where there is room for it. */
    method Place(text: CStr, terminate: bool)
      requires Valid() && written.pending == [] && offset + |text| < length
      modifies this`written, buffer
      ensures Valid() && written == Written(old(written.done), text)
      ensures terminate ==> Terminated()
    {
      assert buffer[..offset] == written.done;
      Write(buffer, offset, text);
      if terminate {
        ghost var b := buffer[..offset+|text|];
        buffer[offset+|text|] := 0;
        assert buffer[..offset+|text|] == b;
      }
      written := Written(written.done, text);
    }

    /** The same, and step over it. */
    method EmitOver(text: CStr, needed: nat, terminate: bool) returns (ok: bool)
      requires Valid() && written.pending == [] && |text| <= needed
      modifies this`buffer, this`length, this`offset, this`written, buffer
      ensures ok == (old(offset) + needed + 1 <= old(Limit()))
      ensures Kept()
      ensures ok ==> Stepped(text) && (terminate ==> Terminated())
    {
      ok := Emit(text, needed, terminate);
      if ok {
        offset := offset + |text|;
        written := Written(written.done + text, []);
      }
    }

    /** Look at the last texts as one. */
    ghost method Gather(before: Bytes, text: CStr)
      requires Valid() && Terminated() && written.done + written.pending == before + text && |before| <= |written.done|
      modifies this`written
      ensures Valid() && Terminated() && written == Written(before, text)
    {
      written := Written(before, text);
    }

    /** The last text of a container, whose texts so far are `front`. */
    method Close(text: CStr, needed: nat, ghost before: Bytes, ghost front: CStr) returns (ok: bool)
      requires Valid() && written == Written(before + front, []) && |text| <= needed && depth > 0
      modifies this, buffer
      ensures ok == (old(offset) + needed + 1 <= old(Limit()))
      ensures Kept()
      ensures ok ==> Terminated() && written == Written(before, front + text) && depth == old(depth) - 1
    {
      ok := Emit(text, needed, true);
      if ok {
        depth := depth - 1;
        Regroup(before, front, text);
        Gather(before, front + text);
      }
    }

    /** `print_number`, for the integers the model has. */
    method PrintNumber(n: Num) returns (ok: bool)
      requires Valid() && written.pending == []
      modifies this, buffer
      ensures ok == (old(offset) + |DecInt(n)| + 2 <= old(Limit()))
      ensures Kept()
      ensures ok ==> Printed(DecInt(n))
    {
      var text := DecInt(n);
      DecIntLength(n);
      if |text| > 25 {
        return false;
      }
      ok := EmitOver(text, |text| + 1, true);
      if ok {
        Gather(old(written.done), text);
      }
    }

    /** `print_string_ptr`: count, reserve, fill. */
    method PrintString(s: CStr) returns (ok: bool)
      requires Valid() && written.pending == []
      modifies this, buffer
      ensures ok == (old(offset) + |RenderString(s)| + 2 <= old(Limit()))
      ensures Kept()
      ensures ok ==> Printed(RenderString(s))
    {
      var escapes := CountEscapes(s);
      ok := Ensure(|s| + escapes + 3);
      if ok {
        Fill(s, escapes);
      }
    }

    method Fill(s: CStr, escapes: nat)
      requires Valid() && written.pending == []
      requires |s| + escapes == |EscapeAll(s)| && offset + |RenderString(s)| < length
      modifies this`written, buffer
      ensures Valid() && Terminated() && written == Written(old(written.done), RenderString(s))
    {
      ghost var text := RenderString(s);
      assert buffer[..offset] == written.done;
      FillString(buffer, offset, s, escapes);
      assert buffer[..offset+|text|] == written.done + text;
      written := Written(written.done, text);
    }

    /** `print_value`: succeeds exactly when the value is printable and its text fits with two
        bytes to spare. */
    method PrintValue(item: Json) returns (ok: bool)
      requires Valid() && written.pending == []
      modifies this, buffer
      ensures ok == (Printable(item) && old(offset) + |Render(item, format, old(depth))| + 2 <= old(Limit()))
      ensures Kept()
      ensures ok ==> Printed(Render(item, format, old(depth)))
      decreases item, 3
    {
      match item
      case Array(es) => ok := PrintArray(es);
      case Object(ms) => ok := PrintObject(ms);
      case _ => ok := PrintLeaf(item);
    }

    /** The cases without children. */
    method PrintLeaf(item: Json) returns (ok: bool)
      requires Valid() && written.pending == [] && !item.Array? && !item.Object?
      modifies this, buffer
      ensures ok == (!item.Invalid? && old(offset) + |Render(item, format, old(depth))| + 2 <= old(Limit()))
      ensures Kept()
      ensures ok ==> Printed(Render(item, format, old(depth)))
    {
      match item
      case Null => ok := Emit(NULL_TEXT, 5, true);
      case False => ok := Emit(FALSE_TEXT, 6, true);
      case True => ok := Emit(TRUE_TEXT, 5, true);
      case Number(n) => ok := PrintNumber(n);
      case Raw(s) => ok := Emit(s, |s| + 1, true);
      case Text(s) => ok := PrintString(s);
      case _ => ok := false;
    }

    method PrintArray(es: seq<Json>) returns (ok: bool)
      requires Valid() && written.pending == []
      modifies this, buffer
      ensures ok == (AllPrintable(es) && old(offset) + |ArrayText(es, format, old(depth))| + 2 <= old(Limit()))
      ensures Kept()
      ensures ok ==> Printed(ArrayText(es, format, old(depth)))
      decreases es, 2
    {
      hide RenderElements, AllPrintable;
      ghost var inner := RenderElements(es, format, depth + 1);
      ok := EmitOver([OPEN_BRACKET], 1, false);
      if ok {
        depth := depth + 1;
        ok := PrintElements(es);
        if ok {
          Regroup(old(written.done), [OPEN_BRACKET], inner);
          ok := Close([CLOSE_BRACKET], 2, old(written.done), [OPEN_BRACKET] + inner);
        }
      }
    }

    /** The loop over the elements. */
    method PrintElements(es: seq<Json>) returns (ok: bool)
      requires Valid() && written.pending == []
      modifies this, buffer
      ensures ok == (AllPrintable(es) && (es == [] || old(offset) + |RenderElements(es, format, old(depth))| + 2 <= old(Limit())))
      ensures Kept()
      ensures ok ==> Stepped(RenderElements(es, format, old(depth)))
      decreases es, 1
    {
      hide ElementText, RenderElements, Printable;
      var i := 0;
      ok := true;
      ghost var text, d := RenderElements(es, format, depth), depth;
      ghost var sofar: CStr := [];
      assert es[0..] == es;
      while ok && i < |es|
        invariant i <= |es| && Kept()
        invariant text == sofar + RenderElements(es[i..], format, d)
        invariant ok ==> Stepped(sofar)
        invariant ok ==> PrintableUpTo(es, i) && (i > 0 ==> offset + 2 <= Limit())
        invariant !ok ==> es != [] && (!AllPrintable(es) || old(offset) + |text| + 2 > Limit())
        decreases |es| - i, ok
      {
        ghost var piece := ElementText(es[i], i + 1 == |es|, format, d);
        ElementTaken(text, sofar, es, i, format, d);
        Regroup(old(written.done), sofar, piece);
        ok := PrintElement(es[i], i + 1 == |es|);
        if ok {
          i := i + 1;
          sofar := sofar + piece;
        }
      }
      if ok {
        AllTaken(text, sofar, es, i, format, d);
      }
    }

    /** One turn of the loop over the elements. */
    method PrintElement(e: Json, last: bool) returns (ok: bool)
      requires Valid() && written.pending == []
      modifies this, buffer
      ensures ok == (Printable(e) && old(offset) + |ElementText(e, last, format, old(depth))| + 2 <= old(Limit()))
      ensures Kept()
      ensures ok ==> Stepped(ElementText(e, last, format, old(depth)))
      decreases e, 4
    {
      hide Render, Printable;
      ok := PrintValue(e);
      if ok {
        UpdateOffset();
        if !last {
          ok := EmitOver(Separator(format), (if format then 2 else 1) + 1, true);
        }
      }
    }

    method PrintObject(ms: Members) returns (ok: bool)
      requires Valid() && written.pending == []
      modifies this, buffer
      ensures ok == (AllMembersPrintable(ms) && old(offset) + |ObjectText(ms, format, old(depth))| + 2 <= old(Limit()))
      ensures Kept()
      ensures ok ==> Printed(ObjectText(ms, format, old(depth)))
      decreases ms, 3
    {
      ok := PrintBraced(ms, OpenObject(format), CloseObject(format, depth));
    }

    /** The members between an opening of one or two bytes and a closing with its indentation. */
    method PrintBraced(ms: Members, opening: CStr, closing: CStr) returns (ok: bool)
      requires Valid() && written.pending == [] && closing != []
      modifies this, buffer
      ensures ok == (AllMembersPrintable(ms) && old(offset) + |opening + RenderMembers(ms, format, old(depth) + 1) + closing| + 2 <= old(Limit()))
      ensures Kept()
      ensures ok ==> Printed(opening + RenderMembers(ms, format, old(depth) + 1) + closing)
      decreases ms, 2
    {
      hide RenderMembers, AllMembersPrintable;
      ghost var before, inner := written.done, RenderMembers(ms, format, depth + 1);
      ok := EmitOver(opening, |opening| + 1, false);
      if ok {
        depth := depth + 1;
        ok := PrintMembers(ms);
        if ok {
          Regroup(before, opening, inner);
          ok := Close(closing, |closing| + 1, before, opening + inner);
        }
      }
    }

    /** The loop over the members. */
    method PrintMembers(ms: Members) returns (ok: bool)
      requires Valid() && written.pending == []
      modifies this, buffer
      ensures ok == (AllMembersPrintable(ms) && (ms == [] || old(offset) + |RenderMembers(ms, format, old(depth))| + 2 <= old(Limit())))
      ensures Kept()
      ensures ok ==> Stepped(RenderMembers(ms, format, old(depth)))
      decreases ms, 1
    {
      hide MemberText, RenderMembers, Printable;
      var i := 0;
      ok := true;
      ghost var text, d := RenderMembers(ms, format, depth), depth;
      ghost var sofar: CStr := [];
      assert ms[0..] == ms;
      while ok && i < |ms|
        invariant i <= |ms| && Kept()
        invariant text == sofar + RenderMembers(ms[i..], format, d)
        invariant ok ==> Stepped(sofar)
        invariant ok ==> MembersPrintableUpTo(ms, i) && (i > 0 ==> offset + 2 <= Limit())
        invariant !ok ==> ms != [] && (!AllMembersPrintable(ms) || old(offset) + |text| + 2 > Limit())
        decreases |ms| - i, ok
      {
        ghost var piece := MemberText(ms[i], i + 1 == |ms|, format, d);
        MemberTaken(text, sofar, ms, i, format, d);
        Regroup(old(written.done), sofar, piece);
        ok := PrintMember(ms[i], i + 1 == |ms|);
        if ok {
          i := i + 1;
          sofar := sofar + piece;
        }
      }
      if ok {
        AllMembersTaken(text, sofar, ms, i, format, d);
      }
    }

    /** One turn of the loop over the members. */
    method PrintMember(m: Keyed<Json>, last: bool) returns (ok: bool)
      requires Valid() && written.pending == []
      modifies this, buffer
      ensures ok == (Printable(m.item) && old(offset) + |MemberText(m, last, format, old(depth))| + 2 <= old(Limit()))
      ensures Kept()
      ensures ok ==> Stepped(MemberText(m, last, format, old(depth)))
      decreases m, 4
    {
      ok := PrintMemberHead(m.key);
      if ok {
        ok := PrintValue(m.item);
        if ok {
          UpdateOffset();
          ok := EmitOver(MemberEnd(last, format), (if format then 1 else 0) + (if last then 0 else 1) + 1, true);
          RegroupFour(old(written.done), MemberHead(m.key, format, old(depth)), Render(m.item, format, old(depth)), MemberEnd(last, format));
        }
      }
    }

    /** Indentation, key and colon. */
    method PrintMemberHead(key: CStr) returns (ok: bool)
      requires Valid() && written.pending == []
      modifies this, buffer
      ensures !ok ==> old(offset) + |MemberHead(key, format, old(depth))| + 2 > old(Limit())
      ensures Kept()
      ensures ok ==> Stepped(MemberHead(key, format, old(depth)))
    {
      ok := PrintIndent();
      if ok {
        ok := PrintString(key);
        if ok {
          UpdateOffset();
          ok := EmitOver(ColonText(format), if format then 2 else 1, false);
          RegroupFour(old(written.done), Indent(format, depth), RenderString(key), ColonText(format));
        }
      }
    }

    method PrintIndent() returns (ok: bool)
      requires Valid() && written.pending == []
      modifies this, buffer
      ensures !ok ==> old(offset) + |Indent(format, old(depth))| + 1 > old(Limit())
      ensures Kept()
      ensures ok ==> Stepped(Indent(format, old(depth)))
    {
      ok := true;
      if format {
        ok := EmitOver(Tabs(depth), depth, false);
      } else {
        assert written.done + [] == written.done;
      }
    }
  }

  predicate PrintableUpTo(es: seq<Json>, n: nat)
    requires n <= |es|
  {
    forall i :: 0 <= i < n ==> Printable(es[i])
  }

  predicate AllPrintable(es: seq<Json>) {
    PrintableUpTo(es, |es|)
  }

  predicate MembersPrintableUpTo(ms: Members, n: nat)
    requires n <= |ms|
  {
    forall i :: 0 <= i < n ==> Printable(ms[i].item)
  }

  predicate AllMembersPrintable(ms: Members) {
    MembersPrintableUpTo(ms, |ms|)
  }

  lemma ElementTaken(text: CStr, sofar: CStr, es: seq<Json>, i: nat, format: bool, depth: nat)
    requires i < |es| && text == sofar + RenderElements(es[i..], format, depth)
    ensures text == sofar + ElementText(es[i], i + 1 == |es|, format, depth) + RenderElements(es[i+1..], format, depth)
  {
    assert es[i..][1..] == es[i+1..] && es[i..][0] == es[i];
  }

  lemma MemberTaken(text: CStr, sofar: CStr, ms: Members, i: nat, format: bool, depth: nat)
    requires i < |ms| && text == sofar + RenderMembers(ms[i..], format, depth)
    ensures text == sofar + MemberText(ms[i], i + 1 == |ms|, format, depth) + RenderMembers(ms[i+1..], format, depth)
  {
    assert ms[i..][1..] == ms[i+1..] && ms[i..][0] == ms[i];
  }

  lemma AllTaken(text: CStr, sofar: CStr, es: seq<Json>, i: nat, format: bool, depth: nat)
    requires i == |es| && text == sofar + RenderElements(es[i..], format, depth)
    ensures text == sofar
  {
    assert es[i..] == [];
  }

  lemma AllMembersTaken(text: CStr, sofar: CStr, ms: Members, i: nat, format: bool, depth: nat)
    requires i == |ms| && text == sofar + RenderMembers(ms[i..], format, depth)
    ensures text == sofar
  {
    assert ms[i..] == [];
  }
}
