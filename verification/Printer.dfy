/** The entry points of the printer. */
module Printer {
  import opened CStrings
  import opened Json
  import opened Rendering
  import opened PrintBuffers

  /** `print`: a growing buffer of 256 bytes, cut to size at the end. */
  method Print(item: Json, format: bool, reallocates: bool) returns (r: Option<array<Byte>>)
    ensures r.Some? <==> Printable(item) && |Render(item, format, 0)| + 2 <= INT_MAX
    ensures r.Some? ==> Exactly(r.value, Render(item, format, 0))
  {
    hide Render, Printable;
    var block := new Byte[256];
    var p := new PrintBuffer(block, false, format, reallocates);
    var ok := p.PrintValue(item);
    if !ok {
      return None;
    }
    p.UpdateOffset();
    var printed := CutToSize(p.buffer, p.offset, Render(item, format, 0));
    return Some(printed);
  }

  /** An array that holds a text, its terminator and nothing else. */
  predicate Exactly(a: array<Byte>, text: CStr)
    reads a
  {
    a.Length == |text| + 1 && a[..|text|] == text && a[|text|] == 0
  }

  method CutToSize(buffer: array<Byte>, offset: nat, ghost text: CStr) returns (printed: array<Byte>)
    requires offset == |text| < buffer.Length && buffer[..offset] == text
    ensures Exactly(printed, text)
  {
    printed := new Byte[offset + 1];
    forall i | 0 <= i < offset {
      printed[i] := buffer[i];
    }
    printed[offset] := 0;
    assert printed[..offset] == buffer[..offset];
  }

  /** `cJSON_PrintBuffered`: the caller chooses the first size, and the buffer is returned as it is. */
  method PrintBuffered(item: Json, prebuffer: int, format: bool, reallocates: bool) returns (r: Option<array<Byte>>)
    requires prebuffer <= INT_MAX
    ensures r.Some? <==> prebuffer >= 0 && Printable(item) && |Render(item, format, 0)| + 2 <= INT_MAX
    ensures r.Some? ==> var text := Render(item, format, 0);
                        |text| < r.value.Length && r.value[..|text|] == text && r.value[|text|] == 0
  {
    hide Render, Printable;
    if prebuffer < 0 {
      return None;
    }
    var block := new Byte[prebuffer];
    var p := new PrintBuffer(block, false, format, reallocates);
    var ok := p.PrintValue(item);
    return if ok then Some(p.buffer) else None;
  }

  /** `cJSON_PrintPreallocated`: succeeds exactly when there is a buffer with two bytes more than the
      text, one for the terminator and one that stays unused. */
  method PrintPreallocated(item: Json, block: array?<Byte>, length: int, format: bool) returns (ok: bool)
    requires length <= INT_MAX && (block != null && length >= 0 ==> block.Length == length)
    modifies block
    ensures ok <==> length >= 0 && block != null && Printable(item) && |Render(item, format, 0)| + 2 <= length
    ensures ok ==> var text := Render(item, format, 0);
                   block[..|text|] == text && block[|text|] == 0
  {
    if length < 0 || block == null {
      return false;
    }
    hide Render, Printable;
    var buffer: array<Byte> := block;
    var p := new PrintBuffer(buffer, true, format, true);
    ok := p.PrintValue(item);
  }
}
