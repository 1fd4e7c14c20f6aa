/** `parse_string`: one pass finds the end and the size, a second one decodes. */
module StringReader {
  import opened CStrings
  import opened Rendering
  import opened Unicode

  /** Where the first pass stops: at the first quote it does not take for escaped. */
  function ScanEnd(c: Bytes, i: nat): (r: Option<nat>)
    ensures r.Some? ==> i <= r.value < |c| && c[r.value] == QUOTE
    decreases |c| - i
  {
    if i >= |c| then None
    else if c[i] == QUOTE then Some(i)
    else if c[i] == BACKSLASH then if i + 1 >= |c| then None else ScanEnd(c, i + 2)
    else ScanEnd(c, i + 1)
  }

  /** How many bytes the first pass counts from a place to the end it found. */
  function Weight(c: Bytes, i: nat, end: nat): nat
    requires end < |c|
    decreases |c| - i
  {
    if i >= end then 0 else 1 + Weight(c, if c[i] == BACKSLASH then i + 2 else i + 1, end)
  }

  datatype Decoded = Refused | Decoded(bytes: Bytes, consumed: nat)

  /** One turn of the second pass: the bytes it writes and how far it moves. */
  function DecodeOne(c: Bytes, i: nat, end: nat): (r: Decoded)
    requires i < end < |c|
    ensures r.Decoded? ==> r.consumed > 0 && r.bytes != []
    ensures r.Decoded? ==> i + r.consumed <= end + 1
  {
    if c[i] != BACKSLASH then Decoded([c[i]], 1)
    else if c[i+1] == 98 then Decoded([8], 2)
    else if c[i+1] == 102 then Decoded([12], 2)
    else if c[i+1] == 110 then Decoded([10], 2)
    else if c[i+1] == 114 then Decoded([13], 2)
    else if c[i+1] == 116 then Decoded([9], 2)
    else if c[i+1] == QUOTE || c[i+1] == BACKSLASH || c[i+1] == SLASH then Decoded([c[i+1]], 2)
    else if c[i+1] == LOWER_U then
      var l := ReadLiteral(c, i, end);
      if l.BadLiteral? then Refused else Decoded(Utf8(l.codepoint), l.consumed)
    else Refused
  }

  /** Everything the second pass writes. It may step over the end by one. */
  function Unescape(c: Bytes, i: nat, end: nat): Option<Bytes>
    requires i <= end + 1 && end < |c|
    decreases end + 1 - i
  {
    if i >= end then Some([])
    else
      var d := DecodeOne(c, i, end);
      if d.Refused? then None
      else
        var rest := Unescape(c, i + d.consumed, end);
        if rest.None? then None else Some(d.bytes + rest.value)
  }

  datatype Parsed<T> = Failed | Parsed(value: T, next: nat)

  /** The string that starts at a quote: what a C reader sees of the output buffer. */
  function ParseString(c: Bytes, o: nat): (r: Parsed<CStr>)
    requires o < |c|
    ensures r.Parsed? ==> o < r.next <= |c| && c[r.next-1] == QUOTE
  {
    if c[o] != QUOTE then Failed
    else
      var end := ScanEnd(c, o + 1);
      if end.None? then Failed
      else
        var bytes := Unescape(c, o + 1, end.value);
        if bytes.None? then Failed else Parsed(CText(bytes.value), end.value + 1)
  }

  /** The first pass, started here, stops at `end`. */
  predicate OnTrack(c: Bytes, i: nat, end: nat) {
    ScanEnd(c, i) == Some(end)
  }

  /** The second pass may be in step with the first, or stand on the second byte of a pair the
      first took as one, or be through; `budget` bytes are still counted for. */
  predicate WithinBudget(c: Bytes, i: nat, end: nat, budget: int)
    requires end < |c|
  {
    budget >= 0 &&
    ((OnTrack(c, i, end) && Weight(c, i, end) <= budget) ||
     (i < end && OnTrack(c, i + 1, end) && 1 + Weight(c, i + 1, end) <= budget) ||
     i > end)
  }

  /** From a place in step, some steps forward: in step again, or on the second byte of a pair. */
  lemma {:induction false} TrackForward(c: Bytes, i: nat, n: nat, end: nat)
    requires end < |c| && OnTrack(c, i, end) && i + n <= end
    ensures WithinBudget(c, i + n, end, Weight(c, i, end))
    decreases n
  {
    if n > 0 {
      if c[i] == BACKSLASH {
        if n > 1 {
          TrackForward(c, i + 2, n - 2, end);
          BudgetGrows(c, i + n, end, Weight(c, i + 2, end), Weight(c, i, end));
        }
      } else {
        TrackForward(c, i + 1, n - 1, end);
        BudgetGrows(c, i + n, end, Weight(c, i + 1, end), Weight(c, i, end));
      }
    }
  }

  lemma BudgetGrows(c: Bytes, i: nat, end: nat, less: int, more: int)
    requires end < |c| && WithinBudget(c, i, end, less) && less <= more
    ensures WithinBudget(c, i, end, more)
  {
  }

  /** Hex digits are counted one by one. */
  lemma HexTrack(c: Bytes, i: nat, end: nat)
    requires end < |c| && OnTrack(c, i, end) && i + 4 <= end && HexDigitsAt(c, i)
    ensures OnTrack(c, i + 4, end) && Weight(c, i, end) == 4 + Weight(c, i + 4, end)
  {
    assert OnTrack(c, i + 1, end) && OnTrack(c, i + 2, end) && OnTrack(c, i + 3, end);
    assert Weight(c, i, end) == 1 + Weight(c, i + 1, end);
    assert Weight(c, i + 1, end) == 1 + Weight(c, i + 2, end);
    assert Weight(c, i + 2, end) == 1 + Weight(c, i + 3, end);
  }

  /** After the `u` of a literal, where the first pass is in step again: the bytes of the literal
      are counted for, with one to spare for the backslash and the `u`. */
  lemma LiteralBudget(c: Bytes, i: nat, end: nat)
    requires end < |c| && i + 2 <= end && OnTrack(c, i + 2, end) && ReadLiteral(c, i, end).Literal?
    ensures var l := ReadLiteral(c, i, end);
            WithinBudget(c, i + l.consumed, end, 1 + Weight(c, i + 2, end) - |Utf8(l.codepoint)|)
  {
    var l := ReadLiteral(c, i, end);
    if Hex4(c, i + 2) == 0 {
      TrackForward(c, i + 2, 4, end);
    } else {
      HexTrack(c, i + 2, end);
      if l.consumed == 12 {
        assert OnTrack(c, i + 8, end) && Weight(c, i + 6, end) == 1 + Weight(c, i + 8, end);
        HexTrack(c, i + 8, end);
      }
    }
  }

  /** Every turn of the second pass stays within what the first pass counted, in step or not. */
  lemma TurnWithinBudget(c: Bytes, i: nat, end: nat, budget: int)
    requires i < end < |c| && c[end] == QUOTE && WithinBudget(c, i, end, budget) && DecodeOne(c, i, end).Decoded?
    ensures var d := DecodeOne(c, i, end);
            |d.bytes| <= budget && WithinBudget(c, i + d.consumed, end, budget - |d.bytes|)
  {
    if OnTrack(c, i, end) && Weight(c, i, end) <= budget {
      TurnInStep(c, i, end);
      var d := DecodeOne(c, i, end);
      BudgetGrows(c, i + d.consumed, end, Weight(c, i, end) - |d.bytes|, budget - |d.bytes|);
    } else {
      TurnOutOfStep(c, i, end);
      var d := DecodeOne(c, i, end);
      BudgetGrows(c, i + d.consumed, end, 1 + Weight(c, i + 1, end) - |d.bytes|, budget - |d.bytes|);
    }
  }

  lemma TurnInStep(c: Bytes, i: nat, end: nat)
    requires i < end < |c| && OnTrack(c, i, end) && DecodeOne(c, i, end).Decoded?
    ensures var d := DecodeOne(c, i, end);
            WithinBudget(c, i + d.consumed, end, Weight(c, i, end) - |d.bytes|)
  {
    if c[i] == BACKSLASH && c[i+1] == LOWER_U {
      LiteralBudget(c, i, end);
    }
  }

  lemma TurnOutOfStep(c: Bytes, i: nat, end: nat)
    requires i < end < |c| && c[end] == QUOTE && OnTrack(c, i + 1, end) && DecodeOne(c, i, end).Decoded?
    ensures var d := DecodeOne(c, i, end);
            WithinBudget(c, i + d.consumed, end, 1 + Weight(c, i + 1, end) - |d.bytes|)
  {
    if c[i] == BACKSLASH {
      if c[i+1] == LOWER_U {
        LiteralBudget(c, i, end);
        var l := ReadLiteral(c, i, end);
        BudgetGrows(c, i + l.consumed, end, 1 + Weight(c, i + 2, end) - |Utf8(l.codepoint)|,
                    1 + Weight(c, i + 1, end) - |Utf8(l.codepoint)|);
      } else if i + 1 < end {
        TrackForward(c, i + 1, 1, end);
      }
    }
  }

  /** For every text, including one whose bad hex digits put the passes out of step: what the
      second pass writes, and the terminator, fit in the size computed by the first. */
  lemma {:induction false} SecondPassFits(c: Bytes, start: nat, end: nat)
    requires OnTrack(c, start, end) && Unescape(c, start, end).Some?
    ensures |Unescape(c, start, end).value| <= Weight(c, start, end)
  {
    UnescapeWithinBudget(c, start, end, Weight(c, start, end));
  }

  lemma {:induction false} UnescapeWithinBudget(c: Bytes, i: nat, end: nat, budget: int)
    requires i <= end + 1 && end < |c| && c[end] == QUOTE && WithinBudget(c, i, end, budget) && Unescape(c, i, end).Some?
    ensures |Unescape(c, i, end).value| <= budget
    decreases end + 1 - i
  {
    if i < end {
      TurnWithinBudget(c, i, end, budget);
      var d := DecodeOne(c, i, end);
      UnescapeWithinBudget(c, i + d.consumed, end, budget - |d.bytes|);
    }
  }

  lemma {:induction false} CTextStops(a: Bytes, b: Bytes)
    requires |a| < |b| && b[..|a|] == a && b[|a|] == 0
    ensures CText(b) == CText(a)
  {
    if a != [] {
      assert a[0] == b[..|a|][0] && b[1..][..|a|-1] == b[..|a|][1..];
      CTextStops(a[1..], b[1..]);
    }
  }
}
