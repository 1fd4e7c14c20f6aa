/** Decimal text, as `%lu` and `%1.15g` print integers, and the reader of array indices. */
module Decimals {
  import opened CStrings
  import opened Json

  function Dec(n: nat): (s: CStr)
    ensures |s| > 0
    ensures forall i :: 0 <= i < |s| ==> 48 <= s[i] <= 57
    ensures n > 0 ==> s[0] != 48
    ensures n == 0 ==> s == [48]
  {
    if n < 10 then [48 + n] else Dec(n / 10) + [48 + n % 10]
  }

  function DecInt(n: int): CStr {
    if n < 0 then [DASH] + Dec(-n) else Dec(n)
  }

  /** How many leading bytes are not below the digit 0. */
  function RunLength(s: CStr): (n: nat)
    ensures n <= |s|
    ensures forall k :: 0 <= k < n ==> s[k] >= 48
    ensures n < |s| ==> s[n] < 48
  {
    if s == [] || s[0] < 48 then 0 else 1 + RunLength(s[1..])
  }

  /** Positional value in `size_t`, which wraps around. */
  function Accumulate(s: CStr): (n: nat)
    requires forall k :: 0 <= k < |s| ==> s[k] >= 48
    ensures n < SIZE_LIMIT
  {
    if s == [] then 0 else (10 * Accumulate(s[..|s|-1]) + s[|s|-1] - 48) % SIZE_LIMIT
  }

  predicate EndsToken(c: Byte) {
    c == 0 || c == SLASH
  }

  /** `decode_array_index_from_pointer`. The loop tests the first byte, not the current one, against 9. */
  function DecodeIndex(p: CStr): Option<nat> {
    if CharAt(p, 0) == ZERO && !EndsToken(CharAt(p, 1)) then None
    else
      var n := if CharAt(p, 0) <= NINE then RunLength(p) else 0;
      if EndsToken(CharAt(p, n)) then Some(Accumulate(p[..n])) else None
  }

  method DecodeArrayIndex(p: CStr) returns (r: Option<nat>)
    ensures r == DecodeIndex(p)
  {
    if CharAt(p, 0) == ZERO && CharAt(p, 1) != 0 && CharAt(p, 1) != SLASH {
      return None;
    }
    var parsed, position := 0, 0;
    while CharAt(p, position) >= ZERO && CharAt(p, 0) <= NINE
      invariant position <= |p| && forall k :: 0 <= k < position ==> p[k] >= 48
      invariant parsed == Accumulate(p[..position])
      invariant position > 0 ==> CharAt(p, 0) <= NINE
      decreases |p| - position
    {
      assert p[..position+1][..position] == p[..position];
      parsed := (10 * parsed + p[position] - ZERO) % SIZE_LIMIT;
      position := position + 1;
    }
    assert CharAt(p, 0) <= NINE ==> position == RunLength(p);
    if CharAt(p, position) != 0 && CharAt(p, position) != SLASH {
      return None;
    }
    return Some(parsed);
  }

  lemma {:induction false} AccumulateDec(n: nat)
    requires n < SIZE_LIMIT
    ensures Accumulate(Dec(n)) == n
  {
    if n >= 10 {
      var s := Dec(n);
      AccumulateDec(n / 10);
      assert s[..|s|-1] == Dec(n / 10);
    } else {
      assert Dec(n)[..0] == [];
    }
  }

  /** A printed index is read back, whatever token follows it. */
  lemma DecodePrintedIndex(n: nat, rest: CStr)
    requires n < SIZE_LIMIT && EndsToken(CharAt(rest, 0))
    ensures DecodeIndex(Dec(n) + rest) == Some(n)
  {
    var d, p := Dec(n), Dec(n) + rest;
    assert p[0] == d[0];
    if n == 0 {
      assert CharAt(p, 1) == CharAt(rest, 0);
    }
    var k := RunLength(p);
    assert forall i :: 0 <= i < |d| ==> p[i] == d[i];
    assert rest != [] ==> p[|d|] == rest[0];
    assert k == |d|;
    assert p[..k] == d;
    AccumulateDec(n);
    assert CharAt(p, k) == CharAt(rest, 0);
  }

  /** The number some bytes stand for as decimal digits. Bytes above the digit 9 count on. */
  function Positional(s: CStr): int {
    if s == [] then 0 else 10 * Positional(s[..|s|-1]) + s[|s|-1] - 48
  }

  /** A printed number has digits only, and is the number they stand for. */
  lemma {:induction false} DecIsPositional(n: nat)
    ensures Positional(Dec(n)) == n && forall i :: 0 <= i < |Dec(n)| ==> 48 <= Dec(n)[i] <= 57
  {
    if n >= 10 {
      DecIsPositional(n / 10);
      assert Dec(n)[..|Dec(n)|-1] == Dec(n / 10);
    } else {
      assert Dec(n)[..0] == [];
    }
  }

  /** A printed integer is its sign and its digits, without a leading zero. */
  lemma SignedDecimal(n: int)
    ensures n < 0 ==> DecInt(n)[0] == 45 && Positional(DecInt(n)[1..]) == -n && DecInt(n)[1] != 48
    ensures n >= 0 ==> Positional(DecInt(n)) == n && DecInt(n)[0] != 45 && (DecInt(n)[0] == 48 ==> n == 0)
  {
    DecIsPositional(if n < 0 then -n else n);
    hide Positional, Dec;
  }

  lemma {:induction false} AccumulateWraps(s: CStr)
    requires forall k :: 0 <= k < |s| ==> s[k] >= 48
    ensures Accumulate(s) == Positional(s) % 0x1_0000_0000_0000_0000
  {
    if s != [] {
      AccumulateWraps(s[..|s|-1]);
      WrapTwice(Positional(s[..|s|-1]), s[|s|-1] as int - 48);
    }
  }

  lemma WrapTwice(n: int, d: int)
    ensures (10 * (n % SIZE_LIMIT) + d) % SIZE_LIMIT == (10 * n + d) % SIZE_LIMIT
  {
    var x, q := 10 * (n % SIZE_LIMIT) + d, 10 * (n / SIZE_LIMIT);
    assert 10 * n + d == x + q * SIZE_LIMIT;
    assert (x + q * SIZE_LIMIT) / SIZE_LIMIT == x / SIZE_LIMIT + q;
  }

  /** Which tokens are read as an index, whatever token follows: nothing at all and a single 0 as 0, and what
      starts with another digit and has no byte below the digits, with 64-bit wrap-around. */
  lemma IndexExactly(token: CStr, rest: CStr)
    requires 47 !in token && (rest == [] || rest[0] == 47)
    ensures DecodeIndex(token + rest) ==
            if token == [] || token == [48] then Some(0)
            else if 49 <= token[0] <= 57 && forall i :: 0 <= i < |token| ==> token[i] >= 48 then
              Some(Positional(token) % 0x1_0000_0000_0000_0000)
            else None
  {
    hide RunLength, Accumulate, Positional;
    var p := token + rest;
    var n := RunLength(p);
    assert forall i :: 0 <= i < |token| ==> p[i] == token[i];
    assert rest != [] ==> p[|token|] == 47;
    assert p[..|token|] == token;
    if forall i :: 0 <= i < |token| ==> token[i] >= 48 {
      assert n == |token|;
      AccumulateWraps(token);
      SmallIndex();
    } else {
      assert n < |token|;
    }
  }

  lemma SmallIndex()
    ensures Accumulate([]) == 0 && Accumulate([48]) == 0
  {
    var s: CStr := [48];
    assert s[..|s|-1] == [];
  }

  function Power10(k: nat): nat {
    if k == 0 then 1 else 10 * Power10(k - 1)
  }

  lemma {:induction false} DecLength(n: nat, k: nat)
    requires k > 0 && n < Power10(k)
    ensures |Dec(n)| <= k
    decreases k
  {
    if n >= 10 {
      assert k > 1 && n / 10 < Power10(k - 1);
      DecLength(n / 10, k - 1);
    }
  }

  /** A sign and 15 digits are the most there is. */
  lemma DecIntLength(n: Num)
    ensures |DecInt(n)| <= 16
  {
    assert Power10(5) == 100000 && Power10(10) == 100000 * 100000 && Power10(15) == NUMBER_BOUND;
    DecLength(if n < 0 then -n else n, 15);
  }
}
