/**
 * Decimal numbers: the kernel's kstrtou64 and kstrtoint (lib/kstrtox.c) as
 * called with base 10, and the decimal rendering of printf's %llu / %d.
 */
module Kstrtox {
  import opened SpeedBump

  predicate IsDigit(c: char) {
    '0' <= c <= '9'
  }

  predicate AllDigits(s: string) {
    forall i :: 0 <= i < |s| ==> IsDigit(s[i])
  }

  /** The number of leading decimal digits of `s`. */
  function DigitSpan(s: string): (n: nat)
    ensures n <= |s| && AllDigits(s[..n])
    ensures n < |s| ==> !IsDigit(s[n])
  {
    if s == [] || !IsDigit(s[0]) then 0
    else
      var n := 1 + DigitSpan(s[1..]);
      assert s[..n] == [s[0]] + s[1..][..n - 1];
      n
  }

  /** The value of a string of decimal digits. */
  function DecValue(s: string): nat
    requires AllDigits(s)
  {
    if s == [] then 0
    else 10 * DecValue(s[..|s| - 1]) + (s[|s| - 1] as int - '0' as int)
  }

  function DigitChar(d: nat): (c: char)
    requires d < 10
    ensures IsDigit(c) && c as int - '0' as int == d
  {
    (d + '0' as int) as char
  }

  /** The decimal rendering of `n`, without leading zeros (printf's %llu). */
  function Decimal(n: nat): (s: string)
    ensures |s| > 0 && AllDigits(s)
    ensures s[0] == '0' ==> n == 0 && s == "0"
    decreases n
  {
    if n < 10 then [DigitChar(n)] else Decimal(n / 10) + [DigitChar(n % 10)]
  }

  function Pow10(k: nat): nat {
    if k == 0 then 1 else 10 * Pow10(k - 1)
  }

  /** A number below 10^k takes at most k digits. */
  lemma {:induction false} DecimalLength(n: nat, k: nat)
    requires 0 < k && n < Pow10(k)
    ensures |Decimal(n)| <= k
    decreases k
  {
    if n >= 10 {
      DecimalLength(n / 10, k - 1);
    }
  }

  /** A 64-bit number takes at most 20 digits. */
  lemma Decimal64Length(n: u64)
    ensures |Decimal(n)| <= 20
  {
    assert Pow10(2) == 100;
    assert Pow10(4) == 10000;
    assert Pow10(6) == 1000000;
    assert Pow10(8) == 100000000;
    assert Pow10(10) == 10000000000;
    assert Pow10(12) == 1000000000000;
    assert Pow10(14) == 100000000000000;
    assert Pow10(16) == 10000000000000000;
    assert Pow10(18) == 1000000000000000000;
    assert Pow10(20) == 100000000000000000000;
    DecimalLength(n, 20);
  }

  /** Reading back a rendered number gives the number. */
  lemma {:induction false} DecValueOfDecimal(n: nat)
    ensures DecValue(Decimal(n)) == n
    decreases n
  {
    var s := Decimal(n);
    if n >= 10 {
      DecValueOfDecimal(n / 10);
      assert s[..|s| - 1] == Decimal(n / 10);
    }
  }

  /**
   * kstrtox's _kstrtoull for base 10: digits, an optional single newline,
   * nothing else. Overflow of 64 bits is reported before a missing digit
   * or trailing garbage is.
   */
  function ParseULL(s: string): (r: Result<u64>)
    ensures r.Err? ==> r.code == -EINVAL || r.code == -ERANGE
    ensures r.Ok? ==> 0 < DigitSpan(s) && r.value == DecValue(s[..DigitSpan(s)])
    ensures r.Ok? ==> s[DigitSpan(s)..] == "" || s[DigitSpan(s)..] == "\n"
  {
    var n := DigitSpan(s);
    var v := DecValue(s[..n]);
    if v >= U64_MODULUS then Err(-ERANGE)
    else if n == 0 then Err(-EINVAL)
    else
      var rest := s[n..];
      var rest' := if rest != [] && rest[0] == '\n' then rest[1..] else rest;
      if rest' != [] then Err(-EINVAL) else Ok(v)
  }

  /** kstrtou64(s, 10, &v): an optional leading '+', then _kstrtoull. */
  function Kstrtou64(s: string): (r: Result<u64>)
    ensures r.Err? ==> r.code == -EINVAL || r.code == -ERANGE
    ensures r.Ok? ==> |s| > 0 && (IsDigit(s[0]) || s[0] == '+')
  {
    if s != [] && s[0] == '+' then ParseULL(s[1..]) else ParseULL(s)
  }

  const INT_MIN := -0x8000_0000
  const INT_MAX := 0x7fff_ffff
  const LLONG_MAX := 0x7fff_ffff_ffff_ffff

  /**
   * kstrtoint(s, 10, &v): kstrtoll (a '-' sign goes straight to
   * _kstrtoull, anything else to kstrtoull), then the range of int.
   */
  function Kstrtoint(s: string): (r: Result<int>)
    ensures r.Err? ==> r.code == -EINVAL || r.code == -ERANGE
    ensures r.Ok? ==> INT_MIN <= r.value <= INT_MAX
  {
    var ll: Result<int> :=
      if s != [] && s[0] == '-' then
        match ParseULL(s[1..])
        case Err(e) => Err(e)
        case Ok(t) => if t > LLONG_MAX + 1 then Err(-ERANGE) else Result<int>.Ok(-(t as int))
      else
        match Kstrtou64(s)
        case Err(e) => Err(e)
        case Ok(t) => if t > LLONG_MAX then Err(-ERANGE) else Result<int>.Ok(t as int);
    match ll
    case Err(e) => Err(e)
    case Ok(v) => if v < INT_MIN || v > INT_MAX then Err(-ERANGE) else Ok(v)
  }

  /** Every 64-bit number, rendered in decimal, reads back through kstrtou64,
      with or without the newline `echo` appends. */
  lemma Kstrtou64Decimal(n: u64, nl: bool)
    ensures Kstrtou64(Decimal(n) + (if nl then "\n" else "")) == Ok(n)
  {
    var d := Decimal(n);
    var s := d + (if nl then "\n" else "");
    DigitSpanOfDigits(d, if nl then "\n" else "");
    assert s[..|d|] == d;
    DecValueOfDecimal(n);
  }

  lemma DigitSpanOfDigits(d: string, rest: string)
    requires AllDigits(d)
    requires rest == [] || !IsDigit(rest[0])
    ensures DigitSpan(d + rest) == |d|
  {
    if d != [] {
      assert (d + rest)[1..] == d[1..] + rest;
      DigitSpanOfDigits(d[1..], rest);
    }
  }

  /** A non-negative int rendered in decimal reads back through kstrtoint,
      with or without a trailing newline. */
  lemma KstrtointDecimal(n: nat, nl: bool)
    requires n <= INT_MAX
    ensures Kstrtoint(Decimal(n) + (if nl then "\n" else "")) == Ok(n)
  {
    Kstrtou64Decimal(n, nl);
  }

  /** A leading '-' followed by digits yields a negative number or zero. */
  lemma KstrtointNegative(digits: string)
    requires 0 < |digits| && AllDigits(digits)
    requires DecValue(digits) <= -INT_MIN
    ensures Kstrtoint("-" + digits) == Result<int>.Ok(-(DecValue(digits) as int))
  {
    var s := "-" + digits;
    assert s != [] && s[0] == '-' && s[1..] == digits;
    ParseULLDigits(digits);
    assert ParseULL(s[1..]) == Ok(DecValue(digits));
  }

  /** A plain string of digits parses to its value, when that fits in 64 bits. */
  lemma ParseULLDigits(digits: string)
    requires 0 < |digits| && AllDigits(digits) && DecValue(digits) < U64_MODULUS
    ensures ParseULL(digits) == Ok(DecValue(digits))
  {
    DigitSpanOfDigits(digits, "");
    assert digits + "" == digits;
    assert digits[..|digits|] == digits;
    assert digits[|digits|..] == [];
  }

  /** Text with no digit at all is rejected. */
  lemma {:induction false} NoDigitsRejected(s: string)
    requires s == [] || (s[0] != '+' && !IsDigit(s[0]))
    ensures Kstrtou64(s) == Err(-EINVAL)
  {
  }
}
