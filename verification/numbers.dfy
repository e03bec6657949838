/** Rust's `str::parse` for unsigned integers, and the "parse or 0" fallback
    the parser applies to every numeric field. */
module Numbers {
  import opened Wrappers

  /** Rust's `u64`. */
  newtype u64 = x: int | 0 <= x < 0x1_0000_0000_0000_0000

  const U64_MAX: int := 0xFFFF_FFFF_FFFF_FFFF

  predicate IsDigit(c: char)
  {
    '0' <= c <= '9'
  }

  predicate AllDigits(s: string)
  {
    forall i :: 0 <= i < |s| ==> IsDigit(s[i])
  }

  function DigitValue(c: char): (d: nat)
    requires IsDigit(c)
    ensures d < 10
  {
    (c as int) - ('0' as int)
  }

  function DigitChar(d: nat): (c: char)
    requires d < 10
    ensures IsDigit(c) && DigitValue(c) == d
  {
    ('0' as int + d) as char
  }

  /** The value of a string of decimal digits, read left to right as
      `acc * 10 + digit`. */
  function DecimalValue(ds: string): nat
    requires AllDigits(ds)
    decreases |ds|
  {
    if |ds| == 0 then 0 else DecimalValue(ds[..|ds| - 1]) * 10 + DigitValue(ds[|ds| - 1])
  }

  /** The digits an unsigned literal is made of: everything after one
      optional leading `+`. */
  function LiteralDigits(s: string): string
  {
    if |s| > 0 && s[0] == '+' then s[1..] else s
  }

  /** The grammar Rust accepts for an unsigned integer: one optional `+`
      followed by one or more ASCII digits. A `-` sign, an empty string, a
      lone `+` and surrounding whitespace are all rejected. */
  predicate IsUnsignedLiteral(s: string)
  {
    var ds := LiteralDigits(s);
    |ds| > 0 && AllDigits(ds)
  }

  /** The unbounded value of an unsigned literal, or `None` if `s` is not one. */
  function ParseUnsigned(s: string): (r: Option<nat>)
    ensures r.Some? <==> IsUnsignedLiteral(s)
  {
    if IsUnsignedLiteral(s) then Some(DecimalValue(LiteralDigits(s))) else None
  }

  /** `s.parse::<usize>().unwrap_or(0)`, with `usize` taken as unbounded. */
  function ParseNatOrZero(s: string): (r: nat)
    ensures IsUnsignedLiteral(s) ==> ParseUnsigned(s) == Some(r)
    ensures !IsUnsignedLiteral(s) ==> r == 0
  {
    ParseUnsigned(s).GetOr(0)
  }

  /** `s.parse::<u64>().unwrap_or(0)`: a literal whose value does not fit in
      64 bits is a parse error and so gives 0, like any other bad input. */
  function ParseU64OrZero(s: string): (r: u64)
    ensures r != 0 ==> ParseUnsigned(s) == Some(r as nat)
    ensures ParseUnsigned(s).Some? && ParseUnsigned(s).value <= U64_MAX ==> r as nat == ParseUnsigned(s).value
  {
    match ParseUnsigned(s)
    case Some(n) => if n <= U64_MAX then n as u64 else 0
    case None => 0
  }

  /** The shortest decimal rendering of `n`. */
  function ToDecimal(n: nat): (s: string)
    ensures |s| > 0 && AllDigits(s)
    ensures |s| > 1 ==> s[0] != '0'
  {
    if n < 10 then [DigitChar(n)] else ToDecimal(n / 10) + [DigitChar(n % 10)]
  }

  /** Reading back a rendered number gives the number. */
  lemma {:induction false} DecimalRoundTrip(n: nat)
    ensures DecimalValue(ToDecimal(n)) == n
  {
    if n >= 10 {
      var s := ToDecimal(n);
      assert s[..|s| - 1] == ToDecimal(n / 10);
      DecimalRoundTrip(n / 10);
    }
  }

  /** Every rendered number, with or without a `+` sign, parses back to
      itself. */
  lemma ParseUnsignedRoundTrip(n: nat)
    ensures ParseUnsigned(ToDecimal(n)) == Some(n)
    ensures ParseUnsigned("+" + ToDecimal(n)) == Some(n)
  {
    DecimalRoundTrip(n);
    var s := ToDecimal(n);
    assert s[0] != '+';
    assert LiteralDigits("+" + s) == s;
  }

  /** `z` zero digits. */
  function Zeros(z: nat): (s: string)
    ensures |s| == z && AllDigits(s)
    ensures forall i :: 0 <= i < z ==> s[i] == '0'
  {
    seq(z, i => '0')
  }

  /** Leading zeros do not change the value of a digit string. */
  lemma {:induction false} LeadingZerosValue(z: nat, ds: string)
    requires AllDigits(ds)
    ensures AllDigits(Zeros(z) + ds)
    ensures DecimalValue(Zeros(z) + ds) == DecimalValue(ds)
    decreases |ds|, z
  {
    var s := Zeros(z) + ds;
    assert forall i :: 0 <= i < |s| ==> IsDigit(s[i]);
    if |ds| > 0 {
      var n := |ds| - 1;
      assert s[..|s| - 1] == Zeros(z) + ds[..n];
      assert s[|s| - 1] == ds[n];
      LeadingZerosValue(z, ds[..n]);
    } else if z > 0 {
      assert s == Zeros(z);
      assert s[..|s| - 1] == Zeros(z - 1) + ds;
      LeadingZerosValue(z - 1, ds);
    } else {
      assert s == ds;
    }
  }

  /** A number written with any count of leading zeros, with or without a
      `+` sign, parses to that number: Rust reads `"007"` as 7. */
  lemma ParseUnsignedLeadingZeros(z: nat, n: nat)
    ensures ParseUnsigned(Zeros(z) + ToDecimal(n)) == Some(n)
    ensures ParseUnsigned("+" + Zeros(z) + ToDecimal(n)) == Some(n)
  {
    var ds := Zeros(z) + ToDecimal(n);
    LeadingZerosValue(z, ToDecimal(n));
    DecimalRoundTrip(n);
    assert ds[0] != '+';
    assert LiteralDigits(ds) == ds;
    assert "+" + Zeros(z) + ToDecimal(n) == "+" + ds;
    assert LiteralDigits("+" + ds) == ds;
  }

  /** Every digit string is some number's rendering after some leading
      zeros, so `ParseUnsignedLeadingZeros` covers every literal. */
  lemma {:induction false} DigitsShape(ds: string)
    requires |ds| > 0 && AllDigits(ds)
    ensures exists z: nat :: ds == Zeros(z) + ToDecimal(DecimalValue(ds))
    decreases |ds|
  {
    if ds[0] == '0' && |ds| > 1 {
      DigitsShape(ds[1..]);
      var z: nat :| ds[1..] == Zeros(z) + ToDecimal(DecimalValue(ds[1..]));
      LeadingZerosValue(1, ds[1..]);
      assert ds == Zeros(1) + ds[1..];
      assert Zeros(1) + Zeros(z) == Zeros(z + 1);
      assert ds == Zeros(z + 1) + ToDecimal(DecimalValue(ds));
    } else {
      NoLeadingZeroRenders(ds);
      assert ds == Zeros(0) + ds;
    }
  }

  /** Every unsigned literal is some number `n` after an optional `+` and
      some leading zeros, and parses to that `n`. */
  lemma ParseUnsignedEveryLiteral(s: string)
    requires IsUnsignedLiteral(s)
    ensures exists z: nat, n: nat :: LiteralDigits(s) == Zeros(z) + ToDecimal(n) && ParseUnsigned(s) == Some(n)
  {
    var ds := LiteralDigits(s);
    DigitsShape(ds);
    var z: nat :| ds == Zeros(z) + ToDecimal(DecimalValue(ds));
    assert ParseUnsigned(s) == Some(DecimalValue(ds));
  }

  /** A digit string without a leading zero is the rendering of its value. */
  lemma {:induction false} NoLeadingZeroRenders(ds: string)
    requires |ds| > 0 && AllDigits(ds)
    requires |ds| > 1 ==> ds[0] != '0'
    ensures ToDecimal(DecimalValue(ds)) == ds
    decreases |ds|
  {
    if |ds| > 1 {
      var n := |ds| - 1;
      var front := ds[..n];
      NoLeadingZeroRenders(front);
      PositiveValue(front);
      var v := DecimalValue(ds);
      assert v == DecimalValue(front) * 10 + DigitValue(ds[n]);
      assert v >= 10;
      assert v / 10 == DecimalValue(front);
      assert v % 10 == DigitValue(ds[n]);
      assert DigitChar(DigitValue(ds[n])) == ds[n];
      assert ds == front + [ds[n]];
    } else {
      assert DigitChar(DigitValue(ds[0])) == ds[0];
    }
  }

  /** A digit string that starts with a non-zero digit has a positive value. */
  lemma {:induction false} PositiveValue(ds: string)
    requires |ds| > 0 && AllDigits(ds) && ds[0] != '0'
    ensures DecimalValue(ds) > 0
    decreases |ds|
  {
    if |ds| > 1 {
      PositiveValue(ds[..|ds| - 1]);
    }
  }

  /** The fallback: anything that is not an unsigned literal reads as 0. */
  lemma ParseOrZeroTolerant(s: string)
    requires !IsUnsignedLiteral(s)
    ensures ParseNatOrZero(s) == 0
    ensures ParseU64OrZero(s) == 0
  {
  }

  /** `ParseNatOrZero` reads every rendered number back. */
  lemma ParseNatOrZeroRoundTrip(n: nat)
    ensures ParseNatOrZero(ToDecimal(n)) == n
    ensures ParseNatOrZero("+" + ToDecimal(n)) == n
  {
    ParseUnsignedRoundTrip(n);
  }

  /** `ParseU64OrZero` reads back every number that fits in 64 bits and turns
      every larger one into 0. */
  lemma ParseU64OrZeroRange(n: nat)
    ensures n <= U64_MAX ==> ParseU64OrZero(ToDecimal(n)) as int == n
    ensures n > U64_MAX ==> ParseU64OrZero(ToDecimal(n)) == 0
  {
    ParseUnsignedRoundTrip(n);
  }
}
