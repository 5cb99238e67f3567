/**
 * Go's `strconv.Atoi` on a 64-bit platform, which every handler uses to read
 * an id from the path (and GetQuotes to read its query parameters): an
 * optional `+` or `-`, then one or more decimal digits, and a value that fits
 * in an int64. `Itoa` is its inverse on that range.
 */
module Strconv {
  import opened Wrappers

  const MinInt64: int := -0x8000_0000_0000_0000
  const MaxInt64: int := 0x7fff_ffff_ffff_ffff

  predicate IsDigit(c: char) { '0' <= c <= '9' }

  predicate AllDigits(s: string) { forall i :: 0 <= i < |s| ==> IsDigit(s[i]) }

  function DigitValue(c: char): nat
    requires IsDigit(c)
  {
    c as int - '0' as int
  }

  function DigitChar(d: nat): (c: char)
    requires d < 10
    ensures IsDigit(c) && DigitValue(c) == d
  {
    ('0' as int + d) as char
  }

  /** The value of a string of decimal digits, most significant first. */
  function DecimalValue(s: string): nat
    requires AllDigits(s)
  {
    if s == [] then 0 else 10 * DecimalValue(s[..|s| - 1]) + DigitValue(s[|s| - 1])
  }

  /** The string without its leading sign, if it has one. */
  function Unsigned(s: string): string
  {
    if |s| > 0 && (s[0] == '+' || s[0] == '-') then s[1..] else s
  }

  function Atoi(s: string): (r: Option<int>)
    ensures r.Some? <==>
              Unsigned(s) != [] && AllDigits(Unsigned(s)) &&
              (if |s| > 0 && s[0] == '-' then DecimalValue(Unsigned(s)) <= -MinInt64
               else DecimalValue(Unsigned(s)) <= MaxInt64)
    ensures r.Some? ==> MinInt64 <= r.value <= MaxInt64
    ensures r.Some? ==> Abs(r.value) == DecimalValue(Unsigned(s))
    ensures r.Some? && r.value < 0 ==> s[0] == '-'
    ensures r.Some? && s[0] == '-' ==> r.value <= 0
  {
    var digits := Unsigned(s);
    if digits == [] || !AllDigits(digits) then None
    else
      var magnitude: int := DecimalValue(digits);
      var v := if s[0] == '-' then -magnitude else magnitude;
      if MinInt64 <= v <= MaxInt64 then Some(v) else None
  }

  const MaxUint64: int := 0xffff_ffff_ffff_ffff

  /** The longest prefix of `s` made of decimal digits. */
  function LeadingDigits(s: string): (r: string)
    ensures |r| <= |s| && r == s[..|r|] && AllDigits(r)
    ensures |r| < |s| ==> !IsDigit(s[|r|])
  {
    if s == [] || !IsDigit(s[0]) then [] else [s[0]] + LeadingDigits(s[1..])
  }

  lemma LeadingDigitsOfDigits(s: string)
    requires AllDigits(s)
    ensures LeadingDigits(s) == s
  {
  }

  /**
   * The int `strconv.Atoi` returns next to its error, for callers that drop
   * the error. Text longer than the fast path allows goes through
   * `ParseUint`, which reads the digits after the sign from left to right and
   * stops with a range error at the first digit that takes the value past
   * 2^64 - 1, before it could meet a later non-digit; `ParseInt` then clamps
   * to the int64 bound of the sign. Any other text that is not a decimal
   * number gives zero, and an all-digit number out of int64 range gives the
   * bound of its sign.
   */
  function AtoiIgnoringError(s: string): (v: int)
    ensures Atoi(s).Some? ==> v == Atoi(s).value
    ensures DecimalValue(LeadingDigits(Unsigned(s))) > MaxUint64 ==>
              v == (if |s| > 0 && s[0] == '-' then MinInt64 else MaxInt64)
    ensures Unsigned(s) != [] && AllDigits(Unsigned(s)) && Atoi(s).None? ==>
              v == (if s[0] == '-' then MinInt64 else MaxInt64)
    ensures !(Unsigned(s) != [] && AllDigits(Unsigned(s))) && DecimalValue(LeadingDigits(Unsigned(s))) <= MaxUint64 ==>
              v == 0
    ensures MinInt64 <= v <= MaxInt64
  {
    var digits := Unsigned(s);
    match Atoi(s)
    case Some(n) =>
      LeadingDigitsOfDigits(digits);
      n
    case None =>
      if DecimalValue(LeadingDigits(digits)) > MaxUint64 || (digits != [] && AllDigits(digits)) then
        if |s| > 0 && s[0] == '-' then MinInt64 else MaxInt64
      else 0
  }

  /**
   * A digit run past 2^64 - 1 is a range error even when a non-digit follows,
   * and is read as the bound of its sign; within that bound the non-digit
   * makes it a syntax error, read as zero.
   */
  lemma DigitsThenText(digits: string, rest: string)
    requires digits != [] && AllDigits(digits) && rest != [] && !IsDigit(rest[0])
    ensures DecimalValue(digits) > MaxUint64 ==>
              AtoiIgnoringError(digits + rest) == MaxInt64 && AtoiIgnoringError("-" + digits + rest) == MinInt64
    ensures DecimalValue(digits) <= MaxUint64 ==>
              AtoiIgnoringError(digits + rest) == 0 && AtoiIgnoringError("-" + digits + rest) == 0
  {
    LeadingDigitsStop(digits, rest);
    var plain, negative := digits + rest, "-" + digits + rest;
    assert plain[0] == digits[0];
    assert Unsigned(plain) == plain;
    assert negative[1..] == plain;
    assert Unsigned(negative) == plain;
  }

  /** Twenty nines overflow 2^64 - 1: a range error even when a letter follows. */
  lemma OverflowComesBeforeSyntaxError()
    ensures AtoiIgnoringError("99999999999999999999x") == MaxInt64
  {
    var twenty := "99999999999999999999";
    TwentyNinesPastUint64(twenty);
    DigitsThenText(twenty, "x");
    assert "99999999999999999999x" == twenty + "x";
  }

  /** Nineteen nines fit in 64 bits, so the letter after them is a syntax error, read as zero. */
  lemma SyntaxErrorWithinUint64()
    ensures AtoiIgnoringError("9999999999999999999x") == 0
  {
    var nineteen := "9999999999999999999";
    Pow10Of19();
    DecimalBelowPow10(nineteen);
    DigitsThenText(nineteen, "x");
    assert "9999999999999999999x" == nineteen + "x";
  }

  lemma TwentyNinesPastUint64(twenty: string)
    requires twenty == "99999999999999999999"
    ensures AllDigits(twenty) && DecimalValue(twenty) > MaxUint64
  {
    DecimalAtLeastLead(twenty);
    Pow10Of19();
  }

  lemma Pow10Of19()
    ensures Pow10(19) == 10000000000000000000
  {
    Pow10Add(4, 4);
    Pow10Add(8, 8);
    Pow10Add(16, 3);
  }

  function Pow10(n: nat): (p: nat)
    ensures p >= 1
  {
    if n == 0 then 1 else 10 * Pow10(n - 1)
  }

  lemma {:induction false} Pow10Add(a: nat, b: nat)
    ensures Pow10(a + b) == Pow10(a) * Pow10(b)
  {
    if b > 0 {
      Pow10Add(a, b - 1);
      assert Pow10(a) * Pow10(b) == Pow10(a) * (10 * Pow10(b - 1)) == 10 * (Pow10(a) * Pow10(b - 1));
    }
  }

  lemma {:induction false} DecimalBelowPow10(s: string)
    requires AllDigits(s)
    ensures DecimalValue(s) < Pow10(|s|)
  {
    if s != [] {
      DecimalBelowPow10(s[..|s| - 1]);
    }
  }

  /** A number is at least its leading digit times the weight of its position. */
  lemma {:induction false} DecimalAtLeastLead(s: string)
    requires AllDigits(s) && s != []
    ensures DecimalValue(s) >= DigitValue(s[0]) * Pow10(|s| - 1)
  {
    if |s| > 1 {
      var init := s[..|s| - 1];
      DecimalAtLeastLead(init);
      assert init[0] == s[0];
      var d := DigitValue(s[0]);
      assert 10 * (d * Pow10(|s| - 2)) == d * Pow10(|s| - 1);
    }
  }

  /** The digit run ends at the first non-digit. */
  lemma {:induction false} LeadingDigitsStop(digits: string, rest: string)
    requires AllDigits(digits) && rest != [] && !IsDigit(rest[0])
    ensures LeadingDigits(digits + rest) == digits
    ensures !AllDigits(digits + rest)
  {
    assert (digits + rest)[|digits|] == rest[0];
    if digits != [] {
      LeadingDigitsStop(digits[1..], rest);
      assert (digits + rest)[1..] == digits[1..] + rest;
    }
  }

  /** Two's-complement wrap-around of Go's 64-bit `int` arithmetic. */
  function Wrap64(x: int): (r: int)
    ensures MinInt64 <= r <= MaxInt64
    ensures (r - x) % 0x1_0000_0000_0000_0000 == 0
    ensures MinInt64 <= x <= MaxInt64 ==> r == x
  {
    (x - MinInt64) % 0x1_0000_0000_0000_0000 + MinInt64
  }

  lemma AtMostProduct(p: nat, n: nat)
    requires 1 <= n
    ensures p <= p * n
  {
    var extra := p * (n - 1);
    assert p * n == p + extra;
    assert extra >= 0;
  }

  lemma DivAtMost(x: nat, y: nat)
    requires y >= 1
    ensures x / y <= x
  {
    var q, m := x / y, x % y;
    assert x == q * y + m && 0 <= m;
    if q > x {
      AtMostProduct(q, y);
      assert false;
    }
  }

  function Abs(x: int): nat
  {
    if x < 0 then -x else x
  }

  /**
   * Go's integer division on 64-bit operands. The quotient is truncated toward
   * zero: its magnitude is |a| / |b| and its sign is the product of the signs.
   * The one quotient that does not fit, MinInt64 / -1, wraps to MinInt64.
   */
  function GoDiv(a: int, b: int): (q: int)
    requires MinInt64 <= a <= MaxInt64 && MinInt64 <= b <= MaxInt64 && b != 0
    ensures a == MinInt64 && b == -1 ==> q == MinInt64
    ensures !(a == MinInt64 && b == -1) ==>
              Abs(q) == Abs(a) / Abs(b) &&
              (q > 0 ==> (a < 0) == (b < 0)) &&
              (q < 0 ==> (a < 0) != (b < 0))
    ensures a >= 0 && b > 0 ==> q == a / b
    ensures MinInt64 <= q <= MaxInt64
  {
    var magnitude := Abs(a) / Abs(b);
    var signed := if (a < 0) != (b < 0) then -magnitude else magnitude;
    QuotientFits(a, b);
    if a == MinInt64 && b == -1 then
      assert signed == -MinInt64;
      Wrap64(-MinInt64)
    else
      assert MinInt64 <= signed <= MaxInt64;
      Wrap64(signed)
  }

  /** |a| / |b| fits in an int64 with either sign, except when it is MinInt64 / -1. */
  lemma QuotientFits(a: int, b: int)
    requires MinInt64 <= a <= MaxInt64 && MinInt64 <= b <= MaxInt64 && b != 0
    ensures var m := Abs(a) / Abs(b);
      0 <= m <= -MinInt64 &&
      ((a < 0) == (b < 0) && !(a == MinInt64 && b == -1) ==> m <= MaxInt64) &&
      (a == MinInt64 && b == -1 ==> m == -MinInt64)
  {
    QuotientBound(Abs(a), Abs(b));
  }

  lemma QuotientBound(x: nat, y: nat)
    requires 1 <= y && x <= -MinInt64
    ensures 0 <= x / y <= x
    ensures x / y == -MinInt64 ==> y == 1 && x == -MinInt64
    ensures y == 1 ==> x / y == x
  {
    DivAtMost(x, y);
    if y >= 2 {
      HalfAtMost(x, y);
    }
  }

  lemma HalfAtMost(x: nat, y: nat)
    requires y >= 2
    ensures 2 * (x / y) <= x
  {
    var m, rem := x / y, x % y;
    assert x == m * y + rem && 0 <= rem;
    AtMostProduct(m, y - 1);
    assert m * y == m + m * (y - 1);
  }

  /**
   * The quotient and remainder satisfy a == q * b + r with |r| < |b|, the
   * remainder taking the sign of the dividend: Go's truncated division.
   */
  lemma GoDivTruncates(a: int, b: int)
    requires MinInt64 <= a <= MaxInt64 && MinInt64 <= b <= MaxInt64 && b != 0
    requires !(a == MinInt64 && b == -1)
    ensures var r := a - GoDiv(a, b) * b;
      Abs(r) < Abs(b) && (r == 0 || (r < 0 <==> a < 0))
  {
    var q: int, x: int, y: int := GoDiv(a, b), Abs(a), Abs(b);
    var m: int, rem: int := x / y, x % y;
    assert x == m * y + rem && 0 <= rem < y;
    assert Abs(q) == m;
    NegatedProducts(m, y);
    if (a < 0) != (b < 0) {
      assert q == -m;
    } else {
      assert q == m;
    }
  }

  lemma NegatedProducts(m: int, y: int)
    ensures (-m) * y == -(m * y) && m * (-y) == -(m * y) && (-m) * (-y) == m * y
  {
  }

  /** Division of negative operands rounds toward zero, and the overflowing quotient wraps. */
  lemma GoDivRoundsTowardZero()
    ensures GoDiv(-3, 5) == 0 && GoDiv(7, -2) == -3 && GoDiv(-7, -2) == 3
    ensures GoDiv(MinInt64, -1) == MinInt64
  {
  }

  /** Decimal digits of `n`, without leading zeros. */
  function NatDigits(n: nat): (s: string)
    ensures s != [] && AllDigits(s) && DecimalValue(s) == n
    ensures IsDigit(s[0])
  {
    if n < 10 then [DigitChar(n)]
    else
      var prefix := NatDigits(n / 10);
      var s := prefix + [DigitChar(n % 10)];
      assert s[..|s| - 1] == prefix;
      s
  }

  /** `strconv.Itoa`: the decimal text of `n`, with a `-` when negative. */
  function Itoa(n: int): string
  {
    if n < 0 then "-" + NatDigits(-n) else NatDigits(n)
  }

  /** Every int64 survives formatting and parsing back, so any id can be named in a path. */
  lemma AtoiItoa(n: int)
    requires MinInt64 <= n <= MaxInt64
    ensures Atoi(Itoa(n)) == Some(n)
  {
    var s := Itoa(n);
    if n < 0 {
      assert s[0] == '-' && s[1..] == NatDigits(-n);
    } else {
      assert Unsigned(s) == s;
    }
  }
}
