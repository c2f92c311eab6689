/**
 * The integer pieces of Go's standard library that the part-naming code relies on:
 * the 64-bit `int`, `fmt`'s `%d` formatting, `fmt.Sscanf(s, "%d", &n)` and
 * `strconv.Atoi`, on strings seen as sequences of Unicode scalar values.
 */
module GoStrconv {
  import opened Wrappers

  const MinInt64: int := -0x8000_0000_0000_0000
  const MaxInt64: int := 0x7FFF_FFFF_FFFF_FFFF
  const TwoTo64: int := 0x1_0000_0000_0000_0000

  /** Go's `int` on a 64-bit platform. */
  type Int64 = x: int | MinInt64 <= x <= MaxInt64

  /** The result of a Go `int` addition whose mathematical value is `x`: two's-complement wrap-around. */
  function Wrap(x: int): (r: Int64)
    ensures MinInt64 <= x <= MaxInt64 ==> r == x
    ensures x == MaxInt64 + 1 ==> r == MinInt64
  {
    (x - MinInt64) % TwoTo64 + MinInt64
  }

  /** Adding one to a wrapped value wraps like adding one to the unwrapped value. */
  lemma WrapSucc(x: int)
    ensures Wrap(Wrap(x) + 1) == Wrap(x + 1)
  {
    var y := x - MinInt64;
    var q := y / TwoTo64;
    assert y == q * TwoTo64 + y % TwoTo64;
    assert Wrap(x) + 1 - MinInt64 == y % TwoTo64 + 1;
    assert x + 1 - MinInt64 == q * TwoTo64 + (y % TwoTo64 + 1);
    ModShift(y % TwoTo64 + 1, q);
  }

  lemma ModShift(a: int, q: int)
    ensures (q * TwoTo64 + a) % TwoTo64 == a % TwoTo64
  {
  }

  predicate IsDigit(c: char) {
    '0' <= c <= '9'
  }

  predicate AllDigits(s: string) {
    forall i :: 0 <= i < |s| ==> IsDigit(s[i])
  }

  /** A non-empty run of ASCII digits (`isNumeric`, main.go). */
  predicate Numeric(s: string) {
    |s| > 0 && AllDigits(s)
  }

  function DigitValue(c: char): (d: nat)
    requires IsDigit(c)
    ensures d < 10
  {
    c as int - '0' as int
  }

  function DigitChar(d: nat): (c: char)
    requires d < 10
    ensures IsDigit(c) && DigitValue(c) == d
  {
    ('0' as int + d) as char
  }

  /** The number a run of decimal digits denotes (leading zeros allowed). */
  function DecimalValue(s: string): nat
    requires AllDigits(s)
  {
    if s == [] then 0 else 10 * DecimalValue(s[..|s| - 1]) + DigitValue(s[|s| - 1])
  }

  /** The decimal representation of `n`, without leading zeros. */
  function NatToDecimal(n: nat): (s: string)
    ensures Numeric(s)
    ensures |s| > 1 ==> s[0] != '0'
  {
    if n < 10 then [DigitChar(n)] else NatToDecimal(n / 10) + [DigitChar(n % 10)]
  }

  lemma {:induction false} DecimalRoundTrip(n: nat)
    ensures DecimalValue(NatToDecimal(n)) == n
  {
    if n >= 10 {
      var s := NatToDecimal(n);
      assert s[..|s| - 1] == NatToDecimal(n / 10);
      DecimalRoundTrip(n / 10);
    }
  }

  /** `fmt.Sprintf("%d", n)`. */
  function FormatInt(n: int): (s: string)
    ensures |s| > 0
    ensures s[0] == '-' <==> n < 0
  {
    if n < 0 then "-" + NatToDecimal(-n) else NatToDecimal(n)
  }

  /** Distinct integers are formatted differently. */
  lemma FormatIntInjective(a: int, b: int)
    requires FormatInt(a) == FormatInt(b)
    ensures a == b
  {
    if a < 0 {
      assert NatToDecimal(-a) == FormatInt(a)[1..] == FormatInt(b)[1..] == NatToDecimal(-b);
      DecimalRoundTrip(-a);
      DecimalRoundTrip(-b);
    } else {
      DecimalRoundTrip(a);
      DecimalRoundTrip(b);
    }
  }

  /**
   * `fmt.Sscanf(s, "%d", &num)` with `num` starting at 0, for an all-digit `s`:
   * the value when it fits in an `int`; otherwise the scan fails and `num` stays 0.
   */
  function ScanDecimal(s: string): (n: Int64)
    requires Numeric(s)
    ensures n >= 0
    ensures DecimalValue(s) <= MaxInt64 ==> n == DecimalValue(s)
    ensures DecimalValue(s) > MaxInt64 ==> n == 0
  {
    var v := DecimalValue(s);
    if v <= MaxInt64 then v else 0
  }

  /** Digits that do not start with `0` denote a positive number. */
  lemma {:induction false} DecimalPositive(t: string)
    requires Numeric(t) && t[0] != '0'
    ensures DecimalValue(t) > 0
  {
    if |t| > 1 {
      var init := t[..|t| - 1];
      assert init[0] == t[0];
      DecimalPositive(init);
    }
  }

  /** Digits without a leading zero are the decimal representation of their value. */
  lemma {:induction false} DecimalCanonical(s: string)
    requires Numeric(s) && (|s| == 1 || s[0] != '0')
    ensures NatToDecimal(DecimalValue(s)) == s
  {
    if |s| > 1 {
      var init, c := s[..|s| - 1], s[|s| - 1];
      assert init[0] == s[0];
      DecimalPositive(init);
      DecimalCanonical(init);
      var v := DecimalValue(s);
      assert v / 10 == DecimalValue(init) && v % 10 == DigitValue(c);
      assert DigitChar(v % 10) == c;
      assert s == init + [c];
    } else {
      assert DigitChar(DigitValue(s[0])) == s[0];
    }
  }

  /**
   * `Sscanf("%d")` on digits without a leading zero whose value fits in an `int` gives
   * back a number whose `%d` text is those digits.
   */
  lemma ScanDecimalCanonical(s: string)
    requires Numeric(s) && (|s| == 1 || s[0] != '0') && DecimalValue(s) <= MaxInt64
    ensures FormatInt(ScanDecimal(s)) == s
  {
    DecimalCanonical(s);
  }

  /**
   * `strconv.Atoi(s)`: an optional sign followed by one or more decimal digits,
   * whose value fits in an `int`; anything else is an error (`None`).
   */
  function Atoi(s: string): (r: Option<Int64>)
    ensures r.Some? ==> |s| > 0
    ensures r.Some? && r.value < 0 ==> s[0] == '-'
    ensures Numeric(s) ==> r == if DecimalValue(s) <= MaxInt64 then Some(DecimalValue(s)) else None
  {
    if |s| == 0 then None
    else
      var negative := s[0] == '-';
      var digits := if s[0] == '-' || s[0] == '+' then s[1..] else s;
      if !Numeric(digits) then None
      else
        var v: int := if negative then 0 - DecimalValue(digits) as int else DecimalValue(digits);
        if MinInt64 <= v <= MaxInt64 then Some(v) else None
  }

  /** `strconv.Atoi` accepts only an optional sign followed by one or more digits. */
  lemma AtoiAccepts(s: string)
    requires Atoi(s).Some?
    ensures exists d :: Numeric(d) && (s == d || s == "+" + d || s == "-" + d)
  {
    var d := if s[0] == '-' || s[0] == '+' then s[1..] else s;
    if s[0] == '-' {
      assert s == "-" + d;
    } else if s[0] == '+' {
      assert s == "+" + d;
    }
  }

  /** A `+` changes nothing, and a `-` negates, failing only below the smallest `int`. */
  lemma AtoiSigned(d: string)
    requires Numeric(d)
    ensures Atoi("+" + d) == Atoi(d)
    ensures Atoi("-" + d) == if DecimalValue(d) <= -MinInt64 then Some(0 - DecimalValue(d)) else None
  {
    assert ("+" + d)[1..] == d;
    assert ("-" + d)[1..] == d;
  }

  /** `strconv.Atoi` reads back what `%d` writes. */
  lemma AtoiFormatInt(n: Int64)
    ensures Atoi(FormatInt(n)) == Some(n)
  {
    var s := FormatInt(n);
    if n < 0 {
      assert s[1..] == NatToDecimal(-(n as int));
      DecimalRoundTrip(-(n as int));
    } else {
      assert s[0] != '-' && s[0] != '+';
      DecimalRoundTrip(n);
    }
  }

  /** `Sscanf` reads back what `%d` writes, for a non-negative `int`. */
  lemma ScanFormatInt(n: Int64)
    requires n >= 0
    ensures Numeric(FormatInt(n)) && ScanDecimal(FormatInt(n)) == n
  {
    DecimalRoundTrip(n);
  }
}
