/** Java's 32-bit `int`: its range, the wrap-around of `+`, and `String.valueOf(int)`. */
module JavaInt {
  import opened Wrappers

  const MinInt: int := -0x8000_0000
  const MaxInt: int := 0x7FFF_FFFF
  const Modulus: int := 0x1_0000_0000

  type int32 = x: int | -0x8000_0000 <= x < 0x8000_0000

  /** Narrowing of an unbounded integer to `int`: the two's-complement value with the
      same low 32 bits. */
  function Wrap(x: int): (r: int32)
    ensures (r - x) % Modulus == 0
    ensures MinInt <= x <= MaxInt ==> r == x
  {
    (x - MinInt) % Modulus + MinInt
  }

  /** Java's `a + b` on two `int`s, which wraps around on overflow. */
  function Add(a: int32, b: int32): (r: int32)
    ensures MinInt <= a + b <= MaxInt ==> r == a + b
    ensures a + b > MaxInt ==> r == a + b - Modulus
    ensures a + b < MinInt ==> r == a + b + Modulus
  {
    Wrap(a + b)
  }

  /** Two integers congruent modulo 2^32 narrow to the same `int`. */
  lemma WrapCongruent(x: int, y: int)
    requires (x - y) % Modulus == 0
    ensures Wrap(x) == Wrap(y)
  {
    var k := (x - y) / Modulus;
    assert x - MinInt == (y - MinInt) + k * Modulus;
    ModAddMultiple(y - MinInt, k);
  }

  lemma ModAddMultiple(a: int, k: int)
    ensures (a + k * Modulus) % Modulus == a % Modulus
  {
    var q, r := a / Modulus, a % Modulus;
    assert a + k * Modulus == (q + k) * Modulus + r;
  }

  /** Adding with wrap-around step by step gives the narrowing of the exact sum:
      the accumulator of a Java `int` loop stays congruent to the true total. */
  lemma {:induction false} AddWrap(x: int, b: int32)
    ensures Add(Wrap(x), b) == Wrap(x + b)
  {
    var w := Wrap(x);
    assert ((w + b) - (x + b)) % Modulus == 0;
    WrapCongruent(w + b, x + b);
  }

  // ---------------------------------------------------------------- String.valueOf

  function DigitChar(d: int): (c: char)
    requires 0 <= d < 10
    ensures '0' <= c <= '9'
  {
    ['0', '1', '2', '3', '4', '5', '6', '7', '8', '9'][d]
  }

  function DigitValue(c: char): (d: int)
    requires '0' <= c <= '9'
    ensures 0 <= d < 10
  {
    (c as int) - ('0' as int)
  }

  predicate AllDigits(s: string) {
    forall i :: 0 <= i < |s| ==> '0' <= s[i] <= '9'
  }

  /** Decimal digits of a natural number, most significant first, no leading zero. */
  function Digits(n: nat): (s: string)
    ensures |s| >= 1 && AllDigits(s)
    ensures s[0] == '0' ==> n == 0
  {
    if n < 10 then [DigitChar(n)] else Digits(n / 10) + [DigitChar(n % 10)]
  }

  /** `String.valueOf(n)`: an optional minus sign followed by the digits of |n|. */
  function ToDecimal(n: int): (s: string)
    ensures |s| >= 1
    ensures s[0] == '-' <==> n < 0
  {
    if n < 0 then "-" + Digits(-n) else Digits(n)
  }

  /** Value of a non-empty run of decimal digits. */
  function DigitsValue(s: string): (n: nat)
    requires AllDigits(s)
  {
    if s == [] then 0 else DigitsValue(s[..|s| - 1]) * 10 + DigitValue(s[|s| - 1])
  }

  /** `Integer.parseInt` restricted to what `String.valueOf` produces: an optional minus
      sign and at least one digit. */
  function ParseDecimal(s: string): (r: Option<int>)
  {
    if |s| >= 2 && s[0] == '-' && AllDigits(s[1..]) then
      var magnitude: int := DigitsValue(s[1..]);
      Some(-magnitude)
    else if |s| >= 1 && AllDigits(s) then
      Some(DigitsValue(s))
    else
      None
  }

  lemma {:induction false} DigitsRoundTrip(n: nat)
    ensures DigitsValue(Digits(n)) == n
  {
    var s := Digits(n);
    if n < 10 {
      assert s[..|s| - 1] == [];
    } else {
      assert s[..|s| - 1] == Digits(n / 10);
      DigitsRoundTrip(n / 10);
    }
  }

  lemma ParseNegative(digits: string)
    requires |digits| >= 1 && AllDigits(digits)
    ensures ParseDecimal("-" + digits) == Some(0 - DigitsValue(digits))
  {
    assert ("-" + digits)[1..] == digits;
  }

  /** `String.valueOf` loses nothing: parsing its text gives the number back. */
  lemma ToDecimalRoundTrip(n: int)
    ensures ParseDecimal(ToDecimal(n)) == Some(n)
  {
    var magnitude: nat := if n < 0 then -n else n;
    var digits := Digits(magnitude);
    DigitsRoundTrip(magnitude);
    if n < 0 {
      assert ToDecimal(n) == "-" + digits;
      ParseNegative(digits);
    } else {
      assert ToDecimal(n) == digits;
      ParseNonNegative(digits);
    }
  }

  lemma ParseNonNegative(digits: string)
    requires |digits| >= 1 && AllDigits(digits)
    ensures ParseDecimal(digits) == Some(DigitsValue(digits) as int)
  {
    assert digits[0] != '-';
  }

  /** Different numbers are rendered as different strings. */
  lemma ToDecimalInjective(m: int, n: int)
    requires ToDecimal(m) == ToDecimal(n)
    ensures m == n
  {
    ToDecimalRoundTrip(m);
    ToDecimalRoundTrip(n);
  }
}
