/**
 * Java's 32-bit `int` arithmetic, `String.hashCode` and `String.valueOf(int)`,
 * written out over Dafny's unbounded integers.
 */
module JavaInt {

  /** A Java `int`: 32-bit two's complement. */
  newtype Int32 = x: int | -0x8000_0000 <= x < 0x8000_0000

  const Modulus: int := 0x1_0000_0000

  /**
   * The Java `int` that a chain of `int` operations yields when the exact
   * mathematical result is `x`: the representative of `x` modulo 2^32.
   */
  function Wrap(x: int): (r: Int32)
    ensures (r as int) % Modulus == x % Modulus
    ensures -0x8000_0000 <= x < 0x8000_0000 ==> r as int == x
  {
    var m := x % Modulus;
    if m < 0x8000_0000 then m as Int32 else (m - Modulus) as Int32
  }

  lemma ModMultiple(e: int, q: int)
    ensures (e + Modulus * q) % Modulus == e % Modulus
  {
  }

  /** Congruence modulo 2^32 is preserved by `a * x + b`. */
  lemma ModAffine(x: int, y: int, a: int, b: int)
    requires x % Modulus == y % Modulus
    ensures (a * x + b) % Modulus == (a * y + b) % Modulus
  {
    var qx, qy, rm := x / Modulus, y / Modulus, x % Modulus;
    assert x == Modulus * qx + rm;
    assert y == Modulus * qy + rm;
    assert a * x + b == (a * rm + b) + Modulus * (a * qx);
    assert a * y + b == (a * rm + b) + Modulus * (a * qy);
    ModMultiple(a * rm + b, a * qx);
    ModMultiple(a * rm + b, a * qy);
  }

  /**
   * Wrapping an intermediate result does not change the final one: Java's
   * step-by-step `a * x + b` equals the exact value taken modulo 2^32.
   */
  lemma WrapAffine(x: int, a: int, b: int)
    ensures Wrap(a * (Wrap(x) as int) + b) == Wrap(a * x + b)
  {
    ModAffine(Wrap(x) as int, x, a, b);
  }

  /** Adding two wrapped values and wrapping is wrapping the exact sum. */
  lemma WrapAdd(x: int, y: int)
    ensures Wrap(Wrap(x) as int + Wrap(y) as int) == Wrap(x + y)
  {
    WrapAffine(x, 1, Wrap(y) as int);
    WrapAffine(y, 1, x);
  }

  /** The exact polynomial sum of s[i] * 31^(n-1-i) that `String.hashCode` reduces. */
  function HashPolynomial(s: string): int
  {
    if s == [] then 0 else 31 * HashPolynomial(s[..|s| - 1]) + (s[|s| - 1] as int)
  }

  /**
   * `String.hashCode`: `h = 31 * h + c` over the characters, from 0, in `int`.
   * Wrapping after every step is wrapping the exact polynomial once.
   */
  function StringHash(s: string): (h: Int32)
    ensures h == Wrap(HashPolynomial(s))
  {
    if s == [] then 0
    else
      var init := s[..|s| - 1];
      var p := StringHash(init);
      WrapAffine(HashPolynomial(init), 31, s[|s| - 1] as int);
      Wrap(31 * (p as int) + (s[|s| - 1] as int))
  }

  function DigitChar(d: nat): (c: char)
    requires d < 10
    ensures '0' <= c <= '9'
  {
    ('0' as int + d) as char
  }

  /** The decimal digits of `n`, most significant first, without leading zeros. */
  function Digits(n: nat): (s: string)
    ensures |s| > 0
    ensures forall i :: 0 <= i < |s| ==> '0' <= s[i] <= '9'
    ensures |s| > 1 ==> s[0] != '0'
  {
    if n < 10 then [DigitChar(n)] else Digits(n / 10) + [DigitChar(n % 10)]
  }

  /** The value of a string of decimal digits. */
  function DecimalValue(s: string): int
  {
    if s == [] then 0 else 10 * DecimalValue(s[..|s| - 1]) + (s[|s| - 1] as int - '0' as int)
  }

  lemma {:induction false} DigitsRoundTrip(n: nat)
    ensures DecimalValue(Digits(n)) == n
  {
    if n >= 10 {
      var s := Digits(n / 10) + [DigitChar(n % 10)];
      assert s[..|s| - 1] == Digits(n / 10);
      DigitsRoundTrip(n / 10);
    }
  }

  /** `String.valueOf(int)`: an optional minus sign followed by the decimal digits. */
  function IntToString(i: Int32): (s: string)
    ensures |s| > 0
    ensures forall j :: 0 <= j < |s| ==> s[j] == '-' || '0' <= s[j] <= '9'
    ensures (s[0] == '-') == (i < 0)
  {
    if i < 0 then "-" + Digits(-(i as int)) else Digits(i as int)
  }

  /** Reads back what `IntToString` writes. */
  function ParseInt(s: string): int
  {
    if |s| > 0 && s[0] == '-' then -DecimalValue(s[1..]) else DecimalValue(s)
  }

  lemma IntToStringRoundTrip(i: Int32)
    ensures ParseInt(IntToString(i)) == i as int
  {
    if i < 0 {
      var s := IntToString(i);
      assert s[1..] == Digits(-(i as int));
      DigitsRoundTrip(-(i as int));
    } else {
      DigitsRoundTrip(i as int);
    }
  }

  /** Distinct `int`s print differently. */
  lemma IntToStringInjective(i: Int32, j: Int32)
    ensures IntToString(i) == IntToString(j) <==> i == j
  {
    IntToStringRoundTrip(i);
    IntToStringRoundTrip(j);
  }
}
