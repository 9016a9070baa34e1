/**
 * Java's 32-bit `int`: its range, the two's-complement wrap-around of `int`
 * arithmetic, `Integer.parseInt` (radix 10) and `Integer.toString`.
 */
module JavaInt {
  import opened Wrappers

  const MinInt: int := -0x8000_0000
  const MaxInt: int := 0x7fff_ffff
  const Modulus: int := 0x1_0000_0000

  predicate InRange(x: int) {
    MinInt <= x <= MaxInt
  }

  /** A value of Java type `int`. */
  type Int32 = x: int | MinInt <= x <= MaxInt

  /**
   * The `int` that two's-complement arithmetic leaves for the exact value `x`:
   * the unique representable value congruent to `x` modulo 2^32.
   */
  function Wrap(x: int): (r: int)
    ensures InRange(r)
    ensures (x - r) % Modulus == 0
    ensures InRange(x) ==> r == x
  {
    (x - MinInt) % Modulus + MinInt
  }

  /** Shifting by whole multiples of 2^32 does not change a residue. */
  lemma ModShift(z: int, q: int)
    ensures (z + q * Modulus) % Modulus == z % Modulus
  {
    var d := z / Modulus;
    var r := z % Modulus;
    assert z + q * Modulus == (d + q) * Modulus + r;
    var e := (z + q * Modulus) / Modulus;
    var r' := (z + q * Modulus) % Modulus;
    assert (d + q - e) * Modulus == r' - r;
  }

  /** Wrapping an intermediate sum does not change the wrapped total. */
  lemma WrapAdd(x: int, y: int)
    ensures Wrap(Wrap(x) + y) == Wrap(x + y)
  {
    var a := x - MinInt;
    ModShift(a % Modulus + y, a / Modulus);
    assert a % Modulus + y + (a / Modulus) * Modulus == a + y;
  }

  // ---------------------------------------------------------------------------
  // Integer.parseInt(s) and Integer.toString(n), radix 10, ASCII digits only.

  predicate IsDigit(c: char) {
    '0' <= c <= '9'
  }

  predicate AllDigits(s: string) {
    forall i :: 0 <= i < |s| ==> IsDigit(s[i])
  }

  function DigitValue(c: char): nat
    requires IsDigit(c)
  {
    c as int - '0' as int
  }

  function DigitChar(d: nat): (c: char)
    requires d < 10
    ensures IsDigit(c) && DigitValue(c) == d
  {
    ('0' as int + d) as char
  }

  /** The value of a run of decimal digits, read most significant first. */
  function DigitsValue(s: string): nat
    requires AllDigits(s)
  {
    if s == [] then 0
    else DigitsValue(s[..|s| - 1]) * 10 + DigitValue(s[|s| - 1])
  }

  /**
   * `Integer.parseInt(s)`: an optional leading `-` or `+`, then at least one
   * decimal digit, and the value must fit in an `int`. Anything else (the
   * empty string, a lone sign, a blank, a letter, an overflow) is a
   * `NumberFormatException`, carried here as the rejected input.
   */
  function ParseInt(s: string): (r: Result<int, string>)
    ensures r.Success? ==> InRange(r.value)
    ensures r.Failure? ==> r.error == s
    ensures r.Success? ==> |s| > 0
  {
    if |s| == 0 then Failure(s)
    else
      var negative := s[0] == '-';
      var digits := if s[0] == '-' || s[0] == '+' then s[1..] else s;
      if |digits| == 0 || !AllDigits(digits) then Failure(s)
      else
        var v: int := if negative then -(DigitsValue(digits) as int) else DigitsValue(digits);
        if InRange(v) then Success(v) else Failure(s)
  }

  /** The decimal digits of `n` without leading zeros ("0" for zero). */
  function NaturalToDigits(n: nat): (s: string)
    ensures |s| > 0 && AllDigits(s)
    ensures DigitsValue(s) == n
    ensures s[0] == '0' ==> s == "0"
  {
    if n < 10 then [DigitChar(n)]
    else
      var prefix := NaturalToDigits(n / 10);
      var s := prefix + [DigitChar(n % 10)];
      assert s[..|s| - 1] == prefix;
      s
  }

  /** `Integer.toString(n)`: a `-` for negative values, then the digits of |n|. */
  function IntToString(n: int): (s: string)
    ensures |s| > 0 && (s[0] == '-' <==> n < 0)
    ensures var digits := if n < 0 then s[1..] else s;
            digits != [] && AllDigits(digits) && (digits[0] == '0' ==> n == 0)
  {
    if n < 0 then "-" + NaturalToDigits(-n) else NaturalToDigits(n)
  }

  /** `Integer.parseInt` reads back every `int` that `Integer.toString` writes. */
  lemma ParseIntToString(n: int)
    requires InRange(n)
    ensures ParseInt(IntToString(n)) == Success(n)
  {
    var s := IntToString(n);
    if n < 0 {
      assert s[1..] == NaturalToDigits(-n);
    } else {
      assert IsDigit(s[0]);
    }
  }

  /** What may precede the digits: nothing, a plus sign or a minus sign. */
  predicate IsSign(sign: string) {
    sign == "" || sign == "+" || sign == "-"
  }

  /**
   * Every optional sign followed by one or more digits is read: its value,
   * negated after a minus sign, when that fits in an `int`, and a
   * `NumberFormatException` for the whole input when it does not.
   */
  lemma ParseIntAccepts(sign: string, d: string)
    requires IsSign(sign) && d != [] && AllDigits(d)
    ensures var v := if sign == "-" then -(DigitsValue(d) as int) else DigitsValue(d) as int;
            ParseInt(sign + d) == if InRange(v) then Success(v) else Failure(sign + d)
  {
    var s := sign + d;
    if sign == "" {
      assert s == d;
      assert IsDigit(s[0]);
    } else {
      assert s[0] == sign[0];
      assert s[1..] == d;
    }
  }

  /**
   * Nothing else is read: an accepted string is an optional sign (its first
   * `k` characters, `k` at most one) followed by at least one digit.
   */
  lemma ParseIntShape(s: string)
    ensures ParseInt(s).Success? ==>
              exists k :: 0 <= k <= 1 && k < |s| && IsSign(s[..k]) && AllDigits(s[k..])
  {
    if ParseInt(s).Success? {
      var k := if s[0] == '-' || s[0] == '+' then 1 else 0;
      if k == 1 {
        assert s[..1] == [s[0]];
      } else {
        assert s[..0] == "" && s[0..] == s;
      }
      assert IsSign(s[..k]) && AllDigits(s[k..]);
    }
  }

  /** Examples of the accepted and rejected forms. */
  lemma ParseIntExamples()
    ensures ParseInt("17") == Success(17)
    ensures ParseInt("+5") == Success(5)
    ensures ParseInt("-007") == Success(-7)
    ensures ParseInt("-2147483648") == Success(MinInt)
    ensures ParseInt("2147483648").Failure?
    ensures ParseInt("").Failure? && ParseInt("-").Failure?
    ensures ParseInt(" 17").Failure? && ParseInt("2.8").Failure?
  {
    assert AllDigits("17") && AllDigits("5") && AllDigits("007");
    assert DigitsValue("17") == 17 by {
      assert "17"[..1] == "1";
      assert "1"[..0] == "";
    }
    assert DigitsValue("007") == 7 by {
      assert "007"[..2] == "00";
      assert "00"[..1] == "0";
      assert "0"[..0] == "";
    }
    assert "+5"[1..] == "5";
    assert "5"[..0] == "";
    assert "-007"[1..] == "007";
    assert !IsDigit(" 17"[0]);
    assert !IsDigit("2.8"[1]);
    assert "-2147483648"[1..] == "2147483648";
    LargeDigits();
  }

  /** The digits of 2^31, one more than `MaxInt`. */
  lemma LargeDigits()
    ensures AllDigits("2147483648") && DigitsValue("2147483648") == 2147483648
  {
    assert "2"[..0] == "";
    assert "21"[..1] == "2";
    assert DigitsValue("21") == 21;
    assert "214"[..2] == "21";
    assert "2147"[..3] == "214";
    assert DigitsValue("2147") == 2147;
    assert "21474"[..4] == "2147";
    assert "214748"[..5] == "21474";
    assert DigitsValue("214748") == 214748;
    assert "2147483"[..6] == "214748";
    assert "21474836"[..7] == "2147483";
    assert DigitsValue("21474836") == 21474836;
    assert "214748364"[..8] == "21474836";
    assert "2147483648"[..9] == "214748364";
  }
}
