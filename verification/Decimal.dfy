/** The decimal numeral that a "%d" conversion prints for a non-negative number. */
module Decimal {

  predicate IsDigit(c: char) {
    '0' <= c <= '9'
  }

  function DigitChar(d: nat): (c: char)
    requires d < 10
    ensures IsDigit(c) && c == "0123456789"[d]
  {
    '0' + d as char
  }

  function DigitValue(c: char): (d: nat)
    requires IsDigit(c)
    ensures d < 10 && DigitChar(d) == c
  {
    (c - '0') as nat
  }

  function Numeral(n: nat): (s: string)
    ensures |s| >= 1
  {
    if n < 10 then [DigitChar(n)] else Numeral(n / 10) + [DigitChar(n % 10)]
  }

  /** The integer part of log10(n). */
  function FloorLog10(n: nat): nat
    requires n > 0
  {
    if n < 10 then 0 else 1 + FloorLog10(n / 10)
  }

  function Pow10(k: nat): (p: nat)
    ensures p >= 1
  {
    if k == 0 then 1 else 10 * Pow10(k - 1)
  }

  lemma {:induction false} NumeralIsDigits(n: nat)
    ensures forall i :: 0 <= i < |Numeral(n)| ==> IsDigit(Numeral(n)[i])
  {
    if n >= 10 {
      NumeralIsDigits(n / 10);
    }
  }

  /** Distinct numbers print differently. */
  lemma {:induction false} NumeralInjective(a: nat, b: nat)
    requires Numeral(a) == Numeral(b)
    ensures a == b
  {
    var s := Numeral(a);
    if a >= 10 && b >= 10 {
      assert s[..|s| - 1] == Numeral(a / 10) == Numeral(b / 10);
      assert s[|s| - 1] == DigitChar(a % 10) == DigitChar(b % 10);
      NumeralInjective(a / 10, b / 10);
    } else if a < 10 && b < 10 {
      assert s[0] == DigitChar(a) == DigitChar(b);
    }
  }

  /** The length of a numeral brackets the number between two powers of ten. */
  lemma {:induction false} NumeralBounds(n: nat)
    ensures n < Pow10(|Numeral(n)|)
    ensures n > 0 ==> Pow10(|Numeral(n)| - 1) <= n
    ensures n > 0 ==> |Numeral(n)| == 1 + FloorLog10(n)
  {
    if n < 10 {
      assert Pow10(1) == 10 * Pow10(0);
    } else {
      NumeralBounds(n / 10);
      assert Numeral(n) == Numeral(n / 10) + [DigitChar(n % 10)];
    }
  }

  lemma {:induction false} Pow10Monotone(j: nat, k: nat)
    requires j <= k
    ensures Pow10(j) <= Pow10(k)
  {
    if j < k {
      Pow10Monotone(j, k - 1);
    }
  }

  lemma {:induction false} NumeralMonotone(a: nat, b: nat)
    requires a <= b
    ensures |Numeral(a)| <= |Numeral(b)|
  {
    if a >= 10 {
      NumeralMonotone(a / 10, b / 10);
    }
  }

  predicate IsPowerOfTen(n: nat) {
    exists k :: 0 <= k <= n && n == Pow10(k)
  }

  lemma {:induction false} ExponentBelowPower(k: nat)
    ensures k < Pow10(k)
  {
    if k > 0 {
      ExponentBelowPower(k - 1);
    }
  }

  /** One more digit makes ten times the number, and one number more makes at most one digit more. */
  lemma DigitGain(n: nat)
    requires n >= 2 && |Numeral(n)| > |Numeral(n - 1)|
    ensures n == Pow10(|Numeral(n - 1)|) && |Numeral(n)| == |Numeral(n - 1)| + 1
  {
    hide Numeral, FloorLog10;
    NumeralBounds(n);
    NumeralBounds(n - 1);
    var p, q := |Numeral(n - 1)|, |Numeral(n)|;
    Pow10Monotone(p, q - 1);
    if q > p + 1 {
      Pow10Monotone(p + 1, q - 1);
    }
  }

  lemma PowerGainsDigit(n: nat, k: nat)
    requires n >= 2 && n == Pow10(k)
    ensures |Numeral(n)| > |Numeral(n - 1)|
  {
    hide Numeral, FloorLog10;
    NumeralBounds(n);
    NumeralBounds(n - 1);
    var p, q := |Numeral(n - 1)|, |Numeral(n)|;
    if q <= k {
      Pow10Monotone(q, k);
    }
    if p > k {
      Pow10Monotone(k, p - 1);
    }
  }

  /** Going from n - 1 to n adds a digit exactly when n is a power of ten above 1. */
  lemma DigitGainIffPowerOfTen(n: nat)
    requires n >= 2
    ensures |Numeral(n)| > |Numeral(n - 1)| <==> IsPowerOfTen(n)
    ensures |Numeral(n)| <= |Numeral(n - 1)| + 1
  {
    hide Numeral;
    if |Numeral(n)| > |Numeral(n - 1)| {
      DigitGain(n);
      ExponentBelowPower(|Numeral(n - 1)|);
    }
    if IsPowerOfTen(n) {
      var k :| 0 <= k <= n && n == Pow10(k);
      PowerGainsDigit(n, k);
    }
  }
}
