/** Decimal digits as natural numbers. */
module Decimals {
  import opened Utf16
  import opened Powers

  const DIGIT_ZERO: Unit := 0x30
  const MAX_SAFE_INTEGER := 9_007_199_254_740_991

  predicate AllDigits(s: Text) {
    |s| == 0 || (IsDigit(s[|s| - 1]) && AllDigits(s[..|s| - 1]))
  }

  function Decimal(digits: Text): nat
    requires AllDigits(digits)
  {
    if |digits| == 0 then 0
    else Decimal(digits[..|digits| - 1]) * 10 + (digits[|digits| - 1] - 0x30)
  }

  /** `String(n)` of a safe integer: its decimal digits. */
  function Canonical(n: nat): (s: Text)
    ensures AllDigits(s) && |s| > 0 && Decimal(s) == n && (s[0] == DIGIT_ZERO ==> n == 0)
  {
    if n < 10 then
      var s: Text := [0x30 + n];
      assert s[..0] == [];
      s
    else
      var s := Canonical(n / 10) + [0x30 + n % 10];
      assert s[..|s| - 1] == Canonical(n / 10);
      s
  }

  function Ten(e: int): real { Pow(10.0, e) }

  function Real(n: int): real { n as real }

  // Digits are read from the left, in base ten.
  lemma DecimalReads(digits: Text, digit: Unit)
    requires AllDigits(digits) && 0x30 <= digit <= 0x39
    ensures AllDigits([]) && Decimal([]) == 0
    ensures AllDigits(digits + [digit]) && Decimal(digits + [digit]) == 10 * Decimal(digits) + (digit as int - 0x30)
  {
    assert (digits + [digit])[..|digits|] == digits;
  }

  lemma {:induction false} DigitAt(s: Text, i: nat)
    requires AllDigits(s) && i < |s|
    ensures IsDigit(s[i])
  {
    if i < |s| - 1 { DigitAt(s[..|s| - 1], i); }
  }

  lemma {:induction false} DigitsEverywhere(s: Text)
    requires forall i :: 0 <= i < |s| ==> IsDigit(s[i])
    ensures AllDigits(s)
  {
    if |s| > 0 { DigitsEverywhere(s[..|s| - 1]); }
  }

  lemma {:induction false} AllDigitsConcat(a: Text, b: Text)
    ensures AllDigits(a + b) <==> AllDigits(a) && AllDigits(b)
  {
    if |b| == 0 {
      assert a + b == a;
    } else {
      assert (a + b)[..|a + b| - 1] == a + b[..|b| - 1];
      AllDigitsConcat(a, b[..|b| - 1]);
    }
  }

  // Appending digits shifts the number before them.
  lemma {:induction false} DecimalConcat(a: Text, b: Text)
    requires AllDigits(a) && AllDigits(b)
    ensures AllDigits(a + b)
    ensures Real(Decimal(a + b)) == Times(Real(Decimal(a)), Ten(|b|)) + Real(Decimal(b))
  {
    AllDigitsConcat(a, b);
    if |b| == 0 {
      assert a + b == a;
    } else {
      var c := b[..|b| - 1];
      assert (a + b)[..|a + b| - 1] == a + c;
      DecimalConcat(a, c);
      PowNext(10.0, |b| - 1);
      TimesSwaps(10.0, Real(Decimal(a)), Ten(|b| - 1));
      assert Real(Decimal(a + b)) == 10.0 * Real(Decimal(a + c)) + Real(b[|b| - 1] - 0x30);
      assert Times(10.0, Times(Real(Decimal(a)), Ten(|b| - 1)) + Real(Decimal(c))) ==
             Times(10.0, Times(Real(Decimal(a)), Ten(|b| - 1))) + 10.0 * Real(Decimal(c));
    }
  }

  lemma {:induction false} DecimalZeros(n: nat)
    ensures AllDigits(Repeat(DIGIT_ZERO, n)) && Decimal(Repeat(DIGIT_ZERO, n)) == 0
  {
    if n > 0 {
      DecimalZeros(n - 1);
      assert Repeat(DIGIT_ZERO, n)[..n - 1] == Repeat(DIGIT_ZERO, n - 1) by { RepeatLength(DIGIT_ZERO, n - 1); }
      RepeatLength(DIGIT_ZERO, n);
    }
  }

  lemma {:induction false} RepeatLength(u: Unit, n: nat)
    ensures |Repeat(u, n)| == n
  {
    if n > 0 { RepeatLength(u, n - 1); }
  }

  /** `replace(/^0+/, "")`. */
  function StripLeading(digits: Text): Text {
    if |digits| > 0 && digits[0] == DIGIT_ZERO then StripLeading(digits[1..]) else digits
  }

  /** `replace(/0+$/, "")`. */
  function StripTrailing(digits: Text): (s: Text)
    ensures |s| <= |digits|
  {
    if |digits| > 0 && digits[|digits| - 1] == DIGIT_ZERO then StripTrailing(digits[..|digits| - 1]) else digits
  }

  // Leading zeros do not count.
  lemma {:induction false} StripLeadingDecimal(digits: Text)
    requires AllDigits(digits)
    ensures AllDigits(StripLeading(digits)) && Decimal(StripLeading(digits)) == Decimal(digits)
    ensures |StripLeading(digits)| > 0 ==> StripLeading(digits)[0] != DIGIT_ZERO
  {
    if |digits| > 0 && digits[0] == DIGIT_ZERO {
      var zero: Text := [DIGIT_ZERO];
      assert digits == zero + digits[1..] && zero[..0] == [];
      AllDigitsConcat(zero, digits[1..]);
      DecimalConcat(zero, digits[1..]);
      assert Decimal(zero) == 0;
      StripLeadingDecimal(digits[1..]);
    }
  }

  // Each trailing zero is a factor of ten.
  lemma {:induction false} StripTrailingDecimal(digits: Text)
    requires AllDigits(digits)
    ensures var s := StripTrailing(digits);
            && AllDigits(s) && s <= digits
            && Real(Decimal(digits)) == Times(Real(Decimal(s)), Ten(|digits| - |s|))
            && (|s| > 0 ==> Decimal(s) % 10 != 0)
  {
    if |digits| > 0 && digits[|digits| - 1] == DIGIT_ZERO {
      var shorter := digits[..|digits| - 1];
      var s := StripTrailing(shorter);
      StripTrailingDecimal(shorter);
      PowNext(10.0, |shorter| - |s|);
      assert |shorter| - |s| + 1 == |digits| - |s|;
      TimesSwaps(10.0, Real(Decimal(s)), Ten(|shorter| - |s|));
      assert Real(Decimal(digits)) == Times(10.0, Real(Decimal(shorter)));
    } else {
      assert Ten(0) == 1.0;
      assert Times(Real(Decimal(digits)), 1.0) == Real(Decimal(digits));
    }
  }

  // A number that does not start with a zero is as large as its length says.
  lemma {:induction false} DecimalAtLeast(digits: Text)
    requires AllDigits(digits) && |digits| > 0 && digits[0] != DIGIT_ZERO
    ensures Ten(|digits| - 1) <= Real(Decimal(digits))
  {
    DigitAt(digits, 0);
    if |digits| == 1 {
      assert digits[..0] == [];
      assert Ten(0) == 1.0;
    } else {
      DecimalAtLeast(digits[..|digits| - 1]);
      PowNext(10.0, |digits| - 2);
    }
  }
}
