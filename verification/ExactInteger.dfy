/** `isExactJsonInteger`: whether a parsed number is exactly the integer that its wire text denotes. */
module ExactInteger {
  import opened Utf16
  import opened Wrappers
  import opened Powers
  import opened Decimals
  import opened Json

  /** A JavaScript number; the two zeros differ, infinities and NaN are one. */
  datatype JsNumber = Finite(value: real) | NegativeZero | NonFinite {
    /** The mathematical value of a finite number. */
    function Value(): real
      requires !NonFinite?
    {
      if NegativeZero? then 0.0 else value
    }
  }

  // ----- The grammar of numbers (section 6 of RFC 8259)

  datatype Exponent = Exponent(letter: Unit, sign: Option<Unit>, digits: Text)

  datatype Lexeme = Lexeme(negative: bool, whole: Text, fraction: Option<Text>, exponent: Option<Exponent>)

  predicate Digits(s: Text) { |s| > 0 && AllDigits(s) }

  predicate ValidExponent(e: Exponent) {
    IsE(e.letter) && (e.sign.Some? ==> e.sign.value == PLUS || e.sign.value == MINUS) && Digits(e.digits)
  }

  /** No superfluous leading zero, and no empty part. */
  predicate Valid(l: Lexeme) {
    && Digits(l.whole) && (l.whole[0] == ZERO ==> |l.whole| == 1)
    && (l.fraction.Some? ==> Digits(l.fraction.value))
    && (l.exponent.Some? ==> ValidExponent(l.exponent.value))
  }

  function RenderSign(negative: bool): Text { if negative then [MINUS] else [] }

  function RenderFraction(fraction: Option<Text>): Text {
    if fraction.Some? then [DOT] + fraction.value else []
  }

  function RenderExponent(exponent: Option<Exponent>): Text {
    if exponent.None? then []
    else
      [exponent.value.letter] + (if exponent.value.sign.Some? then [exponent.value.sign.value] else [])
      + exponent.value.digits
  }

  function Render(l: Lexeme): Text {
    RenderSign(l.negative) + (l.whole + (RenderFraction(l.fraction) + RenderExponent(l.exponent)))
  }

  function FractionDigits(l: Lexeme): Text { l.fraction.GetOr([]) }

  function SignedExponent(l: Lexeme): int
    requires Valid(l)
  {
    if l.exponent.None? then 0
    else if l.exponent.value.sign == Some(MINUS) then 0 - Decimal(l.exponent.value.digits)
    else Decimal(l.exponent.value.digits)
  }

  function Signed(negative: bool, x: real): real { if negative then -x else x }

  /** The rational number that a lexeme denotes: whole part plus fraction, times a power of ten. */
  ghost function Denotes(l: Lexeme): real
    requires Valid(l)
  {
    var fraction := FractionDigits(l);
    Signed(l.negative,
           Times(Real(Decimal(l.whole)) + Times(Real(Decimal(fraction)), Ten(-|fraction|)), Ten(SignedExponent(l))))
  }

  // What a lexeme denotes: its digits in base ten;
  lemma DenotesWhole(whole: Text)
    requires Valid(Lexeme(false, whole, None, None))
    ensures Denotes(Lexeme(false, whole, None, None)) == Real(Decimal(whole))
  {
    Unscaled(Lexeme(false, whole, None, None));
    NoFraction();
    hide Denotes, Times, Decimal, Pow, AllDigits;
  }

  lemma NoFraction()
    ensures AllDigits([]) && Times(Real(Decimal([])), Ten(0)) == 0.0
  {
    assert Real(Decimal([])) == 0.0;
    TimesUnit(Ten(0));
    hide Pow, Times;
  }

  // a fraction after the point;
  lemma DenotesFraction(whole: Text, fraction: Text)
    requires Valid(Lexeme(false, whole, None, None)) && Digits(fraction)
    ensures Valid(Lexeme(false, whole, Some(fraction), None))
    ensures Denotes(Lexeme(false, whole, Some(fraction), None)) ==
            Real(Decimal(whole)) + Times(Real(Decimal(fraction)), Ten(-|fraction|))
  {
    hide *;
    WithFraction(whole, fraction);
    Unscaled(Lexeme(false, whole, Some(fraction), None));
  }

  lemma WithFraction(whole: Text, fraction: Text)
    requires Valid(Lexeme(false, whole, None, None)) && Digits(fraction)
    ensures var l := Lexeme(false, whole, Some(fraction), None); Valid(l) && FractionDigits(l) == fraction
  {
  }

  lemma Unscaled(l: Lexeme)
    requires Valid(l) && l.exponent.None? && !l.negative
    ensures AllDigits(FractionDigits(l))
    ensures Denotes(l) == Real(Decimal(l.whole)) + Times(Real(Decimal(FractionDigits(l))), Ten(-|FractionDigits(l)|))
  {
    TenSteps(0);
    assert AllDigits([]);
    hide AllDigits, Decimal, Pow, Times;
    TimesUnit(Real(Decimal(l.whole)) + Times(Real(Decimal(FractionDigits(l))), Ten(-|FractionDigits(l)|)));
  }

  lemma TimesUnit(x: real)
    ensures Times(x, 1.0) == x && Times(0.0, x) == 0.0
  {
  }

  // a factor for the exponent;
  lemma DenotesExponent(l: Lexeme, letter: Unit, sign: Option<Unit>, digits: Text)
    requires Valid(l) && l.exponent.None? && !l.negative && Digits(digits) && (letter == 0x65 || letter == 0x45)
    requires sign == None || sign == Some(0x2B) || sign == Some(0x2D)
    ensures var scaled := l.(exponent := Some(Exponent(letter, sign, digits)));
            && Valid(scaled)
            && Denotes(scaled) ==
               Times(Denotes(l), Ten(if sign == Some(0x2D) then 0 - Decimal(digits) else Decimal(digits)))
  {
    TenSteps(0);
    hide AllDigits, Decimal, Pow;
  }

  // and the sign.
  lemma DenotesSign(l: Lexeme)
    requires Valid(l) && !l.negative
    ensures Valid(l.(negative := true)) && Denotes(l.(negative := true)) == 0.0 - Denotes(l)
  {
    hide AllDigits, Decimal, Pow, Times;
  }

  lemma TenSteps(e: int)
    ensures Ten(0) == 1.0 && Ten(e + 1) == 10.0 * Ten(e)
  {
    PowNext(10.0, e);
    PowZero(10.0);
  }

  // ----- The procedure of the source

  datatype Parts = Parts(negative: bool, whole: Text, fraction: Text, exponent: int)

  lemma {:induction false} DigitsAreDigits(text: Text, i: nat, k: nat)
    requires i <= |text| && i <= k <= DigitsEnd(text, i)
    ensures AllDigits(text[i..k])
    decreases k - i
  {
    if i < k {
      DigitsStep(text, i, k - 1);
      DigitsAreDigits(text, i, k - 1);
      assert text[i..k][..k - 1 - i] == text[i..k - 1];
    }
  }

  lemma {:induction false} DigitsStep(text: Text, i: nat, j: nat)
    requires i <= |text| && i <= j < DigitsEnd(text, i)
    ensures IsDigit(text[j])
    decreases j - i
  {
    if i < j { DigitsStep(text, i + 1, j); }
  }

  /** The optional fraction at the head of a text, and what follows it. */
  function SplitFraction(text: Text): (r: (Text, Text))
    ensures AllDigits(r.0)
  {
    if |text| >= 2 && text[0] == DOT && IsDigit(text[1]) then
      var k := DigitsEnd(text, 1);
      DigitsAreDigits(text, 1, k);
      (text[1..k], text[k..])
    else ([], text)
  }

  /** The optional exponent that makes up the rest of a text. */
  function SplitExponent(text: Text): Option<int> {
    if |text| == 0 then Some(0)
    else if !IsE(text[0]) then None
    else
      var s := SignEnd(text, 1);
      if s == |text| || DigitsEnd(text, s) != |text| then None
      else
        DigitsAreDigits(text, s, |text|);
        assert text[s..|text|] == text[s..];
        Some(SignedDecimal(s > 1 && text[1] == MINUS, text[s..]))
  }

  /** An unsigned number: digits, an optional fraction and an optional exponent, and nothing else. */
  function SplitUnsigned(text: Text): (r: Option<(Text, Text, int)>)
    ensures r.Some? ==> AllDigits(r.value.0) && AllDigits(r.value.1)
  {
    var i := DigitsEnd(text, 0);
    DigitsAreDigits(text, 0, i);
    assert text[0..i] == text[..i];
    var (fraction, rest) := SplitFraction(text[i..]);
    var exponent := SplitExponent(rest);
    if i == 0 || exponent.None? then None else Some((text[..i], fraction, exponent.value))
  }

  /** The pattern of the source, anchored at both ends; an absent exponent is zero. */
  function Split(token: Text): (r: Option<Parts>)
    ensures r.Some? ==> AllDigits(r.value.whole) && AllDigits(r.value.fraction)
  {
    var negative := |token| > 0 && token[0] == MINUS;
    match SplitUnsigned(if negative then token[1..] else token)
    case None => None
    case Some((whole, fraction, exponent)) => Some(Parts(negative, whole, fraction, exponent))
  }

  /** `BigInt` of a sign and digits. */
  function SignedDecimal(negative: bool, digits: Text): int
    requires AllDigits(digits)
  {
    if negative then 0 - Decimal(digits) else Decimal(digits)
  }

  predicate IsIntegral(x: real) { x == x.Floor as real }

  /** The digits of a zero-padded integer. */
  function Padded(significant: Text, zeros: nat): (s: Text)
    requires AllDigits(significant)
    ensures AllDigits(s)
  {
    DecimalZeros(zeros);
    AllDigitsConcat(significant, Repeat(DIGIT_ZERO, zeros));
    significant + Repeat(DIGIT_ZERO, zeros)
  }

  /** The number that was taken apart is the integer. */
  function IsExactly(parts: Parts, x: int): bool
    requires AllDigits(parts.whole) && AllDigits(parts.fraction)
  {
    AllDigitsConcat(parts.whole, parts.fraction);
    StripLeadingDecimal(parts.whole + parts.fraction);
    var digits := StripLeading(parts.whole + parts.fraction);
    if |digits| == 0 then true
    else
      StripTrailingDecimal(digits);
      var significant := StripTrailing(digits);
      var scale := parts.exponent - |parts.fraction| + |digits| - |significant|;
      if scale < 0 || |significant| + scale > 309 then false
      else SignedDecimal(parts.negative, Padded(significant, scale)) == x
  }

  /** `token` is the lexeme recorded for the number, if there is one. */
  function IsExactJsonInteger(number: JsNumber, token: Option<Text>): bool {
    if number.NonFinite? || !IsIntegral(number.Value()) then false
    else if token.None? then true
    else match Split(token.value)
      case None => false
      case Some(parts) => IsExactly(parts, number.Value().Floor)
  }

  // ----- What it decides

  lemma {:induction false} DigitsRun(text: Text, i: nat, k: nat)
    requires i <= k <= |text|
    requires forall j :: i <= j < k ==> IsDigit(text[j])
    requires k < |text| ==> !IsDigit(text[k])
    ensures DigitsEnd(text, i) == k
    decreases k - i
  {
    if i < k { DigitsRun(text, i + 1, k); }
  }

  // The run of digits in the middle of a text.
  lemma DigitsBetween(before: Text, digits: Text, after: Text)
    requires AllDigits(digits) && (|after| > 0 ==> !IsDigit(after[0]))
    ensures DigitsEnd(before + digits + after, |before|) == |before| + |digits|
  {
    var text := before + digits + after;
    forall j | |before| <= j < |before| + |digits| ensures IsDigit(text[j]) {
      DigitAt(digits, j - |before|);
      assert text[j] == digits[j - |before|];
    }
    assert |after| > 0 ==> text[|before| + |digits|] == after[0];
    DigitsRun(text, |before|, |before| + |digits|);
  }

  lemma FractionSplits(fraction: Option<Text>, rest: Text)
    requires fraction.Some? ==> Digits(fraction.value)
    requires |rest| > 0 ==> !IsDigit(rest[0]) && rest[0] != DOT
    ensures SplitFraction(RenderFraction(fraction) + rest) == (fraction.GetOr([]), rest)
  {
    var text := RenderFraction(fraction) + rest;
    if fraction.Some? {
      DigitAt(fraction.value, 0);
      assert text == [DOT] + fraction.value + rest && text[1] == fraction.value[0];
      DigitsBetween([DOT], fraction.value, rest);
    } else {
      assert text == rest;
    }
  }

  lemma ExponentSplits(exponent: Option<Exponent>)
    requires exponent.Some? ==> ValidExponent(exponent.value)
    ensures SplitExponent(RenderExponent(exponent)) ==
            Some(if exponent.None? then 0
                 else SignedDecimal(exponent.value.sign == Some(MINUS), exponent.value.digits))
  {
    if exponent.Some? {
      var e := exponent.value;
      var text := RenderExponent(exponent);
      var head := [e.letter] + (if e.sign.Some? then [e.sign.value] else []);
      DigitAt(e.digits, 0);
      assert text == head + e.digits + [];
      assert text[|head|] == e.digits[0];
      DigitsBetween(head, e.digits, []);
      assert text[|head|..] == e.digits;
    }
  }

  lemma SplitsInto(whole: Text, rest: Text, fraction: Text, after: Text, exponent: int)
    requires Digits(whole) && (|rest| > 0 ==> !IsDigit(rest[0]))
    requires SplitFraction(rest) == (fraction, after) && SplitExponent(after) == Some(exponent)
    ensures SplitUnsigned(whole + rest) == Some((whole, fraction, exponent))
  {
    hide SplitFraction, SplitExponent, AllDigits;
    var text := whole + rest;
    assert text == [] + whole + rest;
    DigitsBetween([], whole, rest);
    assert text[..|whole|] == whole && text[|whole|..] == rest;
  }

  lemma UnsignedSplits(l: Lexeme)
    requires Valid(l)
    ensures SplitUnsigned(l.whole + (RenderFraction(l.fraction) + RenderExponent(l.exponent))) ==
            Some((l.whole, FractionDigits(l), SignedExponent(l)))
  {
    hide SplitFraction, SplitExponent, SplitUnsigned, AllDigits, Decimal;
    FractionSplits(l.fraction, RenderExponent(l.exponent));
    ExponentSplits(l.exponent);
    SplitsInto(l.whole, RenderFraction(l.fraction) + RenderExponent(l.exponent), FractionDigits(l),
               RenderExponent(l.exponent), SignedExponent(l));
  }

  // Splitting undoes the grammar.
  lemma SplitRender(l: Lexeme)
    requires Valid(l)
    ensures Split(Render(l)) == Some(Parts(l.negative, l.whole, FractionDigits(l), SignedExponent(l)))
  {
    DigitAt(l.whole, 0);
    UnsignedSplits(l);
    var rest := RenderFraction(l.fraction) + RenderExponent(l.exponent);
    SignSplits(l.negative, l.whole, rest);
    hide SplitUnsigned, RenderFraction, RenderExponent, RenderSign, AllDigits, Decimal;
  }

  lemma SignSplits(negative: bool, whole: Text, rest: Text)
    requires |whole| > 0 && IsDigit(whole[0])
    ensures var text := RenderSign(negative) + (whole + rest);
            && |text| > 0 && (text[0] == MINUS <==> negative)
            && text[if negative then 1 else 0..] == whole + rest
    ensures !negative ==> RenderSign(negative) + (whole + rest) == whole + rest
  {
    assert (whole + rest)[0] == whole[0];
  }

  // The digits without the point, times a power of ten that accounts for it.
  lemma DenotesDigits(l: Lexeme)
    requires Valid(l)
    ensures AllDigits(l.whole + FractionDigits(l))
    ensures Denotes(l) ==
            Signed(l.negative, Times(Real(Decimal(l.whole + FractionDigits(l))),
                                     Ten(SignedExponent(l) - |FractionDigits(l)|)))
  {
    var fraction := FractionDigits(l);
    var n, e := |fraction|, SignedExponent(l);
    DecimalConcat(l.whole, fraction);
    PowAdd(10.0, -n, e);
    PowAdd(10.0, n, -n);
    assert Ten(0) == 1.0;
    MovePoint(Real(Decimal(l.whole)), Real(Decimal(fraction)), Ten(n), Ten(-n), Ten(e));
    assert -n + e == e - n && n + -n == 0;
  }

  lemma MovePoint(whole: real, fraction: real, up: real, down: real, scale: real)
    requires Times(up, down) == 1.0
    ensures Times(whole + Times(fraction, down), scale) == Times(Times(whole, up) + fraction, Times(down, scale))
  {
    calc {
      (whole * up + fraction) * (down * scale);
      whole * up * (down * scale) + fraction * (down * scale);
      { assert whole * up * (down * scale) == whole * scale * (up * down); }
      whole * scale + fraction * down * scale;
    }
  }

  // The same number from its significant digits: the scale of the source.
  lemma DenotesSignificant(l: Lexeme)
    requires Valid(l)
    ensures var digits := StripLeading(l.whole + FractionDigits(l));
            var significant := StripTrailing(digits);
            && AllDigits(significant)
            && (|digits| == 0 ==> Denotes(l) == 0.0)
            && (|digits| > 0 ==> |significant| > 0 && significant[0] != DIGIT_ZERO && Decimal(significant) % 10 != 0)
            && Denotes(l) == Signed(l.negative, Times(Real(Decimal(significant)),
                 Ten(SignedExponent(l) - |FractionDigits(l)| + |digits| - |significant|)))
  {
    DenotesDigits(l);
    NoDecimal();
    hide Valid, Denotes, StripLeading, StripTrailing, Decimal, AllDigits, Pow, SignedExponent, FractionDigits;
    var all := l.whole + FractionDigits(l);
    StripLeadingDecimal(all);
    var digits := StripLeading(all);
    StripTrailingDecimal(digits);
    var significant := StripTrailing(digits);
    var e, zeros := SignedExponent(l) - |FractionDigits(l)|, |digits| - |significant|;
    PowAdd(10.0, zeros, e);
    assert zeros + e == e + |digits| - |significant|;
    TimesAssociates(Real(Decimal(significant)), Ten(zeros), Ten(e));
    if |digits| > 0 && |significant| == 0 {
      NonZero(digits);
    }
    assert |digits| == 0 ==> Times(0.0, Ten(e)) == 0.0;
  }

  lemma NoDecimal()
    ensures AllDigits([]) && Decimal([]) == 0 && StripTrailing([]) == []
  {
  }

  lemma TimesAssociates(x: real, y: real, z: real)
    ensures Times(Times(x, y), z) == Times(x, Times(y, z))
  {
  }

  // Digits that do not start with a zero do not vanish.
  lemma NonZero(digits: Text)
    requires AllDigits(digits) && |digits| > 0 && digits[0] != DIGIT_ZERO
    ensures |StripTrailing(digits)| > 0
  {
    StripTrailingDecimal(digits);
    DecimalAtLeast(digits);
    assert Times(Real(0), Ten(|digits|)) == 0.0;
  }

  // ----- The three ways to answer

  lemma Divisible(n: nat, k: nat, x: int)
    requires k > 0 && Times(Real(n), Ten(0 - k)) == Real(x)
    ensures n % 10 == 0
  {
    PowAdd(10.0, 0 - k, k);
    assert 0 - k + k == 0 && Ten(0) == 1.0;
    PowNext(10.0, k - 1);
    var t := IntegerPower(k - 1);
    hide Pow;
    TimesAssociates(Real(n), Ten(0 - k), Ten(k));
    TimesSwaps(10.0, Real(x), Ten(k - 1));
    hide Times;
    assert Times(Real(n), 1.0) == Times(10.0, Times(Real(x), Real(t)));
    IntegerProduct(n, x, t);
  }

  lemma IntegerProduct(n: nat, x: int, t: nat)
    requires Times(Real(n), 1.0) == Times(10.0, Times(Real(x), Real(t)))
    ensures n % 10 == 0
  {
    assert Real(x) * Real(t) == Real(x * t);
    assert n == 10 * (x * t);
  }

  // A negative scale leaves a fraction: the last significant digit is not zero.
  lemma NotIntegral(negative: bool, n: nat, k: nat, v: real)
    requires n % 10 != 0 && k > 0 && IsIntegral(v)
    ensures Signed(negative, Times(Real(n), Ten(0 - k))) != v
  {
    if Signed(negative, Times(Real(n), Ten(0 - k))) == v {
      Divisible(n, k, if negative then 0 - v.Floor else v.Floor);
    }
  }

  lemma {:induction false} IntegerPower(k: nat) returns (t: nat)
    ensures Ten(k) == Real(t)
  {
    if k == 0 {
      t := 1;
    } else {
      var u := IntegerPower(k - 1);
      t := 10 * u;
    }
  }

  lemma TimesCommutes(x: real, y: real)
    ensures Times(x, y) == Times(y, x)
  {
  }

  // More than 309 digits are beyond every binary64 number.
  lemma TooManyDigits(significant: Text, scale: nat, v: real)
    requires AllDigits(significant) && |significant| > 0 && significant[0] != DIGIT_ZERO
    requires |significant| + scale > 309 && IsDouble(v)
    ensures Abs(v) < Times(Real(Decimal(significant)), Ten(scale))
    ensures forall negative :: Signed(negative, Times(Real(Decimal(significant)), Ten(scale))) != v
  {
    DecimalAtLeast(significant);
    DoubleBound(v);
    hide Pow, Times, Decimal, AllDigits, IsDouble;
    PowAdd(10.0, |significant| - 1, scale);
    PowGrows(10.0, 309, |significant| - 1 + scale);
    TimesCommutes(Ten(scale), Ten(|significant| - 1));
    TimesCommutes(Ten(scale), Real(Decimal(significant)));
    MulGrows(Ten(scale), Ten(|significant| - 1), Real(Decimal(significant)));
  }

  // Padding with zeros is scaling.
  lemma PaddedDecimal(negative: bool, significant: Text, scale: nat, v: real)
    requires AllDigits(significant) && IsIntegral(v)
    ensures SignedDecimal(negative, Padded(significant, scale)) == v.Floor <==>
            Signed(negative, Times(Real(Decimal(significant)), Ten(scale))) == v
  {
    DecimalZeros(scale);
    RepeatLength(DIGIT_ZERO, scale);
    DecimalConcat(significant, Repeat(DIGIT_ZERO, scale));
  }

  lemma PartsDecide(l: Lexeme, v: real)
    requires Valid(l) && IsIntegral(v) && Nearest(Denotes(l), v)
    requires AllDigits(l.whole) && AllDigits(FractionDigits(l))
    ensures IsExactly(Parts(l.negative, l.whole, FractionDigits(l), SignedExponent(l)), v.Floor) <==> Denotes(l) == v
  {
    DenotesSignificant(l);
    hide Valid, Denotes, Nearest, Render, Split, StripLeading, StripTrailing, Decimal, AllDigits, Pow, Times,
         SignedExponent, FractionDigits, Padded, Signed, SignedDecimal, IsIntegral;
    var digits := StripLeading(l.whole + FractionDigits(l));
    var significant := StripTrailing(digits);
    var scale := SignedExponent(l) - |FractionDigits(l)| + |digits| - |significant|;
    if |digits| == 0 {
      ZeroIsExact(v);
    } else if scale < 0 {
      NotIntegral(l.negative, Decimal(significant), 0 - scale, v);
    } else if |significant| + scale > 309 {
      TooManyDigits(significant, scale, v);
    } else {
      PaddedDecimal(l.negative, significant, scale, v);
    }
  }

  // For every number of the grammar and the binary64 number nearest to it, the answer is whether they are the same
  // integer.
  lemma ExactnessDecided(l: Lexeme, number: JsNumber)
    requires Valid(l) && !number.NonFinite? && Nearest(Denotes(l), number.Value())
    ensures IsExactJsonInteger(number, Some(Render(l))) <==>
            IsIntegral(number.Value()) && Denotes(l) == number.Value()
  {
    SplitRender(l);
    hide Valid, Denotes, Nearest, Render, Split, AllDigits, SignedExponent, FractionDigits, IsIntegral, IsExactly;
    if IsIntegral(number.Value()) { PartsDecide(l, number.Value()); }
  }

  // A number that was not parsed has no lexeme: it passes exactly if it is an integer. A number that is not finite
  // never passes.
  lemma WithoutLexeme(number: JsNumber, token: Option<Text>)
    ensures IsExactJsonInteger(number, None) <==>
            match number
            case Finite(value) => value == value.Floor as real
            case NegativeZero => true
            case NonFinite => false
    ensures number == NonFinite ==> !IsExactJsonInteger(number, token)
  {
  }

  // A text denotes one number.
  lemma DenotesUnique(l: Lexeme, m: Lexeme)
    requires Valid(l) && Valid(m) && Render(l) == Render(m)
    ensures Denotes(l) == Denotes(m)
  {
    SplitRender(l);
    SplitRender(m);
    hide Render, Split, Valid, Decimal, Times, Pow, SignedExponent, FractionDigits;
    SameParts(l, m);
  }

  lemma SameParts(l: Lexeme, m: Lexeme)
    requires Valid(l) && Valid(m) && l.negative == m.negative && l.whole == m.whole
    requires FractionDigits(l) == FractionDigits(m) && SignedExponent(l) == SignedExponent(m)
    ensures Denotes(l) == Denotes(m)
  {
    hide Valid, Decimal, Times, Pow, SignedExponent, FractionDigits;
  }
}
