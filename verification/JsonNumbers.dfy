/** The numbers of a JSON text: every one of them is a lexeme of the grammar. */
module JsonNumbers {
  import opened Utf16
  import opened Wrappers
  import opened Powers
  import opened Decimals
  import opened ExactInteger
  import opened JsonTree
  import Json

  ghost predicate IsLexeme(s: Text) {
    exists l :: Valid(l) && Render(l) == s
  }

  /** Numbers are read as the nearest binary64 number, unless they overflow. */
  ghost predicate Faithful(convert: Conversion) {
    forall l :: Valid(l) ==> ReadFaithfully(l, convert(Render(l)))
  }

  ghost predicate ReadFaithfully(l: Lexeme, number: JsNumber)
    requires Valid(l)
  {
    !number.NonFinite? ==> Nearest(Denotes(l), number.Value())
  }

  ghost predicate Grammatical(v: Json.Value)
    decreases v
  {
    && (v.Num? ==> IsLexeme(v.lexeme))
    && (IsContainer(v) ==> forall i :: 0 <= i < Size(v) ==> Grammatical(ChildAt(v, i)))
  }

  // ----- The pattern of the source matches lexemes

  lemma RunOfDigits(text: Text, i: nat)
    requires i < |text| && IsDigit(text[i])
    ensures Digits(text[i..Json.DigitsEnd(text, i)])
  {
    DigitsAreDigits(text, i, Json.DigitsEnd(text, i));
  }

  lemma WholePart(text: Text, i: nat) returns (whole: Text)
    requires i < |text| && IsDigit(text[i])
    ensures whole == text[i..Json.IntEnd(text, i)]
    ensures Digits(whole) && (whole[0] == Json.ZERO ==> |whole| == 1)
  {
    whole := text[i..Json.IntEnd(text, i)];
    if text[i] == Json.ZERO {
      assert whole[..0] == [];
    } else {
      RunOfDigits(text, i);
    }
  }

  lemma FractionPart(text: Text, i: nat) returns (fraction: Option<Text>)
    requires i <= |text|
    ensures RenderFraction(fraction) == text[i..Json.FracEnd(text, i)]
    ensures fraction.Some? ==> Digits(fraction.value)
  {
    if Json.FracEnd(text, i) > i {
      RunOfDigits(text, i + 1);
      fraction := Some(text[i + 1..Json.DigitsEnd(text, i + 1)]);
    } else {
      fraction := None;
    }
  }

  lemma ExponentPart(text: Text, i: nat) returns (exponent: Option<Exponent>)
    requires i <= |text|
    ensures RenderExponent(exponent) == text[i..Json.ExpEnd(text, i)]
    ensures exponent.Some? ==> ValidExponent(exponent.value)
  {
    if Json.ExpEnd(text, i) > i {
      var j := Json.SignEnd(text, i + 1);
      RunOfDigits(text, j);
      var digits := text[j..Json.DigitsEnd(text, j)];
      exponent := Some(Exponent(text[i], if j > i + 1 then Some(text[i + 1]) else None, digits));
      assert text[i..Json.ExpEnd(text, i)] == text[i..j] + digits;
      assert text[i..j] == [text[i]] + if j > i + 1 then [text[i + 1]] else [];
    } else {
      exponent := None;
    }
  }

  lemma NumberIsLexeme(text: Text)
    requires Json.NumberLength(text) > 0
    ensures IsLexeme(text[..Json.NumberLength(text)])
  {
    var start: nat := if text[0] == Json.MINUS then 1 else 0;
    var i := Json.IntEnd(text, start);
    var j := Json.FracEnd(text, i);
    var whole := WholePart(text, start);
    var fraction := FractionPart(text, i);
    var exponent := ExponentPart(text, j);
    Assembled(text, start, i, j, Json.ExpEnd(text, j), Lexeme(start == 1, whole, fraction, exponent));
  }

  lemma Assembled(text: Text, start: nat, i: nat, j: nat, k: nat, l: Lexeme)
    requires start <= i <= j <= k <= |text| && RenderSign(l.negative) == text[..start] && l.whole == text[start..i]
    requires RenderFraction(l.fraction) == text[i..j] && RenderExponent(l.exponent) == text[j..k] && Valid(l)
    ensures IsLexeme(text[..k])
  {
    hide Valid, RenderFraction, RenderExponent, RenderSign;
    var a, b, c, d := text[..start], text[start..i], text[i..j], text[j..k];
    assert text[..k] == a + (b + (c + d));
  }

  // ----- A lexeme is matched whole

  /** What may follow a value: the end, a comma or a closing bracket. */
  predicate Ends(rest: Text) {
    |rest| > 0 ==> rest[0] == Json.COMMA || rest[0] == Json.RBRACKET || rest[0] == Json.RBRACE
  }

  lemma WholeEnds(before: Text, whole: Text, after: Text)
    requires Digits(whole) && (whole[0] == Json.ZERO ==> |whole| == 1) && (|after| > 0 ==> !IsDigit(after[0]))
    ensures var text, i := before + whole + after, |before|;
            IsDigit(text[i]) && Json.IntEnd(text, i) == i + |whole|
  {
    DigitAt(whole, 0);
    assert (before + whole + after)[|before|] == whole[0];
    DigitsBetween(before, whole, after);
  }

  lemma FractionEnds(before: Text, fraction: Option<Text>, after: Text)
    requires fraction.Some? ==> Digits(fraction.value)
    requires |after| > 0 ==> !IsDigit(after[0]) && after[0] != Json.DOT
    ensures Json.FracEnd(before + RenderFraction(fraction) + after, |before|) == |before| + |RenderFraction(fraction)|
  {
    var text, i := before + RenderFraction(fraction) + after, |before|;
    if fraction.Some? {
      var digits, dotted := fraction.value, before + [Json.DOT];
      DigitAt(digits, 0);
      assert text == dotted + digits + after;
      assert text[i] == dotted[i] && text[i + 1] == digits[0];
      DigitsBetween(dotted, digits, after);
    } else {
      assert |after| > 0 ==> text[i] == after[0];
    }
  }

  lemma ExponentEnds(before: Text, exponent: Option<Exponent>, after: Text)
    requires exponent.Some? ==> ValidExponent(exponent.value)
    requires Ends(after)
    ensures Json.ExpEnd(before + RenderExponent(exponent) + after, |before|) == |before| + |RenderExponent(exponent)|
  {
    var text, i := before + RenderExponent(exponent) + after, |before|;
    if exponent.Some? {
      var e := exponent.value;
      var sign := if e.sign.Some? then [e.sign.value] else [];
      assert RenderExponent(exponent) == [e.letter] + sign + e.digits;
      DigitAt(e.digits, 0);
      DigitsBetween(before + [e.letter] + sign, e.digits, after);
      FourParts(before, [e.letter], sign, e.digits, after);
      SignBefore(before + [e.letter], e.sign, e.digits, after);
      hide *;
      assert text[i] == e.letter;
      ExponentThere(text, i, i + 1 + |sign|);
    } else {
      assert |after| > 0 ==> text[i] == after[0];
    }
  }

  lemma ExponentThere(text: Text, i: nat, s: nat)
    requires i < s < |text| && Json.IsE(text[i]) && Json.SignEnd(text, i + 1) == s && IsDigit(text[s])
    ensures Json.ExpEnd(text, i) == Json.DigitsEnd(text, s)
  {
  }

  lemma SignBefore(before: Text, sign: Option<Unit>, digits: Text, after: Text)
    requires sign.Some? ==> sign.value == Json.PLUS || sign.value == Json.MINUS
    requires |digits| > 0 && IsDigit(digits[0])
    ensures var signs := if sign.Some? then [sign.value] else [];
            var text := before + signs + digits + after;
            Json.SignEnd(text, |before|) == |before| + |signs| && text[|before| + |signs|] == digits[0]
  {
    var signs := if sign.Some? then [sign.value] else [];
    var text := before + signs + digits + after;
    assert text[|before| + |signs|] == digits[0];
    assert sign.Some? ==> text[|before|] == sign.value;
  }

  lemma FourParts(a: Text, b: Text, c: Text, d: Text, rest: Text)
    ensures a + (b + (c + d)) + rest == a + b + (c + d + rest) == a + b + c + (d + rest) == a + b + c + d + rest
    ensures a + (b + c + d) + rest == a + b + c + d + rest
  {
  }

  // The greedy pattern matches all of a lexeme and no more.
  lemma LexemeLength(l: Lexeme, rest: Text)
    requires Valid(l) && Ends(rest)
    ensures Json.NumberLength(Render(l) + rest) == |Render(l)|
  {
    var sign, fraction, exponent := RenderSign(l.negative), RenderFraction(l.fraction), RenderExponent(l.exponent);
    FourParts(sign, l.whole, fraction, exponent, rest);
    Heads(l, rest);
    WholeEnds(sign, l.whole, fraction + exponent + rest);
    FractionEnds(sign + l.whole, l.fraction, exponent + rest);
    ExponentEnds(sign + l.whole + fraction, l.exponent, rest);
    SignIsFirst(l, rest);
    assert Render(l) == sign + (l.whole + (fraction + exponent));
    hide Render, Valid, RenderSign, RenderFraction, RenderExponent, Json.IntEnd, Json.FracEnd, Json.ExpEnd;
  }

  // What follows the digits of each part is not one of them.
  lemma Heads(l: Lexeme, rest: Text)
    requires Valid(l) && Ends(rest)
    ensures var fraction, exponent := RenderFraction(l.fraction), RenderExponent(l.exponent);
            && (|fraction + exponent + rest| > 0 ==> !IsDigit((fraction + exponent + rest)[0]))
            && (|exponent + rest| > 0 ==> !IsDigit((exponent + rest)[0]) && (exponent + rest)[0] != Json.DOT)
  {
    hide AllDigits;
    var fraction, exponent := RenderFraction(l.fraction), RenderExponent(l.exponent);
    assert l.exponent.None? ==> exponent + rest == rest;
    assert l.fraction.None? ==> fraction + exponent + rest == exponent + rest;
  }

  lemma SignIsFirst(l: Lexeme, rest: Text)
    requires Valid(l)
    ensures |RenderSign(l.negative)| == (if Json.MINUS == (Render(l) + rest)[0] then 1 else 0) && |Render(l)| > 0
    ensures (Render(l) + rest)[0] == Json.MINUS || IsDigit((Render(l) + rest)[0])
  {
    DigitAt(l.whole, 0);
    hide RenderFraction, RenderExponent;
    assert !l.negative ==> (Render(l) + rest)[0] == l.whole[0];
  }

  lemma LexemeIsToken(l: Lexeme, rest: Text)
    requires Valid(l) && Ends(rest)
    ensures Json.FirstToken(Render(l) + rest) == Some((Json.Number(Render(l)), |Render(l)|))
  {
    LexemeLength(l, rest);
    SignIsFirst(l, rest);
    hide Valid, Render, Json.NumberLength;
    var text := Render(l) + rest;
    assert text[..|Render(l)|] == Render(l);
  }

  // ----- Through tokens to values

  ghost predicate GrammaticalTokens(tokens: seq<Json.Token>) {
    forall i :: 0 <= i < |tokens| && tokens[i].Number? ==> IsLexeme(tokens[i].lexeme)
  }

  lemma {:induction false} TokensGrammatical(text: Text)
    requires Json.Tokens(text).Some?
    ensures GrammaticalTokens(Json.Tokens(text).value)
    decreases |text|
  {
    hide IsLexeme, Json.Unescape, Json.NumberLength;
    if |text| > 0 {
      var (token, k) := Json.FirstToken(text).value;
      if token.Number? { NumberIsLexeme(text); }
      TokensGrammatical(text[k..]);
    }
  }

  lemma {:induction false} SignificantGrammatical(tokens: seq<Json.Token>)
    requires GrammaticalTokens(tokens)
    ensures GrammaticalTokens(Json.Significant(tokens))
  {
    hide IsLexeme;
    if |tokens| > 0 { SignificantGrammatical(tokens[1..]); }
  }

  ghost predicate GrammaticalElements(vs: seq<Json.Value>) {
    forall i :: 0 <= i < |vs| ==> Grammatical(vs[i])
  }

  ghost predicate GrammaticalMembers(ms: seq<Json.Member>) {
    forall i :: 0 <= i < |ms| ==> Grammatical(ms[i].value)
  }

  lemma {:induction false} AssignGrammatical(ms: seq<Json.Member>, name: Text, value: Json.Value)
    requires GrammaticalMembers(ms) && Grammatical(value)
    ensures GrammaticalMembers(Json.Assign(ms, name, value))
  {
    hide Grammatical;
    if |ms| > 0 && ms[0].name != name { AssignGrammatical(ms[1..], name, value); }
  }

  lemma {:induction false} ValueGrammatical(tokens: seq<Json.Token>)
    requires GrammaticalTokens(tokens) && Json.ParseValue(tokens).Some?
    ensures Grammatical(Json.ParseValue(tokens).value.0) && GrammaticalTokens(Json.ParseValue(tokens).value.1)
    decreases |tokens|, 0
  {
    hide Json.Unescape, Json.ParseElements, Json.ParseMembers, IsLexeme;
    match tokens[0] {
      case Punct(u) =>
        if u == Json.LBRACKET && !Json.Starts(tokens[1..], Json.RBRACKET) {
          ElementsGrammatical(tokens[1..], []);
        } else if u == Json.LBRACE && !Json.Starts(tokens[1..], Json.RBRACE) {
          MembersGrammatical(tokens[1..], []);
        }
      case _ =>
    }
  }

  lemma {:induction false} ElementsGrammatical(tokens: seq<Json.Token>, read: seq<Json.Value>)
    requires GrammaticalTokens(tokens) && GrammaticalElements(read) && Json.ParseElements(tokens, read).Some?
    ensures GrammaticalElements(Json.ParseElements(tokens, read).value.0)
    ensures GrammaticalTokens(Json.ParseElements(tokens, read).value.1)
    decreases |tokens|, 1
  {
    hide Grammatical, IsLexeme, Json.ParseValue;
    ValueGrammatical(tokens);
    var (v, rest) := Json.ParseValue(tokens).value;
    if Json.Starts(rest, Json.COMMA) { ElementsGrammatical(rest[1..], read + [v]); }
  }

  lemma {:induction false} MembersGrammatical(tokens: seq<Json.Token>, read: seq<Json.Member>)
    requires GrammaticalTokens(tokens) && GrammaticalMembers(read) && Json.ParseMembers(tokens, read).Some?
    ensures GrammaticalMembers(Json.ParseMembers(tokens, read).value.0)
    ensures GrammaticalTokens(Json.ParseMembers(tokens, read).value.1)
    decreases |tokens|, 1
  {
    hide Json.Unescape, Grammatical, IsLexeme, Json.ParseValue, Json.Assign, GrammaticalMembers;
    ValueGrammatical(tokens[2..]);
    var name := Json.Unescape(tokens[0].raw).value;
    var (v, rest) := Json.ParseValue(tokens[2..]).value;
    AssignGrammatical(read, name, v);
    if Json.Starts(rest, Json.COMMA) { MembersGrammatical(rest[1..], Json.Assign(read, name, v)); }
  }

  // Every number of a parsed text is a lexeme of the grammar.
  lemma ParseGrammatical(text: Text)
    requires Json.Parse(text).Some?
    ensures Grammatical(Json.Parse(text).value)
  {
    TokensGrammatical(text);
    SignificantGrammatical(Json.Tokens(text).value);
    ValueGrammatical(Json.Significant(Json.Tokens(text).value));
  }
}
