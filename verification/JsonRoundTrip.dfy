/** A printed value is a JSON text that reads as the value, but for the sign of zero. */
module JsonRoundTrip {
  import opened Utf16
  import opened Wrappers
  import opened Decimals
  import opened ExactInteger
  import opened JsonTree
  import opened JsonQuote
  import opened JsonPrint
  import Json
  import JsonGrammar
  import Utf8Decoder

  // ----- What a reader makes of a text

  /** The plain value of a parsed text. */
  function Meaning(v: Json.Value, convert: Conversion): Tree
    decreases v
  {
    match v
    case Null => Tree.Null
    case Bool(b) => Tree.Bool(b)
    case Num(lexeme) => Tree.Number(convert(lexeme))
    case Str(s) => Tree.String(s)
    case Arr(elements) => Tree.Array(seq(|elements|, i requires 0 <= i < |elements| => Meaning(elements[i], convert)))
    case Obj(members) =>
      Tree.Object(seq(|members|, i requires 0 <= i < |members| =>
                      Entry(members[i].name, Meaning(members[i].value, convert))))
  }

  /** `JSON.parse`. */
  function Read(text: Text, convert: Conversion): Option<Tree> {
    match Json.Parse(text)
    case None => None
    case Some(v) => Some(Meaning(v, convert))
  }

  /** The value with negative zero made positive. */
  function WithoutNegativeZero(t: Tree): Tree
    decreases t
  {
    match t
    case Number(number) => Tree.Number(Unsigned(number))
    case Array(elements) => Tree.Array(seq(|elements|, i requires 0 <= i < |elements| =>
                                           WithoutNegativeZero(elements[i])))
    case Object(members) =>
      Tree.Object(seq(|members|, i requires 0 <= i < |members| =>
                      Entry(members[i].name, WithoutNegativeZero(members[i].value))))
    case _ => t
  }

  ghost predicate HasNegativeZero(t: Tree)
    decreases t
  {
    || (t.Number? && t.number.NegativeZero?)
    || (IsNode(t) && exists i :: 0 <= i < Width(t) && HasNegativeZero(Child(t, i)))
  }

  // ----- The parse of the tokens

  /** The parse tree of a printed value. */
  function Parsed(t: Tree, format: Format): Json.Value
    decreases t
  {
    match t
    case Null => Json.Null
    case Bool(b) => Json.Bool(b)
    case Number(number) => Json.Num(format(number))
    case String(text) => Json.Str(text)
    case Array(elements) => Json.Arr(seq(|elements|, i requires 0 <= i < |elements| => Parsed(elements[i], format)))
    case Object(members) =>
      Json.Obj(seq(|members|, i requires 0 <= i < |members| =>
                   Json.Member(members[i].name, Parsed(members[i].value, format))))
  }

  function ParsedElements(elements: seq<Tree>, format: Format): seq<Json.Value> {
    seq(|elements|, i requires 0 <= i < |elements| => Parsed(elements[i], format))
  }

  function ParsedMembers(members: seq<Entry>, format: Format): seq<Json.Member> {
    seq(|members|, i requires 0 <= i < |members| => Json.Member(members[i].name, Parsed(members[i].value, format)))
  }

  // No value starts like the end of one, and none holds white space.
  lemma {:induction false} NoSpace(t: Tree, format: Format)
    ensures |TokensOf(t, format)| > 0 && !TokensOf(t, format)[0].Space?
    ensures forall u | u == Json.RBRACKET || u == Json.RBRACE :: TokensOf(t, format)[0] != Json.Punct(u)
    ensures Json.Significant(TokensOf(t, format)) == TokensOf(t, format)
    decreases t, 1
  {
    match t
    case Array(elements) =>
      ElementsNoSpace(elements, format);
      SignificantEnclosed(Json.Punct(Json.LBRACKET), ElementTokens(elements, format), Json.Punct(Json.RBRACKET));
    case Object(members) =>
      MembersNoSpace(members, format);
      SignificantEnclosed(Json.Punct(Json.LBRACE), MemberTokens(members, format), Json.Punct(Json.RBRACE));
    case _ =>
      var token := TokensOf(t, format)[0];
      assert TokensOf(t, format) == [token];
      SignificantToken(token);
  }

  lemma SignificantToken(token: Json.Token)
    ensures !token.Space? ==> Json.Significant([token]) == [token]
  {
    assert [token][1..] == [];
  }

  lemma SignificantEnclosed(open: Json.Token, inner: seq<Json.Token>, close: Json.Token)
    requires !open.Space? && !close.Space? && Json.Significant(inner) == inner
    ensures Json.Significant([open] + inner + [close]) == [open] + inner + [close]
  {
    JsonGrammar.SignificantConcat([open] + inner, [close]);
    JsonGrammar.SignificantConcat([open], inner);
    SignificantToken(open);
    SignificantToken(close);
  }

  lemma {:induction false} ElementsNoSpace(elements: seq<Tree>, format: Format)
    ensures Json.Significant(ElementTokens(elements, format)) == ElementTokens(elements, format)
    decreases elements, 0
  {
    if |elements| > 0 {
      NoSpace(elements[0], format);
      assert |elements| == 1 ==> ElementTokens(elements, format) == TokensOf(elements[0], format);
      if |elements| > 1 {
        hide Json.Significant;
        ElementsNoSpace(elements[1..], format);
        var comma := Json.Punct(Json.COMMA);
        SignificantToken(comma);
        JsonGrammar.SignificantConcat([comma], ElementTokens(elements[1..], format));
        JsonGrammar.SignificantConcat(TokensOf(elements[0], format), [comma] + ElementTokens(elements[1..], format));
      }
    }
  }

  lemma {:induction false} MembersNoSpace(members: seq<Entry>, format: Format)
    ensures Json.Significant(MemberTokens(members, format)) == MemberTokens(members, format)
    decreases members, 0
  {
    if |members| > 0 {
      var first, colon := Json.String(Escape(members[0].name)), Json.Punct(COLON);
      var value := TokensOf(members[0].value, format);
      NoSpace(members[0].value, format);
      SignificantToken(first);
      SignificantToken(colon);
      assert [first] + [colon] == [first, colon];
      hide Json.Significant, TokensOf;
      JsonGrammar.SignificantConcat([first], [colon]);
      JsonGrammar.SignificantConcat([first, colon], value);
      assert |members| == 1 ==> MemberTokens(members, format) == [first, colon] + value;
      if |members| > 1 {
        MembersNoSpace(members[1..], format);
        var comma := Json.Punct(Json.COMMA);
        SignificantToken(comma);
        JsonGrammar.SignificantConcat([comma], MemberTokens(members[1..], format));
        JsonGrammar.SignificantConcat([first, colon] + value, [comma] + MemberTokens(members[1..], format));
      }
    }
  }

  ghost predicate DistinctElements(elements: seq<Tree>) {
    forall i :: 0 <= i < |elements| ==> DistinctNames(elements[i])
  }

  ghost predicate DistinctMembers(members: seq<Entry>) {
    && (forall i, j :: 0 <= i < j < |members| ==> members[i].name != members[j].name)
    && forall i :: 0 <= i < |members| ==> DistinctNames(members[i].value)
  }

  lemma ChildrenDistinct(t: Tree)
    requires DistinctNames(t)
    ensures t.Array? ==> DistinctElements(t.elements)
    ensures t.Object? ==> DistinctMembers(t.members)
  {
    if IsNode(t) {
      forall i | 0 <= i < Width(t) ensures DistinctNames(Child(t, i)) {}
      assert t.Array? ==> forall i :: 0 <= i < |t.elements| ==> t.elements[i] == Child(t, i);
      assert t.Object? ==> forall i :: 0 <= i < |t.members| ==> t.members[i].value == Child(t, i);
    }
  }

  lemma {:induction false} TokensParse(t: Tree, format: Format, rest: seq<Json.Token>)
    requires DistinctNames(t)
    ensures Json.ParseValue(TokensOf(t, format) + rest) == Some((Parsed(t, format), rest))
    decreases t, 1
  {
    ChildrenDistinct(t);
    hide DistinctNames, DistinctElements, DistinctMembers;
    match t
    case Array(elements) =>
      if |elements| > 0 { ElementsParse(elements, format, [], rest); }
      ArrayParses(elements, format, rest);
    case Object(members) =>
      if |members| > 0 { MembersParse(members, format, [], rest); }
      ObjectParses(members, format, rest);
    case String(text) =>
      UnescapeEscape(text);
      assert (TokensOf(t, format) + rest)[1..] == rest;
    case _ =>
      assert (TokensOf(t, format) + rest)[1..] == rest;
  }

  lemma ArrayParses(elements: seq<Tree>, format: Format, rest: seq<Json.Token>)
    requires |elements| > 0 ==>
      Json.ParseElements(ElementTokens(elements, format) + [Json.Punct(Json.RBRACKET)] + rest, []) ==
      Some(([] + ParsedElements(elements, format), rest))
    ensures Json.ParseValue(TokensOf(Array(elements), format) + rest) == Some((Parsed(Array(elements), format), rest))
  {
    var tokens := TokensOf(Array(elements), format) + rest;
    assert tokens[0] == Json.Punct(Json.LBRACKET);
    assert tokens[1..] == ElementTokens(elements, format) + [Json.Punct(Json.RBRACKET)] + rest;
    assert Parsed(Array(elements), format).elements == ParsedElements(elements, format);
    if |elements| == 0 {
      assert tokens[1..] == [Json.Punct(Json.RBRACKET)] + rest && tokens[2..] == rest;
    } else {
      NoSpace(elements[0], format);
      assert tokens[1..][0] == TokensOf(elements[0], format)[0];
      assert [] + ParsedElements(elements, format) == ParsedElements(elements, format);
    }
  }

  lemma ObjectParses(members: seq<Entry>, format: Format, rest: seq<Json.Token>)
    requires |members| > 0 ==>
      Json.ParseMembers(MemberTokens(members, format) + [Json.Punct(Json.RBRACE)] + rest, []) ==
      Some(([] + ParsedMembers(members, format), rest))
    ensures Json.ParseValue(TokensOf(Object(members), format) + rest) == Some((Parsed(Object(members), format), rest))
  {
    var tokens := TokensOf(Object(members), format) + rest;
    assert tokens[0] == Json.Punct(Json.LBRACE);
    assert tokens[1..] == MemberTokens(members, format) + [Json.Punct(Json.RBRACE)] + rest;
    assert Parsed(Object(members), format).members == ParsedMembers(members, format);
    if |members| == 0 {
      assert tokens[1..] == [Json.Punct(Json.RBRACE)] + rest && tokens[2..] == rest;
    } else {
      assert tokens[1..][0] == Json.String(Escape(members[0].name));
      assert [] + ParsedMembers(members, format) == ParsedMembers(members, format);
    }
  }

  lemma {:induction false} ElementsParse(elements: seq<Tree>, format: Format, read: seq<Json.Value>,
                                         rest: seq<Json.Token>)
    requires |elements| > 0 && DistinctElements(elements)
    ensures Json.ParseElements(ElementTokens(elements, format) + [Json.Punct(Json.RBRACKET)] + rest, read) ==
            Some((read + ParsedElements(elements, format), rest))
    decreases elements, 0
  {
    hide DistinctNames, TokensOf, Json.ParseValue, Parsed;
    var first, close := elements[0], [Json.Punct(Json.RBRACKET)] + rest;
    var tokens := ElementTokens(elements, format) + [Json.Punct(Json.RBRACKET)] + rest;
    if |elements| == 1 {
      TokensParse(first, format, close);
      assert tokens == TokensOf(first, format) + close;
      assert close[1..] == rest;
      assert ParsedElements(elements, format) == [Parsed(first, format)];
    } else {
      var others := ElementTokens(elements[1..], format) + [Json.Punct(Json.RBRACKET)] + rest;
      TokensParse(first, format, [Json.Punct(Json.COMMA)] + others);
      assert tokens == TokensOf(first, format) + ([Json.Punct(Json.COMMA)] + others);
      assert ([Json.Punct(Json.COMMA)] + others)[1..] == others;
      ElementsParse(elements[1..], format, read + [Parsed(first, format)], rest);
      assert ParsedElements(elements, format) == [Parsed(first, format)] + ParsedElements(elements[1..], format);
      assert read + [Parsed(first, format)] + ParsedElements(elements[1..], format) ==
             read + ParsedElements(elements, format);
    }
  }

  lemma {:induction false} AssignNew(members: seq<Json.Member>, name: Text, value: Json.Value)
    requires forall k :: 0 <= k < |members| ==> members[k].name != name
    ensures Json.Assign(members, name, value) == members + [Json.Member(name, value)]
  {
    if |members| > 0 { AssignNew(members[1..], name, value); }
  }

  /** None of the members read before has one of the names. */
  ghost predicate NamesAreNew(members: seq<Entry>, read: seq<Json.Member>) {
    forall i, k :: 0 <= i < |members| && 0 <= k < |read| ==> members[i].name != read[k].name
  }

  lemma {:induction false} MembersParse(members: seq<Entry>, format: Format, read: seq<Json.Member>,
                                        rest: seq<Json.Token>)
    requires |members| > 0 && DistinctMembers(members) && NamesAreNew(members, read)
    ensures Json.ParseMembers(MemberTokens(members, format) + [Json.Punct(Json.RBRACE)] + rest, read) ==
            Some((read + ParsedMembers(members, format), rest))
    decreases members, 0
  {
    var first, end := members[0], [Json.Punct(Json.RBRACE)] + rest;
    var member := Json.Member(first.name, Parsed(first.value, format));
    First(members, read);
    UnescapeEscape(first.name);
    AssignNew(read, first.name, member.value);
    if |members| > 1 { Later(members, read, format); }
    Regrouped(members, format, rest);
    ParsedSplits(members, format, read);
    hide DistinctMembers, NamesAreNew, DistinctNames, Json.ParseMembers, Json.ParseValue, Json.Unescape, TokensOf,
         Parsed, MemberTokens, ParsedMembers, MemberHead;
    if |members| == 1 {
      TokensParse(first.value, format, end);
      LastMember(first, format, read, rest);
    } else {
      var others := MemberTokens(members[1..], format) + [Json.Punct(Json.RBRACE)] + rest;
      TokensParse(first.value, format, [Json.Punct(Json.COMMA)] + others);
      MembersParse(members[1..], format, read + [member], rest);
      MoreMembers(first, format, read, others);
    }
  }

  lemma ParsedSplits(members: seq<Entry>, format: Format, read: seq<Json.Member>)
    requires |members| > 0
    ensures var member := Json.Member(members[0].name, Parsed(members[0].value, format));
            read + ParsedMembers(members, format) ==
            if |members| == 1 then read + [member] else read + [member] + ParsedMembers(members[1..], format)
  {
    hide Parsed;
    assert ParsedMembers(members, format) ==
           [Json.Member(members[0].name, Parsed(members[0].value, format))] + ParsedMembers(members[1..], format);
  }

  lemma First(members: seq<Entry>, read: seq<Json.Member>)
    requires |members| > 0 && DistinctMembers(members) && NamesAreNew(members, read)
    ensures DistinctNames(members[0].value) && forall k :: 0 <= k < |read| ==> read[k].name != members[0].name
  {
    hide DistinctNames;
  }

  function MemberHead(first: Entry, format: Format): seq<Json.Token> {
    [Json.String(Escape(first.name)), Json.Punct(COLON)] + TokensOf(first.value, format)
  }

  lemma Regrouped(members: seq<Entry>, format: Format, rest: seq<Json.Token>)
    requires |members| > 0
    ensures MemberTokens(members, format) + [Json.Punct(Json.RBRACE)] + rest ==
            MemberHead(members[0], format)
            + if |members| == 1 then [Json.Punct(Json.RBRACE)] + rest
              else [Json.Punct(Json.COMMA)] + (MemberTokens(members[1..], format) + [Json.Punct(Json.RBRACE)] + rest)
  {
    MemberTokensSplit(members, format);
    hide *;
    var head, close := MemberHead(members[0], format), [Json.Punct(Json.RBRACE)];
    if |members| == 1 {
      assert head + close + rest == head + (close + rest);
    } else {
      var comma, more := [Json.Punct(Json.COMMA)], MemberTokens(members[1..], format);
      Associates(head, comma + more, close, rest);
      Associates(comma, more, close, rest);
    }
  }

  lemma MemberTokensSplit(members: seq<Entry>, format: Format)
    requires |members| > 0
    ensures MemberTokens(members, format) ==
            if |members| == 1 then MemberHead(members[0], format)
            else MemberHead(members[0], format) + ([Json.Punct(Json.COMMA)] + MemberTokens(members[1..], format))
  {
    hide TokensOf;
    assert MemberHead(members[0], format) + [] == MemberHead(members[0], format);
  }

  lemma Associates(a: seq<Json.Token>, b: seq<Json.Token>, c: seq<Json.Token>, d: seq<Json.Token>)
    ensures a + b + c + d == a + (b + c + d)
  {
  }

  lemma Later(members: seq<Entry>, read: seq<Json.Member>, format: Format)
    requires |members| > 1 && DistinctMembers(members) && NamesAreNew(members, read)
    ensures DistinctMembers(members[1..])
    ensures NamesAreNew(members[1..], read + [Json.Member(members[0].name, Parsed(members[0].value, format))])
  {
    hide DistinctNames, Parsed;
    var others := members[1..];
    assert forall i :: 0 <= i < |others| ==> others[i] == members[i + 1];
  }

  // The member at the head of the tokens is read, and then what follows it decides.
  lemma HeadParses(first: Entry, format: Format, read: seq<Json.Member>, after: seq<Json.Token>)
    requires Json.ParseValue(TokensOf(first.value, format) + after) == Some((Parsed(first.value, format), after))
    requires Json.Unescape(Escape(first.name)) == Some(first.name)
    ensures var tokens := MemberHead(first, format) + after;
            var members := Json.Assign(read, first.name, Parsed(first.value, format));
            Json.ParseMembers(tokens, read) ==
            if Json.Starts(after, Json.COMMA) then Json.ParseMembers(after[1..], members)
            else if Json.Starts(after, Json.RBRACE) then Some((members, after[1..]))
            else None
  {
    hide Json.ParseValue, Json.Unescape, Json.Assign, TokensOf, Parsed;
    var tokens := MemberHead(first, format) + after;
    assert tokens[2..] == TokensOf(first.value, format) + after;
    assert tokens[0] == Json.String(Escape(first.name)) && tokens[1] == Json.Punct(COLON);
  }

  lemma LastMember(first: Entry, format: Format, read: seq<Json.Member>, rest: seq<Json.Token>)
    requires var end := [Json.Punct(Json.RBRACE)] + rest;
             Json.ParseValue(TokensOf(first.value, format) + end) == Some((Parsed(first.value, format), end))
    requires Json.Unescape(Escape(first.name)) == Some(first.name)
    ensures Json.ParseMembers(MemberHead(first, format) + ([Json.Punct(Json.RBRACE)] + rest), read) ==
            Some((Json.Assign(read, first.name, Parsed(first.value, format)), rest))
  {
    HeadParses(first, format, read, [Json.Punct(Json.RBRACE)] + rest);
    hide Json.ParseMembers;
    assert ([Json.Punct(Json.RBRACE)] + rest)[1..] == rest;
  }

  lemma MoreMembers(first: Entry, format: Format, read: seq<Json.Member>, others: seq<Json.Token>)
    requires var after := [Json.Punct(Json.COMMA)] + others;
             Json.ParseValue(TokensOf(first.value, format) + after) == Some((Parsed(first.value, format), after))
    requires Json.Unescape(Escape(first.name)) == Some(first.name)
    ensures Json.ParseMembers(MemberHead(first, format) + ([Json.Punct(Json.COMMA)] + others), read) ==
            Json.ParseMembers(others, Json.Assign(read, first.name, Parsed(first.value, format)))
  {
    HeadParses(first, format, read, [Json.Punct(Json.COMMA)] + others);
    hide Json.ParseMembers;
    assert ([Json.Punct(Json.COMMA)] + others)[1..] == others;
  }

  // ----- The round trip

  lemma {:induction false} ParsedMeans(t: Tree, format: Format, convert: Conversion)
    requires Lossless(format, convert) && FiniteNumbers(t)
    ensures Meaning(Parsed(t, format), convert) == WithoutNegativeZero(t)
  {
    hide Lossless, IsFinite;
    match t
    case Number(number) => FormatMeans(number, format, convert);
    case Array(elements) =>
      ElementsFinite(t);
      forall i | 0 <= i < |elements|
        ensures Meaning(Parsed(elements[i], format), convert) == WithoutNegativeZero(elements[i])
      {
        ParsedMeans(elements[i], format, convert);
      }
    case Object(members) =>
      MembersFinite(t);
      forall i | 0 <= i < |members|
        ensures Meaning(Parsed(members[i].value, format), convert) == WithoutNegativeZero(members[i].value)
      {
        ParsedMeans(members[i].value, format, convert);
      }
    case _ =>
  }

  lemma FormatMeans(number: JsNumber, format: Format, convert: Conversion)
    requires Lossless(format, convert) && IsFinite(number)
    ensures convert(format(number)) == Unsigned(number)
  {
  }

  // Every plain value is printed as a JSON text that reads as the value with its zeros made positive.
  lemma RoundTrip(t: Tree, format: Format, convert: Conversion)
    requires Lossless(format, convert) && FiniteNumbers(t) && DistinctNames(t)
    ensures Read(Print(t, format), convert) == Some(WithoutNegativeZero(t))
  {
    PrintScans(t, format, convert, []);
    NoSpace(t, format);
    TokensParse(t, format, []);
    ParsedMeans(t, format, convert);
    hide Print, TokensOf, Parsed, Meaning, WithoutNegativeZero, Json.ParseValue, Lossless;
    assert Print(t, format) + [] == Print(t, format);
    assert TokensOf(t, format) + [] == TokensOf(t, format);
    assert Json.Tokens([]) == Some([]);
  }

  lemma {:induction false} WithoutChanges(t: Tree)
    ensures WithoutNegativeZero(t) == t <==> !HasNegativeZero(t)
  {
    match t
    case Array(elements) =>
      forall i | 0 <= i < |elements|
        ensures WithoutNegativeZero(elements[i]) == elements[i] <==> !HasNegativeZero(elements[i])
      {
        WithoutChanges(elements[i]);
      }
      ArrayUnchanged(t);
    case Object(members) =>
      forall i | 0 <= i < |members|
        ensures WithoutNegativeZero(members[i].value) == members[i].value <==> !HasNegativeZero(members[i].value)
      {
        WithoutChanges(members[i].value);
      }
      ObjectUnchanged(t);
    case _ =>
  }

  lemma ArrayUnchanged(t: Tree)
    requires t.Array?
    ensures WithoutNegativeZero(t) == t <==> forall i :: 0 <= i < |t.elements| ==>
            WithoutNegativeZero(t.elements[i]) == t.elements[i]
    ensures HasNegativeZero(t) <==> exists i :: 0 <= i < |t.elements| && HasNegativeZero(t.elements[i])
  {
    var after := WithoutNegativeZero(t);
    assert forall i :: 0 <= i < |t.elements| ==> after.elements[i] == WithoutNegativeZero(t.elements[i]);
    assert after == t <==> after.elements == t.elements;
    assert forall i :: 0 <= i < Width(t) ==> Child(t, i) == t.elements[i];
  }

  lemma ObjectUnchanged(t: Tree)
    requires t.Object?
    ensures WithoutNegativeZero(t) == t <==>
            forall i :: 0 <= i < |t.members| ==> WithoutNegativeZero(t.members[i].value) == t.members[i].value
    ensures HasNegativeZero(t) <==> exists i :: 0 <= i < |t.members| && HasNegativeZero(t.members[i].value)
  {
    var after := WithoutNegativeZero(t);
    assert forall i :: 0 <= i < |t.members| ==>
             after.members[i] == Entry(t.members[i].name, WithoutNegativeZero(t.members[i].value));
    assert after == t <==> after.members == t.members;
    assert forall i :: 0 <= i < Width(t) ==> Child(t, i) == t.members[i].value;
  }

  // The text is lossless exactly for the values without a negative zero.
  lemma LosslessExactly(t: Tree, format: Format, convert: Conversion)
    requires Lossless(format, convert) && FiniteNumbers(t) && DistinctNames(t)
    ensures Read(Print(t, format), convert) == Some(t) <==> !HasNegativeZero(t)
  {
    RoundTrip(t, format, convert);
    WithoutChanges(t);
  }

  // ----- The bytes on the wire

  lemma {:induction false} DigitsAscii(s: Text)
    requires AllDigits(s)
    ensures IsAscii(s)
  {
    forall i | 0 <= i < |s| ensures s[i] < 0x80 { DigitAt(s, i); }
  }

  lemma LexemeAscii(l: Lexeme)
    requires Valid(l)
    ensures IsAscii(Render(l))
  {
    DigitsAscii(l.whole);
    if l.fraction.Some? { DigitsAscii(l.fraction.value); }
    if l.exponent.Some? { DigitsAscii(l.exponent.value.digits); }
    hide AllDigits;
    assert IsAscii(RenderFraction(l.fraction)) && IsAscii(RenderExponent(l.exponent))
           && IsAscii(RenderSign(l.negative));
    hide IsAscii, RenderFraction, RenderExponent, RenderSign;
    AsciiConcat(RenderFraction(l.fraction), RenderExponent(l.exponent));
    AsciiConcat(l.whole, RenderFraction(l.fraction) + RenderExponent(l.exponent));
    AsciiConcat(RenderSign(l.negative), l.whole + (RenderFraction(l.fraction) + RenderExponent(l.exponent)));
  }

  lemma AsciiConcat(a: Text, b: Text)
    ensures IsAscii(a) && IsAscii(b) ==> IsAscii(a + b)
  {
  }

  lemma NumberWellFormed(number: JsNumber, format: Format, convert: Conversion)
    requires Lossless(format, convert) && IsFinite(number)
    ensures WellFormed(format(number))
  {
    var l :| Valid(l) && Render(l) == format(number);
    LexemeAscii(l);
    AsciiWellFormed(format(number));
  }

  lemma WellFormedPair(a: Text, b: Text)
    requires WellFormed(a) && WellFormed(b)
    ensures WellFormed(a + b)
  {
    WellFormedConcat(a, b);
  }

  lemma PunctuationWellFormed()
    ensures forall u: Unit | u < 0x80 :: WellFormed([u])
    ensures WellFormed([]) && WellFormed(Json.NULL) && WellFormed(Json.TRUE) && WellFormed(Json.FALSE)
  {
    forall u: Unit | u < 0x80 ensures WellFormed([u]) { AsciiWellFormed([u]); }
    AsciiWellFormed(Json.NULL);
    AsciiWellFormed(Json.TRUE);
    AsciiWellFormed(Json.FALSE);
  }

  lemma {:induction false} PrintWellFormed(t: Tree, format: Format, convert: Conversion)
    requires Lossless(format, convert) && FiniteNumbers(t)
    ensures WellFormed(Print(t, format))
    decreases t, 1
  {
    hide Lossless, IsFinite, WellFormed, Quote;
    PunctuationWellFormed();
    match t
    case Number(number) => NumberWellFormed(number, format, convert);
    case String(text) => QuoteWellFormed(text);
    case Array(elements) =>
      ElementsFinite(t);
      ElementsWellFormed(elements, format, convert);
      WellFormedPair([Json.LBRACKET], PrintElements(elements, format));
      WellFormedPair([Json.LBRACKET] + PrintElements(elements, format), [Json.RBRACKET]);
    case Object(members) =>
      MembersFinite(t);
      MembersWellFormed(members, format, convert);
      WellFormedPair([Json.LBRACE], PrintMembers(members, format));
      WellFormedPair([Json.LBRACE] + PrintMembers(members, format), [Json.RBRACE]);
    case _ =>
  }

  lemma {:induction false} ElementsWellFormed(elements: seq<Tree>, format: Format, convert: Conversion)
    requires Lossless(format, convert) && FiniteElements(elements)
    ensures WellFormed(PrintElements(elements, format))
    decreases elements, 0
  {
    hide Lossless, WellFormed, FiniteNumbers, Print;
    PunctuationWellFormed();
    if |elements| > 0 {
      PrintWellFormed(elements[0], format, convert);
      ElementsWellFormed(elements[1..], format, convert);
      WellFormedPair([Json.COMMA], PrintElements(elements[1..], format));
      WellFormedPair(Print(elements[0], format),
                     if |elements| == 1 then [] else [Json.COMMA] + PrintElements(elements[1..], format));
    }
  }

  lemma {:induction false} MembersWellFormed(members: seq<Entry>, format: Format, convert: Conversion)
    requires Lossless(format, convert) && FiniteMembers(members)
    ensures WellFormed(PrintMembers(members, format))
    decreases members, 0
  {
    hide Lossless, WellFormed, FiniteNumbers, Print, Quote;
    PunctuationWellFormed();
    if |members| > 0 {
      var first := members[0];
      QuoteWellFormed(first.name);
      PrintWellFormed(first.value, format, convert);
      WellFormedPair(Quote(first.name), [COLON]);
      WellFormedPair(Quote(first.name) + [COLON], Print(first.value, format));
      MembersWellFormed(members[1..], format, convert);
      WellFormedPair([Json.COMMA], PrintMembers(members[1..], format));
      WellFormedPair(PrintMember(first, format),
                     if |members| == 1 then [] else [Json.COMMA] + PrintMembers(members[1..], format));
    }
  }

  // The bytes of a body, decoded and parsed again, are the value with its zeros made positive.
  lemma WireRoundTrip(t: Tree, format: Format, convert: Conversion)
    requires Lossless(format, convert) && FiniteNumbers(t) && DistinctNames(t)
    ensures Read(Utf8Decoder.DecodeAll(Utf8Decoder.Encode(Print(t, format))), convert) == Some(WithoutNegativeZero(t))
  {
    PrintWellFormed(t, format, convert);
    RoundTrip(t, format, convert);
    hide Print, Utf8Decoder.Encode, Utf8Decoder.Decode, Read, WithoutNegativeZero, Lossless;
    Utf8Decoder.DecodeEncode(Print(t, format));
    assert Print(t, format) + [] == Print(t, format);
  }

  // The bytes of an array with a negative zero come back as one with a positive zero.
  lemma NegativeZeroComesBack(format: Format, convert: Conversion)
    requires Lossless(format, convert)
    ensures var bytes := Utf8Decoder.Encode(Print(Tree.Array([Tree.Number(NegativeZero)]), format));
            Read(Utf8Decoder.DecodeAll(bytes), convert) == Some(Tree.Array([Tree.Number(Finite(0.0))]))
  {
    var t := Tree.Array([Tree.Number(NegativeZero)]);
    assert FiniteNumbers(t) && DistinctNames(t);
    WireRoundTrip(t, format, convert);
    assert WithoutNegativeZero(t) == Tree.Array([Tree.Number(Finite(0.0))]);
  }
}
