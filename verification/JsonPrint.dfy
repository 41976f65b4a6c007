/** `JSON.stringify` of plain values, as the request snapshot assembles it, and what a JSON reader makes of the text. */
module JsonPrint {
  import opened Utf16
  import opened Wrappers
  import opened Powers
  import opened ExactInteger
  import opened JsonTree
  import opened JsonNumbers
  import opened JsonQuote
  import Json

  /** A plain JSON value with JavaScript numbers. */
  datatype Tree =
    | Null
    | Bool(b: bool)
    | Number(number: JsNumber)
    | String(text: Text)
    | Array(elements: seq<Tree>)
    | Object(members: seq<Entry>)

  datatype Entry = Entry(name: Text, value: Tree)

  predicate IsNode(t: Tree) { t.Array? || t.Object? }

  function Width(t: Tree): nat
    requires IsNode(t)
  {
    if t.Array? then |t.elements| else |t.members|
  }

  function Child(t: Tree, i: nat): (child: Tree)
    requires IsNode(t) && i < Width(t)
    ensures child < t
  {
    if t.Array? then t.elements[i] else t.members[i].value
  }

  // ----- Printing

  /** How `JSON.stringify` writes a finite number. */
  type Format = JsNumber -> Text

  function Print(t: Tree, format: Format): Text
    decreases t
  {
    match t
    case Null => Json.NULL
    case Bool(b) => if b then Json.TRUE else Json.FALSE
    case Number(number) => format(number)
    case String(text) => Quote(text)
    case Array(elements) => [Json.LBRACKET] + PrintElements(elements, format) + [Json.RBRACKET]
    case Object(members) => [Json.LBRACE] + PrintMembers(members, format) + [Json.RBRACE]
  }

  function PrintElements(elements: seq<Tree>, format: Format): Text
    decreases elements
  {
    if |elements| == 0 then []
    else
      Print(elements[0], format)
      + if |elements| == 1 then [] else [Json.COMMA] + PrintElements(elements[1..], format)
  }

  function PrintMembers(members: seq<Entry>, format: Format): Text
    decreases members
  {
    if |members| == 0 then []
    else
      PrintMember(members[0], format)
      + if |members| == 1 then [] else [Json.COMMA] + PrintMembers(members[1..], format)
  }

  function PrintMember(member: Entry, format: Format): Text
    decreases member
  {
    Quote(member.name) + [COLON] + Print(member.value, format)
  }

  // ----- The numbers

  /** A number that a JavaScript variable can hold, other than NaN and the infinities. */
  ghost predicate IsFinite(number: JsNumber) {
    number.NegativeZero? || (number.Finite? && IsDouble(number.value))
  }

  /** Negative zero is the one number whose sign its text does not show. */
  function Unsigned(number: JsNumber): JsNumber {
    if number.NegativeZero? then Finite(0.0) else number
  }

  /** The promise of ECMAScript about numbers: a text is a JSON number that reads as the number it was made from. */
  ghost predicate Lossless(format: Format, convert: Conversion) {
    forall number :: IsFinite(number) ==>
      IsLexeme(format(number)) && convert(format(number)) == Unsigned(number)
  }

  ghost predicate FiniteNumbers(t: Tree)
    decreases t
  {
    && (t.Number? ==> IsFinite(t.number))
    && (IsNode(t) ==> forall i :: 0 <= i < Width(t) ==> FiniteNumbers(Child(t, i)))
  }

  /** No object of the value has two members of the same name. */
  ghost predicate DistinctNames(t: Tree)
    decreases t
  {
    && (t.Object? ==> forall i, j :: 0 <= i < j < |t.members| ==> t.members[i].name != t.members[j].name)
    && (IsNode(t) ==> forall i :: 0 <= i < Width(t) ==> DistinctNames(Child(t, i)))
  }

  // ----- The tokens of a printed value

  function TokensOf(t: Tree, format: Format): seq<Json.Token>
    decreases t
  {
    match t
    case Null => [Json.Word(Json.NULL)]
    case Bool(b) => [Json.Word(if b then Json.TRUE else Json.FALSE)]
    case Number(number) => [Json.Number(format(number))]
    case String(text) => [Json.String(Escape(text))]
    case Array(elements) => [Json.Punct(Json.LBRACKET)] + ElementTokens(elements, format) + [Json.Punct(Json.RBRACKET)]
    case Object(members) => [Json.Punct(Json.LBRACE)] + MemberTokens(members, format) + [Json.Punct(Json.RBRACE)]
  }

  function ElementTokens(elements: seq<Tree>, format: Format): seq<Json.Token>
    decreases elements
  {
    if |elements| == 0 then []
    else
      TokensOf(elements[0], format)
      + if |elements| == 1 then [] else [Json.Punct(Json.COMMA)] + ElementTokens(elements[1..], format)
  }

  function MemberTokens(members: seq<Entry>, format: Format): seq<Json.Token>
    decreases members
  {
    if |members| == 0 then []
    else
      [Json.String(Escape(members[0].name)), Json.Punct(COLON)] + TokensOf(members[0].value, format)
      + if |members| == 1 then [] else [Json.Punct(Json.COMMA)] + MemberTokens(members[1..], format)
  }

  /** The text consists of the tokens and of a rest. */
  ghost predicate Scans(text: Text, tokens: seq<Json.Token>, rest: Text) {
    Json.Tokens(rest).Some? ==> Json.Tokens(text) == Some(tokens + Json.Tokens(rest).value)
  }

  lemma ScanOne(text: Text, token: Json.Token, k: nat, rest: Text)
    requires 0 < k <= |text| && Json.FirstToken(text) == Some((token, k)) && text[k..] == rest
    ensures Scans(text, [token], rest)
  {
  }

  lemma ScanNothing(rest: Text)
    ensures Scans([] + rest, [], rest)
  {
    assert [] + rest == rest;
    if Json.Tokens(rest).Some? { assert [] + Json.Tokens(rest).value == Json.Tokens(rest).value; }
  }

  lemma ScanThen(text: Text, a: seq<Json.Token>, middle: Text, b: seq<Json.Token>, rest: Text)
    requires Scans(text, a, middle) && Scans(middle, b, rest)
    ensures Scans(text, a + b, rest)
  {
    if Json.Tokens(rest).Some? {
      assert a + (b + Json.Tokens(rest).value) == a + b + Json.Tokens(rest).value;
    }
  }

  lemma ScanPunct(u: Unit, rest: Text)
    requires Json.IsPunct(u)
    ensures Scans([u] + rest, [Json.Punct(u)], rest)
  {
    ScanOne([u] + rest, Json.Punct(u), 1, rest);
  }

  lemma ScanQuote(s: Text, rest: Text)
    ensures Scans(Quote(s) + rest, [Json.String(Escape(s))], rest)
  {
    QuoteIsToken(s, rest);
    assert (Quote(s) + rest)[|Quote(s)|..] == rest;
    ScanOne(Quote(s) + rest, Json.String(Escape(s)), |Quote(s)|, rest);
  }

  lemma ScanNumber(lexeme: Text, rest: Text)
    requires IsLexeme(lexeme) && Ends(rest)
    ensures Scans(lexeme + rest, [Json.Number(lexeme)], rest)
  {
    var l :| Valid(l) && Render(l) == lexeme;
    LexemeIsToken(l, rest);
    assert (lexeme + rest)[|lexeme|..] == rest;
    ScanOne(lexeme + rest, Json.Number(lexeme), |lexeme|, rest);
  }

  lemma ScanWord(word: Text, rest: Text)
    requires word == Json.TRUE || word == Json.FALSE || word == Json.NULL
    ensures Scans(word + rest, [Json.Word(word)], rest)
  {
    assert (word + rest)[|word|..] == rest;
    assert (word + rest)[0] == word[0];
    ScanOne(word + rest, Json.Word(word), |word|, rest);
  }

  lemma Wrap(open: Text, inner: Text, close: Text, rest: Text)
    ensures open + inner + close + rest == open + (inner + (close + rest))
  {
  }

  lemma WrapTokens(a: seq<Json.Token>, b: seq<Json.Token>, c: seq<Json.Token>)
    ensures a + b + c == a + (b + c)
  {
  }

  lemma {:induction false} PrintScans(t: Tree, format: Format, convert: Conversion, rest: Text)
    requires Lossless(format, convert) && FiniteNumbers(t) && Ends(rest)
    ensures Scans(Print(t, format) + rest, TokensOf(t, format), rest)
    decreases t, 1
  {
    hide Scans, Quote, Ends, IsLexeme, IsFinite, Json.IsPunct;
    match t
    case Null => ScanWord(Json.NULL, rest);
    case Bool(b) => ScanWord(if b then Json.TRUE else Json.FALSE, rest);
    case Number(number) => ScanNumber(format(number), rest);
    case String(text) => ScanQuote(text, rest);
    case Array(elements) =>
      ElementsFinite(t);
      var close := [Json.RBRACKET] + rest;
      Closes(Json.RBRACKET, rest);
      ElementsScan(elements, format, convert, close);
      Enclosed(Json.LBRACKET, PrintElements(elements, format), ElementTokens(elements, format), Json.RBRACKET, rest);
    case Object(members) =>
      MembersFinite(t);
      var close := [Json.RBRACE] + rest;
      Closes(Json.RBRACE, rest);
      MembersScan(members, format, convert, close);
      Enclosed(Json.LBRACE, PrintMembers(members, format), MemberTokens(members, format), Json.RBRACE, rest);
  }

  lemma Closes(u: Unit, rest: Text)
    requires u == Json.RBRACKET || u == Json.RBRACE || u == Json.COMMA
    ensures Ends([u] + rest) && Json.IsPunct(u)
  {
  }

  lemma Enclosed(open: Unit, inner: Text, tokens: seq<Json.Token>, close: Unit, rest: Text)
    requires (open == Json.LBRACKET && close == Json.RBRACKET) || (open == Json.LBRACE && close == Json.RBRACE)
    requires Scans(inner + ([close] + rest), tokens, [close] + rest)
    ensures Scans([open] + inner + [close] + rest, [Json.Punct(open)] + tokens + [Json.Punct(close)], rest)
  {
    ScanPunct(close, rest);
    ScanPunct(open, inner + ([close] + rest));
    hide Scans;
    ScanThen(inner + ([close] + rest), tokens, [close] + rest, [Json.Punct(close)], rest);
    ScanThen([open] + (inner + ([close] + rest)), [Json.Punct(open)], inner + ([close] + rest),
             tokens + [Json.Punct(close)], rest);
    Wrap([open], inner, [close], rest);
    WrapTokens([Json.Punct(open)], tokens, [Json.Punct(close)]);
  }

  ghost predicate FiniteElements(elements: seq<Tree>) {
    forall i :: 0 <= i < |elements| ==> FiniteNumbers(elements[i])
  }

  ghost predicate FiniteMembers(members: seq<Entry>) {
    forall i :: 0 <= i < |members| ==> FiniteNumbers(members[i].value)
  }

  lemma ElementsFinite(t: Tree)
    requires t.Array? && FiniteNumbers(t)
    ensures FiniteElements(t.elements)
  {
    forall i | 0 <= i < |t.elements| ensures FiniteNumbers(t.elements[i]) { assert FiniteNumbers(Child(t, i)); }
  }

  lemma MembersFinite(t: Tree)
    requires t.Object? && FiniteNumbers(t)
    ensures FiniteMembers(t.members)
  {
    forall i | 0 <= i < |t.members| ensures FiniteNumbers(t.members[i].value) { assert FiniteNumbers(Child(t, i)); }
  }

  lemma {:induction false} ElementsScan(elements: seq<Tree>, format: Format, convert: Conversion, rest: Text)
    requires Lossless(format, convert) && FiniteElements(elements) && Ends(rest)
    ensures Scans(PrintElements(elements, format) + rest, ElementTokens(elements, format), rest)
    decreases elements, 0
  {
    if |elements| == 0 {
      ScanNothing(rest);
    } else {
      assert FiniteNumbers(elements[0]);
      hide FiniteNumbers, Scans, Ends, Lossless;
      if |elements| == 1 {
        PrintScans(elements[0], format, convert, rest);
        assert PrintElements(elements, format) == Print(elements[0], format);
        assert ElementTokens(elements, format) == TokensOf(elements[0], format);
      } else {
        var more := PrintElements(elements[1..], format);
        ElementsScan(elements[1..], format, convert, rest);
        Closes(Json.COMMA, more + rest);
        PrintScans(elements[0], format, convert, [Json.COMMA] + (more + rest));
        Separated(Print(elements[0], format), TokensOf(elements[0], format), more,
                  ElementTokens(elements[1..], format), rest);
      }
    }
  }

  lemma Separated(first: Text, tokens: seq<Json.Token>, more: Text, others: seq<Json.Token>, rest: Text)
    requires Scans(first + ([Json.COMMA] + (more + rest)), tokens, [Json.COMMA] + (more + rest))
    requires Scans(more + rest, others, rest)
    ensures Scans(first + ([Json.COMMA] + more) + rest, tokens + ([Json.Punct(Json.COMMA)] + others), rest)
  {
    ScanPunct(Json.COMMA, more + rest);
    hide Scans;
    ScanThen([Json.COMMA] + (more + rest), [Json.Punct(Json.COMMA)], more + rest, others, rest);
    ScanThen(first + ([Json.COMMA] + (more + rest)), tokens, [Json.COMMA] + (more + rest),
             [Json.Punct(Json.COMMA)] + others, rest);
    Wrap(first, [Json.COMMA], more, rest);
    assert first + ([Json.COMMA] + more) + rest == first + [Json.COMMA] + more + rest;
  }

  lemma {:induction false} MembersScan(members: seq<Entry>, format: Format, convert: Conversion, rest: Text)
    requires Lossless(format, convert) && FiniteMembers(members) && Ends(rest)
    ensures Scans(PrintMembers(members, format) + rest, MemberTokens(members, format), rest)
    decreases members, 0
  {
    if |members| == 0 {
      ScanNothing(rest);
    } else {
      assert FiniteNumbers(members[0].value);
      hide FiniteNumbers, Scans, Ends, Lossless, Quote, Print;
      var first := members[0];
      var tokens := [Json.String(Escape(first.name)), Json.Punct(COLON)] + TokensOf(first.value, format);
      if |members| == 1 {
        PrintScans(first.value, format, convert, rest);
        Named(first.name, Print(first.value, format), TokensOf(first.value, format), rest);
        assert PrintMembers(members, format) == PrintMember(first, format);
        assert MemberTokens(members, format) == tokens;
      } else {
        var more := PrintMembers(members[1..], format);
        MembersScan(members[1..], format, convert, rest);
        Closes(Json.COMMA, more + rest);
        PrintScans(first.value, format, convert, [Json.COMMA] + (more + rest));
        Named(first.name, Print(first.value, format), TokensOf(first.value, format), [Json.COMMA] + (more + rest));
        Separated(PrintMember(first, format), tokens, more, MemberTokens(members[1..], format), rest);
      }
    }
  }

  lemma Named(name: Text, value: Text, tokens: seq<Json.Token>, rest: Text)
    requires Scans(value + rest, tokens, rest)
    ensures Scans(Quote(name) + [COLON] + value + rest, [Json.String(Escape(name)), Json.Punct(COLON)] + tokens, rest)
  {
    ScanPunct(COLON, value + rest);
    ScanQuote(name, [COLON] + (value + rest));
    hide Scans, Quote;
    ScanThen([COLON] + (value + rest), [Json.Punct(COLON)], value + rest, tokens, rest);
    ScanThen(Quote(name) + ([COLON] + (value + rest)), [Json.String(Escape(name))], [COLON] + (value + rest),
             [Json.Punct(COLON)] + tokens, rest);
    Wrap(Quote(name), [COLON], value, rest);
    assert [Json.String(Escape(name))] + ([Json.Punct(COLON)] + tokens) ==
           [Json.String(Escape(name)), Json.Punct(COLON)] + tokens;
  }
}
