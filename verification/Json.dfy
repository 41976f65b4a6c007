/** JSON texts as RFC 8259 defines them: tokens, then values. Object members keep the last of several equal names. */
module Json {
  import opened Utf16
  import opened Wrappers

  const LBRACE: Unit := 0x7B
  const RBRACE: Unit := 0x7D
  const LBRACKET: Unit := 0x5B
  const RBRACKET: Unit := 0x5D
  const COMMA: Unit := 0x2C
  const MINUS: Unit := 0x2D
  const PLUS: Unit := 0x2B
  const DOT: Unit := 0x2E
  const ZERO: Unit := 0x30
  const TRUE: Text := [0x74, 0x72, 0x75, 0x65]
  const FALSE: Text := [0x66, 0x61, 0x6C, 0x73, 0x65]
  const NULL: Text := [0x6E, 0x75, 0x6C, 0x6C]

  datatype Token =
    | Space(unit: Unit)
    | Punct(unit: Unit)
    | Word(word: Text)
    | Number(lexeme: Text)
    | String(raw: Text)

  datatype Value =
    | Null
    | Bool(b: bool)
    | Num(lexeme: Text)
    | Str(s: Text)
    | Arr(elements: seq<Value>)
    | Obj(members: seq<Member>)

  datatype Member = Member(name: Text, value: Value)

  predicate IsSpace(u: Unit) { u == SPACE || u == TAB || u == LF || u == CR }

  predicate IsPunct(u: Unit) {
    u == LBRACE || u == RBRACE || u == LBRACKET || u == RBRACKET || u == COMMA || u == COLON
  }

  predicate IsE(u: Unit) { u == 0x65 || u == 0x45 }

  // ----- Numbers (section 6 of RFC 8259)

  function DigitsEnd(text: Text, i: nat): (k: nat)
    requires i <= |text|
    ensures i <= k <= |text|
    decreases |text| - i
  {
    if i < |text| && IsDigit(text[i]) then DigitsEnd(text, i + 1) else i
  }

  function IntEnd(text: Text, i: nat): (k: nat)
    requires i < |text| && IsDigit(text[i])
    ensures i < k <= |text|
  {
    if text[i] == ZERO then i + 1 else DigitsEnd(text, i)
  }

  function FracEnd(text: Text, i: nat): (k: nat)
    requires i <= |text|
    ensures i <= k <= |text|
  {
    if i + 1 < |text| && text[i] == DOT && IsDigit(text[i + 1]) then DigitsEnd(text, i + 1) else i
  }

  function SignEnd(text: Text, i: nat): (k: nat)
    requires i <= |text|
    ensures i <= k <= |text|
  {
    if i < |text| && (text[i] == PLUS || text[i] == MINUS) then i + 1 else i
  }

  function ExpEnd(text: Text, i: nat): (k: nat)
    requires i <= |text|
    ensures i <= k <= |text|
  {
    if i < |text| && IsE(text[i]) then
      var digits := SignEnd(text, i + 1);
      if digits < |text| && IsDigit(text[digits]) then DigitsEnd(text, digits) else i
    else i
  }

  /**
   The length of the number at the head of a text, as the greedy pattern of the source matches it; 0 for no number.
   */
  function NumberLength(text: Text): (k: nat)
    ensures k <= |text|
  {
    var start := if |text| > 0 && text[0] == MINUS then 1 else 0;
    if start < |text| && IsDigit(text[start]) then ExpEnd(text, FracEnd(text, IntEnd(text, start))) else 0
  }

  // ----- Strings (section 7 of RFC 8259)

  /**
   The index of the quote that closes a string whose contents start at `i`, or the length: a forward escape automaton.
   */
  function CloseQuote(text: Text, i: nat): (q: nat)
    requires i <= |text|
    ensures i <= q <= |text| && (q < |text| ==> text[q] == QUOTE)
    decreases |text| - i
  {
    if i == |text| || text[i] == QUOTE then i
    else if text[i] == BACKSLASH && i + 1 < |text| then CloseQuote(text, i + 2)
    else CloseQuote(text, i + 1)
  }

  function HexValue(u: Unit): (r: Option<nat>)
    ensures r.Some? ==> r.value < 16
  {
    if IsDigit(u) then Some(u - 0x30)
    else if 0x61 <= u <= 0x66 then Some(u - 0x57)
    else if 0x41 <= u <= 0x46 then Some(u - 0x37)
    else None
  }

  /** The unit that a two-character escape stands for. */
  function ShortEscape(u: Unit): Option<Unit> {
    if u == QUOTE || u == BACKSLASH || u == 0x2F then Some(u)
    else if u == 0x62 then Some(0x08)
    else if u == 0x66 then Some(0x0C)
    else if u == 0x6E then Some(LF)
    else if u == 0x72 then Some(CR)
    else if u == 0x74 then Some(TAB)
    else None
  }

  /** The first character of string contents: the unit it stands for, and how long it is written. */
  function FirstChar(raw: Text): (r: Option<(Unit, nat)>)
    requires |raw| > 0
    ensures r.Some? ==> 0 < r.value.1 <= |raw|
  {
    if raw[0] != BACKSLASH then
      if raw[0] >= 0x20 && raw[0] != QUOTE then Some((raw[0], 1)) else None
    else if |raw| >= 2 && ShortEscape(raw[1]).Some? then
      Some((ShortEscape(raw[1]).value, 2))
    else if |raw| >= 6 && raw[1] == 0x75 then
      match (HexValue(raw[2]), HexValue(raw[3]), HexValue(raw[4]), HexValue(raw[5]))
      case (Some(a), Some(b), Some(c), Some(d)) =>
        Some((((a * 16 + b) * 16 + c) * 16 + d, 6))
      case _ => None
    else None
  }

  /** What string contents mean. */
  function Unescape(raw: Text): Option<Text> {
    if |raw| == 0 then Some([])
    else match FirstChar(raw)
      case None => None
      case Some((u, k)) =>
        match Unescape(raw[k..])
        case None => None
        case Some(rest) => Some([u] + rest)
  }

  // ----- Tokens

  /** The token at the head of a text, and its length. */
  function FirstToken(text: Text): (r: Option<(Token, nat)>)
    requires |text| > 0
    ensures r.Some? ==> 0 < r.value.1 <= |text|
  {
    if IsSpace(text[0]) then Some((Space(text[0]), 1))
    else if IsPunct(text[0]) then Some((Punct(text[0]), 1))
    else if text[0] == QUOTE then
      var q := CloseQuote(text, 1);
      if q < |text| && Unescape(text[1..q]).Some? then Some((String(text[1..q]), q + 1)) else None
    else if TRUE <= text then Some((Word(TRUE), 4))
    else if FALSE <= text then Some((Word(FALSE), 5))
    else if NULL <= text then Some((Word(NULL), 4))
    else
      var k := NumberLength(text);
      if k > 0 then Some((Number(text[..k]), k)) else None
  }

  function Tokens(text: Text): Option<seq<Token>>
    decreases |text|
  {
    if |text| == 0 then Some([])
    else match FirstToken(text)
      case None => None
      case Some((token, k)) =>
        match Tokens(text[k..])
        case None => None
        case Some(rest) => Some([token] + rest)
  }

  /** White space separates tokens and means nothing else. */
  function Significant(tokens: seq<Token>): seq<Token> {
    if |tokens| == 0 then []
    else (if tokens[0].Space? then [] else [tokens[0]]) + Significant(tokens[1..])
  }

  // ----- Values (sections 3 to 5 of RFC 8259)

  predicate Starts(tokens: seq<Token>, u: Unit) {
    |tokens| > 0 && tokens[0] == Punct(u)
  }

  /** The members with one more; a later member replaces an earlier one of the same name. */
  function Assign(members: seq<Member>, name: Text, value: Value): seq<Member> {
    if |members| == 0 then [Member(name, value)]
    else if members[0].name == name then [Member(name, value)] + members[1..]
    else [members[0]] + Assign(members[1..], name, value)
  }

  /** A value at the head of the tokens, and the tokens after it. */
  function ParseValue(tokens: seq<Token>): (r: Option<(Value, seq<Token>)>)
    ensures r.Some? ==> |r.value.1| < |tokens|
    decreases |tokens|, 0
  {
    if |tokens| == 0 then None
    else match tokens[0]
      case Word(w) =>
        if w == TRUE then Some((Bool(true), tokens[1..]))
        else if w == FALSE then Some((Bool(false), tokens[1..]))
        else if w == NULL then Some((Null, tokens[1..]))
        else None
      case Number(lexeme) => Some((Num(lexeme), tokens[1..]))
      case String(raw) =>
        var s := Unescape(raw);
        if s.Some? then Some((Str(s.value), tokens[1..])) else None
      case Punct(u) =>
        if u == LBRACKET then
          if Starts(tokens[1..], RBRACKET) then Some((Arr([]), tokens[2..]))
          else match ParseElements(tokens[1..], [])
            case None => None
            case Some((elements, rest)) => Some((Arr(elements), rest))
        else if u == LBRACE then
          if Starts(tokens[1..], RBRACE) then Some((Obj([]), tokens[2..]))
          else match ParseMembers(tokens[1..], [])
            case None => None
            case Some((members, rest)) => Some((Obj(members), rest))
        else None
      case Space(_) => None
  }

  /** The elements of an array up to its closing bracket, after those already read. */
  function ParseElements(tokens: seq<Token>, read: seq<Value>): (r: Option<(seq<Value>, seq<Token>)>)
    ensures r.Some? ==> |r.value.1| < |tokens|
    decreases |tokens|, 1
  {
    match ParseValue(tokens)
    case None => None
    case Some((value, rest)) =>
      if Starts(rest, COMMA) then ParseElements(rest[1..], read + [value])
      else if Starts(rest, RBRACKET) then Some((read + [value], rest[1..]))
      else None
  }

  /** The members of an object up to its closing brace, after those already read. */
  function ParseMembers(tokens: seq<Token>, read: seq<Member>): (r: Option<(seq<Member>, seq<Token>)>)
    ensures r.Some? ==> |r.value.1| < |tokens|
    decreases |tokens|, 1
  {
    if |tokens| < 2 || !tokens[0].String? || tokens[1] != Punct(COLON) then None
    else match (Unescape(tokens[0].raw), ParseValue(tokens[2..]))
      case (Some(name), Some((value, rest))) =>
        var members := Assign(read, name, value);
        if Starts(rest, COMMA) then ParseMembers(rest[1..], members)
        else if Starts(rest, RBRACE) then Some((members, rest[1..]))
        else None
      case _ => None
  }

  function ParseTokens(tokens: seq<Token>): Option<Value> {
    match ParseValue(Significant(tokens))
    case None => None
    case Some((value, rest)) => if rest == [] then Some(value) else None
  }

  /** `JSON.parse`, with each number as its lexeme. */
  function Parse(text: Text): Option<Value> {
    var tokens := Tokens(text);
    if tokens.None? then None else ParseTokens(tokens.value)
  }
}
