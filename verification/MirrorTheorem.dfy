/** What the numeric mirror preserves: the mirror of a JSON text is a JSON text with the same structure. */
module MirrorTheorem {
  import opened Utf16
  import opened Wrappers
  import opened Json
  import opened JsonQuote
  import opened NumericMirror

  function MirrorToken(token: Token): Token {
    if token.Number? then String(token.lexeme) else token
  }

  function MirrorTokens(tokens: seq<Token>): seq<Token> {
    if |tokens| == 0 then [] else [MirrorToken(tokens[0])] + MirrorTokens(tokens[1..])
  }

  /** Every number replaced by the string of its own lexeme, and nothing else changed. */
  function MirrorValue(v: Value): Value {
    match v
    case Num(lexeme) => Str(lexeme)
    case Arr(elements) => Arr(MirrorValues(elements))
    case Obj(members) => Obj(MirrorMembers(members))
    case _ => v
  }

  function MirrorValues(vs: seq<Value>): seq<Value> {
    if |vs| == 0 then [] else MirrorValues(vs[..|vs| - 1]) + [MirrorValue(vs[|vs| - 1])]
  }

  function MirrorMembers(ms: seq<Member>): seq<Member> {
    if |ms| == 0 then [] else [Member(ms[0].name, MirrorValue(ms[0].value))] + MirrorMembers(ms[1..])
  }

  // ----- Numbers

  /** Units that can occur in a number: none of them needs an escape in a string. */
  lemma {:induction false} DigitsUnits(text: Text, i: nat)
    requires i <= |text|
    ensures forall k :: i <= k < DigitsEnd(text, i) ==> IsDigit(text[k])
    decreases |text| - i
  {
    if i < |text| && IsDigit(text[i]) { DigitsUnits(text, i + 1); }
  }

  lemma NumberIsPlain(text: Text)
    ensures IsUnescaped(text[..NumberLength(text)])
  {
    var start := if |text| > 0 && text[0] == MINUS then 1 else 0;
    if start < |text| && IsDigit(text[start]) {
      var i := IntEnd(text, start);
      var f := FracEnd(text, i);
      var s := if f < |text| then SignEnd(text, f + 1) else f;
      DigitsUnits(text, start);
      if i + 1 <= |text| { DigitsUnits(text, i + 1); }
      DigitsUnits(text, s);
    }
  }

  lemma SamePrefix(text: Text, other: Text, n: nat)
    requires n <= |text| && n <= |other| && text[..n] == other[..n]
    ensures forall k :: 0 <= k < n ==> text[k] == other[k]
  {
    forall k | 0 <= k < n ensures text[k] == other[k] {
      assert text[k] == text[..n][k] && other[k] == other[..n][k];
    }
  }

  // What comes after the closing quote does not matter to where it is.
  lemma {:induction false} CloseQuoteLocal(text: Text, other: Text, i: nat)
    requires i <= |text|
    requires var q := CloseQuote(text, i);
             q < |text| && q < |other| && text[..q + 1] == other[..q + 1]
    ensures CloseQuote(other, i) == CloseQuote(text, i)
    decreases |text| - i
  {
    var q := CloseQuote(text, i);
    SamePrefix(text, other, q + 1);
    if i < |text| && text[i] != QUOTE {
      if text[i] == BACKSLASH && i + 1 < |text| {
        CloseQuoteLocal(text, other, i + 2);
      } else {
        CloseQuoteLocal(text, other, i + 1);
      }
    }
  }

  // ----- Tokens

  // A quoted number is one string token.
  lemma QuotedToken(lexeme: Text, rest: Text)
    requires IsUnescaped(lexeme)
    ensures |Quote(lexeme)| == |lexeme| + 2 && FirstToken(Quote(lexeme) + rest) == Some((String(lexeme), |lexeme| + 2))
  {
    EscapePlain(lexeme);
    QuoteIsToken(lexeme, rest);
  }

  lemma UnescapePlain(s: Text)
    requires IsUnescaped(s)
    ensures Unescape(s) == Some(s)
  {
    EscapePlain(s);
    UnescapeEscape(s);
  }

  // The first token of a text, and of any text that starts with its characters, if it is not a number.
  lemma TokenLocal(text: Text, rest: Text)
    requires |text| > 0 && FirstToken(text).Some? && !FirstToken(text).value.0.Number?
    ensures var k := FirstToken(text).value.1;
            FirstToken(text[..k] + rest) == FirstToken(text)
  {
    var (token, k) := FirstToken(text).value;
    var other := text[..k] + rest;
    if text[0] == QUOTE {
      assert text[..k] == other[..k];
      CloseQuoteLocal(text, other, 1);
      assert text[1..k - 1] == other[1..k - 1];
    } else if token.Word? {
      assert token.word == text[..k] == other[..k];
      assert text[0] == other[0];
    }
  }

  predicate Letters(s: Text) {
    |s| == 0 || (0x61 <= s[0] <= 0x7A && Letters(s[1..]))
  }

  lemma UnitCopied(text: Text)
    requires |text| > 0 && text[0] != QUOTE && text[0] != MINUS && !IsDigit(text[0])
    ensures Mirror(text) == [text[0]] + Mirror(text[1..])
  {
    hide CloseQuote, Quote;
    assert NumberLength(text) == 0;
  }

  // Letters outside a string are copied.
  lemma {:induction false} LettersCopied(word: Text, rest: Text)
    requires Letters(word)
    ensures Mirror(word + rest) == word + Mirror(rest)
  {
    hide Mirror;
    if |word| == 0 {
      assert word + rest == rest && word + Mirror(rest) == Mirror(rest);
    } else {
      UnitCopied(word + rest);
      assert (word + rest)[1..] == word[1..] + rest;
      LettersCopied(word[1..], rest);
      assert word == [word[0]] + word[1..];
    }
  }

  lemma WordsAreLetters()
    ensures Letters(TRUE) && Letters(FALSE) && Letters(NULL)
  {
    assert Letters(TRUE[4..]) && Letters(TRUE[3..]) && Letters(TRUE[2..]) && Letters(TRUE[1..]);
    assert Letters(FALSE[5..]) && Letters(FALSE[4..]) && Letters(FALSE[3..]) && Letters(FALSE[2..])
           && Letters(FALSE[1..]);
    assert Letters(NULL[4..]) && Letters(NULL[3..]) && Letters(NULL[2..]) && Letters(NULL[1..]);
  }

  lemma WordToken(text: Text) returns (k: nat)
    requires |text| > 0 && FirstToken(text).Some? && FirstToken(text).value.0.Word?
    ensures k == FirstToken(text).value.1 <= |text|
    ensures text[..k] == FirstToken(text).value.0.word
    ensures text[..k] == TRUE || text[..k] == FALSE || text[..k] == NULL
  {
    hide CloseQuote, NumberLength, Unescape;
    k := FirstToken(text).value.1;
    assert FirstToken(text).value.0.word == text[..k];
  }

  lemma WordCopied(text: Text)
    requires |text| > 0 && FirstToken(text).Some? && FirstToken(text).value.0.Word?
    ensures var k := FirstToken(text).value.1;
            Mirror(text) == text[..k] + Mirror(text[k..])
  {
    WordsAreLetters();
    var k := WordToken(text);
    hide *;
    LettersCopied(text[..k], text[k..]);
    assert text[..k] + text[k..] == text;
  }

  // The mirror works token by token.
  lemma MirrorFirstToken(text: Text)
    requires |text| > 0 && FirstToken(text).Some?
    ensures var (token, k) := FirstToken(text).value;
            Mirror(text) == (if token.Number? then Quote(text[..k]) else text[..k]) + Mirror(text[k..])
  {
    hide Mirror, FirstToken, Quote;
    var (token, k) := FirstToken(text).value;
    match token
    case Word(_) => WordCopied(text);
    case String(_) => StringCopied(text);
    case Number(_) => NumberQuote(text);
    case _ => MarkCopied(text);
  }

  lemma StringCopied(text: Text)
    requires |text| > 0 && FirstToken(text).Some? && FirstToken(text).value.0.String?
    ensures Mirror(text) == text[..FirstToken(text).value.1] + Mirror(text[FirstToken(text).value.1..])
  {
    hide Unescape, NumberLength, CloseQuote;
  }

  lemma NumberQuote(text: Text)
    requires |text| > 0 && FirstToken(text).Some? && FirstToken(text).value.0.Number?
    ensures Mirror(text) == Quote(text[..FirstToken(text).value.1]) + Mirror(text[FirstToken(text).value.1..])
  {
    assert FirstToken(text).value.1 == NumberLength(text) by { hide NumberLength, Unescape, CloseQuote, Mirror; }
    hide *;
    MirrorNumberHead(text);
  }

  // White space and punctuation.
  lemma MarkCopied(text: Text)
    requires |text| > 0 && FirstToken(text).Some?
             && (FirstToken(text).value.0.Space? || FirstToken(text).value.0.Punct?)
    ensures Mirror(text) == text[..FirstToken(text).value.1] + Mirror(text[FirstToken(text).value.1..])
  {
    MarkUnit(text);
    UnitCopied(text);
    hide *;
    assert text[..1] == [text[0]];
  }

  lemma MarkUnit(text: Text)
    requires |text| > 0 && FirstToken(text).Some?
             && (FirstToken(text).value.0.Space? || FirstToken(text).value.0.Punct?)
    ensures FirstToken(text).value.1 == 1 && text[0] != QUOTE && text[0] != MINUS && !IsDigit(text[0])
  {
    hide Unescape, CloseQuote, NumberLength;
  }

  // So a text and its mirror have the same tokens, apart from the numbers.
  lemma {:induction false} MirroredTokens(text: Text)
    requires Tokens(text).Some?
    ensures Tokens(Mirror(text)) == Some(MirrorTokens(Tokens(text).value))
    decreases |text|
  {
    if |text| > 0 {
      var (token, k) := FirstToken(text).value;
      MirrorFirstToken(text);
      MirroredTokens(text[k..]);
      var rest := Mirror(text[k..]);
      NumberIsPlain(text);
      var head := if token.Number? then Quote(text[..k]) else text[..k];
      if token.Number? { QuotedToken(text[..k], rest); } else { TokenLocal(text, rest); }
      assert (head + rest)[|head|..] == rest;
      assert Tokens(text).value[1..] == Tokens(text[k..]).value;
    }
  }

  lemma {:induction false} MirroredSignificant(tokens: seq<Token>)
    ensures Significant(MirrorTokens(tokens)) == MirrorTokens(Significant(tokens))
  {
    if |tokens| > 0 {
      MirroredSignificant(tokens[1..]);
      assert MirrorTokens(tokens)[1..] == MirrorTokens(tokens[1..]);
      if tokens[0].Space? {
        assert Significant(tokens) == Significant(tokens[1..]);
      } else {
        assert Significant(tokens)[1..] == Significant(tokens[1..]);
      }
    }
  }

  // ----- Values

  predicate PlainNumbers(tokens: seq<Token>) {
    |tokens| == 0 ||
    ((tokens[0].Number? ==> Unescape(tokens[0].lexeme) == Some(tokens[0].lexeme)) && PlainNumbers(tokens[1..]))
  }

  lemma {:induction false} TokensPlain(text: Text)
    requires Tokens(text).Some?
    ensures PlainNumbers(Tokens(text).value)
    decreases |text|
  {
    if |text| > 0 {
      var (token, k) := FirstToken(text).value;
      TokensPlain(text[k..]);
      NumberIsPlain(text);
      UnescapePlain(text[..NumberLength(text)]);
      assert Tokens(text).value[1..] == Tokens(text[k..]).value;
    }
  }

  lemma {:induction false} SignificantPlain(tokens: seq<Token>)
    requires PlainNumbers(tokens)
    ensures PlainNumbers(Significant(tokens))
  {
    if |tokens| > 0 {
      SignificantPlain(tokens[1..]);
      if tokens[0].Space? {
        assert Significant(tokens) == Significant(tokens[1..]);
      } else {
        assert Significant(tokens)[1..] == Significant(tokens[1..]);
      }
    }
  }

  lemma {:induction false} MirrorFrom(tokens: seq<Token>, k: nat)
    requires k <= |tokens| && PlainNumbers(tokens)
    ensures |MirrorTokens(tokens)| == |tokens| && PlainNumbers(tokens[k..])
    ensures MirrorTokens(tokens)[k..] == MirrorTokens(tokens[k..])
    ensures k < |tokens| ==> MirrorTokens(tokens)[k] == MirrorToken(tokens[k])
    decreases |tokens|
  {
    if |tokens| == 0 {
    } else if k == 0 {
      MirrorFrom(tokens[1..], 0);
      assert tokens[0..] == tokens && MirrorTokens(tokens)[0..] == MirrorTokens(tokens);
    } else {
      MirrorFrom(tokens[1..], k - 1);
      assert tokens[1..][k - 1..] == tokens[k..];
      assert MirrorTokens(tokens)[1..] == MirrorTokens(tokens[1..]);
      assert MirrorTokens(tokens)[1..][k - 1..] == MirrorTokens(tokens)[k..];
    }
  }

  lemma {:induction false} MirrorAssign(members: seq<Member>, name: Text, value: Value)
    ensures MirrorMembers(Assign(members, name, value)) == Assign(MirrorMembers(members), name, MirrorValue(value))
  {
    if |members| > 0 {
      MirrorAssign(members[1..], name, value);
      var updated := Assign(members, name, value);
      assert updated[1..] == if members[0].name == name then members[1..] else Assign(members[1..], name, value);
      assert MirrorMembers(members)[1..] == MirrorMembers(members[1..]);
    } else {
      assert [Member(name, value)][1..] == [];
    }
  }

  lemma MirrorPush(vs: seq<Value>, v: Value)
    ensures MirrorValues(vs + [v]) == MirrorValues(vs) + [MirrorValue(v)]
  {
    assert (vs + [v])[..|vs|] == vs;
  }

  // The mirror of a parsable token list parses to the mirror of its value.
  lemma {:induction false} MirroredParse(tokens: seq<Token>)
    requires PlainNumbers(tokens) && ParseValue(tokens).Some?
    ensures var (v, rest) := ParseValue(tokens).value;
            && PlainNumbers(rest)
            && ParseValue(MirrorTokens(tokens)) == Some((MirrorValue(v), MirrorTokens(rest)))
    decreases |tokens|, 0
  {
    hide Unescape, MirrorMembers, MirrorValues, MirrorTokens, PlainNumbers, ParseElements, ParseMembers;
    FirstPlain(tokens);
    MirrorFrom(tokens, 0);
    MirrorFrom(tokens, 1);
    var mirrored := MirrorTokens(tokens);
    NothingMirrored();
    match tokens[0] {
      case Punct(u) =>
        if |tokens| > 1 {
          MirrorFrom(tokens, 2);
          MirrorFrom(tokens[1..], 0);
        }
        if u == LBRACKET && !Starts(tokens[1..], RBRACKET) {
          MirroredElements(tokens[1..], []);
        } else if u == LBRACE && !Starts(tokens[1..], RBRACE) {
          MirroredMembers(tokens[1..], []);
        }
      case _ =>
    }
  }

  lemma NothingMirrored()
    ensures MirrorValues([]) == [] && MirrorMembers([]) == []
  {
  }

  lemma FirstPlain(tokens: seq<Token>)
    requires PlainNumbers(tokens)
    ensures |tokens| > 0 && tokens[0].Number? ==> Unescape(tokens[0].lexeme) == Some(tokens[0].lexeme)
  {
  }

  lemma {:induction false} MirroredElements(tokens: seq<Token>, read: seq<Value>)
    requires PlainNumbers(tokens) && ParseElements(tokens, read).Some?
    ensures var (vs, rest) := ParseElements(tokens, read).value;
            && PlainNumbers(rest)
            && ParseElements(MirrorTokens(tokens), MirrorValues(read)) == Some((MirrorValues(vs), MirrorTokens(rest)))
    decreases |tokens|, 1
  {
    hide ParseValue, MirrorValues, MirrorTokens, PlainNumbers;
    MirroredParse(tokens);
    var (v, rest) := ParseValue(tokens).value;
    MirrorFrom(rest, 0);
    MirrorPush(read, v);
    if |rest| > 0 {
      MirrorFrom(rest, 1);
      if Starts(rest, COMMA) { MirroredElements(rest[1..], read + [v]); }
    }
  }

  lemma {:induction false} MirroredMembers(tokens: seq<Token>, read: seq<Member>)
    requires PlainNumbers(tokens) && ParseMembers(tokens, read).Some?
    ensures var (ms, rest) := ParseMembers(tokens, read).value;
            && PlainNumbers(rest)
            && ParseMembers(MirrorTokens(tokens), MirrorMembers(read)) == Some((MirrorMembers(ms), MirrorTokens(rest)))
    decreases |tokens|, 1
  {
    hide ParseValue, MirrorMembers, MirrorTokens, PlainNumbers, Unescape, Assign;
    MirrorFrom(tokens, 0);
    MirrorFrom(tokens, 1);
    MirrorFrom(tokens, 2);
    MirroredParse(tokens[2..]);
    var name := Unescape(tokens[0].raw).value;
    var (v, rest) := ParseValue(tokens[2..]).value;
    MirrorFrom(rest, 0);
    MirrorAssign(read, name, v);
    if |rest| > 0 {
      MirrorFrom(rest, 1);
      if Starts(rest, COMMA) { MirroredMembers(rest[1..], Assign(read, name, v)); }
    }
  }

  // For every JSON text, the mirror is a JSON text, and its value is the value of the text with each number replaced by
  // the string of its own lexeme.
  lemma MirrorParses(text: Text)
    requires Parse(text).Some?
    ensures Parse(Mirror(text)) == Some(MirrorValue(Parse(text).value))
  {
    hide Tokens, Mirror, ParseValue, Significant, MirrorTokens, PlainNumbers;
    MirroredTokens(text);
    TokensPlain(text);
    var tokens := Tokens(text).value;
    MirroredSignificant(tokens);
    SignificantPlain(tokens);
    MirroredParse(Significant(tokens));
    NoTokens();
  }

  lemma NoTokens()
    ensures MirrorTokens([]) == []
  {
  }
}
