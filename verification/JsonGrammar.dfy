/**
 `JSON.parse` accepts exactly the grammar of RFC 8259, in the units of the text: each kind of value is written in its
 own way, with white space around it, and in no other.
 */
module JsonGrammar {
  import opened Utf16
  import opened Wrappers
  import opened Decimals
  import opened Json
  import opened ExactInteger
  import opened JsonNumbers
  import MirrorTheorem

  // ----- Where a token ends

  /** Nothing that could go on with a number. */
  predicate NoNumberUnit(u: Unit) {
    !IsDigit(u) && u != DOT && !IsE(u) && u != PLUS && u != MINUS
  }

  lemma {:induction false} DigitsEndMore(a: Text, b: Text, i: nat)
    requires i <= |a| && (|b| > 0 ==> !IsDigit(b[0]))
    ensures DigitsEnd(a + b, i) == DigitsEnd(a, i)
    decreases |a| - i
  {
    if i < |a| && IsDigit(a[i]) { DigitsEndMore(a, b, i + 1); }
  }

  lemma {:induction false} DigitsEndLess(a: Text, b: Text, i: nat)
    requires i <= |a| && DigitsEnd(a + b, i) <= |a|
    ensures DigitsEnd(a, i) == DigitsEnd(a + b, i)
    decreases |a| - i
  {
    if i < |a| && IsDigit(a[i]) { DigitsEndLess(a, b, i + 1); }
  }

  lemma ExpEndMore(a: Text, b: Text, i: nat)
    requires i <= |a| && (|b| > 0 ==> NoNumberUnit(b[0]))
    ensures ExpEnd(a + b, i) == ExpEnd(a, i)
  {
    if i < |a| && IsE(a[i]) {
      var s := SignEnd(a, i + 1);
      assert SignEnd(a + b, i + 1) == s;
      DigitsEndMore(a, b, s);
    }
  }

  lemma FracEndMore(a: Text, b: Text, i: nat)
    requires i <= |a| && (|b| > 0 ==> NoNumberUnit(b[0]))
    ensures FracEnd(a + b, i) == FracEnd(a, i)
  {
    if i + 1 <= |a| { DigitsEndMore(a, b, i + 1); }
  }

  lemma IntEndMore(a: Text, b: Text, i: nat)
    requires i < |a| && IsDigit(a[i]) && (|b| > 0 ==> NoNumberUnit(b[0]))
    ensures IntEnd(a + b, i) == IntEnd(a, i)
  {
    DigitsEndMore(a, b, i);
  }

  // A number does not grow by what cannot go on with it.
  lemma NumberMore(a: Text, b: Text)
    requires |a| > 0 && (|b| > 0 ==> NoNumberUnit(b[0]))
    ensures NumberLength(a + b) == NumberLength(a)
  {
    var start := if a[0] == MINUS then 1 else 0;
    assert (a + b)[0] == a[0];
    if start < |a| && IsDigit(a[start]) {
      IntEndMore(a, b, start);
      var i := IntEnd(a, start);
      FracEndMore(a, b, i);
      ExpEndMore(a, b, FracEnd(a, i));
    }
  }

  lemma ExpEndLess(a: Text, b: Text, i: nat)
    requires i <= |a| && ExpEnd(a + b, i) <= |a|
    ensures ExpEnd(a, i) == ExpEnd(a + b, i)
  {
    if i < |a| && IsE(a[i]) {
      var s := SignEnd(a + b, i + 1);
      if s < |a| && IsDigit(a[s]) { DigitsEndLess(a, b, s); }
    }
  }

  lemma FracEndLess(a: Text, b: Text, i: nat)
    requires i <= |a| && FracEnd(a + b, i) <= |a|
    ensures FracEnd(a, i) == FracEnd(a + b, i)
  {
    if i + 1 < |a| && a[i] == DOT && IsDigit(a[i + 1]) { DigitsEndLess(a, b, i + 1); }
  }

  // A number does not shrink by what comes after it.
  lemma NumberLess(a: Text, b: Text)
    requires |a| > 0 && NumberLength(a + b) <= |a|
    ensures NumberLength(a) == NumberLength(a + b)
  {
    var text := a + b;
    var start := if a[0] == MINUS then 1 else 0;
    assert text[0] == a[0];
    if start < |text| && IsDigit(text[start]) {
      var i := IntEnd(text, start);
      if text[start] != ZERO { DigitsEndLess(a, b, start); }
      assert IntEnd(a, start) == i;
      FracEndLess(a, b, i);
      ExpEndLess(a, b, FracEnd(text, i));
    }
  }

  // The first token of a text is that of any longer text, unless it is a number that goes on.
  lemma FirstTokenMore(a: Text, b: Text)
    requires |a| > 0 && FirstToken(a).Some? && (|b| > 0 ==> NoNumberUnit(b[0]))
    ensures FirstToken(a + b) == FirstToken(a)
  {
    var (token, k) := FirstToken(a).value;
    if token.Number? {
      NumberMore(a, b);
      NumberHead(a);
      NumberToken(a);
      NumberToken(a + b);
      hide *;
      assert (a + b)[..k] == a[..k];
    } else {
      MirrorTheorem.TokenLocal(a, a[k..] + b);
      assert a[..k] + (a[k..] + b) == a + b;
    }
  }

  // A number starts with a digit or a minus sign, and every token that does is one.
  lemma NumberHead(a: Text)
    requires |a| > 0 && FirstToken(a).Some? && FirstToken(a).value.0.Number?
    ensures IsDigit(a[0]) || a[0] == MINUS
  {
  }

  lemma NumberToken(a: Text)
    requires |a| > 0 && (IsDigit(a[0]) || a[0] == MINUS)
    ensures FirstToken(a) ==
            if NumberLength(a) > 0 then Some((Number(a[..NumberLength(a)]), NumberLength(a))) else None
  {
    hide NumberLength;
    WordHead(a);
  }

  lemma WordHead(a: Text)
    requires |a| > 0
    ensures TRUE <= a ==> a[0] == 0x74
    ensures FALSE <= a ==> a[0] == 0x66
    ensures NULL <= a ==> a[0] == 0x6E
  {
  }

  // Nor is the first token changed by cutting off what comes after it.
  lemma FirstTokenLess(a: Text, b: Text)
    requires |a + b| > 0 && FirstToken(a + b).Some? && FirstToken(a + b).value.1 <= |a|
    ensures |a| > 0 && FirstToken(a) == FirstToken(a + b)
  {
    var (token, k) := FirstToken(a + b).value;
    assert (a + b)[0] == a[0];
    if token.Number? {
      NumberHead(a + b);
      NumberToken(a);
      NumberToken(a + b);
      NumberLess(a, b);
      hide *;
      assert (a + b)[..k] == a[..k];
    } else {
      MirrorTheorem.TokenLocal(a + b, a[k..]);
      assert (a + b)[..k] + a[k..] == a;
    }
  }

  // Texts side by side have their tokens side by side, if no number runs on.
  lemma {:induction false} TokensJoin(a: Text, b: Text)
    requires Tokens(a).Some? && Tokens(b).Some? && (|b| > 0 ==> NoNumberUnit(b[0]))
    ensures Tokens(a + b) == Some(Tokens(a).value + Tokens(b).value)
    decreases |a|
  {
    hide FirstToken, NoNumberUnit;
    if |a| == 0 {
      assert a + b == b;
      assert [] + Tokens(b).value == Tokens(b).value;
    } else {
      FirstTokenMore(a, b);
      var (token, k) := FirstToken(a).value;
      TokensJoin(a[k..], b);
      assert (a + b)[k..] == a[k..] + b;
      assert [token] + Tokens(a[k..]).value + Tokens(b).value == [token] + (Tokens(a[k..]).value + Tokens(b).value);
    }
  }

  // A text can be cut between any two of its tokens.
  lemma {:induction false} TokensCut(text: Text, n: nat) returns (m: nat)
    requires Tokens(text).Some? && n <= |Tokens(text).value|
    ensures m <= |text|
    ensures Tokens(text[..m]) == Some(Tokens(text).value[..n]) && Tokens(text[m..]) == Some(Tokens(text).value[n..])
    decreases n
  {
    hide FirstToken;
    if n == 0 {
      m := 0;
      assert text[..0] == [] && text[0..] == text;
      assert Tokens(text).value[..0] == [] && Tokens(text).value[0..] == Tokens(text).value;
    } else {
      var (token, k) := FirstToken(text).value;
      var j := TokensCut(text[k..], n - 1);
      m := k + j;
      assert text[..m] + text[m..] == text;
      FirstTokenLess(text[..m], text[m..]);
      assert text[..m][k..] == text[k..][..j] && text[m..] == text[k..][j..];
      var rest := Tokens(text[k..]).value;
      assert Tokens(text).value == [token] + rest;
      assert ([token] + rest)[..n] == [token] + rest[..n - 1] && ([token] + rest)[n..] == rest[n - 1..];
    }
  }

  // ----- What the tokens are in the text

  function Spell(token: Token): Text {
    match token
    case Space(u) => [u]
    case Punct(u) => [u]
    case Word(word) => word
    case Number(lexeme) => lexeme
    case String(raw) => [QUOTE] + raw + [QUOTE]
  }

  lemma TokenText(text: Text)
    requires |text| > 0 && FirstToken(text).Some?
    ensures text[..FirstToken(text).value.1] == Spell(FirstToken(text).value.0)
  {
    hide NumberLength, Unescape;
  }

  lemma NoToken(text: Text)
    requires Tokens(text) == Some([])
    ensures text == []
  {
  }

  lemma SingleToken(text: Text, token: Token)
    requires Tokens(text) == Some([token])
    ensures text == Spell(token)
  {
    hide FirstToken;
    var (first, k) := FirstToken(text).value;
    assert [token] == [first] + Tokens(text[k..]).value;
    assert |Tokens(text[k..]).value| == 0;
    TokenText(text);
    NoToken(text[k..]);
    assert [token][0] == first && text == text[..k] + text[k..];
  }

  /** The tokens of a text but for white space. */
  function Sig(text: Text): Option<seq<Token>> {
    match Tokens(text)
    case None => None
    case Some(tokens) => Some(Significant(tokens))
  }

  lemma ParseIs(text: Text, v: Value)
    ensures Parse(text) == Some(v) <==> Sig(text).Some? && ParseValue(Sig(text).value) == Some((v, []))
  {
    hide ParseValue, Tokens, Significant;
  }

  lemma {:induction false} SignificantConcat(a: seq<Token>, b: seq<Token>)
    ensures Significant(a + b) == Significant(a) + Significant(b)
  {
    if |a| == 0 {
      assert a + b == b;
    } else {
      assert (a + b)[1..] == a[1..] + b;
      SignificantConcat(a[1..], b);
    }
  }

  lemma SigJoin(a: Text, b: Text)
    requires Sig(a).Some? && Sig(b).Some? && (|b| > 0 ==> NoNumberUnit(b[0]))
    ensures Sig(a + b) == Some(Sig(a).value + Sig(b).value)
  {
    TokensJoin(a, b);
    SignificantConcat(Tokens(a).value, Tokens(b).value);
    hide Tokens, Significant, NoNumberUnit;
  }

  // One token, and what stands before and after it.
  lemma {:induction false} Find(tokens: seq<Token>, x: seq<Token>, token: Token, y: seq<Token>) returns (n: nat)
    requires Significant(tokens) == x + [token] + y
    ensures n < |tokens| && tokens[n] == token
    ensures Significant(tokens[..n]) == x && Significant(tokens[n + 1..]) == y
  {
    assert |Significant(tokens)| > 0;
    SignificantHead(tokens);
    Peel(x, token, y);
    hide Significant;
    if !tokens[0].Space? && x == [] {
      n := 0;
      NothingSignificant();
      assert tokens[..0] == [];
    } else {
      var before := if tokens[0].Space? then x else x[1..];
      var m := Find(tokens[1..], before, token, y);
      n := m + 1;
      SignificantHead(tokens[..n]);
      assert tokens[..n][1..] == tokens[1..][..m] && tokens[1..][m + 1..] == tokens[n + 1..];
    }
  }

  lemma NothingSignificant()
    ensures Significant([]) == []
  {
  }

  lemma SignificantHead(tokens: seq<Token>)
    requires |tokens| > 0
    ensures tokens[0].Space? ==> Significant(tokens) == Significant(tokens[1..])
    ensures !tokens[0].Space? ==>
              && |Significant(tokens)| > 0 && Significant(tokens)[0] == tokens[0]
              && Significant(tokens)[1..] == Significant(tokens[1..])
              && Significant(tokens) == [tokens[0]] + Significant(tokens[1..])
  {
  }

  lemma Peel(x: seq<Token>, token: Token, y: seq<Token>)
    ensures x == [] ==> (x + [token] + y)[0] == token && (x + [token] + y)[1..] == y
    ensures x != [] ==>
              (x + [token] + y)[0] == x[0] && (x + [token] + y)[1..] == x[1..] + [token] + y && x == [x[0]] + x[1..]
  {
  }

  lemma SplitAt(text: Text, x: seq<Token>, token: Token, y: seq<Token>) returns (a: Text, b: Text)
    requires Sig(text) == Some(x + [token] + y)
    ensures text == a + Spell(token) + b && Sig(a) == Some(x) && Sig(b) == Some(y)
  {
    hide Tokens, Significant, Spell;
    var tokens := Tokens(text).value;
    var n := Find(tokens, x, token, y);
    var m := TokensCut(text, n);
    var k := TokensCut(text[m..], 1);
    assert tokens[n..][..1] == [token] && tokens[n..][1..] == tokens[n + 1..];
    SingleToken(text[m..][..k], token);
    a, b := text[..m], text[m..][k..];
    assert text == text[..m] + (text[m..][..k] + text[m..][k..]);
  }

  // ----- White space

  /** Spaces, tabs, line feeds and carriage returns. */
  predicate Blank(s: Text) {
    forall i :: 0 <= i < |s| ==> s[i] == 0x20 || s[i] == 0x09 || s[i] == 0x0A || s[i] == 0x0D
  }

  lemma {:induction false} BlankExactly(s: Text)
    ensures Blank(s) <==> Sig(s) == Some([])
    decreases |s|
  {
    if |s| > 0 {
      if IsSpace(s[0]) {
        BlankExactly(s[1..]);
        assert Blank(s) <==> Blank(s[1..]);
        if Tokens(s[1..]).Some? { assert Significant(Tokens(s).value) == Significant(Tokens(s[1..]).value) by {
          assert ([Space(s[0])] + Tokens(s[1..]).value)[1..] == Tokens(s[1..]).value; } }
      } else {
        NoSpaceToken(s);
      }
    }
  }

  lemma NoSpaceToken(s: Text)
    requires |s| > 0 && !IsSpace(s[0])
    ensures !Blank(s) && Sig(s) != Some([])
  {
    hide NumberLength, Unescape;
    assert FirstToken(s).Some? ==> !FirstToken(s).value.0.Space?;
  }

  lemma BlankHead(s: Text)
    requires Blank(s)
    ensures |s| > 0 ==> NoNumberUnit(s[0])
  {
  }

  // White space before and after a text does not matter.
  lemma BlankAround(before: Text, text: Text, after: Text)
    requires Blank(before) && Blank(after) && Sig(text).Some?
    ensures Sig(before + text + after) == Sig(text)
  {
    BlankExactly(before);
    BlankExactly(after);
    BlankHead(after);
    SigAfterBlank(before, text);
    SigJoin(before + text, after);
    hide Sig;
    assert Sig(text).value + [] == Sig(text).value;
  }

  // White space ends no number, so that anything may follow it.
  lemma {:induction false} SigAfterBlank(before: Text, text: Text)
    requires Blank(before)
    ensures Sig(before + text) == Sig(text)
    decreases |before|
  {
    if before == [] {
      assert before + text == text;
    } else {
      assert (before + text)[1..] == before[1..] + text;
      SigAfterBlank(before[1..], text);
      hide FirstToken, Significant;
      SpaceFirst(before + text);
    }
  }

  lemma SpaceFirst(text: Text)
    requires |text| > 0 && IsSpace(text[0])
    ensures Sig(text) == Sig(text[1..])
  {
    if Tokens(text[1..]).Some? {
      assert ([Space(text[0])] + Tokens(text[1..]).value)[1..] == Tokens(text[1..]).value;
      assert [] + Significant(Tokens(text[1..]).value) == Significant(Tokens(text[1..]).value);
    }
  }

  lemma PunctFirst(u: Unit, text: Text)
    requires IsPunct(u) && Sig(text).Some?
    ensures Sig([u] + text) == Some([Punct(u)] + Sig(text).value)
  {
    assert ([u] + text)[1..] == text;
    assert ([Punct(u)] + Tokens(text).value)[1..] == Tokens(text).value;
  }

  // ----- Values do not depend on what follows them

  /** `rest` ends the tokens. */
  ghost predicate EndsWith(tokens: seq<Token>, rest: seq<Token>) {
    |rest| <= |tokens| && tokens == tokens[..|tokens| - |rest|] + rest
  }

  function Own(tokens: seq<Token>, rest: seq<Token>): seq<Token>
    requires |rest| <= |tokens|
  {
    tokens[..|tokens| - |rest|]
  }

  lemma {:induction false} ValueRest(tokens: seq<Token>, other: seq<Token>)
    requires ParseValue(tokens).Some?
    ensures var (v, rest) := ParseValue(tokens).value;
            EndsWith(tokens, rest) && ParseValue(Own(tokens, rest) + other) == Some((v, other))
    decreases |tokens|, 0
  {
    hide ParseElements, ParseMembers, Unescape;
    var (v, rest) := ParseValue(tokens).value;
    match tokens[0]
    case Punct(u) =>
      if u == LBRACKET && !Starts(tokens[1..], RBRACKET) {
        ElementsRest(tokens[1..], [], other);
        OneBefore(tokens, rest, other);
        ArrayOpens(Own(tokens, rest) + other);
      } else if u == LBRACE && !Starts(tokens[1..], RBRACE) {
        MembersRest(tokens[1..], [], other);
        OneBefore(tokens, rest, other);
        ObjectOpens(Own(tokens, rest) + other);
      } else {
        TwoTokens(tokens, other);
      }
    case Word(_) => OneToken(tokens, other);
    case Number(_) => OneToken(tokens, other);
    case String(_) => OneToken(tokens, other);
  }

  lemma OneToken(tokens: seq<Token>, other: seq<Token>)
    requires |tokens| > 0
    ensures var rest := tokens[1..];
            && EndsWith(tokens, rest) && Own(tokens, rest) == [tokens[0]] && (Own(tokens, rest) + other)[1..] == other
  {
  }

  lemma OneBefore(tokens: seq<Token>, rest: seq<Token>, other: seq<Token>)
    requires |tokens| > 0 && EndsWith(tokens[1..], rest) && |rest| < |tokens[1..]|
    ensures EndsWith(tokens, rest)
    ensures var whole := Own(tokens, rest) + other;
            && whole[0] == tokens[0] && whole[1..] == Own(tokens[1..], rest) + other && whole[1] == tokens[1]
  {
  }

  lemma ArrayOpens(tokens: seq<Token>)
    requires |tokens| > 0 && tokens[0] == Punct(LBRACKET) && !Starts(tokens[1..], RBRACKET)
    requires ParseElements(tokens[1..], []).Some?
    ensures var (elements, rest) := ParseElements(tokens[1..], []).value;
            ParseValue(tokens) == Some((Arr(elements), rest))
  {
    hide ParseElements, ParseMembers;
  }

  lemma ObjectOpens(tokens: seq<Token>)
    requires |tokens| > 0 && tokens[0] == Punct(LBRACE) && !Starts(tokens[1..], RBRACE)
    requires ParseMembers(tokens[1..], []).Some?
    ensures var (members, rest) := ParseMembers(tokens[1..], []).value;
            ParseValue(tokens) == Some((Obj(members), rest))
  {
    hide ParseElements, ParseMembers;
  }

  lemma TwoTokens(tokens: seq<Token>, other: seq<Token>)
    requires |tokens| >= 2
    ensures var rest := tokens[2..];
            && EndsWith(tokens, rest) && Own(tokens, rest) == [tokens[0], tokens[1]]
            && (Own(tokens, rest) + other)[1..] == [tokens[1]] + other && (Own(tokens, rest) + other)[2..] == other
  {
  }

  lemma {:induction false} ElementsRest(tokens: seq<Token>, read: seq<Value>, other: seq<Token>)
    requires ParseElements(tokens, read).Some?
    ensures var (vs, rest) := ParseElements(tokens, read).value;
            EndsWith(tokens, rest) && ParseElements(Own(tokens, rest) + other, read) == Some((vs, other))
    decreases |tokens|, 1
  {
    hide ParseValue;
    var (v, after) := ParseValue(tokens).value;
    var (vs, rest) := ParseElements(tokens, read).value;
    var others := if Starts(after, COMMA) then Own(after[1..], rest) + other else other;
    if Starts(after, COMMA) { ElementsRest(after[1..], read + [v], other); }
    ValueRest(tokens, [after[0]] + others);
    assert ([after[0]] + others)[1..] == others;
    if Starts(after, COMMA) {
      Composed(tokens, after, rest, other);
    } else {
      Composed(tokens, after, after[1..], other);
      assert Own(after[1..], after[1..]) + other == other;
    }
  }

  lemma Composed(tokens: seq<Token>, after: seq<Token>, rest: seq<Token>, other: seq<Token>)
    requires EndsWith(tokens, after) && |after| > 0 && EndsWith(after[1..], rest)
    ensures EndsWith(tokens, rest)
    ensures Own(tokens, rest) + other == Own(tokens, after) + ([after[0]] + (Own(after[1..], rest) + other))
  {
  }

  /** The first member at the head of the tokens: its name, its value and what follows it. */
  ghost predicate FirstMember(tokens: seq<Token>, name: Text, v: Value, after: seq<Token>) {
    && |tokens| >= 2 && tokens[0].String? && tokens[1] == Punct(COLON) && Unescape(tokens[0].raw) == Some(name)
    && ParseValue(tokens[2..]) == Some((v, after))
  }

  lemma MembersStep(tokens: seq<Token>, read: seq<Member>, name: Text, v: Value, after: seq<Token>)
    requires FirstMember(tokens, name, v, after)
    ensures Starts(after, COMMA) ==> ParseMembers(tokens, read) == ParseMembers(after[1..], Assign(read, name, v))
    ensures Starts(after, RBRACE) ==> ParseMembers(tokens, read) == Some((Assign(read, name, v), after[1..]))
    ensures !Starts(after, COMMA) && !Starts(after, RBRACE) ==> ParseMembers(tokens, read).None?
  {
    hide ParseValue, Unescape, Assign;
  }

  lemma MembersHead(tokens: seq<Token>, read: seq<Member>) returns (name: Text, v: Value, after: seq<Token>)
    requires ParseMembers(tokens, read).Some?
    ensures FirstMember(tokens, name, v, after) && (Starts(after, COMMA) || Starts(after, RBRACE))
    ensures |after| < |tokens|
  {
    hide ParseValue, Unescape, Assign;
    name := Unescape(tokens[0].raw).value;
    v, after := ParseValue(tokens[2..]).value.0, ParseValue(tokens[2..]).value.1;
  }

  lemma {:induction false} MembersRest(tokens: seq<Token>, read: seq<Member>, other: seq<Token>)
    requires ParseMembers(tokens, read).Some?
    ensures var (ms, rest) := ParseMembers(tokens, read).value;
            EndsWith(tokens, rest) && ParseMembers(Own(tokens, rest) + other, read) == Some((ms, other))
    decreases |tokens|, 1
  {
    var name, v, after := MembersHead(tokens, read);
    var (ms, rest) := ParseMembers(tokens, read).value;
    MembersStep(tokens, read, name, v, after);
    hide ParseValue, ParseMembers, Unescape, Assign;
    var others := other;
    if Starts(after, COMMA) {
      MembersRest(after[1..], Assign(read, name, v), other);
      others := Own(after[1..], rest) + other;
    } else {
      Closing(after, other);
    }
    ValueRest(tokens[2..], [after[0]] + others);
    if Starts(after, COMMA) {
      Composed(tokens[2..], after, rest, other);
    } else {
      Composed(tokens[2..], after, after[1..], other);
    }
    TwoBefore(tokens, rest, other);
    assert ([after[0]] + others)[1..] == others;
    MembersStep(Own(tokens, rest) + other, read, name, v, [after[0]] + others);
  }

  lemma Closing(after: seq<Token>, other: seq<Token>)
    requires |after| > 0
    ensures EndsWith(after[1..], after[1..]) && Own(after[1..], after[1..]) + other == other
  {
  }

  lemma TwoBefore(tokens: seq<Token>, rest: seq<Token>, other: seq<Token>)
    requires |tokens| >= 2 && EndsWith(tokens[2..], rest)
    ensures EndsWith(tokens, rest)
    ensures var whole := Own(tokens, rest) + other;
            && |whole| >= 2 && whole[0] == tokens[0] && whole[1] == tokens[1]
            && whole[2..] == Own(tokens[2..], rest) + other
  {
  }

  // ----- One value in the text

  // A text is a value followed by nothing; so it is the same value before anything that no value can start with.
  lemma ValueBefore(tokens: seq<Token>, v: Value, other: seq<Token>)
    requires ParseValue(tokens) == Some((v, []))
    ensures ParseValue(tokens + other) == Some((v, other))
  {
    ValueRest(tokens, other);
    hide ParseValue;
    assert Own(tokens, []) == tokens;
  }

  /** `text` is one token with white space around it. */
  ghost predicate Around(text: Text, body: Text, before: Text, after: Text) {
    Blank(before) && Blank(after) && text == before + body + after
  }

  lemma OneSig(text: Text, token: Token) returns (before: Text, after: Text)
    requires Sig(text) == Some([token])
    ensures Around(text, Spell(token), before, after)
  {
    assert [] + [token] + [] == [token];
    before, after := SplitAt(text, [], token, []);
    BlankExactly(before);
    BlankExactly(after);
    hide Sig;
  }

  lemma TokenAround(text: Text, token: Token, before: Text, after: Text)
    requires Around(text, Spell(token), before, after) && Sig(Spell(token)) == Some([token])
    ensures Sig(text) == Some([token])
  {
    BlankAround(before, Spell(token), after);
  }

  lemma OwnToken(text: Text, token: Token)
    requires |text| > 0 && FirstToken(text) == Some((token, |text|)) && !token.Space?
    ensures Sig(text) == Some([token])
  {
    hide FirstToken;
    assert text[|text|..] == [] && Tokens([]) == Some([]);
    assert Tokens(text) == Some([token] + []);
    assert [token] + [] == [token];
    assert [token][1..] == [] && Significant([]) == [];
    assert Significant([token]) == [token] + [];
  }

  // ----- Words

  lemma WordParses(word: Text)
    requires word == TRUE || word == FALSE || word == NULL
    ensures Sig(word) == Some([Word(word)])
  {
    hide NumberLength, Unescape, CloseQuote;
    assert FirstToken(word) == Some((Word(word), |word|));
    OwnToken(word, Word(word));
  }

  lemma WordsDiffer()
    ensures TRUE != FALSE && TRUE != NULL && FALSE != NULL
  {
    assert TRUE[0] == 0x74 && FALSE[0] == 0x66 && NULL[0] == 0x6E;
  }

  lemma WordExactly(text: Text, word: Text, v: Value)
    requires (word == TRUE && v == Bool(true)) || (word == FALSE && v == Bool(false)) || (word == NULL && v == Null)
    ensures Parse(text) == Some(v) <==> exists before, after :: Around(text, word, before, after)
  {
    ParseIs(text, v);
    WordParses(word);
    forall before, after | Around(text, word, before, after) ensures Parse(text) == Some(v) {
      TokenAround(text, Word(word), before, after);
      assert [Word(word)][1..] == [];
    }
    if Parse(text) == Some(v) {
      Alone(Sig(text).value, v);
      WordsDiffer();
      var before, after := OneSig(text, Word(word));
      assert Around(text, word, before, after);
    }
  }

  // What the first token of a value says about it.
  lemma ValueHead(tokens: seq<Token>)
    requires ParseValue(tokens).Some?
    ensures |tokens| > 0 && !tokens[0].Space?
    ensures var (v, rest) := ParseValue(tokens).value;
            match tokens[0]
            case Word(w) =>
              && rest == tokens[1..]
              && ((w == TRUE && v == Bool(true)) || (w == FALSE && v == Bool(false)) || (w == NULL && v == Null))
            case Number(lexeme) => v == Num(lexeme) && rest == tokens[1..]
            case String(raw) => Unescape(raw).Some? && v == Str(Unescape(raw).value) && rest == tokens[1..]
            case _ => v.Arr? || v.Obj?
  {
    hide ParseElements, ParseMembers, Unescape;
  }

  lemma Alone(tokens: seq<Token>, v: Value)
    requires ParseValue(tokens) == Some((v, [])) && !v.Arr? && !v.Obj?
    ensures |tokens| == 1
    ensures match v
            case Null => tokens == [Word(NULL)]
            case Bool(b) => tokens == [Word(if b then TRUE else FALSE)]
            case Num(lexeme) => tokens == [Number(lexeme)]
            case Str(s) => tokens[0].String? && Unescape(tokens[0].raw) == Some(s)
            case _ => false
  {
    ValueHead(tokens);
    OnlyOne(tokens);
    IsLeaf(tokens[0], v);
    hide *;
  }

  lemma IsLeaf(token: Token, v: Value)
    requires match token
             case Word(w) =>
               (w == TRUE && v == Bool(true)) || (w == FALSE && v == Bool(false)) || (w == NULL && v == Null)
             case Number(lexeme) => v == Num(lexeme)
             case String(raw) => Unescape(raw).Some? && v == Str(Unescape(raw).value)
             case _ => v.Arr? || v.Obj?
    ensures match v
            case Null => token == Word(NULL)
            case Bool(b) => token == Word(if b then TRUE else FALSE)
            case Num(lexeme) => token == Number(lexeme)
            case Str(s) => token.String? && Unescape(token.raw) == Some(s)
            case _ => true
  {
    hide Unescape;
  }

  lemma OnlyOne(tokens: seq<Token>)
    ensures |tokens| > 0 && tokens[1..] == [] ==> tokens == [tokens[0]]
  {
  }

  // `null`, `true` and `false` are written as such.
  lemma WordsExactly(text: Text)
    ensures Parse(text) == Some(Null) <==> exists before, after :: Around(text, [0x6E, 0x75, 0x6C, 0x6C], before, after)
    ensures Parse(text) == Some(Bool(true)) <==>
            exists before, after :: Around(text, [0x74, 0x72, 0x75, 0x65], before, after)
    ensures Parse(text) == Some(Bool(false)) <==>
            exists before, after :: Around(text, [0x66, 0x61, 0x6C, 0x73, 0x65], before, after)
  {
    WordExactly(text, NULL, Null);
    WordExactly(text, TRUE, Bool(true));
    WordExactly(text, FALSE, Bool(false));
    hide Parse, Around;
  }

  // ----- Strings

  lemma StringParses(raw: Text)
    requires Unescape(raw).Some?
    ensures Sig([QUOTE] + raw + [QUOTE]) == Some([String(raw)])
  {
    var text := [QUOTE] + raw + [QUOTE];
    assert text[1..1 + |raw|] == raw;
    CloseContents(text, 1, raw);
    hide Unescape, CloseQuote;
    assert FirstToken(text) == Some((String(raw), |text|));
    OwnToken(text, String(raw));
  }

  // String contents hold no quote that closes them.
  lemma {:induction false} CloseContents(text: Text, i: nat, raw: Text)
    requires Unescape(raw).Some? && i + |raw| < |text| && text[i..i + |raw|] == raw && text[i + |raw|] == QUOTE
    ensures CloseQuote(text, i) == i + |raw|
    decreases |raw|
  {
    if |raw| > 0 {
      UnescapeRest(raw);
      CharCloses(text, i, raw);
      var k := FirstChar(raw).value.1;
      hide *;
      SliceTail(text, i, raw, k);
      CloseContents(text, i + k, raw[k..]);
    } else {
      hide Unescape;
      assert text[i] == QUOTE;
    }
  }

  lemma SliceTail(text: Text, i: nat, s: Text, k: nat)
    requires i + |s| <= |text| && text[i..i + |s|] == s && k <= |s|
    ensures text[i + k..i + |s|] == s[k..]
  {
  }

  lemma UnescapeRest(raw: Text)
    requires |raw| > 0 && Unescape(raw).Some?
    ensures FirstChar(raw).Some? && Unescape(raw[FirstChar(raw).value.1..]).Some?
  {
    hide FirstChar;
  }

  lemma CharCloses(text: Text, i: nat, raw: Text)
    requires |raw| > 0 && FirstChar(raw).Some? && i + |raw| <= |text| && text[i..i + |raw|] == raw
    ensures CloseQuote(text, i) == CloseQuote(text, i + FirstChar(raw).value.1)
  {
    var k := FirstChar(raw).value.1;
    assert forall j :: 0 <= j < |raw| ==> text[i + j] == text[i..i + |raw|][j] == raw[j];
    if k == 6 {
      HexDigits(raw);
      assert CloseQuote(text, i) == CloseQuote(text, i + 2) == CloseQuote(text, i + 3) == CloseQuote(text, i + 4);
      assert CloseQuote(text, i + 4) == CloseQuote(text, i + 5) == CloseQuote(text, i + 6);
    }
  }

  lemma HexDigits(raw: Text)
    requires |raw| > 0 && FirstChar(raw).Some? && FirstChar(raw).value.1 == 6
    ensures |raw| >= 6 && raw[0] == BACKSLASH && raw[1] == 0x75
    ensures forall j :: 2 <= j < 6 ==> raw[j] != QUOTE && raw[j] != BACKSLASH
  {
    assert forall j :: 2 <= j < 6 ==> HexValue(raw[j]).Some?;
  }

  // A string is written as its contents between two quotes.
  lemma StringsExactly(text: Text, s: Text)
    ensures Parse(text) == Some(Str(s)) <==>
            exists before, raw, after :: Around(text, [0x22] + raw + [0x22], before, after) && Unescape(raw) == Some(s)
  {
    ParseIs(text, Str(s));
    hide Parse, Unescape;
    forall before, raw, after | Around(text, [0x22] + raw + [0x22], before, after) && Unescape(raw) == Some(s)
      ensures Parse(text) == Some(Str(s))
    {
      StringParses(raw);
      TokenAround(text, String(raw), before, after);
      assert [String(raw)][1..] == [];
    }
    if Parse(text) == Some(Str(s)) {
      Alone(Sig(text).value, Str(s));
      var raw := Sig(text).value[0].raw;
      assert Sig(text).value == [String(raw)];
      var before, after := OneSig(text, String(raw));
      assert Around(text, [0x22] + raw + [0x22], before, after);
    }
  }

  // ----- Numbers

  lemma NumberParses(lexeme: Text)
    requires |lexeme| > 0 && NumberLength(lexeme) == |lexeme|
    ensures Sig(lexeme) == Some([Number(lexeme)])
  {
    assert IsDigit(lexeme[0]) || lexeme[0] == MINUS;
    NumberToken(lexeme);
    hide NumberLength, FirstToken;
    assert lexeme[..|lexeme|] == lexeme;
    OwnToken(lexeme, Number(lexeme));
  }

  lemma NumberTokenLength(text: Text, lexeme: Text)
    requires Tokens(text) == Some([Number(lexeme)])
    ensures text == lexeme && NumberLength(lexeme) == |lexeme| > 0
  {
    SingleToken(text, Number(lexeme));
    FirstOfOne(text, Number(lexeme));
    NumberHead(text);
    NumberToken(text);
    hide NumberLength, FirstToken;
  }

  lemma FirstOfOne(text: Text, token: Token)
    requires Tokens(text) == Some([token])
    ensures |text| > 0 && FirstToken(text).Some? && FirstToken(text).value.0 == token
  {
    hide FirstToken;
    var (first, k) := FirstToken(text).value;
    assert ([first] + Tokens(text[k..]).value)[0] == first;
  }

  // The numbers of the grammar in units: an optional minus sign, digits without a superfluous zero, an optional
  // fraction and an optional exponent.
  lemma LexemesInUnits(l: Lexeme)
    ensures Valid(l) <==>
            && |l.whole| > 0 && (l.whole[0] == 0x30 ==> |l.whole| == 1)
            && (forall i :: 0 <= i < |l.whole| ==> 0x30 <= l.whole[i] <= 0x39)
            && (l.fraction.Some? ==>
                  && |l.fraction.value| > 0
                  && forall i :: 0 <= i < |l.fraction.value| ==> 0x30 <= l.fraction.value[i] <= 0x39)
            && (l.exponent.Some? ==>
                  var e := l.exponent.value;
                  && (e.letter == 0x65 || e.letter == 0x45) && |e.digits| > 0
                  && (e.sign.Some? ==> e.sign.value == 0x2B || e.sign.value == 0x2D)
                  && forall i :: 0 <= i < |e.digits| ==> 0x30 <= e.digits[i] <= 0x39)
    ensures Render(l) ==
            (if l.negative then [0x2D] else []) +
            (l.whole +
             ((if l.fraction.Some? then [0x2E] + l.fraction.value else []) +
              match l.exponent
              case None => []
              case Some(e) => [e.letter] + (if e.sign.Some? then [e.sign.value] else []) + e.digits))
  {
    DigitUnits(l.whole);
    if l.fraction.Some? { DigitUnits(l.fraction.value); }
    if l.exponent.Some? { DigitUnits(l.exponent.value.digits); }
    hide AllDigits;
  }

  lemma DigitUnits(s: Text)
    ensures AllDigits(s) <==> forall i :: 0 <= i < |s| ==> 0x30 <= s[i] <= 0x39
  {
    if AllDigits(s) {
      forall i | 0 <= i < |s| ensures 0x30 <= s[i] <= 0x39 { DigitAt(s, i); }
    } else if forall i :: 0 <= i < |s| ==> 0x30 <= s[i] <= 0x39 {
      DigitsEverywhere(s);
    }
  }

  lemma WholeLexeme(s: Text)
    ensures |s| > 0 && NumberLength(s) == |s| <==> IsLexeme(s)
  {
    if |s| > 0 && NumberLength(s) == |s| {
      NumberIsLexeme(s);
      assert s[..|s|] == s;
    }
    forall l | Valid(l) && Render(l) == s ensures |s| > 0 && NumberLength(s) == |s| {
      LexemeLength(l, []);
      SignIsFirst(l, []);
      assert s + [] == s;
    }
  }

  // A number is written as a lexeme of the grammar.
  lemma NumbersExactly(text: Text, lexeme: Text)
    ensures Parse(text) == Some(Num(lexeme)) <==>
            IsLexeme(lexeme) && exists before, after :: Around(text, lexeme, before, after)
  {
    ParseIs(text, Num(lexeme));
    WholeLexeme(lexeme);
    hide Parse, NumberLength, IsLexeme;
    forall before, after | IsLexeme(lexeme) && Around(text, lexeme, before, after)
      ensures Parse(text) == Some(Num(lexeme))
    {
      NumberParses(lexeme);
      TokenAround(text, Number(lexeme), before, after);
      assert [Number(lexeme)][1..] == [];
    }
    if Parse(text) == Some(Num(lexeme)) {
      Alone(Sig(text).value, Num(lexeme));
      NumberSig(text, lexeme);
      var before, after := OneSig(text, Number(lexeme));
      assert Around(text, lexeme, before, after);
    }
  }

  // A number token is a whole lexeme.
  lemma NumberSig(text: Text, lexeme: Text)
    requires Sig(text) == Some([Number(lexeme)])
    ensures |lexeme| > 0 && NumberLength(lexeme) == |lexeme|
  {
    assert [] + [Number(lexeme)] + [] == [Number(lexeme)];
    var tokens := Tokens(text).value;
    var n := Find(tokens, [], Number(lexeme), []);
    var m := TokensCut(text, n);
    var k := TokensCut(text[m..], 1);
    assert tokens[n..][..1] == [Number(lexeme)];
    NumberTokenLength(text[m..][..k], lexeme);
  }

  // ----- Arrays

  /** `join(",")`. */
  function Commas(pieces: seq<Text>): Text {
    if |pieces| == 0 then []
    else pieces[0] + if |pieces| == 1 then [] else [COMMA] + Commas(pieces[1..])
  }

  /** The texts are written forms of the values. */
  ghost predicate AllParse(pieces: seq<Text>, vs: seq<Value>) {
    |pieces| == |vs| && forall i :: 0 <= i < |vs| ==> Parse(pieces[i]) == Some(vs[i])
  }

  lemma PunctUnits(u: Unit)
    requires u == COMMA || u == COLON || u == RBRACKET || u == RBRACE || u == LBRACKET || u == LBRACE
    ensures IsPunct(u) && NoNumberUnit(u)
  {
  }

  lemma PunctSig(u: Unit)
    requires IsPunct(u)
    ensures Sig([u]) == Some([Punct(u)])
  {
    assert Sig([]) == Some([]);
    PunctFirst(u, []);
    assert [u] + [] == [u];
    assert [Punct(u)] + [] == [Punct(u)];
  }

  // A text, a mark and another text.
  lemma SigMark(a: Text, u: Unit, b: Text)
    requires Sig(a).Some? && Sig(b).Some? && IsPunct(u) && NoNumberUnit(u)
    ensures Sig(a + ([u] + b)) == Some(Sig(a).value + ([Punct(u)] + Sig(b).value))
  {
    PunctFirst(u, b);
    hide Sig;
    SigJoin(a, [u] + b);
  }

  // No value starts with a closing bracket.
  lemma NotClosed(tokens: seq<Token>, other: seq<Token>)
    requires ParseValue(tokens).Some?
    ensures |tokens| > 0 && !Starts(tokens + other, RBRACKET)
  {
    ValueHead(tokens);
    hide ParseElements, ParseMembers, Unescape;
    assert (tokens + other)[0] == tokens[0];
  }

  lemma {:induction false} ElementsParse(pieces: seq<Text>, vs: seq<Value>, read: seq<Value>)
    requires AllParse(pieces, vs) && |vs| > 0
    ensures Sig(Commas(pieces)).Some?
    ensures var tokens := Sig(Commas(pieces)).value + [Punct(RBRACKET)];
            ParseElements(tokens, read) == Some((read + vs, [])) && !Starts(tokens, RBRACKET)
    decreases |vs|
  {
    ParseIs(pieces[0], vs[0]);
    CommasSplit(pieces);
    hide Parse, ParseValue, ParseElements, Sig, Commas;
    if |vs| == 1 {
      OneElement(Sig(pieces[0]).value, read, vs[0]);
      assert read + vs == read + [vs[0]];
    } else {
      assert AllParse(pieces[1..], vs[1..]);
      hide AllParse;
      ElementsParse(pieces[1..], vs[1..], read + [vs[0]]);
      PunctUnits(COMMA);
      SigMark(pieces[0], COMMA, Commas(pieces[1..]));
      OneMoreElement(Sig(pieces[0]).value, Sig(Commas(pieces[1..])).value, read, vs[0], vs[1..]);
      assert [vs[0]] + vs[1..] == vs;
    }
  }

  lemma CommasSplit(pieces: seq<Text>)
    requires |pieces| > 0
    ensures |pieces| == 1 ==> Commas(pieces) == pieces[0]
    ensures |pieces| > 1 ==> Commas(pieces) == pieces[0] + ([COMMA] + Commas(pieces[1..]))
  {
  }

  lemma OneElement(tokens: seq<Token>, read: seq<Value>, v: Value)
    requires ParseValue(tokens) == Some((v, []))
    ensures var whole := tokens + [Punct(RBRACKET)];
            ParseElements(whole, read) == Some((read + [v], [])) && !Starts(whole, RBRACKET)
  {
    var close := [Punct(RBRACKET)];
    ValueBefore(tokens, v, close);
    NotClosed(tokens, close);
    LastElement(tokens + close, read, v, close);
    hide *;
    assert close[1..] == [];
  }

  lemma OneMoreElement(tokens: seq<Token>, others: seq<Token>, read: seq<Value>, v: Value, vs: seq<Value>)
    requires ParseValue(tokens) == Some((v, []))
    requires ParseElements(others + [Punct(RBRACKET)], read + [v]) == Some((read + [v] + vs, []))
    ensures var whole := tokens + ([Punct(COMMA)] + others) + [Punct(RBRACKET)];
            ParseElements(whole, read) == Some((read + ([v] + vs), [])) && !Starts(whole, RBRACKET)
  {
    var after := [Punct(COMMA)] + (others + [Punct(RBRACKET)]);
    ValueBefore(tokens, v, after);
    NotClosed(tokens, after);
    MoreElements(tokens + after, read, v, after);
    hide *;
    assert after[1..] == others + [Punct(RBRACKET)];
    assert tokens + ([Punct(COMMA)] + others) + [Punct(RBRACKET)] == tokens + after;
    assert read + [v] + vs == read + ([v] + vs);
  }

  lemma LastElement(tokens: seq<Token>, read: seq<Value>, v: Value, after: seq<Token>)
    requires ParseValue(tokens) == Some((v, after)) && Starts(after, RBRACKET)
    ensures ParseElements(tokens, read) == Some((read + [v], after[1..]))
  {
    hide ParseValue;
  }

  lemma MoreElements(tokens: seq<Token>, read: seq<Value>, v: Value, after: seq<Token>)
    requires ParseValue(tokens) == Some((v, after)) && Starts(after, COMMA)
    ensures ParseElements(tokens, read) == ParseElements(after[1..], read + [v])
  {
    hide ParseValue;
  }

  // The text of some elements and of the bracket after them falls into the texts of the elements.
  lemma {:induction false} ElementTexts(text: Text, read: seq<Value>, all: seq<Value>)
      returns (pieces: seq<Text>, vs: seq<Value>, after: Text)
    requires Sig(text).Some? && ParseElements(Sig(text).value, read) == Some((all, []))
    ensures all == read + vs && |vs| > 0 && AllParse(pieces, vs)
    ensures Blank(after) && text == Commas(pieces) + [RBRACKET] + after
    decreases |Sig(text).value|
  {
    hide *;
    var v, piece, others, last := ElementHead(text, read, all);
    if last {
      pieces, vs, after := [piece], [v], others;
      OneText(piece, v);
    } else {
      var more, values;
      more, values, after := ElementTexts(others, read + [v], all);
      pieces, vs := [piece] + more, [v] + values;
      ParseSize(more, values);
      OneMoreText(piece, more, after);
      OneMoreParses(piece, v, more, values);
      assert read + [v] + values == read + ([v] + values);
    }
  }

  lemma ParseSize(pieces: seq<Text>, vs: seq<Value>)
    requires AllParse(pieces, vs)
    ensures |pieces| == |vs|
  {
  }

  lemma OneText(piece: Text, v: Value)
    requires Parse(piece) == Some(v)
    ensures Commas([piece]) == piece && AllParse([piece], [v])
  {
    hide Parse;
  }

  lemma ElementHead(text: Text, read: seq<Value>, all: seq<Value>)
      returns (v: Value, piece: Text, others: Text, last: bool)
    requires Sig(text).Some? && ParseElements(Sig(text).value, read) == Some((all, []))
    ensures Parse(piece) == Some(v) && Sig(others).Some? && |Sig(others).value| < |Sig(text).value|
    ensures last ==> text == piece + [RBRACKET] + others && all == read + [v] && Blank(others)
    ensures !last ==>
              text == piece + [COMMA] + others && ParseElements(Sig(others).value, read + [v]) == Some((all, []))
  {
    var tokens := Sig(text).value;
    var rest;
    v, rest := FirstElement(tokens, read);
    piece, others := ValueText(text, v, rest);
    last := !Starts(rest, COMMA);
    if last {
      LastElement(tokens, read, v, rest);
      BlankExactly(others);
    } else {
      MoreElements(tokens, read, v, rest);
    }
    hide ParseValue, ParseElements, Parse, Sig, Blank;
  }

  lemma OneMoreText(piece: Text, more: seq<Text>, after: Text)
    requires |more| > 0
    ensures Commas([piece] + more) + [RBRACKET] + after == piece + [COMMA] + (Commas(more) + [RBRACKET] + after)
  {
    CommasSplit([piece] + more);
    assert ([piece] + more)[1..] == more;
    FiveTexts(piece, [COMMA], Commas(more), [RBRACKET], after);
    hide *;
  }

  lemma FiveTexts(a: Text, b: Text, c: Text, d: Text, e: Text)
    ensures a + (b + c) + d + e == a + b + (c + d + e)
  {
  }

  lemma OneMoreParses(piece: Text, v: Value, more: seq<Text>, vs: seq<Value>)
    requires Parse(piece) == Some(v) && AllParse(more, vs)
    ensures AllParse([piece] + more, [v] + vs)
  {
    hide Parse;
  }

  // The text of a value and of the mark after it.
  lemma ValueText(text: Text, v: Value, rest: seq<Token>) returns (piece: Text, others: Text)
    requires Sig(text).Some? && ParseValue(Sig(text).value) == Some((v, rest)) && |rest| > 0 && rest[0].Punct?
    ensures text == piece + [rest[0].unit] + others && Parse(piece) == Some(v) && Sig(others) == Some(rest[1..])
    ensures |rest| < |Sig(text).value|
  {
    var tokens := Sig(text).value;
    ValueRest(tokens, []);
    hide Parse, ParseValue, Sig;
    var own := Own(tokens, rest);
    assert own + [] == own;
    assert tokens == own + [rest[0]] + rest[1..];
    piece, others := SplitAt(text, own, rest[0], rest[1..]);
    ParseIs(piece, v);
  }

  lemma FirstElement(tokens: seq<Token>, read: seq<Value>) returns (v: Value, rest: seq<Token>)
    requires ParseElements(tokens, read).Some?
    ensures ParseValue(tokens) == Some((v, rest)) && (Starts(rest, COMMA) || Starts(rest, RBRACKET))
  {
    hide ParseValue;
    v, rest := ParseValue(tokens).value.0, ParseValue(tokens).value.1;
  }

  /** What may stand between the brackets of an array. */
  ghost predicate ArrayContents(inner: Text, vs: seq<Value>) {
    if vs == [] then Blank(inner) else exists pieces :: AllParse(pieces, vs) && inner == Commas(pieces)
  }

  lemma SigEnclosed(open: Unit, inner: Text, close: Unit)
    requires Sig(inner).Some? && IsPunct(open) && IsPunct(close) && NoNumberUnit(close)
    ensures Sig([open] + inner + [close]) == Some([Punct(open)] + (Sig(inner).value + [Punct(close)]))
  {
    PunctSig(close);
    SigJoin(inner, [close]);
    PunctFirst(open, inner + [close]);
    hide Sig;
    assert [open] + (inner + [close]) == [open] + inner + [close];
  }

  lemma ContentsParse(inner: Text, vs: seq<Value>)
    requires ArrayContents(inner, vs)
    ensures Sig(inner).Some?
    ensures ParseValue([Punct(LBRACKET)] + (Sig(inner).value + [Punct(RBRACKET)])) == Some((Arr(vs), []))
  {
    if vs == [] {
      BlankExactly(inner);
      hide Sig;
      assert Sig(inner).value + [Punct(RBRACKET)] == [Punct(RBRACKET)];
      EmptyArray([Punct(LBRACKET)] + [Punct(RBRACKET)]);
    } else {
      var pieces :| AllParse(pieces, vs) && inner == Commas(pieces);
      ElementsParse(pieces, vs, []);
      hide AllParse, Sig, ParseElements, ParseMembers, Commas;
      assert [] + vs == vs;
      var tokens := Sig(inner).value + [Punct(RBRACKET)];
      assert ([Punct(LBRACKET)] + tokens)[1..] == tokens;
      ArrayOpens([Punct(LBRACKET)] + tokens);
    }
  }

  lemma EmptyArray(tokens: seq<Token>)
    requires tokens == [Punct(LBRACKET)] + [Punct(RBRACKET)]
    ensures ParseValue(tokens) == Some((Arr([]), []))
  {
    assert tokens[1..] == [Punct(RBRACKET)] && tokens[2..] == [];
  }

  // A value that starts with a mark is an array or an object.
  lemma MarkHead(tokens: seq<Token>)
    requires |tokens| > 0 && tokens[0].Punct? && ParseValue(tokens).Some?
    ensures var (v, rest) := ParseValue(tokens).value;
            || (tokens[0].unit == LBRACKET && Starts(tokens[1..], RBRACKET) && v == Arr([]) && rest == tokens[2..])
            || (tokens[0].unit == LBRACKET && v.Arr? && ParseElements(tokens[1..], []) == Some((v.elements, rest)))
            || (tokens[0].unit == LBRACE && Starts(tokens[1..], RBRACE) && v == Obj([]) && rest == tokens[2..])
            || (tokens[0].unit == LBRACE && v.Obj? && ParseMembers(tokens[1..], []) == Some((v.members, rest)))
  {
    hide ParseElements, ParseMembers;
  }

  lemma OneMark(tokens: seq<Token>, u: Unit)
    requires Starts(tokens, u) && tokens[1..] == []
    ensures tokens == [Punct(u)]
  {
    OnlyOne(tokens);
  }

  lemma TailTail(tokens: seq<Token>)
    requires |tokens| >= 2
    ensures tokens[1..][1..] == tokens[2..]
  {
  }

  // The bracket that opens an array, and its contents.
  lemma ArrayHead(tokens: seq<Token>, vs: seq<Value>)
    requires ParseValue(tokens) == Some((Arr(vs), []))
    ensures |tokens| > 0 && tokens[0] == Punct(LBRACKET)
    ensures (tokens[1..] == [Punct(RBRACKET)] && vs == []) || ParseElements(tokens[1..], []) == Some((vs, []))
  {
    ValueHead(tokens);
    hide ParseValue, ParseElements, ParseMembers, Unescape;
    MarkHead(tokens);
    if Starts(tokens[1..], RBRACKET) && tokens[2..] == [] {
      TailTail(tokens);
      OneMark(tokens[1..], RBRACKET);
    }
  }

  lemma ArrayBody(text: Text, vs: seq<Value>) returns (inner: Text, after: Text)
    requires Sig(text).Some?
    requires (Sig(text).value == [Punct(RBRACKET)] && vs == []) || ParseElements(Sig(text).value, []) == Some((vs, []))
    ensures text == inner + [RBRACKET] + after && Blank(after) && ArrayContents(inner, vs)
  {
    if Sig(text).value == [Punct(RBRACKET)] && vs == [] {
      assert [] + [Punct(RBRACKET)] + [] == [Punct(RBRACKET)];
      inner, after := SplitAt(text, [], Punct(RBRACKET), []);
      BlankExactly(inner);
      BlankExactly(after);
    } else {
      var pieces, values;
      pieces, values, after := ElementTexts(text, [], vs);
      inner := Commas(pieces);
      assert [] + values == values;
    }
  }

  // An array is written as the written forms of its elements, with commas between them, between two brackets.
  lemma ArraysExactly(text: Text, vs: seq<Value>)
    ensures Parse(text) == Some(Arr(vs)) <==>
            exists before, inner, after ::
              Around(text, [0x5B] + inner + [0x5D], before, after) && ArrayContents(inner, vs)
  {
    forall before, inner, after | Around(text, [0x5B] + inner + [0x5D], before, after) && ArrayContents(inner, vs)
      ensures Parse(text) == Some(Arr(vs))
    {
      ArrayWritten(text, before, inner, after, vs);
    }
    if Parse(text) == Some(Arr(vs)) { var before, inner, after := ArrayOnly(text, vs); }
    hide *;
  }

  lemma ArrayWritten(text: Text, before: Text, inner: Text, after: Text, vs: seq<Value>)
    requires Around(text, [0x5B] + inner + [0x5D], before, after) && ArrayContents(inner, vs)
    ensures Parse(text) == Some(Arr(vs))
  {
    ParseIs(text, Arr(vs));
    PunctUnits(RBRACKET);
    PunctUnits(LBRACKET);
    ContentsParse(inner, vs);
    SigEnclosed(LBRACKET, inner, RBRACKET);
    BlankAround(before, [0x5B] + inner + [0x5D], after);
    hide Parse, ParseValue, Sig, Blank;
  }

  lemma ArrayOnly(text: Text, vs: seq<Value>) returns (before: Text, inner: Text, after: Text)
    requires Parse(text) == Some(Arr(vs))
    ensures Around(text, [0x5B] + inner + [0x5D], before, after) && ArrayContents(inner, vs)
  {
    ParseIs(text, Arr(vs));
    var tokens := Sig(text).value;
    ArrayHead(tokens, vs);
    hide Parse, ParseValue, ParseElements, Sig, ArrayContents, Blank;
    assert tokens == [] + [Punct(LBRACKET)] + tokens[1..];
    var rest;
    before, rest := SplitAt(text, [], Punct(LBRACKET), tokens[1..]);
    BlankExactly(before);
    inner, after := ArrayBody(rest, vs);
    Enclosing(before, [0x5B], inner, [0x5D], after);
  }

  lemma Enclosing(a: Text, b: Text, c: Text, d: Text, e: Text)
    ensures a + b + (c + d + e) == a + (b + c + d) + e
  {
  }

  // ----- Objects

  /** The written forms of a name and of its value. */
  datatype Written = Written(key: Text, value: Text)

  function Pairs(written: seq<Written>): seq<Text> {
    if |written| == 0 then [] else [written[0].key + [COLON] + written[0].value] + Pairs(written[1..])
  }

  ghost predicate Named(w: Written, m: Member) {
    Parse(w.key) == Some(Str(m.name)) && Parse(w.value) == Some(m.value)
  }

  ghost predicate AllNamed(written: seq<Written>, ms: seq<Member>) {
    |written| == |ms| && forall i :: 0 <= i < |ms| ==> Named(written[i], ms[i])
  }

  /** The members of an object, one after the other; a later one replaces an earlier one of the same name. */
  function Collect(read: seq<Member>, ms: seq<Member>): seq<Member>
    decreases |ms|
  {
    if |ms| == 0 then read else Collect(Assign(read, ms[0].name, ms[0].value), ms[1..])
  }

  lemma KeySig(key: Text, name: Text) returns (raw: Text)
    requires Parse(key) == Some(Str(name))
    ensures Sig(key) == Some([String(raw)]) && Unescape(raw) == Some(name)
  {
    ParseIs(key, Str(name));
    Alone(Sig(key).value, Str(name));
    hide Parse, Sig, Unescape;
    raw := Sig(key).value[0].raw;
    assert Sig(key).value == [Sig(key).value[0]];
  }

  lemma MemberBefore(raw: Text, name: Text, tokens: seq<Token>, v: Value, after: seq<Token>)
    requires Unescape(raw) == Some(name) && ParseValue(tokens) == Some((v, []))
    ensures FirstMember([String(raw)] + ([Punct(COLON)] + tokens) + after, name, v, after)
  {
    ValueBefore(tokens, v, after);
    hide ParseValue, Unescape;
    var whole := [String(raw)] + ([Punct(COLON)] + tokens) + after;
    assert whole[2..] == tokens + after;
  }

  // A name, a colon and a value, before what goes on with the object.
  lemma PairSig(w: Written, m: Member, after: seq<Token>)
    requires Named(w, m)
    ensures var pair := w.key + [COLON] + w.value;
            Sig(pair).Some? && FirstMember(Sig(pair).value + after, m.name, m.value, after)
  {
    var raw := KeySig(w.key, m.name);
    ParseIs(w.value, m.value);
    PunctUnits(COLON);
    SigMark(w.key, COLON, w.value);
    MemberBefore(raw, m.name, Sig(w.value).value, m.value, after);
    hide *;
    assert w.key + ([COLON] + w.value) == w.key + [COLON] + w.value;
  }

  lemma {:induction false} MembersParse(written: seq<Written>, ms: seq<Member>, read: seq<Member>)
    requires AllNamed(written, ms) && |ms| > 0
    ensures Sig(Commas(Pairs(written))).Some?
    ensures var tokens := Sig(Commas(Pairs(written))).value + [Punct(RBRACE)];
            ParseMembers(tokens, read) == Some((Collect(read, ms), [])) && !Starts(tokens, RBRACE)
    decreases |ms|
  {
    PairsSplit(written);
    CommasSplit(Pairs(written));
    assert Named(written[0], ms[0]);
    CollectSplit(read, ms);
    if |ms| > 1 { assert AllNamed(written[1..], ms[1..]); }
    var pair := written[0].key + [COLON] + written[0].value;
    hide *;
    var close := [Punct(RBRACE)];
    if |ms| == 1 {
      PairSig(written[0], ms[0], close);
      LastMember(Sig(pair).value + close, read, ms[0], close);
      assert close[1..] == [];
    } else {
      MembersParse(written[1..], ms[1..], Assign(read, ms[0].name, ms[0].value));
      var others := Sig(Commas(Pairs(written[1..]))).value;
      PairSig(written[0], ms[0], [Punct(COMMA)] + (others + close));
      PunctUnits(COMMA);
      SigMark(pair, COMMA, Commas(Pairs(written[1..])));
      MoreMembers(Sig(pair).value, read, ms[0], others, close);
    }
  }

  lemma PairsSplit(written: seq<Written>)
    requires |written| > 0
    ensures Pairs(written) == [written[0].key + [COLON] + written[0].value] + Pairs(written[1..])
    ensures |written| == 1 ==> Pairs(written[1..]) == []
    ensures |Pairs(written)| == |written| && Pairs(written)[1..] == Pairs(written[1..])
  {
    PairsSize(written);
  }

  lemma {:induction false} PairsSize(written: seq<Written>)
    ensures |Pairs(written)| == |written|
  {
    if |written| > 0 { PairsSize(written[1..]); }
  }

  lemma CollectSplit(read: seq<Member>, ms: seq<Member>)
    requires |ms| > 0
    ensures Collect(read, ms) == Collect(Assign(read, ms[0].name, ms[0].value), ms[1..])
    ensures |ms| == 1 ==> Collect(read, ms) == Assign(read, ms[0].name, ms[0].value)
  {
  }

  lemma LastMember(tokens: seq<Token>, read: seq<Member>, m: Member, after: seq<Token>)
    requires FirstMember(tokens, m.name, m.value, after) && Starts(after, RBRACE)
    ensures ParseMembers(tokens, read) == Some((Assign(read, m.name, m.value), after[1..]))
    ensures !Starts(tokens, RBRACE)
  {
    MembersStep(tokens, read, m.name, m.value, after);
  }

  lemma MoreMembers(pair: seq<Token>, read: seq<Member>, m: Member, others: seq<Token>, close: seq<Token>)
    requires FirstMember(pair + ([Punct(COMMA)] + (others + close)), m.name, m.value, [Punct(COMMA)] + (others + close))
    ensures var tokens := pair + ([Punct(COMMA)] + others) + close;
            && ParseMembers(tokens, read) == ParseMembers(others + close, Assign(read, m.name, m.value))
            && !Starts(tokens, RBRACE)
  {
    var after := [Punct(COMMA)] + (others + close);
    MembersStep(pair + after, read, m.name, m.value, after);
    assert after[1..] == others + close;
    assert (pair + after)[0].String?;
    hide ParseMembers, FirstMember, Assign;
    assert pair + ([Punct(COMMA)] + others) + close == pair + after;
  }

  /** What may stand between the braces of an object. */
  ghost predicate ObjectContents(inner: Text, ms: seq<Member>) {
    (ms == [] && Blank(inner)) || exists written, named :: Contains(inner, ms, written, named)
  }

  ghost predicate Contains(inner: Text, ms: seq<Member>, written: seq<Written>, named: seq<Member>) {
    && |named| > 0 && AllNamed(written, named) && inner == Commas(Pairs(written)) && ms == Collect([], named)
  }

  lemma ObjectContentsParse(inner: Text, ms: seq<Member>)
    requires ObjectContents(inner, ms)
    ensures Sig(inner).Some?
    ensures ParseValue([Punct(LBRACE)] + (Sig(inner).value + [Punct(RBRACE)])) == Some((Obj(ms), []))
  {
    hide Sig, ParseElements, ParseMembers, ParseValue, Blank, Commas, Pairs, Collect, AllNamed;
    if ms == [] && Blank(inner) {
      BlankExactly(inner);
      assert Sig(inner).value + [Punct(RBRACE)] == [Punct(RBRACE)];
      EmptyObject([Punct(LBRACE)] + [Punct(RBRACE)]);
    } else {
      var written, named :| Contains(inner, ms, written, named);
      MembersParse(written, named, []);
      var tokens := Sig(inner).value + [Punct(RBRACE)];
      assert ([Punct(LBRACE)] + tokens)[1..] == tokens;
      ObjectOpens([Punct(LBRACE)] + tokens);
    }
  }

  lemma EmptyObject(tokens: seq<Token>)
    requires tokens == [Punct(LBRACE)] + [Punct(RBRACE)]
    ensures ParseValue(tokens) == Some((Obj([]), []))
  {
    assert tokens[1..] == [Punct(RBRACE)] && tokens[2..] == [];
  }

  lemma ObjectWritten(text: Text, before: Text, inner: Text, after: Text, ms: seq<Member>)
    requires Around(text, [0x7B] + inner + [0x7D], before, after) && ObjectContents(inner, ms)
    ensures Parse(text) == Some(Obj(ms))
  {
    ParseIs(text, Obj(ms));
    PunctUnits(RBRACE);
    PunctUnits(LBRACE);
    ObjectContentsParse(inner, ms);
    SigEnclosed(LBRACE, inner, RBRACE);
    BlankAround(before, [0x7B] + inner + [0x7D], after);
    hide Parse, ParseValue, Sig, Blank;
  }

  lemma ObjectHead(tokens: seq<Token>, ms: seq<Member>)
    requires ParseValue(tokens) == Some((Obj(ms), []))
    ensures |tokens| > 0 && tokens[0] == Punct(LBRACE)
    ensures (tokens[1..] == [Punct(RBRACE)] && ms == []) || ParseMembers(tokens[1..], []) == Some((ms, []))
  {
    ValueHead(tokens);
    hide ParseValue, ParseElements, ParseMembers, Unescape;
    MarkHead(tokens);
    if Starts(tokens[1..], RBRACE) && tokens[2..] == [] {
      TailTail(tokens);
      OneMark(tokens[1..], RBRACE);
    }
  }

  lemma MemberHeadText(text: Text, read: seq<Member>, all: seq<Member>)
      returns (m: Member, w: Written, others: Text, last: bool)
    requires Sig(text).Some? && ParseMembers(Sig(text).value, read) == Some((all, []))
    ensures Named(w, m) && Sig(others).Some? && |Sig(others).value| < |Sig(text).value|
    ensures last ==>
              && text == w.key + [COLON] + w.value + [RBRACE] + others && Blank(others)
              && all == Assign(read, m.name, m.value)
    ensures !last ==>
              && text == w.key + [COLON] + w.value + [COMMA] + others
              && ParseMembers(Sig(others).value, Assign(read, m.name, m.value)) == Some((all, []))
  {
    var tokens := Sig(text).value;
    var name, v, rest := MembersHead(tokens, read);
    MembersStep(tokens, read, name, v, rest);
    TwoParts(tokens);
    var key, after := SplitAt(text, [tokens[0]], Punct(COLON), tokens[2..]);
    KeyParses(key, tokens[0].raw, name);
    var piece;
    piece, others := ValueText(after, v, rest);
    m, w, last := Member(name, v), Written(key, piece), !Starts(rest, COMMA);
    BlankExactly(others);
    hide ParseValue, ParseMembers, Parse, Sig, Blank, Assign, Unescape;
    assert text == key + [COLON] + after;
    FourTexts(key, [COLON], piece, [rest[0].unit], others);
  }

  lemma TwoParts(tokens: seq<Token>)
    requires |tokens| >= 2
    ensures tokens == [tokens[0]] + [tokens[1]] + tokens[2..]
  {
  }

  lemma FourTexts(a: Text, b: Text, c: Text, d: Text, e: Text)
    ensures a + b + (c + d + e) == a + b + c + d + e
  {
  }

  lemma KeyParses(key: Text, raw: Text, name: Text)
    requires Sig(key) == Some([String(raw)]) && Unescape(raw) == Some(name)
    ensures Parse(key) == Some(Str(name))
  {
    ParseIs(key, Str(name));
    hide Parse, Sig, Unescape;
    assert [String(raw)][1..] == [];
  }

  // The text of some members and of the brace after them falls into the texts of the members.
  lemma {:induction false} MemberTexts(text: Text, read: seq<Member>, all: seq<Member>)
      returns (written: seq<Written>, named: seq<Member>, after: Text)
    requires Sig(text).Some? && ParseMembers(Sig(text).value, read) == Some((all, []))
    ensures all == Collect(read, named) && |named| > 0 && AllNamed(written, named)
    ensures Blank(after) && text == Commas(Pairs(written)) + [RBRACE] + after
    decreases |Sig(text).value|
  {
    hide *;
    var m, w, others, last := MemberHeadText(text, read, all);
    if last {
      written, named, after := [w], [m], others;
      OnePair(w, m, read);
    } else {
      var more, members;
      more, members, after := MemberTexts(others, Assign(read, m.name, m.value), all);
      written, named := [w] + more, [m] + members;
      MorePairs(w, m, more, members, read, after);
    }
  }

  lemma OnePair(w: Written, m: Member, read: seq<Member>)
    requires Named(w, m)
    ensures AllNamed([w], [m]) && Commas(Pairs([w])) == w.key + [COLON] + w.value
    ensures Collect(read, [m]) == Assign(read, m.name, m.value)
  {
    PairsSplit([w]);
    CollectSplit(read, [m]);
    hide Named, Pairs, Collect, Assign;
  }

  lemma MorePairs(w: Written, m: Member, more: seq<Written>, members: seq<Member>, read: seq<Member>, after: Text)
    requires Named(w, m) && AllNamed(more, members) && |members| > 0
    ensures AllNamed([w] + more, [m] + members)
    ensures Collect(read, [m] + members) == Collect(Assign(read, m.name, m.value), members)
    ensures Commas(Pairs([w] + more)) + [RBRACE] + after ==
            w.key + [COLON] + w.value + [COMMA] + (Commas(Pairs(more)) + [RBRACE] + after)
  {
    assert ([w] + more)[1..] == more && ([m] + members)[1..] == members;
    PairsSplit([w] + more);
    PairsSize(more);
    CollectSplit(read, [m] + members);
    CommasSplit(Pairs([w] + more));
    FiveTexts(w.key + [COLON] + w.value, [COMMA], Commas(Pairs(more)), [RBRACE], after);
    hide Named, Pairs, Collect, Assign, Commas;
  }

  lemma ObjectBody(text: Text, ms: seq<Member>) returns (inner: Text, after: Text)
    requires Sig(text).Some?
    requires (Sig(text).value == [Punct(RBRACE)] && ms == []) || ParseMembers(Sig(text).value, []) == Some((ms, []))
    ensures text == inner + [RBRACE] + after && Blank(after) && ObjectContents(inner, ms)
  {
    hide ParseMembers, Blank, Commas, Pairs, Collect, AllNamed;
    if Sig(text).value == [Punct(RBRACE)] && ms == [] {
      assert [] + [Punct(RBRACE)] + [] == [Punct(RBRACE)];
      inner, after := SplitAt(text, [], Punct(RBRACE), []);
      BlankExactly(inner);
      BlankExactly(after);
    } else {
      var written, named;
      written, named, after := MemberTexts(text, [], ms);
      inner := Commas(Pairs(written));
      assert Contains(inner, ms, written, named);
    }
  }

  lemma ObjectOnly(text: Text, ms: seq<Member>) returns (before: Text, inner: Text, after: Text)
    requires Parse(text) == Some(Obj(ms))
    ensures Around(text, [0x7B] + inner + [0x7D], before, after) && ObjectContents(inner, ms)
  {
    ParseIs(text, Obj(ms));
    var tokens := Sig(text).value;
    ObjectHead(tokens, ms);
    hide Parse, ParseValue, ParseMembers, Sig, ObjectContents, Blank;
    assert tokens == [] + [Punct(LBRACE)] + tokens[1..];
    var rest;
    before, rest := SplitAt(text, [], Punct(LBRACE), tokens[1..]);
    BlankExactly(before);
    inner, after := ObjectBody(rest, ms);
    Enclosing(before, [0x7B], inner, [0x7D], after);
  }

  // An object is written as the written forms of names and values, each pair with a colon and the pairs with commas
  // between them, between two braces.
  lemma ObjectsExactly(text: Text, ms: seq<Member>)
    ensures Parse(text) == Some(Obj(ms)) <==>
            exists before, inner, after ::
              Around(text, [0x7B] + inner + [0x7D], before, after) && ObjectContents(inner, ms)
  {
    forall before, inner, after | Around(text, [0x7B] + inner + [0x7D], before, after) && ObjectContents(inner, ms)
      ensures Parse(text) == Some(Obj(ms))
    {
      ObjectWritten(text, before, inner, after, ms);
    }
    if Parse(text) == Some(Obj(ms)) { var before, inner, after := ObjectOnly(text, ms); }
    hide *;
  }

  // ----- The marks, the members and the characters in units

  lemma MarksInUnits(u: Unit, first: Text, pieces: seq<Text>, w: Written, written: seq<Written>)
    ensures Blank([u]) <==> u == 0x20 || u == 0x09 || u == 0x0A || u == 0x0D
    ensures Commas([first]) == first
    ensures |pieces| > 0 ==> Commas([first] + pieces) == first + ([0x2C] + Commas(pieces))
    ensures Pairs([w] + written) == [w.key + [0x3A] + w.value] + Pairs(written)
  {
    assert ([first] + pieces)[1..] == pieces && ([w] + written)[1..] == written;
    CommasSplit([first] + pieces);
    CommasSplit([first]);
    assert [u][0] == u;
  }

  // A later member of the same name takes the place of the earlier one, and a new one comes last.
  lemma {:induction false} AssignInPlace(ms: seq<Member>, i: nat, name: Text, value: Value)
    requires i <= |ms| && forall j :: 0 <= j < i ==> ms[j].name != name
    requires i < |ms| ==> ms[i].name == name
    ensures Assign(ms, name, value) ==
            if i < |ms| then ms[..i] + [Member(name, value)] + ms[i + 1..] else ms + [Member(name, value)]
  {
    if 0 < i {
      AssignInPlace(ms[1..], i - 1, name, value);
      assert i < |ms| ==> ms[..i] == [ms[0]] + ms[1..][..i - 1] && ms[i + 1..] == ms[1..][i..];
    }
  }

  /** String contents that begin with a character of unit `u`, and the same without it. */
  ghost predicate Prefixed(contents: Text, u: Unit, rest: Text) {
    Unescape(contents) == if Unescape(rest).Some? then Some([u] + Unescape(rest).value) else None
  }

  lemma CharRead(raw: Text, u: Unit, k: nat)
    requires |raw| > 0 && FirstChar(raw) == Some((u, k))
    ensures Prefixed(raw, u, raw[k..])
  {
  }

  // Every unit from the space on but the quote and the backslash stands for itself, and no other does.
  lemma PlainCharacters(u: Unit, rest: Text)
    ensures 0x20 <= u && u != 0x22 && u != 0x5C ==> Prefixed([u] + rest, u, rest)
    ensures u < 0x20 || u == 0x22 ==> Unescape([u] + rest) == None
  {
    assert ([u] + rest)[1..] == rest;
  }

  // The escapes of two units: a backslash before one of the eight units that have one.
  lemma ShortEscapes(e: Unit, rest: Text)
    ensures e == 0x22 || e == 0x5C || e == 0x2F ==> Prefixed([0x5C, e] + rest, e, rest)
    ensures e == 0x62 ==> Prefixed([0x5C, e] + rest, 0x08, rest)
    ensures e == 0x66 ==> Prefixed([0x5C, e] + rest, 0x0C, rest)
    ensures e == 0x6E ==> Prefixed([0x5C, e] + rest, 0x0A, rest)
    ensures e == 0x72 ==> Prefixed([0x5C, e] + rest, 0x0D, rest)
    ensures e == 0x74 ==> Prefixed([0x5C, e] + rest, 0x09, rest)
    ensures e !in {0x22, 0x5C, 0x2F, 0x62, 0x66, 0x6E, 0x72, 0x74, 0x75} ==> Unescape([0x5C, e] + rest) == None
    ensures Unescape([0x5C]) == None
  {
    assert ([0x5C, e] + rest)[2..] == rest;
  }

  /** The hexadecimal digit `u` stands for `n`, in either case. */
  predicate IsHexDigit(u: Unit, n: nat) {
    || (0x30 <= u <= 0x39 && n == u - 0x30)
    || (0x41 <= u <= 0x46 && n == u - 0x41 + 10)
    || (0x61 <= u <= 0x66 && n == u - 0x61 + 10)
  }

  // The escapes of six units: a backslash, a `u` and four hexadecimal digits.
  lemma UnicodeEscapes(a: Unit, b: Unit, c: Unit, d: Unit, i: nat, j: nat, k: nat, l: nat, rest: Text)
    requires IsHexDigit(a, i) && IsHexDigit(b, j) && IsHexDigit(c, k) && IsHexDigit(d, l)
    ensures Prefixed([0x5C, 0x75, a, b, c, d] + rest, i * 0x1000 + j * 0x100 + k * 0x10 + l, rest)
  {
    HexOf(a, i);
    HexOf(b, j);
    HexOf(c, k);
    HexOf(d, l);
    var raw := [0x5C, 0x75, a, b, c, d] + rest;
    FourDigits(raw, i, j, k, l);
    CharRead(raw, i * 0x1000 + j * 0x100 + k * 0x10 + l, 6);
    hide *;
    assert raw[6..] == rest;
  }

  lemma FourDigits(raw: Text, i: nat, j: nat, k: nat, l: nat)
    requires |raw| >= 6 && raw[0] == 0x5C && raw[1] == 0x75
    requires HexValue(raw[2]) == Some(i) && HexValue(raw[3]) == Some(j)
    requires HexValue(raw[4]) == Some(k) && HexValue(raw[5]) == Some(l)
    ensures i * 0x1000 + j * 0x100 + k * 0x10 + l < 0x1_0000
    ensures FirstChar(raw) == Some((i * 0x1000 + j * 0x100 + k * 0x10 + l, 6))
  {
    hide HexValue;
  }

  lemma HexOf(u: Unit, n: nat)
    requires IsHexDigit(u, n)
    ensures HexValue(u) == Some(n)
  {
  }

  lemma HexIs(u: Unit)
    ensures HexValue(u).Some? ==> IsHexDigit(u, HexValue(u).value)
  {
  }

  // Anything else after a backslash and a `u` is no string.
  lemma NoUnicodeEscape(rest: Text)
    requires |rest| < 4 || exists p :: 0 <= p < 4 && forall n :: !IsHexDigit(rest[p], n)
    ensures Unescape([0x5C, 0x75] + rest) == None
  {
    var raw := [0x5C, 0x75] + rest;
    if |rest| >= 4 {
      assert raw[2] == rest[0] && raw[3] == rest[1] && raw[4] == rest[2] && raw[5] == rest[3];
      HexIs(rest[0]);
      HexIs(rest[1]);
      HexIs(rest[2]);
      HexIs(rest[3]);
    }
  }
}
