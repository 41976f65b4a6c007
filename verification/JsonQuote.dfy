/** `JSON.stringify` of a string: escapes that a JSON reader undoes. */
module JsonQuote {
  import opened Utf16
  import opened Wrappers
  import Json

  function HexDigit(n: nat): (u: Unit)
    requires n < 16
    ensures Json.HexValue(u) == Some(n)
    ensures u != QUOTE && u != BACKSLASH && 0x20 <= u < 0x80
  {
    if n < 10 then 0x30 + n else 0x57 + n
  }

  function UnicodeEscape(u: Unit): Text {
    [BACKSLASH, 0x75, HexDigit(u / 0x1000), HexDigit(u / 0x100 % 16), HexDigit(u / 0x10 % 16), HexDigit(u % 16)]
  }

  /** The escape of a unit outside a surrogate pair. */
  function EscapeUnit(u: Unit): Text {
    if u == QUOTE || u == BACKSLASH then [BACKSLASH, u]
    else if u == 0x08 then [BACKSLASH, 0x62]
    else if u == 0x0C then [BACKSLASH, 0x66]
    else if u == LF then [BACKSLASH, 0x6E]
    else if u == CR then [BACKSLASH, 0x72]
    else if u == TAB then [BACKSLASH, 0x74]
    else if u < 0x20 || IsHigh(u) || IsLow(u) then UnicodeEscape(u)
    else [u]
  }

  // Which units are escaped, and how: the quote, the backslash and five control characters by two units, the other
  // control characters and lone surrogates by their lower-case hexadecimal digits, and nothing else.
  lemma EscapedUnits(u: Unit)
    ensures u == 0x22 || u == 0x5C ==> EscapeUnit(u) == [0x5C, u]
    ensures EscapeUnit(0x08) == [0x5C, 0x62] && EscapeUnit(0x0C) == [0x5C, 0x66] && EscapeUnit(0x0A) == [0x5C, 0x6E]
    ensures EscapeUnit(0x0D) == [0x5C, 0x72] && EscapeUnit(0x09) == [0x5C, 0x74]
    ensures (u < 0x20 && u !in {0x08, 0x09, 0x0A, 0x0C, 0x0D}) || 0xD800 <= u < 0xE000 ==>
              && |EscapeUnit(u)| == 6 && EscapeUnit(u)[..2] == [0x5C, 0x75]
              && forall k :: 2 <= k < 6 ==> 0x30 <= EscapeUnit(u)[k] <= 0x39 || 0x61 <= EscapeUnit(u)[k] <= 0x66
    ensures 0x20 <= u && u != 0x22 && u != 0x5C && !(0xD800 <= u < 0xE000) ==> EscapeUnit(u) == [u]
  {
  }

  /** Surrogate pairs stay as they are; lone surrogates, quotes, backslashes and control characters are escaped. */
  function Escape(s: Text): Text {
    if |s| == 0 then []
    else if StartsPair(s) then s[..2] + Escape(s[2..])
    else EscapeUnit(s[0]) + Escape(s[1..])
  }

  function Quote(s: Text): Text { [QUOTE] + Escape(s) + [QUOTE] }

  /** ASCII characters that need no escape. */
  predicate IsUnescaped(s: Text) {
    forall i :: 0 <= i < |s| ==> s[i] != QUOTE && s[i] != BACKSLASH && 0x20 <= s[i] < 0x80
  }

  lemma {:induction false} EscapePlain(s: Text)
    requires IsUnescaped(s)
    ensures Escape(s) == s
  {
    if |s| > 0 { EscapePlain(s[1..]); }
  }

  lemma HexDigitsMean(u: Unit)
    ensures (((u / 0x1000) * 16 + u / 0x100 % 16) * 16 + u / 0x10 % 16) * 16 + u % 16 == u
    ensures u / 0x1000 < 16
  {
  }

  lemma UnitMeans(u: Unit, rest: Text)
    ensures Json.FirstChar(EscapeUnit(u) + rest) == Some((u, |EscapeUnit(u)|))
  {
    HexDigitsMean(u);
    hide HexDigit;
    var text := EscapeUnit(u) + rest;
    if |EscapeUnit(u)| == 6 {
      assert text[..6] == UnicodeEscape(u);
      assert text[2] == HexDigit(u / 0x1000) && text[3] == HexDigit(u / 0x100 % 16)
          && text[4] == HexDigit(u / 0x10 % 16) && text[5] == HexDigit(u % 16);
    }
  }

  // A character of string contents, and what follows it.
  lemma UnescapeStep(chunk: Text, u: Unit, rest: Text, meaning: Text)
    requires |chunk| > 0 && Json.FirstChar(chunk + rest) == Some((u, |chunk|)) && Json.Unescape(rest) == Some(meaning)
    ensures Json.Unescape(chunk + rest) == Some([u] + meaning)
  {
    assert (chunk + rest)[|chunk|..] == rest;
  }

  lemma EscapeSplits(s: Text)
    requires |s| > 0
    ensures Escape(s) ==
            if StartsPair(s) then [s[0], s[1]] + Escape(s[2..]) else EscapeUnit(s[0]) + Escape(s[1..])
    ensures |EscapeUnit(s[0])| > 0
  {
    if StartsPair(s) { assert s[..2] == [s[0], s[1]]; }
  }

  // Reading undoes escaping.
  lemma {:induction false} UnescapeEscape(s: Text)
    ensures Json.Unescape(Escape(s)) == Some(s)
  {
    if |s| > 0 {
      EscapeSplits(s);
      hide *;
      if StartsPair(s) {
        UnescapeEscape(s[2..]);
        UnescapePair(s, Escape(s[2..]));
      } else {
        UnescapeEscape(s[1..]);
        UnitMeans(s[0], Escape(s[1..]));
        UnescapeStep(EscapeUnit(s[0]), s[0], Escape(s[1..]), s[1..]);
        assert [s[0]] + s[1..] == s;
      }
    }
  }

  lemma UnescapePair(s: Text, rest: Text)
    requires StartsPair(s) && Json.Unescape(rest) == Some(s[2..])
    ensures Json.Unescape([s[0], s[1]] + rest) == Some(s)
  {
    PlainChar(s[1], rest);
    PlainChar(s[0], [s[1]] + rest);
    hide Json.Unescape, Json.FirstChar;
    UnescapeStep([s[1]], s[1], rest, s[2..]);
    assert [s[1]] + s[2..] == s[1..];
    UnescapeStep([s[0]], s[0], [s[1]] + rest, s[1..]);
    hide *;
    assert [s[0]] + ([s[1]] + rest) == [s[0], s[1]] + rest;
    assert [s[0]] + s[1..] == s;
  }

  lemma PlainChar(u: Unit, rest: Text)
    requires IsHigh(u) || IsLow(u)
    ensures Json.FirstChar([u] + rest) == Some((u, 1))
  {
  }

  // Plain text does not close a string.
  lemma {:induction false} ClosePlain(text: Text, i: nat, j: nat)
    requires IsPlain(text, i, j)
    ensures Json.CloseQuote(text, i) == Json.CloseQuote(text, j)
    decreases j - i
  {
    if i < j { ClosePlain(text, i + 1, j); }
  }

  ghost predicate IsPlain(s: Text, i: nat, j: nat) {
    i <= j <= |s| && forall k :: i <= k < j ==> s[k] != QUOTE && s[k] != BACKSLASH
  }

  /** One plain unit, or a backslash, any unit and then plain units. */
  ghost predicate IsChunk(s: Text) {
    if |s| == 1 then IsPlain(s, 0, 1) else |s| >= 2 && s[0] == BACKSLASH && IsPlain(s, 2, |s|)
  }

  lemma UnitIsChunk(u: Unit)
    ensures IsChunk(EscapeUnit(u))
  {
  }

  lemma PlainWithin(before: Text, s: Text, after: Text, i: nat, j: nat)
    requires IsPlain(s, i, j)
    ensures IsPlain(before + s + after, |before| + i, |before| + j)
  {
    var text := before + s + after;
    forall k | |before| + i <= k < |before| + j ensures text[k] != QUOTE && text[k] != BACKSLASH {
      assert text[k] == s[k - |before|];
    }
  }

  lemma CloseEscape(text: Text, i: nat)
    requires i + 1 < |text| && text[i] == BACKSLASH
    ensures Json.CloseQuote(text, i) == Json.CloseQuote(text, i + 2)
  {
  }

  lemma CloseChunk(before: Text, s: Text, after: Text)
    requires IsChunk(s)
    ensures Json.CloseQuote(before + s + after, |before|) == Json.CloseQuote(before + s + after, |before| + |s|)
  {
    var text := before + s + after;
    assert text[|before|] == s[0];
    hide Json.CloseQuote, IsPlain;
    if |s| == 1 {
      PlainWithin(before, s, after, 0, 1);
      ClosePlain(text, |before|, |before| + 1);
    } else {
      PlainWithin(before, s, after, 2, |s|);
      CloseEscape(text, |before|);
      ClosePlain(text, |before| + 2, |before| + |s|);
    }
  }

  // Escaped text does not close a string; the quote after it does.
  lemma {:induction false} CloseEscaped(before: Text, s: Text, after: Text)
    requires |after| > 0 && after[0] == QUOTE
    ensures Json.CloseQuote(before + Escape(s) + after, |before|) == |before| + |Escape(s)|
    decreases |s|
  {
    if |s| == 0 {
      assert (before + [] + after)[|before|] == QUOTE;
    } else {
      EscapeSplits(s);
      hide Escape, EscapeUnit, Json.CloseQuote;
      var (chunk, tail) := if StartsPair(s) then ([s[0], s[1]], s[2..]) else (EscapeUnit(s[0]), s[1..]);
      Regroup(before, chunk, Escape(tail), after);
      if !StartsPair(s) { UnitIsChunk(s[0]); CloseChunk(before, chunk, Escape(tail) + after); }
      if StartsPair(s) { ClosePair(before, s[0], s[1], Escape(tail) + after); }
      CloseEscaped(before + chunk, tail, after);
    }
  }

  lemma Regroup(a: Text, b: Text, c: Text, d: Text)
    ensures a + (b + c) + d == a + b + (c + d) == a + b + c + d
  {
  }

  lemma ClosePair(before: Text, high: Unit, low: Unit, after: Text)
    requires IsHigh(high) && IsLow(low)
    ensures Json.CloseQuote(before + [high, low] + after, |before|) ==
            Json.CloseQuote(before + [high, low] + after, |before| + 2)
  {
    PlainWithin(before, [high, low], after, 0, 2);
    ClosePlain(before + [high, low] + after, |before|, |before| + 2);
  }

  // A quoted string is one token.
  lemma QuoteIsToken(s: Text, rest: Text)
    ensures Json.FirstToken(Quote(s) + rest) == Some((Json.String(Escape(s)), |Quote(s)|))
  {
    var text := Quote(s) + rest;
    assert text == [QUOTE] + Escape(s) + ([QUOTE] + rest);
    CloseEscaped([QUOTE], s, [QUOTE] + rest);
    UnescapeEscape(s);
    assert text[1..1 + |Escape(s)|] == Escape(s);
    assert text[0] == QUOTE;
  }

  // ----- Escaped text is well formed: it survives UTF-8

  predicate IsAscii(s: Text) { forall i :: 0 <= i < |s| ==> s[i] < 0x80 }

  lemma {:induction false} AsciiWellFormed(s: Text)
    requires IsAscii(s)
    ensures WellFormed(s)
  {
    if |s| > 0 { AsciiWellFormed(s[1..]); }
  }

  lemma UnitWellFormed(u: Unit)
    ensures WellFormed(EscapeUnit(u))
  {
    if |EscapeUnit(u)| > 1 {
      AsciiWellFormed(EscapeUnit(u));
    } else {
      assert EscapeUnit(u)[1..] == [];
    }
  }

  lemma {:induction false} EscapeWellFormed(s: Text)
    ensures WellFormed(Escape(s))
  {
    if |s| > 0 {
      if StartsPair(s) {
        EscapeWellFormed(s[2..]);
        assert s[..2][2..] == [];
        WellFormedConcat(s[..2], Escape(s[2..]));
      } else {
        EscapeWellFormed(s[1..]);
        UnitWellFormed(s[0]);
        WellFormedConcat(EscapeUnit(s[0]), Escape(s[1..]));
      }
    }
  }

  lemma QuoteWellFormed(s: Text)
    ensures WellFormed(Quote(s))
  {
    EscapeWellFormed(s);
    AsciiWellFormed([QUOTE]);
    WellFormedConcat([QUOTE], Escape(s));
    WellFormedConcat([QUOTE] + Escape(s), [QUOTE]);
  }
}
