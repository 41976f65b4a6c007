/**
 `numericMirror`: rewrites a JSON text so that every number becomes the string of its own lexeme.
 The loop of the source finds the end of a string by counting backslashes backwards from each quote; the
 specification reads escapes forwards.
 */
module NumericMirror {
  import opened Utf16
  import opened Json
  import opened JsonQuote

  /** Strings are copied, numbers are quoted, everything else is copied unit by unit. */
  function Mirror(text: Text): Text
    decreases |text|
  {
    if |text| == 0 then []
    else if text[0] == QUOTE then
      var q := CloseQuote(text, 1);
      var end := if q < |text| then q + 1 else q;
      text[..end] + Mirror(text[end..])
    else
      var k := NumberLength(text);
      if k > 0 then Quote(text[..k]) + Mirror(text[k..]) else [text[0]] + Mirror(text[1..])
  }

  // ----- The loop

  // Without a quote on the way, the forward automaton reaches any position that follows a unit other than a backslash.
  lemma {:induction false} ReachAfter(text: Text, i: nat, s: nat)
    requires i <= s < |text| && text[s] != BACKSLASH && NoQuote(text, i, s + 1)
    ensures CloseQuote(text, i) == CloseQuote(text, s + 1)
    decreases s - i
  {
    assert text[i] != QUOTE;
    if text[i] == BACKSLASH {
      if i + 2 <= s { ReachAfter(text, i + 2, s); }
    } else if i < s {
      ReachAfter(text, i + 1, s);
    }
  }

  predicate NoQuote(text: Text, from: nat, to: nat)
    requires from <= to <= |text|
  {
    forall k :: from <= k < to ==> text[k] != QUOTE
  }

  // A run of backslashes before a quote escapes it if and only if its length is odd.
  lemma {:induction false} RunOfBackslashes(text: Text, i: nat, q: nat)
    requires i <= q < |text| && text[q] == QUOTE && forall k :: i <= k < q ==> text[k] == BACKSLASH
    ensures CloseQuote(text, i) == if (q - i) % 2 == 0 then q else CloseQuote(text, q + 1)
    decreases q - i
  {
    if q - i >= 2 { RunOfBackslashes(text, i + 2, q); }
  }

  // The backward parity test at the next quote agrees with the forward automaton.
  lemma ParityTest(text: Text, from: nat, q: nat, run: nat)
    requires from <= run <= q < |text| && text[q] == QUOTE && NoQuote(text, from, q)
    requires forall k :: run <= k < q ==> text[k] == BACKSLASH
    requires run == from || text[run - 1] != BACKSLASH
    ensures CloseQuote(text, from) == if (q - run) % 2 == 0 then q else CloseQuote(text, q + 1)
  {
    if run > from { ReachAfter(text, from, run - 1); }
    RunOfBackslashes(text, run, q);
  }

  lemma {:induction false} NoClosingQuote(text: Text, i: nat)
    requires i <= |text| && NoQuote(text, i, |text|)
    ensures CloseQuote(text, i) == |text|
    decreases |text| - i
  {
    if i < |text| {
      if text[i] == BACKSLASH && i + 1 < |text| { NoClosingQuote(text, i + 2); } else { NoClosingQuote(text, i + 1); }
    }
  }

  lemma {:induction false} IndexOfSkips(s: Text, u: Unit, from: nat)
    requires from <= |s|
    ensures forall k :: from <= k < IndexOf(s, u, from) ==> s[k] != u
    decreases |s| - from
  {
    if from < |s| && s[from] != u { IndexOfSkips(s, u, from + 1); }
  }

  // The automaton does not look back before the position it starts at.
  lemma {:induction false} CloseQuoteShift(text: Text, a: nat, i: nat)
    requires a <= a + i <= |text|
    ensures CloseQuote(text[a..], i) + a == CloseQuote(text, a + i)
    decreases |text| - i
  {
    if a + i < |text| && text[a + i] != QUOTE {
      if text[a + i] == BACKSLASH && a + i + 1 < |text| {
        CloseQuoteShift(text, a, i + 2);
      } else {
        CloseQuoteShift(text, a, i + 1);
      }
    }
  }

  /** Finds the end of a string whose contents start at `start`: after its closing quote, or the end of the text. */
  method StringEnd(source: Text, start: nat) returns (index: nat)
    requires 0 < start <= |source| && source[start - 1] == QUOTE
    ensures var q := CloseQuote(source, start);
            index == if q < |source| then q + 1 else q
  {
    index := start;
    while index < |source|
      invariant start <= index <= |source| && source[index - 1] == QUOTE
      invariant CloseQuote(source, start) == CloseQuote(source, index)
    {
      var quote := IndexOf(source, QUOTE, index);
      IndexOfSkips(source, QUOTE, index);
      if quote == |source| {
        NoClosingQuote(source, index);
        return |source|;
      }
      var slash: int := quote - 1;
      while slash >= 0 && source[slash] == BACKSLASH
        invariant index - 1 <= slash < quote
        invariant forall k :: slash < k < quote ==> source[k] == BACKSLASH
      {
        slash := slash - 1;
      }
      ParityTest(source, index, quote, slash + 1);
      if (quote - slash - 1) % 2 == 0 { return quote + 1; }
      index := quote + 1;
    }
  }

  /** What is left to write is the mirror of the rest, after the pieces and the stretch not copied yet. */
  ghost predicate Progress(source: Text, pieces: Text, copied: nat, index: nat) {
    && copied <= index <= |source|
    && pieces + source[copied..index] + Mirror(source[index..]) == Mirror(source)
  }

  lemma CopyOn(source: Text, pieces: Text, copied: nat, index: nat, end: nat)
    requires Progress(source, pieces, copied, index) && index <= end <= |source|
    requires Mirror(source[index..]) == source[index..end] + Mirror(source[end..])
    ensures Progress(source, pieces, copied, end)
  {
    hide Mirror;
    assert source[copied..index] + source[index..end] == source[copied..end];
    assert pieces + source[copied..index] + (source[index..end] + Mirror(source[end..])) ==
           pieces + source[copied..end] + Mirror(source[end..]);
  }

  lemma QuoteNumber(source: Text, pieces: Text, copied: nat, index: nat, k: nat)
    requires Progress(source, pieces, copied, index) && index + k <= |source|
    requires Mirror(source[index..]) == Quote(source[index..index + k]) + Mirror(source[index + k..])
    ensures Progress(source, pieces + (source[copied..index] + Quote(source[index..index + k])), index + k, index + k)
  {
    hide Mirror;
    var quoted, rest := Quote(source[index..index + k]), Mirror(source[index + k..]);
    assert source[index + k..index + k] == [];
    assert pieces + source[copied..index] + (quoted + rest) == pieces + (source[copied..index] + quoted) + [] + rest;
  }

  lemma MirrorString(source: Text, index: nat, end: nat)
    requires index < |source| && source[index] == QUOTE
    requires var q := CloseQuote(source, index + 1);
             end == if q < |source| then q + 1 else q
    ensures Mirror(source[index..]) == source[index..end] + Mirror(source[end..])
  {
    CloseQuoteShift(source, index, 1);
    MirrorStringHead(source[index..]);
    SliceOfRest(source, index, end);
    hide *;
    assert |source[index..]| == |source| - index;
  }

  lemma SliceOfRest(source: Text, index: nat, end: nat)
    requires index <= end <= |source|
    ensures source[index..][..end - index] == source[index..end]
    ensures source[index..][end - index..] == source[end..]
  {
  }

  lemma MirrorStringHead(text: Text)
    requires |text| > 0 && text[0] == QUOTE
    ensures var q := CloseQuote(text, 1);
            var end := if q < |text| then q + 1 else q;
            Mirror(text) == text[..end] + Mirror(text[end..])
  {
  }

  lemma MirrorNumberHead(text: Text)
    requires NumberLength(text) > 0
    ensures Mirror(text) == Quote(text[..NumberLength(text)]) + Mirror(text[NumberLength(text)..])
  {
    hide Quote;
    assert text[0] == MINUS || IsDigit(text[0]);
  }

  lemma MirrorNumber(source: Text, index: nat)
    requires index < |source| && NumberLength(source[index..]) > 0
    ensures var end := index + NumberLength(source[index..]);
            Mirror(source[index..]) == Quote(source[index..end]) + Mirror(source[end..])
  {
    MirrorNumberHead(source[index..]);
    hide *;
    SliceOfRest(source, index, index + NumberLength(source[index..]));
  }

  lemma MirrorOther(source: Text, index: nat)
    requires index < |source| && source[index] != QUOTE && NumberLength(source[index..]) == 0
    ensures Mirror(source[index..]) == source[index..index + 1] + Mirror(source[index + 1..])
  {
    hide NumberLength, Quote;
    assert source[index..][1..] == source[index + 1..] && [source[index]] == source[index..index + 1];
  }

  method NumericMirror(source: Text) returns (mirror: Text)
    ensures mirror == Mirror(source)
  {
    var pieces: Text := [];
    var copied, index := 0, 0;
    hide Mirror, Progress, NumberLength;
    Begin(source);
    while index < |source|
      invariant 0 <= copied <= index <= |source| && Progress(source, pieces, copied, index)
      decreases |source| - index
    {
      if source[index] == QUOTE {
        var end := StringEnd(source, index + 1);
        MirrorString(source, index, end);
        CopyOn(source, pieces, copied, index, end);
        index := end;
        continue;
      }
      var k := NumberLength(source[index..]);
      if k == 0 {
        MirrorOther(source, index);
        CopyOn(source, pieces, copied, index, index + 1);
        index := index + 1;
        continue;
      }
      MirrorNumber(source, index);
      QuoteNumber(source, pieces, copied, index, k);
      pieces := pieces + (source[copied..index] + Quote(source[index..index + k]));
      index := index + k;
      copied := index;
    }
    Finish(source, pieces, copied);
    mirror := pieces + source[copied..];
  }

  lemma Begin(source: Text)
    ensures Progress(source, [], 0, 0)
  {
    assert source[0..] == source;
    assert [] + source[0..0] + Mirror(source) == Mirror(source);
  }

  lemma Finish(source: Text, pieces: Text, copied: nat)
    requires copied <= |source| && Progress(source, pieces, copied, |source|)
    ensures pieces + source[copied..] == Mirror(source)
  {
    assert source[copied..|source|] == source[copied..] && source[|source|..] == [];
  }
}
