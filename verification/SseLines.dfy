/**
 What lines of an event stream do wherever they stand, in the units on the wire: comments, unknown fields, retry hints,
 ids and line terminators.
 */
module SseLines {
  import opened Utf16
  import opened Wrappers
  import opened Decimals
  import opened EventStream
  import opened SseParser
  import opened SseTheorems
  import opened SseBodies

  // ----- A text in two parts

  /** The buffers after some lines. */
  ghost function After(b: Buffers, lines: seq<Text>): Buffers
    decreases |lines|
  {
    if |lines| == 0 then b else After(ProcessLine(b, lines[0]).0, lines[1..])
  }

  lemma {:induction false} ProcessMore(b: Buffers, first: seq<Text>, more: seq<Text>)
    ensures ProcessLines(b, first + more) == ProcessLines(b, first) + ProcessLines(After(b, first), more)
    decreases |first|
  {
    hide ProcessLine;
    if |first| == 0 {
      assert first + more == more;
      assert [] + ProcessLines(b, more) == ProcessLines(b, more);
    } else {
      assert (first + more)[1..] == first[1..] + more;
      var (next, items) := ProcessLine(b, first[0]);
      ProcessMore(next, first[1..], more);
      assert items + (ProcessLines(next, first[1..]) + ProcessLines(After(b, first), more)) ==
             (items + ProcessLines(next, first[1..])) + ProcessLines(After(b, first), more);
    }
  }

  lemma {:induction false} VerdictMore(b: Buffers, first: seq<Text>, more: seq<Text>, rest: Text)
    ensures LineVerdict(b, first + more, rest) ==
            if LineVerdict(b, first, []).Some? then LineVerdict(b, first, [])
            else LineVerdict(After(b, first), more, rest)
    ensures LineVerdict(b, first, []).None? && Utf8Length(b.data) <= MAX_EVENT_BYTES ==>
              Utf8Length(After(b, first).data) <= MAX_EVENT_BYTES
    decreases |first|
  {
    NoBytes();
    hide ProcessLine, Utf8Length;
    if |first| == 0 {
      assert first + more == more;
    } else {
      assert (first + more)[1..] == first[1..] + more;
      VerdictMore(ProcessLine(b, first[0]).0, first[1..], more, rest);
    }
  }

  lemma {:induction false} SameLineEnd(a: Text, b: Text)
    requires LineEnd(a) < |a|
    ensures LineEnd(a + b) == LineEnd(a)
  {
    if !IsTerminator(a[0]) {
      assert (a + b)[1..] == a[1..] + b;
      SameLineEnd(a[1..], b);
    }
  }

  lemma {:induction false} TerminatedSomewhere(a: Text)
    requires a != [] && a[|a| - 1] == LF
    ensures LineEnd(a) < |a|
  {
    if !IsTerminator(a[0]) {
      assert a[1..][|a| - 2] == LF;
      TerminatedSomewhere(a[1..]);
    }
  }

  // At the start of a line, a text falls into two.
  lemma {:induction false} LinesConcat(a: Text, b: Text)
    requires a != [] ==> a[|a| - 1] == LF
    ensures Lines(a + b) == Lines(a) + Lines(b) && Unfinished(a + b) == Unfinished(b) && Unfinished(a) == []
    decreases |a|
  {
    if a == [] {
      assert a + b == b;
      NoLines();
    } else {
      TerminatedSomewhere(a);
      SameLineEnd(a, b);
      var k := LineEnd(a);
      LinesStep(a);
      LinesStep(a + b);
      SameAfterLine(a, b, k);
      LinesConcat(AfterLine(a, k), b);
      OneMoreLine(a, b, k, Lines(AfterLine(a, k)), Lines(b));
      hide *;
    }
  }

  lemma OneMoreLine(a: Text, b: Text, k: nat, lines: seq<Text>, more: seq<Text>)
    requires k <= |a|
    ensures (a + b)[..k] == a[..k] && [a[..k]] + (lines + more) == [a[..k]] + lines + more
  {
  }

  lemma LinesStep(text: Text)
    requires LineEnd(text) < |text|
    ensures var rest := AfterLine(text, LineEnd(text));
            Lines(text) == [text[..LineEnd(text)]] + Lines(rest) && Unfinished(text) == Unfinished(rest)
  {
  }

  lemma SameAfterLine(a: Text, b: Text, k: nat)
    requires k < |a| && a[|a| - 1] == LF
    ensures AfterLine(a + b, k) == AfterLine(a, k) + b
    ensures var rest := AfterLine(a, k); rest != [] ==> rest[|rest| - 1] == LF
  {
  }

  /** What the text after `a` calls for, from the buffers that `a` leaves. */
  ghost function Later(a: Text, b: Text, last: Text): seq<Item> {
    ProcessLines(After(Start(last), Lines(StripBom(a))), Lines(b))
  }

  ghost function LaterVerdict(a: Text, b: Text, last: Text): Option<LimitError> {
    LineVerdict(After(Start(last), Lines(StripBom(a))), Lines(b), Unfinished(b))
  }

  lemma TwoParts(a: Text, b: Text, last: Text)
    requires a != [] ==> a[|a| - 1] == LF
    requires a == [] && b != [] ==> b[0] != BOM
    ensures Interpret(a + b, last) == Interpret(a, last) + Later(a, b, last)
    ensures Verdict(a + b, last) == if Verdict(a, last).Some? then Verdict(a, last) else LaterVerdict(a, b, last)
    ensures Verdict(a, last).None? ==>
              Utf8Length(After(Start(last), Lines(StripBom(a))).data) <= MAX_EVENT_BYTES
  {
    NoBytes();
    var head := StripBom(a);
    assert StripBom(a + b) == head + b by { if a == [] { assert a + b == b; } }
    assert head != [] ==> head[|head| - 1] == LF;
    LinesConcat(head, b);
    ProcessMore(Start(last), Lines(head), Lines(b));
    VerdictMore(Start(last), Lines(head), Lines(b), Unfinished(b));
    hide Lines, Unfinished, ProcessLines, LineVerdict;
  }

  // ----- A line in between

  /** The line yields `items` and changes no buffer, whatever came before. */
  ghost predicate Only(line: Text, items: seq<Item>) {
    Plain(line) && forall b :: ProcessLine(b, line) == (b, items)
  }

  // Such a line may stand between any two lines.
  lemma Between(a: Text, line: Text, b: Text, last: Text, items: seq<Item>)
    requires a != [] ==> a[|a| - 1] == LF
    requires a == [] ==> (b != [] ==> b[0] != BOM) && (line != [] ==> line[0] != BOM)
    requires Only(line, items)
    ensures Interpret(a, last) <= Interpret(a + b, last)
    ensures Interpret(a + (line + [LF] + b), last) ==
            Interpret(a, last) + items + Interpret(a + b, last)[|Interpret(a, last)|..]
    ensures Verdict(a + (line + [LF] + b), last) ==
            if Verdict(a, last).Some? then Verdict(a, last)
            else if Utf8Length(line) > MAX_LINE_BYTES then Some(LineSize)
            else Verdict(a + b, last)
  {
    TwoParts(a, b, last);
    TwoParts(a, line + [LF] + b, last);
    LaterLine(a, line, b, last, items);
    Regrouped(Interpret(a, last), items, Later(a, b, last));
    hide *;
  }

  lemma Regrouped(before: seq<Item>, items: seq<Item>, later: seq<Item>)
    ensures before <= before + later && (before + later)[|before|..] == later
    ensures before + (items + later) == before + items + later
    ensures before + [] + later == before + later
  {
  }

  lemma LaterLine(a: Text, line: Text, b: Text, last: Text, items: seq<Item>)
    requires Only(line, items)
    ensures Later(a, line + [LF] + b, last) == items + Later(a, b, last)
    ensures Utf8Length(After(Start(last), Lines(StripBom(a))).data) <= MAX_EVENT_BYTES ==>
              LaterVerdict(a, line + [LF] + b, last) ==
              if Utf8Length(line) > MAX_LINE_BYTES then Some(LineSize) else LaterVerdict(a, b, last)
  {
    FirstLine(After(Start(last), Lines(StripBom(a))), line, b);
    hide Lines, Unfinished, ProcessLines, LineVerdict, Utf8Length, After, StripBom, Plain, ProcessLine;
  }

  // A line that yields nothing, too, does not show in what the text calls for.
  lemma NoTrace(a: Text, line: Text, b: Text, last: Text)
    requires a != [] ==> a[|a| - 1] == LF
    requires a == [] ==> (b != [] ==> b[0] != BOM) && (line != [] ==> line[0] != BOM)
    requires Only(line, [])
    ensures Interpret(a + (line + [LF] + b), last) == Interpret(a + b, last)
    ensures Utf8Length(line) <= MAX_LINE_BYTES ==> Verdict(a + (line + [LF] + b), last) == Verdict(a + b, last)
  {
    Between(a, line, b, last, []);
    TwoParts(a, b, last);
    Regrouped(Interpret(a, last), [], Later(a, b, last));
    hide *;
  }

  // A comment changes nothing, wherever it stands.
  lemma CommentsChangeNothing(a: Text, comment: Text, b: Text, last: Text)
    requires a != [] ==> a[|a| - 1] == 0x0A
    requires a == [] && b != [] ==> b[0] != 0xFEFF
    requires 0x0A !in comment && 0x0D !in comment
    ensures Interpret(a + ([0x3A] + comment + [0x0A] + b), last) == Interpret(a + b, last)
    ensures Utf8Length([0x3A] + comment) <= 8_388_614 ==>
              Verdict(a + ([0x3A] + comment + [0x0A] + b), last) == Verdict(a + b, last)
  {
    var line := [0x3A] + comment;
    PlainIs(line);
    assert Only(line, []);
    hide Only, Utf8Length;
    NoTrace(a, line, b, last);
  }

  lemma {:induction false} PlainIs(s: Text)
    ensures Plain(s) <==> 0x0A !in s && 0x0D !in s
  {
    if |s| > 0 {
      PlainIs(s[1..]);
      assert s == [s[0]] + s[1..];
    }
  }

  // ----- Comments among the lines of events

  /** The lines, each with its line feed. */
  function Compose(lines: seq<Text>): Text {
    if |lines| == 0 then [] else lines[0] + [LF] + Compose(lines[1..])
  }

  function WithoutComments(lines: seq<Text>): seq<Text> {
    if |lines| == 0 then []
    else (if |lines[0]| > 0 && lines[0][0] == COLON then [] else [lines[0]]) + WithoutComments(lines[1..])
  }

  // Removing the comments from the lines of a text does not change what it calls for.
  lemma {:induction false} CommentsDropOut(a: Text, lines: seq<Text>, last: Text)
    requires a != [] ==> a[|a| - 1] == 0x0A
    requires forall i :: 0 <= i < |lines| ==> 0x0A !in lines[i] && 0x0D !in lines[i]
    requires forall i :: 0 <= i < |lines| && |lines[i]| > 0 ==> lines[i][0] != 0xFEFF
    ensures Interpret(a + Compose(lines), last) == Interpret(a + Compose(WithoutComments(lines)), last)
    ensures (forall i :: 0 <= i < |lines| ==> Utf8Length(lines[i]) <= 8_388_614) ==>
              Verdict(a + Compose(lines), last) == Verdict(a + Compose(WithoutComments(lines)), last)
    decreases |lines|
  {
    hide Interpret, Verdict, Utf8Length;
    if |lines| > 0 {
      var line, rest := lines[0], lines[1..];
      assert a + Compose(lines) == a + (line + [LF] + Compose(rest));
      if |line| > 0 && line[0] == COLON {
        NoMark(rest);
        assert line == [0x3A] + line[1..];
        CommentsChangeNothing(a, line[1..], Compose(rest), last);
        CommentsDropOut(a, rest, last);
        assert [] + WithoutComments(rest) == WithoutComments(rest);
      } else {
        var longer := a + line + [LF];
        CommentsDropOut(longer, rest, last);
        assert longer + Compose(rest) == a + Compose(lines);
        OneKept(line, WithoutComments(rest));
        assert longer + Compose(WithoutComments(rest)) == a + Compose(WithoutComments(lines));
      }
    }
  }

  lemma OneKept(line: Text, rest: seq<Text>)
    ensures Compose([line] + rest) == line + [LF] + Compose(rest)
  {
    assert ([line] + rest)[1..] == rest;
  }

  lemma NoMark(lines: seq<Text>)
    requires |lines| > 0 && |lines[0]| > 0 ==> lines[0][0] != 0xFEFF
    ensures Compose(lines) != [] ==> Compose(lines)[0] != 0xFEFF
  {
  }

  // So comments may stand between any lines of events.
  lemma EventsAmongComments(events: seq<Sent>, lines: seq<Text>, last: Text)
    requires AllSendable(events) && Compose(WithoutComments(lines)) == WireAll(events)
    requires forall i :: 0 <= i < |lines| ==> 0x0A !in lines[i] && 0x0D !in lines[i]
    requires forall i :: 0 <= i < |lines| && |lines[i]| > 0 ==> lines[i][0] != 0xFEFF
    requires forall i :: 0 <= i < |lines| ==> Utf8Length(lines[i]) <= 8_388_614
    ensures Interpret(Compose(lines), last) == Arrivals(events)
    ensures Verdict(Compose(lines), last) == None
  {
    AllArrive(events, last);
    CommentsDropOut([], lines, last);
    hide *;
    assert [] + Compose(lines) == Compose(lines);
    assert [] + Compose(WithoutComments(lines)) == Compose(WithoutComments(lines));
  }

  // ----- Fields that yield nothing

  lemma FieldOf(b: Buffers, name: Text, value: Text)
    requires |name| > 0 && COLON !in name
    ensures ProcessLine(b, name + [COLON, SPACE] + value) == ProcessField(b, name, value)
    ensures value == [] || value[0] != SPACE ==> ProcessLine(b, name + [COLON] + value) == ProcessField(b, name, value)
    ensures ProcessLine(b, name) == ProcessField(b, name, [])
  {
    hide ProcessField;
    FieldLine(b, name, value);
    var line := name + [COLON] + value;
    IndexOfFirst(line, COLON, 0, |name|);
    assert line[..|name|] == name && line[|name| + 1..] == value;
    IndexOfFirst(name, COLON, 0, |name|);
    assert name[..|name|] == name;
  }

  // A field that the standard does not know changes nothing.
  lemma UnknownFieldsChangeNothing(a: Text, name: Text, value: Text, b: Text, last: Text)
    requires a != [] ==> a[|a| - 1] == 0x0A
    requires a == [] && b != [] ==> b[0] != 0xFEFF
    requires |name| > 0 && 0x3A !in name && 0x0A !in name && 0x0D !in name && name[0] != 0xFEFF
    requires 0x0A !in value && 0x0D !in value
    requires name != [0x64, 0x61, 0x74, 0x61] && name != [0x65, 0x76, 0x65, 0x6E, 0x74]
    requires name != [0x69, 0x64] && name != [0x72, 0x65, 0x74, 0x72, 0x79]
    ensures Interpret(a + (name + [0x3A, 0x20] + value + [0x0A] + b), last) == Interpret(a + b, last)
  {
    var line := name + [0x3A, 0x20] + value;
    PlainIs(line);
    forall bf: Buffers ensures ProcessLine(bf, line) == (bf, []) { FieldOf(bf, name, value); }
    assert Only(line, []);
    hide Only, Utf8Length;
    NoTrace(a, line, b, last);
  }

  // An id with a NUL changes nothing.
  lemma NulIdsChangeNothing(a: Text, value: Text, b: Text, last: Text)
    requires a != [] ==> a[|a| - 1] == 0x0A
    requires a == [] && b != [] ==> b[0] != 0xFEFF
    requires 0x0A !in value && 0x0D !in value && 0x00 in value
    ensures Interpret(a + ([0x69, 0x64, 0x3A, 0x20] + value + [0x0A] + b), last) == Interpret(a + b, last)
  {
    var line := [0x69, 0x64, 0x3A, 0x20] + value;
    assert line == ID + [COLON, SPACE] + value;
    PlainIs(line);
    forall bf: Buffers ensures ProcessLine(bf, line) == (bf, []) { FieldOf(bf, ID, value); }
    assert Only(line, []);
    hide Only, Utf8Length;
    NoTrace(a, line, b, last);
  }

  lemma RetryLine(value: Text)
    requires 0x0A !in value && 0x0D !in value
    ensures Only([0x72, 0x65, 0x74, 0x72, 0x79, 0x3A, 0x20] + value, RetryItems(value))
  {
    var line := [0x72, 0x65, 0x74, 0x72, 0x79, 0x3A, 0x20] + value;
    PlainIs(line);
    hide *;
    forall bf: Buffers ensures ProcessLine(bf, line) == (bf, RetryItems(value)) { RetryField(bf, value); }
    OnlyIs(line, RetryItems(value));
  }

  function RetryItems(value: Text): seq<Item> {
    if |value| > 0 && AllDigits(value) && Decimal(value) <= 9_007_199_254_740_991 then [Retry(Decimal(value))] else []
  }

  lemma RetryField(b: Buffers, value: Text)
    ensures ProcessLine(b, [0x72, 0x65, 0x74, 0x72, 0x79, 0x3A, 0x20] + value) == (b, RetryItems(value))
  {
    FieldOf(b, RETRY, value);
    hide ProcessLine, AllDigits, Decimal;
    assert RETRY + [COLON, SPACE] + value == [0x72, 0x65, 0x74, 0x72, 0x79, 0x3A, 0x20] + value;
  }

  lemma OnlyIs(line: Text, items: seq<Item>)
    requires Plain(line) && forall b :: ProcessLine(b, line) == (b, items)
    ensures Only(line, items)
  {
  }

  // A retry hint of up to 2^53 - 1 is passed on where it stands, and changes nothing else; a larger one is ignored.
  lemma RetryHints(a: Text, n: nat, b: Text, last: Text)
    requires a != [] ==> a[|a| - 1] == 0x0A
    requires a == [] && b != [] ==> b[0] != 0xFEFF
    ensures var text := a + ([0x72, 0x65, 0x74, 0x72, 0x79, 0x3A, 0x20] + Canonical(n) + [0x0A] + b);
            var before, whole := Interpret(a, last), Interpret(a + b, last);
            && before <= whole
            && Interpret(text, last) ==
               if n <= 9_007_199_254_740_991 then before + [Retry(n)] + whole[|before|..] else whole
  {
    CanonicalIsPlain(n);
    RetryLine(Canonical(n));
    var line := [0x72, 0x65, 0x74, 0x72, 0x79, 0x3A, 0x20] + Canonical(n);
    hide Only, Canonical, AllDigits, Decimal;
    Between(a, line, b, last, if n <= 9_007_199_254_740_991 then [Retry(n)] else []);
    TwoParts(a, b, last);
    Regrouped(Interpret(a, last), [], Later(a, b, last));
    hide *;
  }

  lemma CanonicalIsPlain(n: nat)
    ensures 0x0A !in Canonical(n) && 0x0D !in Canonical(n)
  {
    forall i | 0 <= i < |Canonical(n)| ensures Canonical(n)[i] != 0x0A && Canonical(n)[i] != 0x0D {
      DigitAt(Canonical(n), i);
    }
  }

  // A retry hint that is empty or holds anything but digits is ignored.
  lemma BadRetryHints(a: Text, value: Text, b: Text, last: Text)
    requires a != [] ==> a[|a| - 1] == 0x0A
    requires a == [] && b != [] ==> b[0] != 0xFEFF
    requires 0x0A !in value && 0x0D !in value
    requires value == [] || exists i :: 0 <= i < |value| && !(0x30 <= value[i] <= 0x39)
    ensures Interpret(a + ([0x72, 0x65, 0x74, 0x72, 0x79, 0x3A, 0x20] + value + [0x0A] + b), last) ==
            Interpret(a + b, last)
  {
    if value != [] && AllDigits(value) {
      var i :| 0 <= i < |value| && !(0x30 <= value[i] <= 0x39);
      DigitAt(value, i);
      assert false;
    }
    RetryLine(value);
    hide Only, AllDigits, Decimal;
    NoTrace(a, [0x72, 0x65, 0x74, 0x72, 0x79, 0x3A, 0x20] + value, b, last);
  }

  // ----- How fields and lines are written

  /** The texts are read alike: the same items and the same verdict. */
  ghost predicate Alike(text: Text, other: Text, last: Text) {
    Interpret(text, last) == Interpret(other, last) && Verdict(text, last) == Verdict(other, last)
  }

  // The space after the colon may be left out before a value that does not start with one, and the colon before an
  // empty value.
  lemma FieldForms(a: Text, name: Text, value: Text, b: Text, last: Text)
    requires a != [] ==> a[|a| - 1] == 0x0A
    requires |name| > 0 && 0x3A !in name && 0x0A !in name && 0x0D !in name && name[0] != 0xFEFF
    requires 0x0A !in value && 0x0D !in value
    ensures value == [] || value[0] != 0x20 ==>
              Interpret(a + (name + [0x3A] + value + [0x0A] + b), last) ==
              Interpret(a + (name + [0x3A, 0x20] + value + [0x0A] + b), last)
    ensures Interpret(a + (name + [0x0A] + b), last) ==
            Interpret(a + (name + [0x3A, 0x20] + [] + [0x0A] + b), last)
  {
    PlainIs(name);
    PlainIs(name + [0x3A] + value);
    PlainIs(name + [0x3A, 0x20] + value);
    PlainIs(name + [0x3A, 0x20] + []);
    var middle := After(Start(last), Lines(StripBom(a)));
    FieldOf(middle, name, value);
    FieldOf(middle, name, []);
    hide ProcessLine, ProcessField, Lines, Unfinished, After, StripBom, Plain;
    if value == [] || value[0] != 0x20 {
      SameLine(a, name + [0x3A] + value, name + [0x3A, 0x20] + value, b, last);
    }
    SameLine(a, name, name + [0x3A, 0x20] + [], b, last);
  }

  lemma SameLine(a: Text, line: Text, other: Text, b: Text, last: Text)
    requires a != [] ==> a[|a| - 1] == LF
    requires a == [] ==> |line| > 0 && |other| > 0 && line[0] != BOM && other[0] != BOM
    requires Plain(line) && Plain(other)
    requires var middle := After(Start(last), Lines(StripBom(a)));
             ProcessLine(middle, line) == ProcessLine(middle, other)
    ensures Interpret(a + (line + [LF] + b), last) == Interpret(a + (other + [LF] + b), last)
  {
    TwoParts(a, line + [LF] + b, last);
    TwoParts(a, other + [LF] + b, last);
    FirstLine(After(Start(last), Lines(StripBom(a))), line, b);
    FirstLine(After(Start(last), Lines(StripBom(a))), other, b);
    hide Lines, Unfinished, ProcessLines, LineVerdict, Utf8Length, After, StripBom, Plain, ProcessLine, Interpret,
         Verdict;
  }

  lemma {:induction false} LineEndAtTerminator(line: Text, rest: Text)
    requires Plain(line) && |rest| > 0 && IsTerminator(rest[0])
    ensures LineEnd(line + rest) == |line|
  {
    if |line| > 0 {
      assert (line + rest)[1..] == line[1..] + rest;
      LineEndAtTerminator(line[1..], rest);
    } else {
      assert line + rest == rest;
    }
  }

  lemma OtherTerminator(line: Text, rest: Text, b: Text)
    requires Plain(line) && |rest| > 0 && IsTerminator(rest[0]) && AfterLine(rest, 0) == b
    ensures Lines(line + rest) == [line] + Lines(b) && Unfinished(line + rest) == Unfinished(b)
  {
    LineEndAtTerminator(line, rest);
    LinesStep(line + rest);
    assert (line + rest)[..|line|] == line && AfterLine(line + rest, |line|) == AfterLine(rest, 0);
  }

  // A line may end with CR LF, with LF, or with a CR that no LF follows.
  lemma LineTerminators(a: Text, line: Text, b: Text, last: Text)
    requires a != [] ==> a[|a| - 1] == 0x0A
    requires a == [] && line != [] ==> line[0] != 0xFEFF
    requires 0x0A !in line && 0x0D !in line
    ensures Alike(a + (line + ([0x0D, 0x0A] + b)), a + (line + ([0x0A] + b)), last)
    ensures b == [] || b[0] != 0x0A ==> Alike(a + (line + ([0x0D] + b)), a + (line + ([0x0A] + b)), last)
  {
    PlainIs(line);
    assert ([0x0D, 0x0A] + b)[2..] == b && ([0x0A] + b)[1..] == b && ([0x0D] + b)[1..] == b;
    SameLines(a, line, [0x0D, 0x0A] + b, [0x0A] + b, b, last);
    if b == [] || b[0] != 0x0A { SameLines(a, line, [0x0D] + b, [0x0A] + b, b, last); }
  }

  lemma SameLines(a: Text, line: Text, rest: Text, other: Text, b: Text, last: Text)
    requires a != [] ==> a[|a| - 1] == LF
    requires a == [] && line != [] ==> line[0] != BOM
    requires Plain(line) && |rest| > 0 && IsTerminator(rest[0]) && AfterLine(rest, 0) == b
    requires |other| > 0 && IsTerminator(other[0]) && AfterLine(other, 0) == b
    ensures Alike(a + (line + rest), a + (line + other), last)
  {
    OtherTerminator(line, rest, b);
    OtherTerminator(line, other, b);
    TwoParts(a, line + rest, last);
    TwoParts(a, line + other, last);
    hide Lines, Unfinished, ProcessLines, LineVerdict, After, StripBom, Plain, AfterLine, Interpret, Verdict;
  }

  // A line that no terminator ends is not interpreted.
  lemma UnfinishedLine(a: Text, line: Text, last: Text)
    requires a != [] ==> a[|a| - 1] == 0x0A
    requires a == [] && line != [] ==> line[0] != 0xFEFF
    requires 0x0A !in line && 0x0D !in line
    ensures Interpret(a + line, last) == Interpret(a, last)
    ensures Verdict(a + line, last) ==
            if Verdict(a, last).Some? then Verdict(a, last)
            else if Utf8Length(line) > 8_388_614 then Some(LineSize) else None
  {
    PlainIs(line);
    NoLineEnd(line);
    TwoParts(a, line, last);
    hide StripBom, Interpret, Verdict, After, LineEnd;
    assert Interpret(a, last) + [] == Interpret(a, last);
  }

  lemma {:induction false} NoLineEnd(line: Text)
    requires Plain(line)
    ensures LineEnd(line) == |line|
  {
    if |line| > 0 { NoLineEnd(line[1..]); }
  }


  // A byte order mark is dropped at the start of the text, and only one.
  lemma OneByteOrderMark(text: Text, last: Text)
    requires text == [] || text[0] != 0xFEFF
    ensures Alike([0xFEFF] + text, text, last)
  {
    assert StripBom([0xFEFF] + text) == text == StripBom(text);
  }

  // ----- Whole blocks, from the id in force to the one after them

  lemma FirstLines(b: Buffers, line: Text, rest: Text)
    requires Plain(line)
    ensures var (next, items) := ProcessLine(b, line);
            ProcessLines(b, Lines(line + [LF] + rest)) == items + ProcessLines(next, Lines(rest))
  {
    FirstLine(b, line, rest);
    hide *;
  }

  lemma BlankEnds(b: Buffers, rest: Text)
    ensures ProcessLines(b, Lines([LF] + rest)) == Dispatch(b).1 + ProcessLines(Start(b.lastEventId), Lines(rest))
  {
    var blank: Text := [];
    assert Plain(blank);
    FirstLines(b, blank, rest);
    hide Lines, ProcessLines;
    assert blank + [LF] + rest == [LF] + rest;
  }

  lemma Restarts(b: Text, last: Text)
    requires b == [] || b[0] != BOM
    ensures Interpret(b, last) == ProcessLines(Start(last), Lines(b))
  {
  }

  lemma OneFieldBlock(name: Text, value: Text, rest: Text, last: Text)
    requires |name| > 0 && Plain(name) && COLON !in name && name[0] != BOM && Plain(value)
    requires rest == [] || rest[0] != BOM
    ensures var (b, items) := ProcessField(Start(last), name, value);
            Interpret(name + [COLON, SPACE] + value + [LF] + ([LF] + rest), last) ==
            items + (Dispatch(b).1 + Interpret(rest, b.lastEventId))
  {
    var line := name + [COLON, SPACE] + value;
    PlainIs(name);
    PlainIs(value);
    PlainIs(line);
    FieldOf(Start(last), name, value);
    var (b, items) := ProcessField(Start(last), name, value);
    Restarts(line + [LF] + ([LF] + rest), last);
    FirstLines(Start(last), line, [LF] + rest);
    BlankEnds(b, rest);
    Restarts(rest, b.lastEventId);
    hide *;
  }

  // A block of one `data` line is an event of the default type under the id in force.
  lemma DataBlock(value: Text, rest: Text, last: Text)
    requires 0x0A !in value && 0x0D !in value && (rest == [] || rest[0] != 0xFEFF)
    ensures Interpret([0x64, 0x61, 0x74, 0x61, 0x3A, 0x20] + value + [0x0A] + ([0x0A] + rest), last) ==
            [Event([0x6D, 0x65, 0x73, 0x73, 0x61, 0x67, 0x65], value, last)] + Interpret(rest, last)
  {
    PlainIs(value);
    assert DATA + [COLON, SPACE] == [0x64, 0x61, 0x74, 0x61, 0x3A, 0x20];
    OneFieldBlock(DATA, value, rest, last);
    assert DropLastLineFeed([] + value + [LF]) == value;
    hide Interpret;
  }

  // A block of one `id` line is a checkpoint, and the id stays in force.
  lemma IdBlock(id: Text, rest: Text, last: Text)
    requires 0x0A !in id && 0x0D !in id && 0x00 !in id && (rest == [] || rest[0] != 0xFEFF)
    ensures Interpret([0x69, 0x64, 0x3A, 0x20] + id + [0x0A] + ([0x0A] + rest), last) ==
            [Checkpoint(id)] + Interpret(rest, id)
  {
    PlainIs(id);
    assert ID + [COLON, SPACE] == [0x69, 0x64, 0x3A, 0x20];
    OneFieldBlock(ID, id, rest, last);
    hide Interpret;
  }

  // A block of one `event` line, or of no line at all, is nothing, and its type does not stay.
  lemma EmptyBlocks(eventType: Text, rest: Text, last: Text)
    requires 0x0A !in eventType && 0x0D !in eventType && (rest == [] || rest[0] != 0xFEFF)
    ensures Interpret([0x65, 0x76, 0x65, 0x6E, 0x74, 0x3A, 0x20] + eventType + [0x0A] + ([0x0A] + rest), last) ==
            Interpret(rest, last)
    ensures Interpret([0x0A] + rest, last) == Interpret(rest, last)
  {
    PlainIs(eventType);
    assert EVENT + [COLON, SPACE] == [0x65, 0x76, 0x65, 0x6E, 0x74, 0x3A, 0x20];
    OneFieldBlock(EVENT, eventType, rest, last);
    Restarts([LF] + rest, last);
    BlankEnds(Start(last), rest);
    Restarts(rest, last);
    hide Interpret;
  }

  // The wire form of an event, in units: its id, its type and its data, here of one line.
  lemma EventOnTheWire(id: Text, eventType: Text, data: Text, last: Text)
    requires Sendable(id, eventType, data) && 0x0A !in data
    ensures var text := [0x69, 0x64, 0x3A, 0x20] + id + [0x0A] + [0x65, 0x76, 0x65, 0x6E, 0x74, 0x3A, 0x20] + eventType
                        + [0x0A] + [0x64, 0x61, 0x74, 0x61, 0x3A, 0x20] + data + [0x0A, 0x0A];
            && text == Wire(id, eventType, data)
            && Interpret(text, last) ==
               [Event(if eventType == [] then [0x6D, 0x65, 0x73, 0x73, 0x61, 0x67, 0x65] else eventType, data, id)]
  {
    WireRoundTrip(id, eventType, data, last);
    WireUnits(id, eventType, data);
    hide Interpret, Sendable, Wire;
  }

  lemma WireUnits(id: Text, eventType: Text, data: Text)
    requires 0x0A !in data
    ensures [0x69, 0x64, 0x3A, 0x20] + id + [0x0A] + [0x65, 0x76, 0x65, 0x6E, 0x74, 0x3A, 0x20] + eventType + [0x0A] +
            [0x64, 0x61, 0x74, 0x61, 0x3A, 0x20] + data + [0x0A, 0x0A] == Wire(id, eventType, data)
  {
    IndexOfFirst(data, LF, 0, |data|);
    assert DataLines(data) == Field(DATA, data) + [LF];
    assert ID + [COLON, SPACE] == [0x69, 0x64, 0x3A, 0x20];
    assert EVENT + [COLON, SPACE] == [0x65, 0x76, 0x65, 0x6E, 0x74, 0x3A, 0x20];
    assert DATA + [COLON, SPACE] == [0x64, 0x61, 0x74, 0x61, 0x3A, 0x20];
    Grouped(Field(ID, id), Field(EVENT, eventType), [0x64, 0x61, 0x74, 0x61, 0x3A, 0x20], data);
    hide *;
  }

  lemma Grouped(a: Text, b: Text, c: Text, d: Text)
    ensures a + [LF] + (b + [LF] + (c + d + [LF] + [LF])) == a + [LF] + b + [LF] + c + d + [LF, LF]
  {
  }

  // The data lines of an event count together, each with its line feed.
  lemma DataAddsUp(first: Text, second: Text, last: Text)
    requires WellFormed(first) && WellFormed(second) && 0x0D !in first && 0x0D !in second
    requires Utf8Length(first) + 1 <= 8_388_608 && Utf8Length(second) + 1 <= 8_388_608 && 0x0A !in second
    ensures Verdict(DataLines(first) + ([0x64, 0x61, 0x74, 0x61, 0x3A, 0x20] + second + [0x0A]), last) ==
            if Utf8Length(first) + 1 + Utf8Length(second) + 1 > 8_388_608 then Some(EventSize) else None
  {
    var rest := [0x64, 0x61, 0x74, 0x61, 0x3A, 0x20] + second + [0x0A];
    NoBytes();
    LacksIs(first, CR);
    DataLinesRead(Start(last), first, rest);
    DataBytes([], first);
    LastDataLine(Start(last).(data := [] + first + [LF]), second);
    StartsWithData(first, rest);
    hide Lines, Unfinished, ProcessLines, LineVerdict, Utf8Length, WellFormed, DataLines, StripBom;
  }

  lemma LastDataLine(b: Buffers, value: Text)
    requires WellFormed(value) && 0x0D !in value && 0x0A !in value && WellFormed(b.data)
    requires Utf8Length(value) + 1 <= 8_388_608
    ensures var text := [0x64, 0x61, 0x74, 0x61, 0x3A, 0x20] + value + [0x0A];
            LineVerdict(b, Lines(text), Unfinished(text)) ==
            if Utf8Length(b.data) + Utf8Length(value) + 1 > 8_388_608 then Some(EventSize) else None
  {
    var line := Field(DATA, value);
    assert line == [0x64, 0x61, 0x74, 0x61, 0x3A, 0x20] + value;
    PlainIs(value);
    FieldBytes(DATA, value);
    FieldLine(b, DATA, value);
    DataBytes(b.data, value);
    FirstLine(b, line, []);
    NoLines();
    NoBytes();
    hide Lines, Unfinished, ProcessLines, Utf8Length, WellFormed, ProcessLine, Plain;
    assert line + [LF] + [] == line + [LF];
  }

  lemma StartsWithData(data: Text, rest: Text)
    ensures StripBom(DataLines(data) + rest) == DataLines(data) + rest
  {
    assert DataLines(data)[0] == 0x64;
  }

  lemma {:induction false} LacksIs(s: Text, u: Unit)
    ensures Lacks(s, u) <==> u !in s
  {
    if |s| > 0 {
      LacksIs(s[1..], u);
      assert s == [s[0]] + s[1..];
    }
  }
}
