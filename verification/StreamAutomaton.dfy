/**
 The event-stream grammar as an automaton that reads one code unit at a time.
 Reading a text in pieces or at once is the same for it by construction, so it links the chunked parser
 to the whole-text meaning.
 */
module StreamAutomaton {
  import opened Utf16
  import opened Wrappers
  import opened EventStream

  datatype State = State(atStart: bool, skipLineFeed: bool, line: Text, buffers: Buffers)

  datatype Outcome =
    | Running(state: State, items: seq<Item>)
    | Stopped(error: LimitError, items: seq<Item>)
  {
    function Verdict(): Option<LimitError> {
      if Running? then None else Some(error)
    }
  }

  function Initial(initialLastEventId: Text): State {
    State(true, false, [], Start(initialLastEventId))
  }

  function EndLine(st: State, terminator: Unit): Outcome {
    var (next, items) := ProcessLine(st.buffers, st.line);
    if Utf8Length(next.data) > MAX_EVENT_BYTES then Stopped(EventSize, items)
    else Running(State(st.atStart, terminator == CR, [], next), items)
  }

  function Step(st: State, u: Unit): Outcome {
    var open := st.(atStart := false, skipLineFeed := false);
    if st.atStart && u == BOM then Running(st.(atStart := false), [])
    else if st.skipLineFeed && u == LF then Running(open, [])
    else if IsTerminator(u) then EndLine(open, u)
    else if Utf8Length(st.line + [u]) > MAX_LINE_BYTES then Stopped(LineSize, [])
    else Running(open.(line := st.line + [u]), [])
  }

  function Prepend(items: seq<Item>, o: Outcome): Outcome {
    match o
    case Running(st, more) => Running(st, items + more)
    case Stopped(e, more) => Stopped(e, items + more)
  }

  function Run(st: State, text: Text): Outcome
    decreases |text|
  {
    if |text| == 0 then Running(st, [])
    else match Step(st, text[0])
      case Stopped(e, items) => Stopped(e, items)
      case Running(next, items) => Prepend(items, Run(next, text[1..]))
  }

  function Continue(o: Outcome, text: Text): Outcome {
    match o
    case Running(st, items) => Prepend(items, Run(st, text))
    case Stopped(_, _) => o
  }

  lemma ContinuePrepend(items: seq<Item>, o: Outcome, text: Text)
    ensures Continue(Prepend(items, o), text) == Prepend(items, Continue(o, text))
  {
    if o.Running? {
      var more := Run(o.state, text).items;
      assert items + (o.items + more) == (items + o.items) + more;
    }
  }

  // Reading a concatenation is reading its parts in turn.
  lemma {:induction false} RunConcat(st: State, a: Text, b: Text)
    ensures Run(st, a + b) == Continue(Run(st, a), b)
    decreases |a|
  {
    if |a| == 0 {
      assert a + b == b;
      assert [] + Run(st, b).items == Run(st, b).items;
    } else {
      assert (a + b)[1..] == a[1..] + b;
      var first := Step(st, a[0]);
      if first.Running? {
        RunConcat(first.state, a[1..], b);
        ContinuePrepend(first.items, Run(first.state, a[1..]), b);
      }
    }
  }

  // A stretch without terminators only extends the current line; its size decides the verdict.
  lemma {:induction false} RunPlain(st: State, fragment: Text)
    requires !st.atStart && !st.skipLineFeed
    requires Utf8Length(st.line) <= MAX_LINE_BYTES
    requires Plain(fragment)
    ensures Run(st, fragment) ==
            if Utf8Length(st.line + fragment) > MAX_LINE_BYTES then Stopped(LineSize, [])
            else Running(st.(line := st.line + fragment), [])
    decreases |fragment|
  {
    if |fragment| == 0 {
      assert st.line + fragment == st.line;
    } else {
      var longer := st.line + [fragment[0]];
      assert longer + fragment[1..] == st.line + fragment;
      Utf8LengthMonotone(longer, fragment[1..]);
      if Utf8Length(longer) <= MAX_LINE_BYTES {
        RunPlain(st.(line := longer), fragment[1..]);
      }
    }
  }

  lemma PrependNothing(o: Outcome)
    ensures Prepend([], o) == o
  {
    assert [] + o.items == o.items;
  }

  lemma RunNothing(st: State)
    ensures Run(st, []) == Running(st, [])
  {
  }

  lemma PrependStopped(items: seq<Item>, e: LimitError, more: seq<Item>)
    ensures Prepend(items, Stopped(e, more)) == Stopped(e, items + more)
  {
  }

  lemma PrependRunning(items: seq<Item>, st: State)
    ensures Prepend(items, Running(st, [])) == Running(st, items)
  {
  }

  lemma PrependTwice(first: seq<Item>, second: seq<Item>, o: Outcome)
    ensures Prepend(first, Prepend(second, o)) == Prepend(first + second, o)
  {
    assert first + (second + o.items) == (first + second) + o.items;
  }

  // After a CR, an immediately following LF is ignored and anything else is read normally.
  lemma RunAfterCr(st: State, text: Text)
    requires !st.atStart && st.skipLineFeed
    ensures var open := st.(skipLineFeed := false);
            var rest := if |text| > 0 && text[0] == LF then text[1..] else text;
            Run(st, text).Verdict() == Run(open, rest).Verdict() && Run(st, text).items == Run(open, rest).items
  {
  }

  lemma RunTerminator(st: State, text: Text)
    requires !st.atStart && !st.skipLineFeed
    requires |text| > 0 && IsTerminator(text[0])
    ensures Run(st, text) == Continue(EndLine(st, text[0]), text[1..])
  {
    assert st.(atStart := false, skipLineFeed := false) == st;
    assert Step(st, text[0]) == EndLine(st, text[0]);
  }

  // Reading up to the next terminator, and then the terminator itself.
  lemma RunLine(st: State, text: Text)
    requires !st.atStart && !st.skipLineFeed
    requires Utf8Length(st.line) <= MAX_LINE_BYTES
    ensures var k := LineEnd(text);
            var line := st.line + text[..k];
            if Utf8Length(line) > MAX_LINE_BYTES then Run(st, text) == Stopped(LineSize, [])
            else if k == |text| then Run(st, text) == Running(st.(line := line), [])
            else Run(st, text) == Continue(EndLine(st.(line := line), text[k]), text[k + 1..])
  {
    var k := LineEnd(text);
    var fragment := text[..k];
    var rest := text[k..];
    assert fragment + rest == text;
    RunPlain(st, fragment);
    RunConcat(st, fragment, rest);
    hide Run, Utf8Length, Step;
    if Utf8Length(st.line + fragment) <= MAX_LINE_BYTES {
      var full := st.(line := st.line + fragment);
      PrependNothing(Run(full, rest));
      if k < |text| {
        assert rest[1..] == text[k + 1..];
        RunTerminator(full, rest);
      } else {
        RunNothing(full);
      }
    }
  }

  // After a terminator, the automaton goes on as from the start of the next line.
  lemma RunNextLine(next: Buffers, text: Text, k: nat)
    requires k < |text| && IsTerminator(text[k])
    ensures var after := Run(State(false, text[k] == CR, [], next), text[k + 1..]);
            var clean := Run(State(false, false, [], next), AfterLine(text, k));
            after.Verdict() == clean.Verdict() && after.items == clean.items
  {
    var rest := text[k + 1..];
    if text[k] == CR {
      RunAfterCr(State(false, true, [], next), rest);
      assert |rest| > 0 && rest[0] == LF ==> rest[1..] == AfterLine(text, k);
    }
  }

  // The flag that remembers a CR matters for an LF only.
  lemma RunNoLineFeed(st: State, text: Text)
    requires !st.atStart && |text| > 0 && text[0] != LF
    ensures Run(st, text) == Run(st.(skipLineFeed := false), text)
  {
    assert Step(st, text[0]) == Step(st.(skipLineFeed := false), text[0]);
  }

  lemma RunSkippedLineFeed(st: State, text: Text)
    requires !st.atStart && st.skipLineFeed && |text| > 0 && text[0] == LF
    ensures Run(st, text) == Run(st.(skipLineFeed := false), text[1..])
  {
    PrependNothing(Run(st.(skipLineFeed := false), text[1..]));
  }

  // The byte order mark is dropped from the first unit ever read, and only there.
  lemma RunStart(st: State, text: Text)
    requires st.atStart && |text| > 0
    ensures Run(st, text) == Run(st.(atStart := false), StripBom(text))
  {
    if text[0] == BOM {
      PrependNothing(Run(st.(atStart := false), text[1..]));
    } else {
      assert Step(st, text[0]) == Step(st.(atStart := false), text[0]);
    }
  }

  // From a line start, the automaton gives the verdict and the items of the lines of the text.
  lemma {:induction false} RunLines(st: State, text: Text)
    requires !st.atStart && !st.skipLineFeed && st.line == []
    ensures Run(st, text).Verdict() == LineVerdict(st.buffers, Lines(text), Unfinished(text))
    ensures Run(st, text).Running? ==> Run(st, text).items == ProcessLines(st.buffers, Lines(text))
    ensures Run(st, text).items <= ProcessLines(st.buffers, Lines(text))
    decreases |text|
  {
    hide ProcessLine;
    var k := LineEnd(text);
    var line := text[..k];
    assert st.line + line == line;
    RunLine(st, text);
    if k == |text| {
      assert line == text;
    } else {
      var rest := AfterLine(text, k);
      assert Lines(text)[0] == line && Lines(text)[1..] == Lines(rest);
      var (next, items) := ProcessLine(st.buffers, line);
      if Utf8Length(line) <= MAX_LINE_BYTES && Utf8Length(next.data) <= MAX_EVENT_BYTES {
        RunNextLine(next, text, k);
        RunLines(State(false, false, [], next), rest);
        assert Run(st, text).items == items + Run(State(false, text[k] == CR, [], next), text[k + 1..]).items;
      }
    }
  }

  // The automaton computes the whole-text meaning: same verdict, the same items when no limit is
  // met, and a prefix of them otherwise.
  lemma RunIsInterpret(text: Text, initialLastEventId: Text)
    ensures var o := Run(Initial(initialLastEventId), text);
            && o.Verdict() == Verdict(text, initialLastEventId)
            && (o.Running? ==> o.items == Interpret(text, initialLastEventId))
            && o.items <= Interpret(text, initialLastEventId)
  {
    var st := Initial(initialLastEventId).(atStart := false);
    RunLines(st, StripBom(text));
    if |text| == 0 {
      assert LineEnd(text) == 0;
    } else {
      RunStart(Initial(initialLastEventId), text);
    }
  }
}
