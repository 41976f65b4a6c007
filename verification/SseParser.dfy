/** `IncrementalSseParser` and the stream loop around it. */
module SseParser {
  import opened Utf16
  import opened Wrappers
  import opened Decimals
  import opened EventStream
  import opened StreamAutomaton
  import opened Utf8Decoder

  const SEGMENT := 4096
  const WINDOW := 4096

  /** Full segments of exactly SEGMENT units, then a shorter one. */
  predicate Segmented(fragments: seq<Text>, pending: Text) {
    |pending| < SEGMENT && Full(fragments)
  }

  predicate Full(fragments: seq<Text>) {
    |fragments| == 0 || (|fragments[|fragments| - 1]| == SEGMENT && Full(fragments[..|fragments| - 1]))
  }

  lemma {:induction false} FullLength(fragments: seq<Text>)
    requires Full(fragments)
    ensures |Join(fragments)| == SEGMENT * |fragments|
  {
    if |fragments| != 0 { FullLength(fragments[..|fragments| - 1]); }
  }

  /**
   The representation of a buffer: its stored segments, then `newlines` line feeds that are only counted, are the
   buffer; `bytes` is its UTF-8 length.
   */
  ghost predicate Represents(fragments: seq<Text>, pending: Text, newlines: nat, bytes: nat, buffer: Text) {
    && Segmented(fragments, pending)
    && buffer == Join(fragments) + pending + Repeat(LF, newlines)
    && WellFormed(buffer)
    && bytes == Utf8Length(buffer)
  }

  /** So that removing the last unit of a data buffer removes exactly one line feed. */
  predicate LineFeedTerminated(data: Text) {
    data != [] ==> data[|data| - 1] == LF
  }

  /** Appends a value to a segmented buffer. */
  method AppendSegments(fragments: seq<Text>, pending: Text, value: Text)
    returns (newFragments: seq<Text>, newPending: Text)
    requires Segmented(fragments, pending)
    ensures Segmented(newFragments, newPending)
    ensures Join(newFragments) + newPending == Join(fragments) + pending + value
  {
    newFragments, newPending := fragments, pending;
    var offset := 0;
    while offset < |value|
      invariant 0 <= offset <= |value|
      invariant Segmented(newFragments, newPending)
      invariant Join(newFragments) + newPending == Join(fragments) + pending + value[..offset]
    {
      var room := SEGMENT - |newPending|;
      var take := if room < |value| - offset then room else |value| - offset;
      assert value[..offset + take] == value[..offset] + value[offset..offset + take];
      ghost var whole := Join(newFragments) + newPending;
      newPending := newPending + value[offset..offset + take];
      assert Join(newFragments) + newPending == whole + value[offset..offset + take];
      offset := offset + take;
      if |newPending| == SEGMENT {
        JoinPush(newFragments, newPending);
        assert (newFragments + [newPending])[..|newFragments|] == newFragments;
        newFragments := newFragments + [newPending];
        newPending := [];
        assert Join(newFragments) + [] == Join(newFragments);
      }
    }
    assert value[..offset] == value;
  }

  // The bytes of a data buffer with one more line.
  lemma DataBytes(data: Text, value: Text)
    requires WellFormed(data) && WellFormed(value)
    ensures WellFormed(data + value + [LF])
    ensures Utf8Length(data + value + [LF]) == Utf8Length(data) + Utf8Length(value) + 1
  {
    var newline: Text := [LF];
    assert newline[1..] == [];
    Utf8LengthConcat(data, value);
    WellFormedConcat(data, value);
    Utf8LengthConcat(data + value, newline);
    WellFormedConcat(data + value, newline);
  }

  lemma NothingWellFormed()
    ensures WellFormed([])
  {
  }

  // Both sides of the next terminator are well formed.
  lemma SplitAtTerminator(text: Text)
    requires WellFormed(text)
    ensures WellFormed(text[..LineEnd(text)])
    ensures LineEnd(text) < |text| ==> WellFormed(text[LineEnd(text) + 1..])
  {
    var k := LineEnd(text);
    WellFormedSplit(text, k);
    if k < |text| { WellFormedSplit(text, k + 1); }
  }

  lemma NothingRepresented()
    ensures Represents([], [], 0, 0, [])
  {
    assert Repeat(LF, 0) == [];
  }

  lemma LineExtended(fragments: seq<Text>, pending: Text, bytes: nat, line: Text, fragment: Text)
    requires Represents(fragments, pending, 0, bytes, line) && WellFormed(fragment)
    ensures line == Join(fragments) + pending
    ensures WellFormed(line + fragment) && Utf8Length(line + fragment) == bytes + Utf8Length(fragment)
    ensures forall f, p :: Segmented(f, p) && Join(f) + p == line + fragment ==>
      Represents(f, p, 0, bytes + Utf8Length(fragment), line + fragment)
  {
    assert Repeat(LF, 0) == [];
    Utf8LengthConcat(line, fragment);
    WellFormedConcat(line, fragment);
  }

  /** A call ended as the automaton does: the same error, or the same state, and the same new items. */
  ghost predicate Follows(o: Outcome, error: Option<LimitError>, state: State, before: seq<Item>, after: seq<Item>) {
    && error == o.Verdict()
    && after == before + o.items
    && (o.Running? ==> o.state == state)
  }

  class IncrementalSseParser {
    var items: seq<Item>
    var dataFragments: seq<Text>
    var lineFragments: seq<Text>
    var pendingData: Text
    var pendingLine: Text
    var emptyDataLines: nat
    var lineBytes: nat
    var eventDataBytes: nat
    var skipLineFeed: bool
    var atStart: bool
    var eventType: Text
    var lastEventId: Text
    var blockIdChanged: bool

    /** The current line, of which only the segments are stored. */
    ghost var line: Text
    /** The data buffer of the specification: stored segments, then the empty lines that are only counted. */
    ghost var data: Text

    ghost function Buffers(): Buffers
      reads `data, `eventType, `lastEventId, `blockIdChanged
    {
      EventStream.Buffers(data, eventType, lastEventId, blockIdChanged)
    }

    ghost function Abs(): State
      reads this
    {
      State(atStart, skipLineFeed, line, Buffers())
    }

    ghost predicate ValidLine()
      reads `lineFragments, `pendingLine, `lineBytes, `line
    {
      Represents(lineFragments, pendingLine, 0, lineBytes, line) && lineBytes <= MAX_LINE_BYTES
    }

    ghost predicate ValidData()
      reads `dataFragments, `pendingData, `emptyDataLines, `eventDataBytes, `data
    {
      && Represents(dataFragments, pendingData, emptyDataLines, eventDataBytes, data)
      && eventDataBytes <= MAX_EVENT_BYTES
      && LineFeedTerminated(data)
    }

    ghost predicate Valid()
      reads this
    {
      ValidLine() && ValidData()
    }

    constructor (initialLastEventId: Text)
      ensures Valid() && Abs() == Initial(initialLastEventId) && items == []
    {
      items, dataFragments, lineFragments, pendingData, pendingLine := [], [], [], [], [];
      emptyDataLines, lineBytes, eventDataBytes := 0, 0, 0;
      skipLineFeed, atStart := false, true;
      eventType, lastEventId, blockIdChanged := [], initialLastEventId, false;
      line, data := [], [];
      NothingRepresented();
    }

    // No more segments than the byte budgets pay for.
    lemma SegmentsBounded()
      requires Valid()
      ensures 4_096 * |lineFragments| <= lineBytes && 4_096 * |dataFragments| <= eventDataBytes
      ensures |lineFragments| <= 2048 && |dataFragments| <= 2048
    {
      FullLength(lineFragments);
      FullLength(dataFragments);
      UnitsAtMostBytes(line);
      UnitsAtMostBytes(data);
    }

    lemma LineFits()
      requires ValidLine()
      ensures Utf8Length(line) <= MAX_LINE_BYTES
    {
    }

    method TakeItems() returns (taken: seq<Item>)
      modifies this`items
      ensures taken == old(items) && items == []
      ensures Abs() == old(Abs()) && (old(Valid()) ==> Valid())
    {
      taken := [];
      while |items| > 0
        invariant taken + items == old(items)
        decreases |items|
      {
        taken := taken + [items[0]];
        items := items[1..];
      }
    }

    method AppendLine(value: Text)
      requires Segmented(lineFragments, pendingLine)
      modifies this`lineFragments, this`pendingLine
      ensures Segmented(lineFragments, pendingLine)
      ensures Join(lineFragments) + pendingLine == old(Join(lineFragments) + pendingLine) + value
    {
      lineFragments, pendingLine := AppendSegments(lineFragments, pendingLine, value);
    }

    method AppendData(value: Text)
      requires Segmented(dataFragments, pendingData)
      modifies this`dataFragments, this`pendingData
      ensures Segmented(dataFragments, pendingData)
      ensures Join(dataFragments) + pendingData == old(Join(dataFragments) + pendingData) + value
    {
      dataFragments, pendingData := AppendSegments(dataFragments, pendingData, value);
    }

    method FlushEmptyData()
      requires Segmented(dataFragments, pendingData)
      modifies this`dataFragments, this`pendingData, this`emptyDataLines
      ensures Segmented(dataFragments, pendingData) && emptyDataLines == 0
      ensures Join(dataFragments) + pendingData ==
              old(Join(dataFragments) + pendingData + Repeat(LF, emptyDataLines))
    {
      if emptyDataLines > 0 {
        AppendData(Repeat(LF, emptyDataLines));
        emptyDataLines := 0;
      } else {
        assert Repeat(LF, 0) == [];
      }
    }

    /** Sends out the current block: its event, or the checkpoint of a block with an id and no data. */
    method EmitBlock()
      requires ValidData()
      modifies this`items, this`dataFragments, this`pendingData, this`emptyDataLines
      ensures items == old(items) + Dispatch(old(Buffers())).1
    {
      UnitsAtMostBytes(data);
      assert data == [] <==> eventDataBytes == 0;
      if eventDataBytes > 0 {
        FlushEmptyData();
        var all := Join(dataFragments) + pendingData;
        assert all == data;
        items := items + [Event(if |eventType| == 0 then MESSAGE else eventType, all[..|all| - 1], lastEventId)];
      } else if blockIdChanged {
        items := items + [Checkpoint(lastEventId)];
      }
    }

    method DispatchBlock()
      requires ValidData()
      modifies this`items, this`dataFragments, this`pendingData, this`emptyDataLines, this`eventDataBytes,
               this`eventType, this`blockIdChanged, this`data
      ensures ValidData()
      ensures Buffers() == Dispatch(old(Buffers())).0
      ensures items == old(items) + Dispatch(old(Buffers())).1
    {
      EmitBlock();
      ClearBlock();
    }

    method ClearBlock()
      modifies this`dataFragments, this`pendingData, this`emptyDataLines, this`eventDataBytes,
               this`eventType, this`blockIdChanged, this`data
      ensures ValidData() && Buffers() == Start(lastEventId)
    {
      dataFragments := [];
      pendingData := [];
      emptyDataLines := 0;
      eventDataBytes := 0;
      eventType := [];
      blockIdChanged := false;
      data := [];
      NothingRepresented();
    }

    /** A `data` field: counts the bytes first, then appends, keeping runs of empty lines as a number. */
    method DataField(value: Text) returns (error: Option<LimitError>)
      requires ValidData() && WellFormed(value)
      modifies this`dataFragments, this`pendingData, this`emptyDataLines, this`eventDataBytes, this`data
      ensures error == if Utf8Length(old(data) + value + [LF]) > MAX_EVENT_BYTES then Some(EventSize) else None
      ensures error.None? ==> ValidData() && data == old(data) + value + [LF]
    {
      DataBytes(data, value);
      UnitsAtMostBytes(value);
      eventDataBytes := eventDataBytes + (if |value| == 0 then 0 else Utf8Length(value)) + 1;
      if eventDataBytes > MAX_EVENT_BYTES { return Some(EventSize); }
      if |value| == 0 {
        assert Repeat(LF, emptyDataLines + 1) == Repeat(LF, emptyDataLines) + [LF];
        emptyDataLines := emptyDataLines + 1;
      } else {
        FlushEmptyData();
        AppendData(value + [LF]);
        assert Repeat(LF, 0) == [];
      }
      data := data + value + [LF];
      return None;
    }

    method HandleField(field: Text, value: Text) returns (error: Option<LimitError>)
      requires ValidData() && WellFormed(value)
      modifies this`items, this`dataFragments, this`pendingData, this`emptyDataLines, this`eventDataBytes,
               this`eventType, this`lastEventId, this`blockIdChanged, this`data
      ensures var (next, out) := ProcessField(old(Buffers()), field, value);
              && error == (if Utf8Length(next.data) > MAX_EVENT_BYTES then Some(EventSize) else None)
              && items == old(items) + out
              && (error.None? ==> ValidData() && Buffers() == next)
    {
      error := None;
      if field == DATA {
        error := DataField(value);
      } else if field == EVENT {
        eventType := value;
      } else if field == ID {
        if NUL !in value {
          lastEventId := value;
          blockIdChanged := true;
        }
      } else if field == RETRY {
        if |value| > 0 && AllDigits(value) {
          var milliseconds := Decimal(value);
          if milliseconds <= MAX_SAFE_INTEGER { items := items + [Retry(milliseconds)]; }
        }
      }
    }

    method HandleLine(line: Text) returns (error: Option<LimitError>)
      requires ValidData() && WellFormed(line)
      modifies this`items, this`dataFragments, this`pendingData, this`emptyDataLines, this`eventDataBytes,
               this`eventType, this`lastEventId, this`blockIdChanged, this`data
      ensures var (next, out) := ProcessLine(old(Buffers()), line);
              && error == (if Utf8Length(next.data) > MAX_EVENT_BYTES then Some(EventSize) else None)
              && items == old(items) + out
              && (error.None? ==> ValidData() && Buffers() == next)
    {
      if |line| == 0 {
        DispatchBlock();
        return None;
      }
      if line[0] == COLON { return None; }
      var colon := IndexOf(line, COLON, 0);
      var field := line[..colon];
      var value := if colon == |line| then [] else line[colon + 1..];
      if colon < |line| { WellFormedSplit(line, colon + 1); }
      if |value| > 0 && value[0] == SPACE {
        WellFormedSplit(value, 1);
        value := value[1..];
      }
      assert field == FieldName(line) && value == FieldValue(line);
      error := HandleField(field, value);
    }

    /** The current line takes `fragment`; an error says that it is too long now. */
    method ExtendLine(fragment: Text) returns (error: Option<LimitError>)
      requires Valid() && WellFormed(fragment)
      modifies this`lineFragments, this`pendingLine, this`lineBytes, this`line
      ensures error == if Utf8Length(old(line) + fragment) > MAX_LINE_BYTES then Some(LineSize) else None
      ensures error.None? ==> Valid() && line == old(line) + fragment
    {
      LineExtended(lineFragments, pendingLine, lineBytes, line, fragment);
      lineBytes := lineBytes + (if |fragment| == 0 then 0 else Utf8Length(fragment));
      if lineBytes > MAX_LINE_BYTES { return Some(LineSize); }
      AppendLine(fragment);
      line := line + fragment;
      return None;
    }

    /** Starts the next line. */
    method ClearLine(terminator: Unit)
      requires ValidData()
      modifies this`lineFragments, this`pendingLine, this`lineBytes, this`skipLineFeed, this`line
      ensures Valid() && line == [] && skipLineFeed == (terminator == CR)
      ensures Buffers() == old(Buffers())
    {
      hide Represents;
      lineFragments := [];
      pendingLine := [];
      lineBytes := 0;
      skipLineFeed := terminator == CR;
      line := [];
      NothingRepresented();
    }

    /** The terminator of the current line has been read. */
    method FinishLine(terminator: Unit) returns (error: Option<LimitError>)
      requires Valid() && IsTerminator(terminator)
      modifies this
      ensures Follows(EndLine(old(Abs()), terminator), error, Abs(), old(items), items)
      ensures error.None? ==> Valid() && atStart == old(atStart)
    {
      assert line == Join(lineFragments) + pendingLine by { assert Repeat(LF, 0) == []; }
      hide ProcessLine, Utf8Length, WellFormed, Join, Repeat, ValidData;
      error := HandleLine(Join(lineFragments) + pendingLine);
      if error.None? {
        ClearLine(terminator);
      }
    }

    /** One pass of the loop of `Feed`: a line feed to skip, or the text up to and including the next terminator. */
    method FeedPass(rest: Text) returns (error: Option<LimitError>, used: nat)
      requires Valid() && !atStart && WellFormed(rest) && |rest| > 0
      modifies this
      ensures error.None? ==> Valid() && !atStart && 0 < used <= |rest| && WellFormed(rest[used..])
      ensures old(items) <= items
      ensures var out := items[|old(items)|..];
              if error.Some? then Run(old(Abs()), rest) == Stopped(error.value, out)
              else used <= |rest| && Run(old(Abs()), rest) == Prepend(out, Run(Abs(), rest[used..]))
    {
      hide ValidLine, ValidData, Run, EndLine, Utf8Length, WellFormed, IsTerminator;
      used := 0;
      ghost var before := items;
      if skipLineFeed {
        if rest[0] == LF {
          RunSkippedLineFeed(Abs(), rest);
          WellFormedSplit(rest, 1);
          skipLineFeed := false;
          PrependNothing(Run(Abs(), rest[1..]));
          return None, 1;
        }
        RunNoLineFeed(Abs(), rest);
        skipLineFeed := false;
      }
      var end := LineEnd(rest);
      SplitAtTerminator(rest);
      LineFits();
      RunLine(Abs(), rest);
      error := ExtendLine(rest[..end]);
      if error.Some? { return; }
      if end == |rest| {
        assert rest[..end] == rest && rest[end..] == [];
        RunNothing(Abs());
        NothingWellFormed();
        return None, end;
      }
      error := FinishLine(rest[end]);
      used := end + 1;
    }

    /** Reads one decoded chunk; an error leaves the parser unusable. */
    method Feed(decoded: Text) returns (error: Option<LimitError>)
      requires Valid() && WellFormed(decoded)
      modifies this
      ensures Follows(Run(old(Abs()), decoded), error, Abs(), old(items), items)
      ensures error.None? ==> Valid()
    {
      hide ValidLine, ValidData, Run, Prepend, Step, WellFormed;
      var value := decoded;
      ghost var total := Run(Abs(), decoded);
      if atStart && |value| > 0 {
        RunStart(Abs(), value);
        atStart := false;
        if value[0] == BOM {
          WellFormedSplit(value, 1);
          value := value[1..];
        }
      }
      ghost var out := [];
      PrependNothing(total);
      var offset := 0;
      assert value[offset..] == value;
      while offset < |value|
        invariant 0 <= offset <= |value| && Valid() && WellFormed(value[offset..])
        invariant atStart ==> value == []
        invariant items == old(items) + out
        invariant total == Prepend(out, Run(Abs(), value[offset..]))
      {
        ghost var rest := value[offset..];
        ghost var was := items;
        var used;
        error, used := FeedPass(value[offset..]);
        ghost var produced := items[|was|..];
        assert items == old(items) + (out + produced);
        if error.Some? {
          PrependStopped(out, error.value, produced);
          return;
        }
        assert rest[used..] == value[offset + used..];
        PrependTwice(out, produced, Run(Abs(), value[offset + used..]));
        out := out + produced;
        offset := offset + used;
      }
      assert value[offset..] == [];
      RunNothing(Abs());
      PrependRunning(out, Abs());
      return None;
    }
  }

  /** How the transport ends: with the end of the body, or with a failing read. */
  datatype StreamEnd = Done | ReadFails

  /** Why a stream ends early: a limit, a failing read, the caller's signal, or a consumer that pulls no more. */
  datatype StreamError = Limit(error: LimitError) | Read | Aborted | Left

  /** What the environment does after so many chunks read and so many items yielded. */
  datatype Signal = Goes | Aborts | Leaves

  type Watch = (nat, nat) -> Signal

  function Concat(chunks: seq<seq<Byte>>): seq<Byte> {
    if |chunks| == 0 then [] else chunks[0] + Concat(chunks[1..])
  }

  /** The text that the remaining bytes decode to; only a complete body is flushed. */
  function TextFrom(d: Decoder, bytes: seq<Byte>, end: StreamEnd): Text
    requires Valid(d)
  {
    var (last, units) := Decode(d, bytes);
    units + (if end.Done? then Flush(last) else [])
  }

  lemma TextFromConcat(d: Decoder, a: seq<Byte>, b: seq<Byte>, end: StreamEnd)
    requires Valid(d)
    ensures TextFrom(d, a + b, end) == Decode(d, a).1 + TextFrom(Decode(d, a).0, b, end)
  {
    DecodeConcat(d, a, b);
    hide Decode, Flush;
  }

  /** The result that the whole text of a stream calls for, whatever its chunks were. */
  ghost predicate StreamResult(text: Text, initialLastEventId: Text, end: StreamEnd,
                               yielded: seq<Item>, error: Option<StreamError>) {
    && yielded <= Interpret(text, initialLastEventId)
    && match Verdict(text, initialLastEventId)
       case Some(limit) => error == Some(Limit(limit))
       case None =>
         && yielded == Interpret(text, initialLastEventId)
         && error == if end.Done? then None else Some(Read)
  }

  /** What has been yielded when `n` bytes are read: all items that their text completes. */
  ghost predicate Delivered(bytes: seq<Byte>, n: nat, initialLastEventId: Text, yielded: seq<Item>)
    requires n <= |bytes|
  {
    var o := Run(Initial(initialLastEventId), Decode(FRESH, bytes[..n]).1);
    o.Running? && o.items == yielded
  }

  /** The limit is exceeded between `n` and `m` bytes, at most a window later, or by what the end of the body leaves. */
  ghost predicate StopsBetween(bytes: seq<Byte>, end: StreamEnd, initialLastEventId: Text, n: nat, m: nat) {
    && n <= m <= |bytes| && m <= n + WINDOW && (n == m ==> m == |bytes|)
    && Run(Initial(initialLastEventId), if n < m then Decode(FRESH, bytes[..m]).1
           else TextFrom(FRESH, bytes, end)).Stopped?
  }

  /** Nothing that was complete before the last window is withheld by a limit error. */
  ghost predicate LimitIsPrompt(bytes: seq<Byte>, end: StreamEnd, initialLastEventId: Text, yielded: seq<Item>) {
    exists n: nat, m: nat ::
      StopsBetween(bytes, end, initialLastEventId, n, m) && Delivered(bytes, n, initialLastEventId, yielded)
  }

  // So at most the items of the last 4096 bytes before the limit are withheld.
  lemma WithinOneWindow(bytes: seq<Byte>, end: StreamEnd, initialLastEventId: Text, yielded: seq<Item>)
    requires LimitIsPrompt(bytes, end, initialLastEventId, yielded)
    ensures exists n: nat, m: nat ::
              && n <= m <= |bytes| && m <= n + 4_096
              && StopsBetween(bytes, end, initialLastEventId, n, m) && Delivered(bytes, n, initialLastEventId, yielded)
  {
    hide Run, Decode, TextFrom;
  }

  // What has been yielded before, and what the automaton says about the rest, is what the whole text calls for.
  lemma Concluded(initialLastEventId: Text, end: StreamEnd, yielded: seq<Item>, seen: Text, rest: Text)
    requires Run(Initial(initialLastEventId), seen).Running? && Run(Initial(initialLastEventId), seen).items == yielded
    ensures match Run(Initial(initialLastEventId), seen + rest)
            case Stopped(limit, _) => StreamResult(seen + rest, initialLastEventId, end, yielded, Some(Limit(limit)))
            case Running(_, items) =>
              items == yielded ==>
                StreamResult(seen + rest, initialLastEventId, end, yielded, if end.Done? then None else Some(Read))
  {
    RunIsInterpret(seen + rest, initialLastEventId);
    RunConcat(Initial(initialLastEventId), seen, rest);
    var st := Run(Initial(initialLastEventId), seen).state;
    assert yielded <= yielded + Run(st, rest).items;
  }

  /** The parser has read `seen`, the text of the first `n` bytes, and its items have been yielded. */
  ghost predicate Reached(initialLastEventId: Text, bytes: seq<Byte>, n: nat, decoder: Decoder, state: State,
                          yielded: seq<Item>) {
    && n <= |bytes| && Valid(decoder)
    && Decode(FRESH, bytes[..n]).0 == decoder
    && Run(Initial(initialLastEventId), Decode(FRESH, bytes[..n]).1) == Running(state, yielded)
  }

  lemma NothingReached(initialLastEventId: Text, bytes: seq<Byte>)
    ensures Reached(initialLastEventId, bytes, 0, FRESH, Initial(initialLastEventId), [])
  {
    FreshValid();
  }

  // One window: its text follows the text before it.
  lemma NextWindow(bytes: seq<Byte>, n: nat, window: seq<Byte>)
    requires n + |window| <= |bytes| && bytes[n..n + |window|] == window
    ensures var (d, seen) := Decode(FRESH, bytes[..n]);
            Decode(FRESH, bytes[..n + |window|]) == (Decode(d, window).0, seen + Decode(d, window).1)
  {
    FreshValid();
    hide Decode;
    DecodeConcat(FRESH, bytes[..n], window);
    hide *;
    assert bytes[..n] + window == bytes[..n + |window|];
  }

  // Reading on from a state that a text leads to.
  lemma ReadOn(st: State, seen: Text, state: State, yielded: seq<Item>, decoded: Text, later: Text)
    requires Run(st, seen) == Running(state, yielded)
    ensures Run(st, seen + decoded) == Prepend(yielded, Run(state, decoded))
    ensures Run(state, decoded).Stopped? ==>
              Run(st, seen + (decoded + later)) == Prepend(yielded, Run(state, decoded))
  {
    RunConcat(st, seen, decoded);
    RunConcat(st, seen, decoded + later);
    RunConcat(state, decoded, later);
  }

  /** The text after a window. */
  lemma TextAfter(bytes: seq<Byte>, end: StreamEnd, n: nat, window: seq<Byte>) returns (later: Text)
    requires n + |window| <= |bytes| && bytes[n..n + |window|] == window
    ensures var (d, seen) := Decode(FRESH, bytes[..n]);
            TextFrom(FRESH, bytes, end) == seen + (Decode(d, window).1 + later)
  {
    FreshValid();
    hide Decode, TextFrom;
    var m := n + |window|;
    var d := Decode(FRESH, bytes[..n]).0;
    later := TextFrom(Decode(d, window).0, bytes[m..], end);
    TextFromConcat(FRESH, bytes[..n], bytes[n..], end);
    TextFromConcat(d, window, bytes[m..], end);
    hide *;
    assert bytes[..n] + bytes[n..] == bytes;
    assert window + bytes[m..] == bytes[n..];
  }

  // A window that exceeds a limit.
  lemma LimitHit(initialLastEventId: Text, bytes: seq<Byte>, end: StreamEnd, n: nat, window: seq<Byte>,
                 decoder: Decoder,
                 state: State, yielded: seq<Item>, limit: LimitError)
    requires Reached(initialLastEventId, bytes, n, decoder, state, yielded)
    requires 0 < |window| <= WINDOW && n + |window| <= |bytes| && bytes[n..n + |window|] == window
    requires Run(state, Decode(decoder, window).1).Verdict() == Some(limit)
    ensures StreamResult(TextFrom(FRESH, bytes, end), initialLastEventId, end, yielded, Some(Limit(limit)))
    ensures LimitIsPrompt(bytes, end, initialLastEventId, yielded)
  {
    var seen, decoded := Decode(FRESH, bytes[..n]).1, Decode(decoder, window).1;
    var later := TextAfter(bytes, end, n, window);
    NextWindow(bytes, n, window);
    ReadOn(Initial(initialLastEventId), seen, state, yielded, decoded, later);
    Concluded(initialLastEventId, end, yielded, seen, decoded + later);
    hide Run, Decode, TextFrom, StreamResult, Valid;
    assert StopsBetween(bytes, end, initialLastEventId, n, n + |window|);
    assert Delivered(bytes, n, initialLastEventId, yielded);
  }

  // A window within the limits.
  lemma WindowRead(initialLastEventId: Text, bytes: seq<Byte>, n: nat, window: seq<Byte>, decoder: Decoder,
                   state: State, yielded: seq<Item>, next: State, items: seq<Item>)
    requires Reached(initialLastEventId, bytes, n, decoder, state, yielded)
    requires n + |window| <= |bytes| && bytes[n..n + |window|] == window
    requires Run(state, Decode(decoder, window).1) == Running(next, items)
    ensures Reached(initialLastEventId, bytes, n + |window|, Decode(decoder, window).0, next, yielded + items)
  {
    NextWindow(bytes, n, window);
    ReadOn(Initial(initialLastEventId), Decode(FRESH, bytes[..n]).1, state, yielded, Decode(decoder, window).1, []);
    hide Run, Decode;
  }

  // Where a limit is exceeded, or a window is read.
  lemma AfterWindow(initialLastEventId: Text, bytes: seq<Byte>, end: StreamEnd, n: nat, window: seq<Byte>,
                    decoder: Decoder,
                    state: State, yielded: seq<Item>, error: Option<LimitError>, next: State, items: seq<Item>)
    requires Reached(initialLastEventId, bytes, n, decoder, state, yielded)
    requires 0 < |window| <= WINDOW && n + |window| <= |bytes| && bytes[n..n + |window|] == window
    requires Valid(decoder) && Follows(Run(state, Decode(decoder, window).1), error, next, [], items)
    ensures match error
            case Some(limit) =>
              && StreamResult(TextFrom(FRESH, bytes, end), initialLastEventId, end, yielded, Some(Limit(limit)))
              && LimitIsPrompt(bytes, end, initialLastEventId, yielded)
            case None =>
              Reached(initialLastEventId, bytes, n + |window|, Decode(decoder, window).0, next, yielded + items)
  {
    Outcomes(Run(state, Decode(decoder, window).1), error, next, items);
    hide *;
    match error
    case Some(limit) => LimitHit(initialLastEventId, bytes, end, n, window, decoder, state, yielded, limit);
    case None => WindowRead(initialLastEventId, bytes, n, window, decoder, state, yielded, next, items);
  }

  lemma Outcomes(o: Outcome, error: Option<LimitError>, next: State, items: seq<Item>)
    requires Follows(o, error, next, [], items)
    ensures o.Verdict() == error && (error.None? ==> o == Running(next, items))
  {
    assert [] + o.items == o.items;
  }

  lemma NothingRead(state: State)
    ensures Follows(Run(state, []), None, state, [], [])
  {
  }

  // The end of the body.
  lemma AfterEnd(initialLastEventId: Text, bytes: seq<Byte>, end: StreamEnd, decoder: Decoder, state: State,
                 yielded: seq<Item>, error: Option<LimitError>, next: State, items: seq<Item>)
    requires Reached(initialLastEventId, bytes, |bytes|, decoder, state, yielded)
    requires Follows(Run(state, if end.Done? then Flush(decoder) else []), error, next, [], items)
    ensures match error
            case Some(limit) =>
              && StreamResult(TextFrom(FRESH, bytes, end), initialLastEventId, end, yielded, Some(Limit(limit)))
              && LimitIsPrompt(bytes, end, initialLastEventId, yielded)
            case None =>
              StreamResult(TextFrom(FRESH, bytes, end), initialLastEventId, end, yielded + items,
                           if end.Done? then None else Some(Read))
  {
    FreshValid();
    var seen, last := Decode(FRESH, bytes).1, if end.Done? then Flush(decoder) else [];
    assert bytes[..|bytes|] == bytes;
    RunConcat(Initial(initialLastEventId), seen, last);
    assert TextFrom(FRESH, bytes, end) == seen + last;
    hide Run, Decode, TextFrom, StreamResult, Valid;
    if error.Some? {
      Concluded(initialLastEventId, end, yielded, seen, last);
      assert StopsBetween(bytes, end, initialLastEventId, |bytes|, |bytes|);
      assert Delivered(bytes, |bytes|, initialLastEventId, yielded);
    } else {
      assert [] + items == items;
      Concluded(initialLastEventId, end, yielded + items, seen + last, []);
      assert seen + last + [] == seen + last;
    }
  }

  /** The signal let the first `n` items through, and the consumer came back after each of them. */
  ghost predicate Going(watch: Watch, n: nat) {
    forall k :: 0 <= k < n ==> LetThrough(watch, k)
  }

  ghost predicate LetThrough(watch: Watch, k: nat) {
    exists chunks :: !watch(chunks, k).Aborts? && !watch(chunks, k + 1).Leaves?
  }

  // What has been yielded on the way is a part of what the whole text calls for.
  lemma SoFar(initialLastEventId: Text, bytes: seq<Byte>, end: StreamEnd, n: nat, decoder: Decoder, state: State,
              yielded: seq<Item>)
    requires Reached(initialLastEventId, bytes, n, decoder, state, yielded)
    ensures yielded <= Interpret(TextFrom(FRESH, bytes, end), initialLastEventId)
  {
    FreshValid();
    TextFromConcat(FRESH, bytes[..n], bytes[n..], end);
    assert bytes[..n] + bytes[n..] == bytes;
    var seen := Decode(FRESH, bytes[..n]).1;
    var later := TextFrom(decoder, bytes[n..], end);
    hide Decode, TextFrom;
    RunConcat(Initial(initialLastEventId), seen, later);
    RunIsInterpret(seen + later, initialLastEventId);
    hide Run, Interpret;
    assert Run(Initial(initialLastEventId), seen + later).items == yielded + Run(state, later).items;
  }

  /**
   The signal or the consumer stopped the stream after `chunks` chunks, and a part of what the whole text calls for.
   */
  ghost predicate Interrupted(text: Text, initialLastEventId: Text, watch: Watch, chunks: nat, yielded: seq<Item>,
                              error: Option<StreamError>) {
    yielded <= Interpret(text, initialLastEventId) && StopsAt(watch, chunks, |yielded|, error)
  }

  /** After `n` items the signal has fired; or the consumer leaves, and has come back after all items but the last. */
  ghost predicate StopsAt(watch: Watch, chunks: nat, n: nat, error: Option<StreamError>) {
    || (watch(chunks, n).Aborts? && error == Some(Aborted) && Going(watch, n))
    || (n > 0 && watch(chunks, n).Leaves? && error == Some(Left) && Going(watch, n - 1))
  }

  lemma NowInterrupted(text: Text, initialLastEventId: Text, watch: Watch, chunks: nat, all: seq<Item>,
                       yielded: seq<Item>, error: Option<StreamError>)
    requires yielded <= all <= Interpret(text, initialLastEventId)
    requires StopsAt(watch, chunks, |yielded|, error)
    ensures Interrupted(text, initialLastEventId, watch, chunks, yielded, error)
  {
  }

  /** How many items the first `i` chunks complete. */
  ghost function CompletedItems(transport: seq<seq<Byte>>, i: nat, initialLastEventId: Text): nat
    requires i <= |transport|
  {
    FreshValid();
    |Run(Initial(initialLastEventId), Decode(FRESH, Concat(transport[..i])).1).items|
  }

  /** The signal had not fired when the chunk `i`, or the end after the last one, was read. */
  ghost predicate ReadUnsignalled(transport: seq<seq<Byte>>, i: nat, initialLastEventId: Text, watch: Watch) {
    i <= |transport| && !watch(i, CompletedItems(transport, i, initialLastEventId)).Aborts?
  }

  ghost predicate AllUnsignalled(transport: seq<seq<Byte>>, n: nat, initialLastEventId: Text, watch: Watch) {
    forall i :: 0 <= i < n ==> ReadUnsignalled(transport, i, initialLastEventId, watch)
  }

  lemma {:induction false} ConcatSplits(chunks: seq<seq<Byte>>, i: nat)
    requires i <= |chunks|
    ensures Concat(chunks) == Concat(chunks[..i]) + Concat(chunks[i..])
  {
    if i > 0 {
      assert chunks[..i][1..] == chunks[1..][..i - 1] && chunks[i..] == chunks[1..][i - 1..];
      ConcatSplits(chunks[1..], i - 1);
    } else {
      assert chunks[0..] == chunks;
    }
  }

  // Before each read, all items completed so far have been yielded.
  lemma NowRead(transport: seq<seq<Byte>>, i: nat, initialLastEventId: Text, watch: Watch, bytes: seq<Byte>, n: nat,
                decoder: Decoder, state: State, yielded: seq<Item>)
    requires i <= |transport| && bytes == Concat(transport) && n <= |bytes| && bytes[n..] == Concat(transport[i..])
    requires Reached(initialLastEventId, bytes, n, decoder, state, yielded)
    requires AllUnsignalled(transport, i, initialLastEventId, watch) && !watch(i, |yielded|).Aborts?
    ensures AllUnsignalled(transport, i + 1, initialLastEventId, watch)
  {
    ConcatSplits(transport, i);
    hide Concat, Decode, Run;
    assert bytes[..n] == Concat(transport[..i]);
    assert CompletedItems(transport, i, initialLastEventId) == |yielded|;
  }

  /** Yields items one by one; the signal is looked at before each, and the consumer may leave after each. */
  method YieldItems(items: seq<Item>, before: seq<Item>, watch: Watch, chunks: nat)
    returns (yielded: seq<Item>, error: Option<StreamError>)
    requires Going(watch, |before|)
    ensures error.None? ==> yielded == before + items && Going(watch, |yielded|)
    ensures error.Some? ==> before <= yielded <= before + items && StopsAt(watch, chunks, |yielded|, error)
  {
    yielded, error := before, None;
    for i := 0 to |items|
      invariant yielded == before + items[..i] && Going(watch, |yielded|)
    {
      if watch(chunks, |yielded|).Aborts? { return yielded, Some(Aborted); }
      yielded := yielded + [items[i]];
      assert yielded == before + items[..i + 1];
      if watch(chunks, |yielded|).Leaves? { return yielded, Some(Left); }
    }
  }

  /**
   The stream loop: decodes each transport chunk in windows, feeds them, and yields what they complete.
   For every way of cutting a byte stream into chunks, the items and the error are those of the whole text, unless the
   caller's signal or the consumer stops the loop before; then the items are the first ones of those. `readCount`
   counts the reads that the signal let through.
   */
  method ParseSseStream(transport: seq<seq<Byte>>, end: StreamEnd, initialLastEventId: Text, watch: Watch)
    returns (yielded: seq<Item>, error: Option<StreamError>, ghost readCount: nat)
    ensures var text := TextFrom(FRESH, Concat(transport), end);
            if error == Some(Aborted) || error == Some(Left) then
              Interrupted(text, initialLastEventId, watch, if readCount <= |transport| then readCount else |transport|,
                          yielded, error)
            else StreamResult(text, initialLastEventId, end, yielded, error) && Going(watch, |yielded|)
    ensures AllUnsignalled(transport, readCount, initialLastEventId, watch)
    ensures error == None || error == Some(Read) ==> readCount == |transport| + 1
    ensures error.Some? && error.value.Limit? ==> LimitIsPrompt(Concat(transport), end, initialLastEventId, yielded)
  {
    hide Run, Step, StreamResult, LimitIsPrompt, Reached, Interrupted, Interpret, IncrementalSseParser.Valid,
         DecodeByte, Decode, TextFrom, Flush, Follows, LetThrough, ReadUnsignalled;
    readCount := 0;
    ghost var bytes := Concat(transport);
    ghost var text := TextFrom(FRESH, bytes, end);
    ghost var n: nat := 0;
    var parser := new IncrementalSseParser(initialLastEventId);
    var decoder := FRESH;
    yielded := [];
    NothingReached(initialLastEventId, bytes);
    FreshValid();
    assert transport[0..] == transport;
    for i := 0 to |transport|
      invariant parser.Valid() && parser.items == [] && fresh(parser) && Valid(decoder)
      invariant Reached(initialLastEventId, bytes, n, decoder, parser.Abs(), yielded) && Going(watch, |yielded|)
      invariant n <= |bytes| && bytes[n..] == Concat(transport[i..])
      invariant readCount == i && AllUnsignalled(transport, readCount, initialLastEventId, watch)
    {
      SoFar(initialLastEventId, bytes, end, n, decoder, parser.Abs(), yielded);
      if watch(i, |yielded|).Aborts? {
        NowInterrupted(text, initialLastEventId, watch, i, yielded, yielded, Some(Aborted));
        return yielded, Some(Aborted), readCount;
      }
      NowRead(transport, i, initialLastEventId, watch, bytes, n, decoder, parser.Abs(), yielded);
      readCount := i + 1;
      var chunk := transport[i];
      assert transport[i..][1..] == transport[i + 1..];
      var offset := 0;
      while offset < |chunk|
        invariant 0 <= offset <= |chunk|
        invariant parser.Valid() && parser.items == [] && fresh(parser) && Valid(decoder)
        invariant Reached(initialLastEventId, bytes, n, decoder, parser.Abs(), yielded) && Going(watch, |yielded|)
        invariant n <= |bytes| && bytes[n..] == chunk[offset..] + Concat(transport[i + 1..])
      {
        var stop := if offset + WINDOW < |chunk| then offset + WINDOW else |chunk|;
        var window := chunk[offset..stop];
        Windowed(bytes, n, chunk, offset, stop, Concat(transport[i + 1..]));
        var (next, decoded) := Decode(decoder, window);
        ghost var before := parser.Abs();
        var limit, items := FeedAndTake(parser, decoded);
        AfterWindow(initialLastEventId, bytes, end, n, window, decoder, before, yielded, limit, parser.Abs(), items);
        if limit.Some? { return yielded, Some(Limit(limit.value)), readCount; }
        ghost var all := yielded + items;
        n := n + |window|;
        decoder := next;
        SoFar(initialLastEventId, bytes, end, n, decoder, parser.Abs(), all);
        yielded, error := YieldItems(items, yielded, watch, i + 1);
        if error.Some? {
          NowInterrupted(text, initialLastEventId, watch, i + 1, all, yielded, error);
          return;
        }
        offset := stop;
      }
      assert chunk[offset..] == [];
    }
    assert transport[|transport|..] == [] && n == |bytes|;
    ghost var before := parser.Abs();
    SoFar(initialLastEventId, bytes, end, n, decoder, before, yielded);
    if watch(|transport|, |yielded|).Aborts? {
      NowInterrupted(text, initialLastEventId, watch, |transport|, yielded, yielded, Some(Aborted));
      return yielded, Some(Aborted), readCount;
    }
    NowRead(transport, |transport|, initialLastEventId, watch, bytes, n, decoder, before, yielded);
    readCount := |transport| + 1;
    if end.ReadFails? {
      NothingRead(before);
      AfterEnd(initialLastEventId, bytes, end, decoder, before, yielded, None, before, []);
      assert yielded + [] == yielded;
      return yielded, Some(Read), readCount;
    }
    var limit, items := FeedAndTake(parser, Flush(decoder));
    AfterEnd(initialLastEventId, bytes, end, decoder, before, yielded, limit, parser.Abs(), items);
    if limit.Some? { return yielded, Some(Limit(limit.value)), readCount; }
    ghost var all := yielded + items;
    AllYielded(text, initialLastEventId, end, all);
    yielded, error := YieldItems(items, yielded, watch, |transport|);
    if error.Some? { NowInterrupted(text, initialLastEventId, watch, |transport|, all, yielded, error); }
  }

  lemma AllYielded(text: Text, initialLastEventId: Text, end: StreamEnd, all: seq<Item>)
    requires end.Done? && StreamResult(text, initialLastEventId, end, all, None)
    ensures all <= Interpret(text, initialLastEventId)
  {
  }

  // The next window of a chunk, among all the bytes.
  lemma Windowed(bytes: seq<Byte>, n: nat, chunk: seq<Byte>, offset: nat, stop: nat, later: seq<Byte>)
    requires n <= |bytes| && offset <= stop <= |chunk| && bytes[n..] == chunk[offset..] + later
    ensures var m := n + (stop - offset);
            m <= |bytes| && bytes[n..m] == chunk[offset..stop] && bytes[m..] == chunk[stop..] + later
  {
    var m := n + (stop - offset);
    assert bytes[n..][..stop - offset] == bytes[n..m] && bytes[n..][stop - offset..] == bytes[m..];
    assert chunk[offset..][..stop - offset] == chunk[offset..stop] && chunk[offset..][stop - offset..] == chunk[stop..];
  }

  /** Feeds one decoded window and takes the items that it completed. */
  method FeedAndTake(parser: IncrementalSseParser, decoded: Text) returns (error: Option<LimitError>, items: seq<Item>)
    requires parser.Valid() && parser.items == [] && WellFormed(decoded)
    modifies parser
    ensures Follows(Run(old(parser.Abs()), decoded), error, parser.Abs(), [], items)
    ensures error.None? ==> parser.Valid() && parser.items == []
  {
    hide Run, WellFormed, IncrementalSseParser.Valid;
    error := parser.Feed(decoded);
    items := parser.items;
    if error.None? { items := parser.TakeItems(); }
  }
}
