/** What the parser promises about whole events: the wire form of an event, in any chunking, gives the event back. */
module SseTheorems {
  import opened Utf16
  import opened Wrappers
  import opened EventStream
  import opened Utf8Decoder
  import opened SseParser

  function Field(name: Text, value: Text): Text {
    name + [COLON, SPACE] + value
  }

  /** One `data` line for each line of the data. */
  function DataLines(data: Text): Text
    decreases |data|
  {
    var k := IndexOf(data, LF, 0);
    if k == |data| then Field(DATA, data) + [LF]
    else Field(DATA, data[..k]) + [LF] + DataLines(data[k + 1..])
  }

  function Wire(id: Text, eventType: Text, data: Text): Text {
    Field(ID, id) + [LF] + (Field(EVENT, eventType) + [LF] + (DataLines(data) + [LF]))
  }

  predicate Lacks(s: Text, u: Unit) {
    |s| == 0 || (s[0] != u && Lacks(s[1..], u))
  }

  lemma {:induction false} PlainIffLacks(s: Text)
    ensures Plain(s) <==> Lacks(s, CR) && Lacks(s, LF)
  {
    if |s| > 0 { PlainIffLacks(s[1..]); }
  }

  lemma {:induction false} LacksSlice(s: Text, u: Unit, k: nat)
    requires Lacks(s, u) && k <= |s|
    ensures Lacks(s[..k], u) && Lacks(s[k..], u)
    decreases |s|
  {
    if k > 0 {
      LacksSlice(s[1..], u, k - 1);
      assert s[..k][1..] == s[1..][..k - 1] && s[k..] == s[1..][k - 1..];
    }
  }

  lemma {:induction false} LacksBeforeFirst(s: Text, u: Unit, from: nat)
    requires from <= |s|
    ensures Lacks(s[from..IndexOf(s, u, from)], u)
    decreases |s| - from
  {
    if from < |s| && s[from] != u {
      LacksBeforeFirst(s, u, from + 1);
      var rest := s[from..IndexOf(s, u, from)];
      assert rest[1..] == s[from + 1..IndexOf(s, u, from)];
    }
  }

  lemma {:induction false} PlainConcat(a: Text, b: Text)
    requires Plain(a) && Plain(b)
    ensures Plain(a + b)
  {
    if |a| == 0 {
      assert a + b == b;
    } else {
      PlainConcat(a[1..], b);
      assert (a + b)[1..] == a[1..] + b;
    }
  }

  lemma {:induction false} LineEndAfterPlain(line: Text, rest: Text)
    requires Plain(line)
    ensures LineEnd(line + [LF] + rest) == |line|
  {
    var all := line + [LF] + rest;
    if |line| > 0 {
      LineEndAfterPlain(line[1..], rest);
      assert all[1..] == line[1..] + [LF] + rest;
    }
  }

  // A terminated line is read first, and the rest afterwards.
  lemma FirstLine(b: Buffers, line: Text, rest: Text)
    requires Plain(line)
    ensures var all := line + [LF] + rest;
            var (next, items) := ProcessLine(b, line);
            && ProcessLines(b, Lines(all)) == items + ProcessLines(next, Lines(rest))
            && LineVerdict(b, Lines(all), Unfinished(all)) ==
               if Utf8Length(line) > MAX_LINE_BYTES then Some(LineSize)
               else if Utf8Length(next.data) > MAX_EVENT_BYTES then Some(EventSize)
               else LineVerdict(next, Lines(rest), Unfinished(rest))
  {
    hide ProcessLine, Utf8Length, Plain;
    var all := line + [LF] + rest;
    LineEndAfterPlain(line, rest);
    assert all[..|line|] == line && AfterLine(all, |line|) == rest;
    assert Lines(all)[0] == line && Lines(all)[1..] == Lines(rest);
  }

  // `name: value` is read as that field and value, whatever the value starts with.
  lemma FieldLine(b: Buffers, name: Text, value: Text)
    requires |name| > 0 && COLON !in name
    ensures ProcessLine(b, Field(name, value)) == ProcessField(b, name, value)
  {
    hide ProcessField;
    var line := Field(name, value);
    IndexOfFirst(line, COLON, 0, |name|);
    assert line[..|name|] == name;
    assert DropSpace(line[|name| + 1..]) == value;
  }

  lemma FieldBytes(name: Text, value: Text)
    requires name == DATA || name == EVENT || name == ID
    ensures Utf8Length(Field(name, value)) == |name| + 2 + Utf8Length(value)
    ensures WellFormed(name)
    ensures Plain(value) ==> Plain(Field(name, value))
  {
    var head := name + [COLON, SPACE];
    AsciiBytes(head);
    AsciiBytes(name);
    Utf8LengthConcat(head, value);
    if Plain(value) { PlainConcat(head, value); }
  }

  lemma {:induction false} AsciiBytes(s: Text)
    requires forall i :: 0 <= i < |s| ==> 0x20 <= s[i] < 0x80
    ensures Utf8Length(s) == |s| && WellFormed(s) && Plain(s)
  {
    if |s| > 0 { AsciiBytes(s[1..]); }
  }

  // A `data` line whose value alone fills the event budget never meets the line limit first: it is
  // accepted up to one byte less than the budget, and from there on it is the event that is too large.
  lemma FullDataLine(initialLastEventId: Text, value: Text)
    requires Plain(value) && WellFormed(value) && Utf8Length(value) <= 8_388_608
    ensures Verdict(Field(DATA, value) + [LF], initialLastEventId) ==
            if Utf8Length(value) + 1 > 8_388_608 then Some(EventSize) else None
  {
    NoBytes();
    hide Lines, Unfinished, ProcessLines, Utf8Length, WellFormed, ProcessLine, Plain;
    var line := Field(DATA, value);
    var text := line + [LF];
    assert text == line + [LF] + [];
    FieldBytes(DATA, value);
    FieldLine(Start(initialLastEventId), DATA, value);
    FirstLine(Start(initialLastEventId), line, []);
    DataBytes([], value);
    assert [] + value + [LF] == value + [LF];
    NoLines();
    assert text[0] == 0x64;
    assert StripBom(text) == text;
  }

  lemma SliceBytes(data: Text, k: nat)
    requires WellFormed(data) && k <= |data| && CutsBetweenCodePoints(data, k)
    ensures WellFormed(data[..k]) && WellFormed(data[k..])
    ensures Utf8Length(data) == Utf8Length(data[..k]) + Utf8Length(data[k..])
  {
    WellFormedSplit(data, k);
    Utf8LengthConcat(data[..k], data[k..]);
    assert data == data[..k] + data[k..];
  }

  // A line feed in well-formed data separates two well-formed texts.
  lemma SplitAtLineFeed(data: Text, k: nat)
    requires WellFormed(data) && k < |data| && data[k] == LF
    ensures WellFormed(data[..k]) && WellFormed(data[k + 1..])
    ensures Utf8Length(data) == Utf8Length(data[..k]) + 1 + Utf8Length(data[k + 1..])
  {
    SliceBytes(data, k);
    SliceBytes(data[k..], 1);
    assert data[k..][..1] == [LF] && data[k..][1..] == data[k + 1..];
    var newline: Text := [LF];
    assert newline[1..] == [];
  }

  // One line of data that fits is appended, and nothing is emitted.
  lemma DataLine(b: Buffers, value: Text, rest: Text)
    requires Plain(value) && WellFormed(value) && WellFormed(b.data)
    requires Utf8Length(b.data) + Utf8Length(value) + 1 <= MAX_EVENT_BYTES
    ensures var all := Field(DATA, value) + [LF] + rest;
            var next := b.(data := b.data + value + [LF]);
            && ProcessLines(b, Lines(all)) == ProcessLines(next, Lines(rest))
            && LineVerdict(b, Lines(all), Unfinished(all)) == LineVerdict(next, Lines(rest), Unfinished(rest))
            && WellFormed(next.data) && Utf8Length(next.data) == Utf8Length(b.data) + Utf8Length(value) + 1
  {
    hide Lines, Unfinished, ProcessLines, LineVerdict, Utf8Length, WellFormed, ProcessLine, Plain;
    FieldBytes(DATA, value);
    FieldLine(b, DATA, value);
    FirstLine(b, Field(DATA, value), rest);
    DataBytes(b.data, value);
    assert [] + ProcessLines(b.(data := b.data + value + [LF]), Lines(rest)) ==
           ProcessLines(b.(data := b.data + value + [LF]), Lines(rest));
  }

  lemma FirstDataLine(data: Text, k: nat, rest: Text)
    requires k == IndexOf(data, LF, 0) < |data|
    ensures DataLines(data) + rest == Field(DATA, data[..k]) + [LF] + (DataLines(data[k + 1..]) + rest)
  {
    assert DataLines(data) == Field(DATA, data[..k]) + [LF] + DataLines(data[k + 1..]);
    hide DataLines, Field;
  }

  lemma AroundLineFeed(before: Text, data: Text, k: nat)
    requires k < |data| && data[k] == LF
    ensures before + data[..k] + [LF] + data[k + 1..] + [LF] == before + data + [LF]
  {
    assert data == data[..k] + [LF] + data[k + 1..];
  }

  // The data lines of an event rebuild its data, with one line feed at the end.
  lemma {:induction false} DataLinesRead(b: Buffers, data: Text, rest: Text)
    requires WellFormed(data) && Lacks(data, CR) && WellFormed(b.data)
    requires Utf8Length(b.data) + Utf8Length(data) + 1 <= MAX_EVENT_BYTES
    ensures var all := DataLines(data) + rest;
            var next := b.(data := b.data + data + [LF]);
            && ProcessLines(b, Lines(all)) == ProcessLines(next, Lines(rest))
            && LineVerdict(b, Lines(all), Unfinished(all)) == LineVerdict(next, Lines(rest), Unfinished(rest))
    decreases |data|
  {
    hide Lines, Unfinished, ProcessLines, LineVerdict, Utf8Length, WellFormed, Plain, Field;
    var k := IndexOf(data, LF, 0);
    LacksBeforeFirst(data, LF, 0);
    assert data[0..k] == data[..k];
    LacksSlice(data, CR, k);
    PlainIffLacks(data[..k]);
    if k == |data| {
      assert data[..k] == data;
      DataLine(b, data, rest);
    } else {
      SplitAtLineFeed(data, k);
      LacksSlice(data, CR, k + 1);
      var tail := DataLines(data[k + 1..]) + rest;
      DataLine(b, data[..k], tail);
      var next := b.(data := b.data + data[..k] + [LF]);
      DataLinesRead(next, data[k + 1..], rest);
      FirstDataLine(data, k, rest);
      AroundLineFeed(b.data, data, k);
    }
  }

  // An `id` or `event` line that fits sets its buffer, and nothing is emitted.
  lemma HeaderLine(b: Buffers, name: Text, value: Text, rest: Text)
    requires name == ID || name == EVENT
    requires Plain(value) && Utf8Length(value) + |name| + 2 <= MAX_LINE_BYTES && Utf8Length(b.data) <= MAX_EVENT_BYTES
    requires name == ID ==> NUL !in value
    ensures var all := Field(name, value) + [LF] + rest;
            var next := if name == ID then b.(lastEventId := value, idChanged := true) else b.(eventType := value);
            && ProcessLines(b, Lines(all)) == ProcessLines(next, Lines(rest))
            && LineVerdict(b, Lines(all), Unfinished(all)) == LineVerdict(next, Lines(rest), Unfinished(rest))
  {
    hide Lines, Unfinished, ProcessLines, LineVerdict, Utf8Length, WellFormed, ProcessLine, Plain;
    FieldBytes(name, value);
    FieldLine(b, name, value);
    FirstLine(b, Field(name, value), rest);
    var next := if name == ID then b.(lastEventId := value, idChanged := true) else b.(eventType := value);
    assert [] + ProcessLines(next, Lines(rest)) == ProcessLines(next, Lines(rest));
  }

  /** What an event must be to fit on the wire and within the limits. */
  predicate Sendable(id: Text, eventType: Text, data: Text) {
    && WellFormed(id) && WellFormed(eventType) && WellFormed(data)
    && Lacks(id, CR) && Lacks(id, LF) && NUL !in id && Lacks(eventType, CR) && Lacks(eventType, LF) && Lacks(data, CR)
    && Utf8Length(id) + 4 <= MAX_LINE_BYTES && Utf8Length(eventType) + 7 <= MAX_LINE_BYTES
    && Utf8Length(data) + 1 <= MAX_EVENT_BYTES
  }

  lemma BlankLine(b: Buffers, rest: Text)
    requires b.data != [] && b.data[|b.data| - 1] == LF
    ensures var all, next := [LF] + rest, Start(b.lastEventId);
            && ProcessLines(b, Lines(all)) ==
               [Event(if b.eventType == [] then MESSAGE else b.eventType, b.data[..|b.data| - 1], b.lastEventId)]
               + ProcessLines(next, Lines(rest))
            && LineVerdict(b, Lines(all), Unfinished(all)) == LineVerdict(next, Lines(rest), Unfinished(rest))
  {
    hide Lines, Unfinished, ProcessLines, LineVerdict, Plain;
    var blank: Text := [];
    NoBytes();
    PlainIffLacks(blank);
    FirstLine(b, blank, rest);
    assert blank + [LF] + rest == [LF] + rest;
  }

  /** The item that an event arrives as. */
  function Arrival(id: Text, eventType: Text, data: Text): Item {
    Event(if eventType == [] then MESSAGE else eventType, data, id)
  }

  // The wire form of an event is read as that event, and the rest as after it.
  lemma EventRead(last: Text, id: Text, eventType: Text, data: Text, rest: Text)
    requires Sendable(id, eventType, data)
    ensures var all := Wire(id, eventType, data) + rest;
            && ProcessLines(Start(last), Lines(all)) ==
               [Arrival(id, eventType, data)] + ProcessLines(Start(id), Lines(rest))
            && LineVerdict(Start(last), Lines(all), Unfinished(all)) ==
               LineVerdict(Start(id), Lines(rest), Unfinished(rest))
  {
    hide Lines, Unfinished, ProcessLines, LineVerdict, Utf8Length, WellFormed, Plain, DataLines;
    var b0 := Start(last);
    var b1 := b0.(lastEventId := id, idChanged := true);
    var b2 := b1.(eventType := eventType);
    var b3 := b2.(data := data + [LF]);
    NoBytes();
    PlainIffLacks(id);
    PlainIffLacks(eventType);
    var tail := DataLines(data) + ([LF] + rest);
    HeaderLine(b0, ID, id, Field(EVENT, eventType) + [LF] + tail);
    HeaderLine(b1, EVENT, eventType, tail);
    DataLinesRead(b2, data, [LF] + rest);
    assert b2.data + data + [LF] == b3.data;
    assert b3.data[..|b3.data| - 1] == data;
    BlankLine(b3, rest);
    WireRegrouped(id, eventType, data, rest);
  }

  lemma WireRegrouped(id: Text, eventType: Text, data: Text, rest: Text)
    ensures Wire(id, eventType, data) + rest ==
            Field(ID, id) + [LF] + (Field(EVENT, eventType) + [LF] + (DataLines(data) + ([LF] + rest)))
  {
    hide Field, DataLines;
  }

  // Sending an event and reading it back gives exactly that event, an empty type becoming "message".
  lemma WireRoundTrip(id: Text, eventType: Text, data: Text, initialLastEventId: Text)
    requires Sendable(id, eventType, data)
    ensures Interpret(Wire(id, eventType, data), initialLastEventId) == [Arrival(id, eventType, data)]
    ensures Verdict(Wire(id, eventType, data), initialLastEventId) == None
  {
    hide Lines, Unfinished, ProcessLines, LineVerdict, Utf8Length, DataLines, WellFormed, Lacks;
    var text := Wire(id, eventType, data);
    assert text[0] == 0x69;
    assert StripBom(text) == text == text + [];
    EventRead(initialLastEventId, id, eventType, data, []);
    NoBytes();
    NoLines();
    NothingToProcess(id);
  }

  lemma NothingToProcess(last: Text)
    ensures ProcessLines(Start(last), []) == [] && LineVerdict(Start(last), [], []) == None
  {
  }

  lemma NoLines()
    ensures Lines([]) == [] && Unfinished([]) == []
  {
    assert LineEnd([]) == 0;
  }

  lemma NoBytes()
    ensures Utf8Length([]) == 0 && WellFormed([])
  {
  }

  lemma {:induction false} WireWellFormed(id: Text, eventType: Text, data: Text)
    requires WellFormed(id) && WellFormed(eventType) && WellFormed(data)
    ensures WellFormed(Wire(id, eventType, data))
  {
    hide DataLines;
    DataLinesWellFormed(data);
    FieldWellFormed(ID, id);
    FieldWellFormed(EVENT, eventType);
    NewlineWellFormed();
    WellFormedConcat(DataLines(data), [LF]);
    WellFormedConcat(Field(EVENT, eventType) + [LF], DataLines(data) + [LF]);
    WellFormedConcat(Field(ID, id) + [LF], Field(EVENT, eventType) + [LF] + (DataLines(data) + [LF]));
  }

  lemma NewlineWellFormed()
    ensures WellFormed([LF])
  {
    var newline: Text := [LF];
    assert newline[1..] == [];
  }

  lemma FieldWellFormed(name: Text, value: Text)
    requires name == DATA || name == EVENT || name == ID
    requires WellFormed(value)
    ensures WellFormed(Field(name, value) + [LF])
  {
    AsciiBytes(name + [COLON, SPACE]);
    WellFormedConcat(name + [COLON, SPACE], value);
    NewlineWellFormed();
    WellFormedConcat(Field(name, value), [LF]);
  }

  lemma {:induction false} DataLinesWellFormed(data: Text)
    requires WellFormed(data)
    ensures WellFormed(DataLines(data))
    decreases |data|
  {
    var k := IndexOf(data, LF, 0);
    if k == |data| {
      FieldWellFormed(DATA, data);
    } else {
      SplitAtLineFeed(data, k);
      FieldWellFormed(DATA, data[..k]);
      DataLinesWellFormed(data[k + 1..]);
      WellFormedConcat(Field(DATA, data[..k]) + [LF], DataLines(data[k + 1..]));
    }
  }

  /**
   A complete body that holds one event, encoded as UTF-8 and cut into transport chunks in any way, yields
   that event and no error.
   */
  method ReceiveEvent(id: Text, eventType: Text, data: Text, transport: seq<seq<Byte>>, initialLastEventId: Text)
    returns (yielded: seq<Item>, error: Option<StreamError>)
    requires Sendable(id, eventType, data)
    requires Concat(transport) == Encode(Wire(id, eventType, data))
    ensures error == None && yielded == [Arrival(id, eventType, data)]
  {
    hide Decode, Encode, Wire, Verdict, Interpret;
    WireWellFormed(id, eventType, data);
    DecodeEncode(Wire(id, eventType, data));
    assert Wire(id, eventType, data) + [] == Wire(id, eventType, data);
    WireRoundTrip(id, eventType, data, initialLastEventId);
    ghost var readCount;
    yielded, error, readCount := ParseSseStream(transport, Done, initialLastEventId, (chunks, items) => Goes);
  }
}
