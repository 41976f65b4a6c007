/** What arrives of a body that holds the wire forms of any number of events, complete or cut anywhere. */
module SseBodies {
  import opened Utf16
  import opened Wrappers
  import opened EventStream
  import opened StreamAutomaton
  import opened Utf8Decoder
  import opened SseParser
  import opened SseTheorems

  datatype Sent = Sent(id: Text, event: Text, data: Text)

  ghost predicate AllSendable(events: seq<Sent>) {
    forall i :: 0 <= i < |events| ==> Sendable(events[i].id, events[i].event, events[i].data)
  }

  /** The wire forms of the events, one after the other. */
  function WireAll(events: seq<Sent>): Text {
    if |events| == 0 then []
    else Wire(events[0].id, events[0].event, events[0].data) + WireAll(events[1..])
  }

  function Arrivals(events: seq<Sent>): seq<Item> {
    if |events| == 0 then []
    else [Arrival(events[0].id, events[0].event, events[0].data)] + Arrivals(events[1..])
  }

  lemma {:induction false} EventsRead(last: Text, events: seq<Sent>)
    requires AllSendable(events)
    ensures ProcessLines(Start(last), Lines(WireAll(events))) == Arrivals(events)
    ensures LineVerdict(Start(last), Lines(WireAll(events)), Unfinished(WireAll(events))) == None
    decreases |events|
  {
    hide Sendable, Wire, Lines, Unfinished, ProcessLines, LineVerdict, Start;
    if |events| == 0 {
      NoLines();
      NothingToProcess(last);
    } else {
      var e := events[0];
      EventRead(last, e.id, e.event, e.data, WireAll(events[1..]));
      EventsRead(e.id, events[1..]);
    }
  }

  // All the events of a complete body arrive, in their order, and no limit is exceeded.
  lemma AllArrive(events: seq<Sent>, initialLastEventId: Text)
    requires AllSendable(events)
    ensures Interpret(WireAll(events), initialLastEventId) == Arrivals(events)
    ensures Verdict(WireAll(events), initialLastEventId) == None
  {
    EventsRead(initialLastEventId, events);
    WireStart(events);
    hide AllSendable, WireAll, Lines, Unfinished, ProcessLines, LineVerdict, Start;
  }

  lemma WireStart(events: seq<Sent>)
    ensures StripBom(WireAll(events)) == WireAll(events)
  {
    hide DataLines;
    if |events| > 0 { assert WireAll(events)[0] == 0x69; }
  }

  // What a part of a text calls for, the whole calls for first; and a part of a text within the limits is within them.
  lemma PartOfText(part: Text, rest: Text, initialLastEventId: Text)
    ensures Verdict(part, initialLastEventId).None? ==>
              Interpret(part, initialLastEventId) <= Interpret(part + rest, initialLastEventId)
    ensures Verdict(part + rest, initialLastEventId).None? ==> Verdict(part, initialLastEventId).None?
  {
    hide Run, Interpret, Verdict;
    RunIsInterpret(part, initialLastEventId);
    RunIsInterpret(part + rest, initialLastEventId);
    RunConcat(Initial(initialLastEventId), part, rest);
  }

  // A unit that ends no line completes no item.
  lemma NoNewItem(text: Text, u: Unit, initialLastEventId: Text)
    requires !IsTerminator(u) && Verdict(text + [u], initialLastEventId).None?
    ensures Interpret(text + [u], initialLastEventId) == Interpret(text, initialLastEventId)
  {
    PartOfText(text, [u], initialLastEventId);
    RunIsInterpret(text, initialLastEventId);
    RunIsInterpret(text + [u], initialLastEventId);
    RunConcat(Initial(initialLastEventId), text, [u]);
    OneUnit(Run(Initial(initialLastEventId), text).state, u);
    hide Run, Interpret, Verdict;
  }

  lemma OneUnit(st: State, u: Unit)
    requires !IsTerminator(u)
    ensures Run(st, [u]).items == []
  {
    assert [u][1..] == [];
  }

  // The text that has arrived of a part of the bytes is a part of the text.
  lemma PartDecoded(text: Text, bytes: seq<Byte>)
    requires WellFormed(text) && bytes <= Encode(text)
    ensures Decode(FRESH, bytes).1 <= text
  {
    FreshValid();
    DecodeEncode(text);
    hide Decode, Encode, WellFormed;
    var rest := Encode(text)[|bytes|..];
    assert bytes + rest == Encode(text);
    DecodeConcat(FRESH, bytes, rest);
  }

  // And it begins with the text of any of its own parts that is encoded completely.
  lemma WholeDecoded(text: Text, bytes: seq<Byte>)
    requires WellFormed(text) && Encode(text) <= bytes
    ensures text <= Decode(FRESH, bytes).1
  {
    FreshValid();
    DecodeEncode(text);
    hide Decode, Encode, WellFormed;
    var rest := bytes[|Encode(text)|..];
    assert Encode(text) + rest == bytes;
    DecodeConcat(FRESH, Encode(text), rest);
  }

  lemma {:induction false} AllWellFormed(events: seq<Sent>)
    requires AllSendable(events)
    ensures WellFormed(WireAll(events))
  {
    if |events| > 0 {
      var e := events[0];
      WireWellFormed(e.id, e.event, e.data);
      AllWellFormed(events[1..]);
      WellFormedConcat(Wire(e.id, e.event, e.data), WireAll(events[1..]));
    }
  }

  lemma PrefixIs(a: Text, b: Text)
    requires a <= b
    ensures b == a + b[|a|..]
  {
  }

  // What a text calls for that ends with a replacement character, for bytes cut inside a character, or does not.
  lemma Flushed(text: Text, flushed: Text, initialLastEventId: Text)
    requires (flushed == [] || flushed == REPLACEMENT) && Verdict(text + flushed, initialLastEventId).None?
    ensures Interpret(text + flushed, initialLastEventId) == Interpret(text, initialLastEventId)
  {
    hide Interpret, Verdict;
    if flushed == [] { assert text + flushed == text; } else { NoNewItem(text, flushed[0], initialLastEventId); }
  }

  // Bytes that are a part of the body, and within the limits as far as they are decoded.
  lemma PartArrives(events: seq<Sent>, bytes: seq<Byte>, flushed: Text, initialLastEventId: Text)
    requires AllSendable(events) && bytes <= Encode(WireAll(events))
    requires flushed == [] || flushed == REPLACEMENT
    ensures var text := Decode(FRESH, bytes).1;
            && Verdict(text, initialLastEventId).None?
            && (Verdict(text + flushed, initialLastEventId).None? ==>
                  Interpret(text + flushed, initialLastEventId) <= Arrivals(events))
            && Interpret(text, initialLastEventId) <= Arrivals(events)
  {
    AllWellFormed(events);
    AllArrive(events, initialLastEventId);
    PartDecoded(WireAll(events), bytes);
    hide Decode, Encode, WellFormed, AllSendable, WireAll, Arrivals, Interpret, Verdict;
    var text := Decode(FRESH, bytes).1;
    PrefixIs(text, WireAll(events));
    PartOfText(text, WireAll(events)[|text|..], initialLastEventId);
    if Verdict(text + flushed, initialLastEventId).None? { Flushed(text, flushed, initialLastEventId); }
  }

  // Every event whose wire form is complete has arrived.
  lemma CompleteArrives(events: seq<Sent>, n: nat, bytes: seq<Byte>, flushed: Text, initialLastEventId: Text)
    requires AllSendable(events) && n <= |events| && Encode(WireAll(events[..n])) <= bytes
    ensures Arrivals(events[..n]) <= Interpret(Decode(FRESH, bytes).1 + flushed, initialLastEventId)
  {
    AllWellFormed(events[..n]);
    AllArrive(events[..n], initialLastEventId);
    WholeDecoded(WireAll(events[..n]), bytes);
    hide Decode, Encode, WellFormed, AllSendable, WireAll, Arrivals, Interpret, Verdict;
    var text := Decode(FRESH, bytes).1 + flushed;
    var part := WireAll(events[..n]);
    assert part <= text;
    PrefixIs(part, text);
    PartOfText(part, text[|part|..], initialLastEventId);
  }

  lemma Decoded(bytes: seq<Byte>, end: StreamEnd)
    ensures Valid(Decode(FRESH, bytes).0)
    ensures var (d, text) := Decode(FRESH, bytes);
            var flushed := if end.Done? then Flush(d) else [];
            TextFrom(FRESH, bytes, end) == text + flushed && (flushed == [] || flushed == REPLACEMENT)
  {
    FreshValid();
    hide Decode;
  }

  lemma CompleteText(events: seq<Sent>, bytes: seq<Byte>, initialLastEventId: Text)
    requires AllSendable(events) && bytes == Encode(WireAll(events))
    ensures TextFrom(FRESH, bytes, Done) == WireAll(events)
    ensures Interpret(WireAll(events), initialLastEventId) == Arrivals(events)
    ensures Verdict(WireAll(events), initialLastEventId) == None
  {
    AllWellFormed(events);
    AllArrive(events, initialLastEventId);
    DecodeEncode(WireAll(events));
    hide Decode, Encode, WellFormed, AllSendable, WireAll, Arrivals, Interpret, Verdict;
    assert WireAll(events) + [] == WireAll(events);
  }

  // Before a limit is exceeded, too, only events of the body arrive.
  lemma PromptArrives(events: seq<Sent>, bytes: seq<Byte>, end: StreamEnd, initialLastEventId: Text, yielded: seq<Item>)
    requires AllSendable(events) && bytes <= Encode(WireAll(events))
    requires LimitIsPrompt(bytes, end, initialLastEventId, yielded)
    ensures yielded <= Arrivals(events)
  {
    hide Decode, Encode, AllSendable, WireAll, Arrivals, Interpret, Verdict, Run, TextFrom;
    var n: nat, m: nat :|
      StopsBetween(bytes, end, initialLastEventId, n, m) && Delivered(bytes, n, initialLastEventId, yielded);
    RunIsInterpret(Decode(FRESH, bytes[..n]).1, initialLastEventId);
    PartArrives(events, bytes[..n], [], initialLastEventId);
  }

  // What the whole-text algorithm calls for, for such a body.
  lemma CalledFor(events: seq<Sent>, bytes: seq<Byte>, end: StreamEnd, initialLastEventId: Text)
    requires AllSendable(events) && bytes <= Encode(WireAll(events))
    ensures var text := TextFrom(FRESH, bytes, end);
            && (Verdict(text, initialLastEventId).None? ==>
                  && Interpret(text, initialLastEventId) <= Arrivals(events)
                  && forall n :: 0 <= n <= |events| && Encode(WireAll(events[..n])) <= bytes ==>
                       Arrivals(events[..n]) <= Interpret(text, initialLastEventId))
            && (end.ReadFails? ==> Verdict(text, initialLastEventId).None?)
            && (end.Done? && bytes == Encode(WireAll(events)) ==>
                  && Verdict(text, initialLastEventId).None?
                  && Interpret(text, initialLastEventId) == Arrivals(events))
  {
    PartCalledFor(events, bytes, end, initialLastEventId);
    if bytes == Encode(WireAll(events)) { CompleteText(events, bytes, initialLastEventId); }
    hide *;
    forall n | 0 <= n <= |events| && Encode(WireAll(events[..n])) <= bytes
      ensures Arrivals(events[..n]) <= Interpret(TextFrom(FRESH, bytes, end), initialLastEventId)
    {
      EventCalledFor(events, n, bytes, end, initialLastEventId);
    }
  }

  lemma PartCalledFor(events: seq<Sent>, bytes: seq<Byte>, end: StreamEnd, initialLastEventId: Text)
    requires AllSendable(events) && bytes <= Encode(WireAll(events))
    ensures var text := TextFrom(FRESH, bytes, end);
            && (Verdict(text, initialLastEventId).None? ==> Interpret(text, initialLastEventId) <= Arrivals(events))
            && (end.ReadFails? ==> Verdict(text, initialLastEventId).None?)
  {
    Decoded(bytes, end);
    var (d, text) := Decode(FRESH, bytes);
    var flushed := if end.Done? then Flush(d) else [];
    PartArrives(events, bytes, flushed, initialLastEventId);
    hide *;
    assert text + [] == text;
  }

  lemma EventCalledFor(events: seq<Sent>, n: nat, bytes: seq<Byte>, end: StreamEnd, initialLastEventId: Text)
    requires AllSendable(events) && n <= |events| && Encode(WireAll(events[..n])) <= bytes
    ensures Arrivals(events[..n]) <= Interpret(TextFrom(FRESH, bytes, end), initialLastEventId)
  {
    Decoded(bytes, end);
    var flushed := if end.Done? then Flush(Decode(FRESH, bytes).0) else [];
    hide *;
    CompleteArrives(events, n, bytes, flushed, initialLastEventId);
  }

  /**
   A body that holds the wire forms of events, encoded as UTF-8, cut off anywhere and cut into transport chunks in any
   way, yields the first of these events and nothing else: at least those that are complete in it, unless a limit is
   exceeded by the character that stands for an incomplete one. A complete body yields all of them and no error.
   */
  method ReceiveEvents(events: seq<Sent>, transport: seq<seq<Byte>>, end: StreamEnd, initialLastEventId: Text)
    returns (yielded: seq<Item>, error: Option<StreamError>)
    requires AllSendable(events) && Concat(transport) <= Encode(WireAll(events))
    ensures yielded <= Arrivals(events)
    ensures end.ReadFails? ==> error == Some(Read)
    ensures end.Done? && Concat(transport) == Encode(WireAll(events)) ==> error == None && yielded == Arrivals(events)
    ensures error == None || error == Some(Read) ==>
              forall n :: 0 <= n <= |events| && Encode(WireAll(events[..n])) <= Concat(transport) ==>
                Arrivals(events[..n]) <= yielded
  {
    CalledFor(events, Concat(transport), end, initialLastEventId);
    hide Decode, Encode, TextFrom, AllSendable, WireAll, Arrivals, Interpret, Verdict, Valid, Concat, LimitIsPrompt,
         Going;
    ghost var readCount;
    yielded, error, readCount := ParseSseStream(transport, end, initialLastEventId, (chunks, items) => Goes);
    if error.Some? && error.value.Limit? {
      PromptArrives(events, Concat(transport), end, initialLastEventId, yielded);
    }
  }
}
