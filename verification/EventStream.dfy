/**
 The whole-text meaning of an event stream: sections 9.2.5 and 9.2.6 of the WHATWG HTML Living Standard,
 extended by the two items the SDK adds (retry hints and id-only checkpoints) and by its two size limits.
 */
module EventStream {
  import opened Utf16
  import opened Wrappers
  import opened Decimals

  const MAX_EVENT_BYTES := 8 * 1024 * 1024
  const MAX_LINE_BYTES := MAX_EVENT_BYTES + 6

  const DATA: Text := [0x64, 0x61, 0x74, 0x61]
  const EVENT: Text := [0x65, 0x76, 0x65, 0x6E, 0x74]
  const ID: Text := [0x69, 0x64]
  const RETRY: Text := [0x72, 0x65, 0x74, 0x72, 0x79]
  const MESSAGE: Text := [0x6D, 0x65, 0x73, 0x73, 0x61, 0x67, 0x65]

  datatype Item =
    | Event(event: Text, data: Text, lastEventId: Text)
    | Retry(milliseconds: nat)
    | Checkpoint(lastEventId: Text)

  datatype LimitError = LineSize | EventSize

  /** The buffers of section 9.2.6; `idChanged` says that the current block carried an accepted id. */
  datatype Buffers = Buffers(data: Text, eventType: Text, lastEventId: Text, idChanged: bool)

  function Start(initialLastEventId: Text): Buffers {
    Buffers([], [], initialLastEventId, false)
  }

  function StripBom(text: Text): Text {
    if |text| > 0 && text[0] == BOM then text[1..] else text
  }

  predicate IsTerminator(u: Unit) { u == CR || u == LF }

  /** A stretch without line terminators. */
  predicate Plain(s: Text) {
    |s| == 0 || (!IsTerminator(s[0]) && Plain(s[1..]))
  }

  /** Index of the first line terminator, or the length of the text. */
  function LineEnd(text: Text): (k: nat)
    ensures k <= |text| && Plain(text[..k])
    ensures k < |text| ==> IsTerminator(text[k])
  {
    if |text| == 0 || IsTerminator(text[0]) then 0
    else
      var k := LineEnd(text[1..]);
      assert text[..k + 1][1..] == text[1..][..k];
      k + 1
  }

  /** What follows the terminator at `k`: a CR and an LF right after it are one terminator. */
  function AfterLine(text: Text, k: nat): (rest: Text)
    requires k < |text|
    ensures |rest| < |text|
  {
    if text[k] == CR && k + 1 < |text| && text[k + 1] == LF then text[k + 2..] else text[k + 1..]
  }

  /** The terminated lines of a text. */
  function Lines(text: Text): seq<Text> {
    var k := LineEnd(text);
    if k == |text| then [] else [text[..k]] + Lines(AfterLine(text, k))
  }

  /** The unterminated rest of a text, which is never interpreted. */
  function Unfinished(text: Text): Text {
    var k := LineEnd(text);
    if k == |text| then text else Unfinished(AfterLine(text, k))
  }

  function DropSpace(value: Text): Text {
    if |value| > 0 && value[0] == SPACE then value[1..] else value
  }

  function FieldName(line: Text): Text {
    line[..IndexOf(line, COLON, 0)]
  }

  function FieldValue(line: Text): Text {
    var colon := IndexOf(line, COLON, 0);
    if colon == |line| then [] else DropSpace(line[colon + 1..])
  }

  function ProcessField(b: Buffers, field: Text, value: Text): (Buffers, seq<Item>) {
    if field == DATA then
      (b.(data := b.data + value + [LF]), [])
    else if field == EVENT then
      (b.(eventType := value), [])
    else if field == ID then
      (if NUL in value then b else b.(lastEventId := value, idChanged := true), [])
    else if field == RETRY then
      (b, if |value| > 0 && AllDigits(value) && Decimal(value) <= MAX_SAFE_INTEGER
          then [Retry(Decimal(value))] else [])
    else
      (b, [])
  }

  function DropLastLineFeed(data: Text): Text {
    if |data| > 0 && data[|data| - 1] == LF then data[..|data| - 1] else data
  }

  function Dispatch(b: Buffers): (Buffers, seq<Item>) {
    (Start(b.lastEventId),
     if b.data != [] then
       [Event(if b.eventType == [] then MESSAGE else b.eventType, DropLastLineFeed(b.data), b.lastEventId)]
     else if b.idChanged then [Checkpoint(b.lastEventId)]
     else [])
  }

  function ProcessLine(b: Buffers, line: Text): (Buffers, seq<Item>) {
    if line == [] then Dispatch(b)
    else if line[0] == COLON then (b, [])
    else ProcessField(b, FieldName(line), FieldValue(line))
  }

  function ProcessLines(b: Buffers, lines: seq<Text>): seq<Item>
    decreases |lines|
  {
    if |lines| == 0 then []
    else
      var (next, items) := ProcessLine(b, lines[0]);
      items + ProcessLines(next, lines[1..])
  }

  /** The items of a whole decoded text, without any limit. */
  function Interpret(text: Text, initialLastEventId: Text): seq<Item> {
    ProcessLines(Start(initialLastEventId), Lines(StripBom(text)))
  }

  /** The first limit that the lines and the unfinished rest exceed, if any. */
  function LineVerdict(b: Buffers, lines: seq<Text>, rest: Text): Option<LimitError>
    decreases |lines|
  {
    if |lines| == 0 then
      if Utf8Length(rest) > MAX_LINE_BYTES then Some(LineSize) else None
    else if Utf8Length(lines[0]) > MAX_LINE_BYTES then
      Some(LineSize)
    else
      var next := ProcessLine(b, lines[0]).0;
      if Utf8Length(next.data) > MAX_EVENT_BYTES then Some(EventSize)
      else LineVerdict(next, lines[1..], rest)
  }

  /** Which limit error a whole decoded text meets: no line above its budget, no event above its budget. */
  function Verdict(text: Text, initialLastEventId: Text): Option<LimitError> {
    var body := StripBom(text);
    LineVerdict(Start(initialLastEventId), Lines(body), Unfinished(body))
  }
}
