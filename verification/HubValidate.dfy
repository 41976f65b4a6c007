/** `decodeHubJson`: integer fields must be on the wire exactly the 64-bit integers that they are read as. */
module HubValidate {
  import opened Utf16
  import opened Wrappers
  import opened Powers
  import opened ExactInteger
  import opened ObjectGraph
  import opened JsonTree
  import opened TreeWalk
  import opened JsonNumbers
  import opened Camelize
  import ProtocolJson
  import Json

  const INTEGER_FIELDS: set<string> := {
    "ascent", "battery_level", "center_display_state", "charge_current_request", "charge_current_request_max",
    "charge_limit_soc", "charger_phases", "descent", "download_perc", "duration_min", "end_date_ms", "end_soc",
    "expires_at_ms", "expiresAtMs", "id", "install_perc", "observed_at_ms", "protocol_major",
    "scheduled_charging_start_time", "since", "source_eid", "source_vid", "speed", "speed_max", "start_date_ms",
    "start_soc", "sun_roof_percent_open", "suspend_after_idle_min", "suspend_min", "usable_battery_level"
  }

  const I64_MINIMUM := -9_223_372_036_854_775_808
  const I64_MAXIMUM := 9_223_372_036_854_775_807

  function Ascii(u: Unit): char { if u < 0x80 then u as char else '\0' }

  predicate Listed(name: Text) {
    seq(|name|, i requires 0 <= i < |name| => Ascii(name[i])) in INTEGER_FIELDS
  }

  // The names of the integer fields, and how a name on the wire is one of them.
  lemma IntegerFields(name: Text, field: string)
    requires |name| == |field| && forall i :: 0 <= i < |name| ==> field[i] < 0x80 as char && name[i] == field[i] as int
    ensures Listed(name) <==>
            field in {
              "ascent", "battery_level", "center_display_state", "charge_current_request",
              "charge_current_request_max", "charge_limit_soc", "charger_phases", "descent", "download_perc",
              "duration_min", "end_date_ms", "end_soc", "expires_at_ms", "expiresAtMs", "id", "install_perc",
              "observed_at_ms", "protocol_major", "scheduled_charging_start_time", "since", "source_eid", "source_vid",
              "speed", "speed_max", "start_date_ms", "start_soc", "sun_roof_percent_open", "suspend_after_idle_min",
              "suspend_min", "usable_battery_level"
            }
  {
    assert seq(|name|, i requires 0 <= i < |name| => Ascii(name[i])) == field;
  }

  // ----- What is required of a tree

  /** The wire text of a number denotes exactly its value, and that is a 64-bit integer. */
  ghost predicate WireInteger(lexeme: Text, number: JsNumber) {
    && !number.NonFinite? && IsIntegral(number.Value()) && I64_MINIMUM <= number.Value().Floor <= I64_MAXIMUM
    && exists l :: Valid(l) && Render(l) == lexeme && Denotes(l) == number.Value()
  }

  /** The member at `i`, if it is a number with a listed name, is a wire integer. */
  ghost predicate FieldExact(v: Json.Value, i: nat, convert: Conversion)
    requires IsContainer(v) && i < Size(v)
  {
    v.Obj? && Listed(v.members[i].name) && ChildAt(v, i).Num? ==>
      WireInteger(ChildAt(v, i).lexeme, convert(ChildAt(v, i).lexeme))
  }

  /** Every number with a listed name, at any depth, is a wire integer. */
  ghost predicate FieldsExact(v: Json.Value, convert: Conversion)
    decreases v
  {
    IsContainer(v) ==> forall i :: 0 <= i < Size(v) ==> FieldExact(v, i, convert) && FieldsExact(ChildAt(v, i), convert)
  }

  /** The test of the source, with the lexeme recorded for the number. */
  predicate ExactI64(number: JsNumber, token: Option<Text>) {
    && IsExactJsonInteger(number, token)
    && I64_MINIMUM <= number.Value().Floor <= I64_MAXIMUM
  }

  // The test accepts exactly the wire integers.
  lemma TestDecides(lexeme: Text, convert: Conversion)
    requires IsLexeme(lexeme) && Faithful(convert) && !convert(lexeme).NonFinite?
    ensures ExactI64(convert(lexeme), Some(lexeme)) <==> WireInteger(lexeme, convert(lexeme))
  {
    hide Valid, Denotes, Nearest, Render, IsExactJsonInteger;
    var number := convert(lexeme);
    forall l | Valid(l) && Render(l) == lexeme
      ensures IsExactJsonInteger(number, Some(lexeme)) <==> IsIntegral(number.Value()) && Denotes(l) == number.Value()
    {
      ExactnessDecided(l, number);
    }
    var l :| Valid(l) && Render(l) == lexeme;
  }

  // What a wire integer is: a number of the grammar that denotes an integer of 64 bits, read without loss.
  lemma WireIntegers(l: Lexeme, number: JsNumber)
    requires Valid(l)
    ensures WireInteger(Render(l), number) <==>
            && !number.NonFinite? && number.Value() == Denotes(l) && Denotes(l) == Denotes(l).Floor as real
            && -0x8000_0000_0000_0000 <= Denotes(l).Floor < 0x8000_0000_0000_0000
  {
    hide Valid, Denotes, Render;
    forall m | Valid(m) && Render(m) == Render(l) ensures Denotes(m) == Denotes(l) { DenotesUnique(l, m); }
  }

  // ----- The worklist

  /** The values below and including a value. */
  ghost function TreeSize(v: Json.Value): nat
    decreases v, 1, 0
  {
    1 + if IsContainer(v) then ChildrenSize(v, 0) else 0
  }

  ghost function ChildrenSize(v: Json.Value, i: nat): nat
    requires IsContainer(v) && i <= Size(v)
    decreases v, 0, Size(v) - i
  {
    if i == Size(v) then 0 else TreeSize(ChildAt(v, i)) + ChildrenSize(v, i + 1)
  }

  /** A value waiting to be checked, with the identity of its object. */
  datatype Item = Item(value: Json.Value, at: Identity)

  ghost function PendingSize(pending: seq<Item>): nat {
    if |pending| == 0 then 0
    else PendingSize(pending[..|pending| - 1]) + TreeSize(pending[|pending| - 1].value)
  }

  ghost predicate Ready(item: Item, lexemes: Lexemes, convert: Conversion) {
    Recorded(lexemes, item.value, item.at) && Grammatical(item.value) && AllFinite(item.value, convert)
  }

  ghost predicate AllReady(pending: seq<Item>, lexemes: Lexemes, convert: Conversion) {
    |pending| > 0 ==>
      Ready(pending[|pending| - 1], lexemes, convert) && AllReady(pending[..|pending| - 1], lexemes, convert)
  }

  ghost predicate AllExact(pending: seq<Item>, convert: Conversion) {
    |pending| > 0 ==>
      FieldsExact(pending[|pending| - 1].value, convert) && AllExact(pending[..|pending| - 1], convert)
  }

  lemma Push(pending: seq<Item>, item: Item, lexemes: Lexemes, convert: Conversion)
    ensures PendingSize(pending + [item]) == PendingSize(pending) + TreeSize(item.value)
    ensures AllReady(pending + [item], lexemes, convert) <==>
              AllReady(pending, lexemes, convert) && Ready(item, lexemes, convert)
    ensures AllExact(pending + [item], convert) <==> AllExact(pending, convert) && FieldsExact(item.value, convert)
  {
    hide Ready, FieldsExact, TreeSize;
    assert (pending + [item])[..|pending|] == pending;
  }

  lemma Nothing(lexemes: Lexemes, convert: Conversion)
    ensures AllReady([], lexemes, convert) && AllExact([], convert) && PendingSize([]) == 0
  {
  }

  /** The children from the one at `i` on are exact, in themselves and below. */
  ghost predicate RestExact(w: Json.Value, i: nat, convert: Conversion)
    requires IsContainer(w) && i <= Size(w)
  {
    forall k :: i <= k < Size(w) ==> FieldExact(w, k, convert) && FieldsExact(ChildAt(w, k), convert)
  }

  lemma Opened(item: Item, convert: Conversion)
    ensures TreeSize(item.value) == 1 + if IsContainer(item.value) then ChildrenSize(item.value, 0) else 0
    ensures FieldsExact(item.value, convert) <==> (IsContainer(item.value) ==> RestExact(item.value, 0, convert))
  {
  }

  // One step over the children of an item.
  lemma NextChild(item: Item, i: nat, lexemes: Lexemes, convert: Conversion)
    requires IsContainer(item.value) && i < Size(item.value) && Ready(item, lexemes, convert) && Faithful(convert)
    ensures var w, at := item.value, item.at;
            var child, entry := ChildAt(w, i), (at, KeyAt(w, i));
            && Ready(Item(child, at + [i]), lexemes, convert)
            && ChildrenSize(w, i) == TreeSize(child) + ChildrenSize(w, i + 1)
            && (RestExact(w, i, convert) <==>
                FieldExact(w, i, convert) && FieldsExact(child, convert) && RestExact(w, i + 1, convert))
            && (child.Num? ==>
                  && entry in lexemes && lexemes[entry] == child.lexeme
                  && (ExactI64(convert(child.lexeme), Some(child.lexeme)) <==>
                      WireInteger(child.lexeme, convert(child.lexeme))))
  {
    ChildIsReady(item, i, lexemes, convert);
    hide *;
    var child := ChildAt(item.value, i);
    if child.Num? { TestDecides(child.lexeme, convert); }
    RestStep(item.value, i, convert);
  }

  lemma ChildIsReady(item: Item, i: nat, lexemes: Lexemes, convert: Conversion)
    requires IsContainer(item.value) && i < Size(item.value) && Ready(item, lexemes, convert)
    ensures var child, entry := ChildAt(item.value, i), (item.at, KeyAt(item.value, i));
            && Ready(Item(child, item.at + [i]), lexemes, convert)
            && ChildrenSize(item.value, i) == TreeSize(child) + ChildrenSize(item.value, i + 1)
            && (child.Num? ==>
                  && entry in lexemes && lexemes[entry] == child.lexeme
                  && IsLexeme(child.lexeme) && !convert(child.lexeme).NonFinite?)
  {
    hide IsLexeme;
    var child := ChildAt(item.value, i);
    assert RecordedChild(lexemes, item.value, item.at, i);
    assert Grammatical(child) && AllFinite(child, convert);
  }

  lemma RestStep(w: Json.Value, i: nat, convert: Conversion)
    requires IsContainer(w) && i < Size(w)
    ensures RestExact(w, i, convert) <==>
            FieldExact(w, i, convert) && FieldsExact(ChildAt(w, i), convert) && RestExact(w, i + 1, convert)
  {
    hide FieldExact, FieldsExact;
  }

  lemma Start(item: Item, lexemes: Lexemes, convert: Conversion)
    requires Ready(item, lexemes, convert)
    ensures AllReady([item], lexemes, convert) && (AllExact([item], convert) <==> FieldsExact(item.value, convert))
  {
    Nothing(lexemes, convert);
    Push([], item, lexemes, convert);
    assert [] + [item] == [item];
  }

  // The next item, and what is left without it.
  lemma Pop(pending: seq<Item>, lexemes: Lexemes, convert: Conversion)
    requires |pending| > 0
    ensures var rest, top := pending[..|pending| - 1], pending[|pending| - 1];
            && PendingSize(pending) == PendingSize(rest) + TreeSize(top.value) && TreeSize(top.value) > 0
            && (AllReady(pending, lexemes, convert) <==>
                  AllReady(rest, lexemes, convert) && Ready(top, lexemes, convert))
            && (AllExact(pending, convert) <==> AllExact(rest, convert) && FieldsExact(top.value, convert))
  {
    hide FieldsExact, Ready;
  }

  // A value without children is exact.
  lemma LeafExact(v: Json.Value, convert: Conversion)
    requires !IsContainer(v)
    ensures FieldsExact(v, convert)
  {
  }

  /** Checks the members of an item, and puts all its children on the stack. */
  method CheckChildren(current: Item, rest: seq<Item>, lexemes: Lexemes, convert: Conversion)
    returns (accepted: bool, pending: seq<Item>)
    requires IsContainer(current.value) && Ready(current, lexemes, convert) && AllReady(rest, lexemes, convert)
    requires Faithful(convert)
    ensures !accepted ==> !FieldsExact(current.value, convert)
    ensures accepted ==>
              && AllReady(pending, lexemes, convert)
              && PendingSize(pending) < PendingSize(rest) + TreeSize(current.value)
              && (AllExact(pending, convert) <==> AllExact(rest, convert) && FieldsExact(current.value, convert))
  {
    var w := current.value;
    Opened(current, convert);
    Closed(w, convert);
    hide *;
    pending := rest;
    for i := 0 to Size(w)
      invariant AllReady(pending, lexemes, convert)
      invariant PendingSize(pending) + ChildrenSize(w, i) == PendingSize(rest) + ChildrenSize(w, 0)
      invariant AllExact(pending, convert) && RestExact(w, i, convert) <==>
                AllExact(rest, convert) && RestExact(w, 0, convert)
      invariant RestExact(w, 0, convert) ==> RestExact(w, i, convert)
    {
      var child, entry := ChildAt(w, i), (current.at, KeyAt(w, i));
      NextChild(current, i, lexemes, convert);
      FieldTested(w, i, convert);
      if w.Obj? && Listed(w.members[i].name) && child.Num? &&
         !ExactI64(convert(child.lexeme), if entry in lexemes then Some(lexemes[entry]) else None) {
        return false, pending;
      }
      Push(pending, Item(child, current.at + [i]), lexemes, convert);
      pending := pending + [Item(child, current.at + [i])];
    }
    return true, pending;
  }

  lemma FieldTested(v: Json.Value, i: nat, convert: Conversion)
    requires IsContainer(v) && i < Size(v)
    ensures FieldExact(v, i, convert) <==>
              (v.Obj? && Listed(v.members[i].name) && ChildAt(v, i).Num? ==>
                 WireInteger(ChildAt(v, i).lexeme, convert(ChildAt(v, i).lexeme)))
  {
    hide WireInteger, Listed;
  }

  /** Accepts a parsed tree exactly if all its listed fields are wire integers. */
  method RejectInexactIntegerFields(value: Json.Value, lexemes: Lexemes, convert: Conversion) returns (accepted: bool)
    requires Recorded(lexemes, value, []) && Grammatical(value) && AllFinite(value, convert) && Faithful(convert)
    ensures accepted <==> FieldsExact(value, convert)
  {
    var pending := [Item(value, [])];
    assert Ready(pending[0], lexemes, convert);
    Start(pending[0], lexemes, convert);
    Nothing(lexemes, convert);
    hide *;
    while |pending| > 0
      invariant AllReady(pending, lexemes, convert)
      invariant AllExact(pending, convert) <==> FieldsExact(value, convert)
      decreases PendingSize(pending)
    {
      Pop(pending, lexemes, convert);
      var current := pending[|pending| - 1];
      pending := pending[..|pending| - 1];
      if !IsContainer(current.value) {
        LeafExact(current.value, convert);
        continue;
      }
      accepted, pending := CheckChildren(current, pending, lexemes, convert);
      if !accepted { return false; }
    }
    return true;
  }

  lemma Closed(w: Json.Value, convert: Conversion)
    requires IsContainer(w)
    ensures RestExact(w, Size(w), convert) && ChildrenSize(w, Size(w)) == 0
  {
  }

  datatype DecodeError = Invalid | NumberRange | Integer | Schema

  /** The checks of a hub response in their order, and its renaming; `validator` is the generated schema check. */
  method DecodeHubJson(source: Text, convert: Conversion, validator: Json.Value -> bool)
    returns (r: Result<Json.Value, DecodeError>)
    requires Faithful(convert)
    ensures match Json.Parse(source)
            case None => r == Err(Invalid)
            case Some(v) =>
              if !AllFinite(v, convert) then r == Err(NumberRange)
              else if !FieldsExact(v, convert) then r == Err(Integer)
              else r == if validator(v) then Ok(Camel(v)) else Err(Schema)
  {
    hide Json.Parse, AllFinite, FieldsExact, Recorded, Grammatical, Faithful;
    var parsed := ProtocolJson.ParseProtocolJson(source, convert);
    if parsed.Err? { return Err(if parsed.error.Invalid? then Invalid else NumberRange); }
    ParseGrammatical(source);
    var accepted := RejectInexactIntegerFields(parsed.value.value, parsed.value.lexemes, convert);
    if !accepted { return Err(Integer); }
    return if validator(parsed.value.value) then Ok(Camel(parsed.value.value)) else Err(Schema);
  }
}
