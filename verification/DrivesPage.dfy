/** From the text of a drives response to its checked page: what the checks say about the numbers on the wire. */
module DrivesPage {
  import opened Utf16
  import opened Wrappers
  import opened Decimals
  import opened ExactInteger
  import opened JsonTree
  import opened JsonNumbers
  import opened TreeWalk
  import opened Camelize
  import opened HubDrives
  import HubValidate
  import Json

  /** An ASCII string as code units. */
  function Units(s: string): Text {
    seq(|s|, i requires 0 <= i < |s| => if s[i] < 0x80 as char then s[i] as Unit else NUL)
  }

  const ITEMS: Text := Units("items")
  const ID: Text := Units("id")
  const VEHICLE_ID: Text := Units("vehicle_id")
  const START_DATE_MS: Text := Units("start_date_ms")

  function Member(members: seq<Json.Member>, name: Text): Option<Json.Value> {
    if |members| == 0 then None
    else if members[0].name == name then Some(members[0].value)
    else Member(members[1..], name)
  }

  lemma {:induction false} MemberIs(members: seq<Json.Member>, name: Text) returns (i: nat)
    requires Member(members, name).Some?
    ensures i < |members| && members[i].name == name && members[i].value == Member(members, name).value
  {
    if members[0].name == name {
      i := 0;
    } else {
      var j := MemberIs(members[1..], name);
      i := j + 1;
    }
  }

  // ----- The shape that the schema guarantees

  ghost predicate IsDrive(v: Json.Value) {
    && v.Obj? && StayDistinct(v.members)
    && (match Member(v.members, ID) case Some(Num(_)) => true case _ => false)
    && (match Member(v.members, VEHICLE_ID) case Some(Str(_)) => true case _ => false)
    && (match Member(v.members, START_DATE_MS) case Some(Num(_)) => true case _ => false)
  }

  ghost predicate IsDrivesPage(v: Json.Value) {
    && v.Obj? && StayDistinct(v.members)
    && match Member(v.members, ITEMS)
       case Some(Arr(items)) => forall i :: 0 <= i < |items| ==> IsDrive(items[i])
       case _ => false
  }

  /** A drive as the Hub sends it. */
  function SentDrive(id: Text, vehicleId: Text, start: Text): Json.Value {
    Json.Obj([Json.Member(Units("id"), Json.Num(id)), Json.Member(Units("vehicle_id"), Json.Str(vehicleId)),
              Json.Member(Units("start_date_ms"), Json.Num(start))])
  }

  // The shape is that of real pages: of a page with one drive, for instance.
  lemma OneDrive(id: Text, vehicleId: Text, start: Text)
    ensures IsDrivesPage(Json.Obj([Json.Member(Units("items"), Json.Arr([SentDrive(id, vehicleId, start)]))]))
    ensures IsDrivesPage(Json.Obj([Json.Member(Units("items"), Json.Arr([]))]))
  {
    DriveShape(id, vehicleId, start);
    hide IsDrive, SentDrive, CamelName;
    assert |ITEMS| == 5;
  }

  lemma DriveShape(id: Text, vehicleId: Text, start: Text)
    ensures IsDrive(SentDrive(id, vehicleId, start))
  {
    var members := SentDrive(id, vehicleId, start).members;
    NamesDiffer();
    DistinctOfThree(members);
    hide CamelName, Member, Units, StayDistinct;
    MemberFound(members, 0);
    MemberFound(members, 1);
    MemberFound(members, 2);
  }

  lemma NamesDiffer()
    ensures ID != VEHICLE_ID && ID != START_DATE_MS && VEHICLE_ID != START_DATE_MS
    ensures CamelName(ID) != CamelName(VEHICLE_ID) && CamelName(ID) != CamelName(START_DATE_MS)
    ensures CamelName(VEHICLE_ID) != CamelName(START_DATE_MS)
  {
    JavaScriptNames();
    hide CamelName;
    assert |ID| == 2 && |VEHICLE_ID| == 10 && |START_DATE_MS| == 13;
    assert |Units("id")| == 2 && |Units("vehicleId")| == 9 && |Units("startDateMs")| == 11;
  }

  lemma DistinctOfThree(members: seq<Json.Member>)
    requires |members| == 3 && CamelName(members[0].name) != CamelName(members[1].name)
    requires CamelName(members[0].name) != CamelName(members[2].name)
    requires CamelName(members[1].name) != CamelName(members[2].name)
    ensures StayDistinct(members)
  {
    hide CamelName;
  }

  lemma {:induction false} MemberFound(members: seq<Json.Member>, i: nat)
    requires i < |members| && forall j :: 0 <= j < i ==> members[j].name != members[i].name
    ensures Member(members, members[i].name) == Some(members[i].value)
  {
    if i > 0 {
      assert members[1..][i - 1] == members[i];
      MemberFound(members[1..], i - 1);
    }
  }

  ghost function Items(v: Json.Value): seq<Json.Value>
    requires IsDrivesPage(v)
  {
    Member(v.members, ITEMS).value.elements
  }

  ghost function IdLexeme(drive: Json.Value): Text
    requires IsDrive(drive)
  {
    Member(drive.members, ID).value.lexeme
  }

  ghost function StartLexeme(drive: Json.Value): Text
    requires IsDrive(drive)
  {
    Member(drive.members, START_DATE_MS).value.lexeme
  }

  // ----- Reading the renamed response

  /** The fields of a decoded drive; numbers are read as JavaScript numbers. */
  function ReadDrive(v: Json.Value, convert: Conversion): Option<Drive> {
    if !v.Obj? then None
    else match (Member(v.members, Units("id")), Member(v.members, Units("vehicleId")),
                Member(v.members, Units("startDateMs")))
      case (Some(Num(id)), Some(Str(vehicleId)), Some(Num(start))) =>
        if convert(id).NonFinite? || convert(start).NonFinite? then None
        else Some(Drive(convert(id).Value(), vehicleId, convert(start).Value()))
      case _ => None
  }

  function ReadDrives(items: seq<Json.Value>, convert: Conversion): Option<seq<Drive>> {
    if |items| == 0 then Some([])
    else match (ReadDrive(items[0], convert), ReadDrives(items[1..], convert))
      case (Some(drive), Some(drives)) => Some([drive] + drives)
      case _ => None
  }

  /** `value.items` of a decoded page. */
  function ReadPage(v: Json.Value, convert: Conversion): Option<seq<Drive>> {
    if !v.Obj? then None
    else match Member(v.members, Units("items"))
      case Some(Arr(items)) => ReadDrives(items, convert)
      case _ => None
  }

  lemma {:induction false} MemberRenamed(members: seq<Json.Member>, name: Text)
    requires StayDistinct(members) && Member(members, name).Some?
    ensures Member(Renamed(members), CamelName(name)) == Some(Camel(Member(members, name).value))
  {
    hide CamelName, Camel;
    if members[0].name != name {
      var i := MemberIs(members[1..], name);
      assert members[1..][i] == members[i + 1];
      assert Renamed(members)[1..] == Renamed(members[1..]);
      assert forall j :: 0 <= j < |members[1..]| ==> members[1..][j] == members[j + 1];
      MemberRenamed(members[1..], name);
    }
  }

  lemma CamelMember(v: Json.Value, name: Text)
    requires v.Obj? && StayDistinct(v.members) && Member(v.members, name).Some?
    ensures Camel(v).Obj? && Member(Camel(v).members, CamelName(name)) == Some(Camel(Member(v.members, name).value))
  {
    NoMemberLost(v.members);
    MemberRenamed(v.members, name);
  }

  // The names that the checks read.
  lemma JavaScriptNames()
    ensures CamelName(ITEMS) == Units("items") && CamelName(ID) == Units("id")
    ensures CamelName(VEHICLE_ID) == Units("vehicleId") && CamelName(START_DATE_MS) == Units("startDateMs")
  {
    PlainName(ITEMS);
    PlainName(ID);
    VehicleName();
    StartName();
  }

  lemma VehicleName()
    ensures CamelName(VEHICLE_ID) == Units("vehicleId")
  {
    hide CamelName;
    PlainName(Units("d"));
    NameThenCapital(Units("vehicle"), 0x69, Units("d"));
    assert VEHICLE_ID == Units("vehicle") + [UNDERSCORE, 0x69] + Units("d");
    assert Units("vehicleId") == Units("vehicle") + [0x49] + Units("d");
  }

  lemma StartName()
    ensures CamelName(START_DATE_MS) == Units("startDateMs")
  {
    hide CamelName;
    PlainName(Units("s"));
    NameThenCapital(Units("ate"), 0x6D, Units("s"));
    assert Units("ate_ms") == Units("ate") + [UNDERSCORE, 0x6D] + Units("s");
    assert Units("ateMs") == Units("ate") + [0x4D] + Units("s");
    NameThenCapital(Units("start"), 0x64, Units("ate_ms"));
    assert START_DATE_MS == Units("start") + [UNDERSCORE, 0x64] + Units("ate_ms");
    assert Units("startDateMs") == Units("start") + [0x44] + Units("ateMs");
  }

  // ----- What the numbers are on the wire

  /** The exact number that a lexeme stands for. */
  ghost function WireValue(lexeme: Text): (x: real)
    requires IsLexeme(lexeme)
    ensures forall l :: Valid(l) && Render(l) == lexeme ==> x == Denotes(l)
  {
    var l :| Valid(l) && Render(l) == lexeme;
    assert forall m :: Valid(m) && Render(m) == lexeme ==> Denotes(l) == Denotes(m) by {
      forall m | Valid(m) && Render(m) == lexeme ensures Denotes(l) == Denotes(m) { DenotesUnique(l, m); }
    }
    Denotes(l)
  }

  lemma ListedNames()
    ensures HubValidate.Listed(ID) && HubValidate.Listed(START_DATE_MS)
  {
    assert seq(|ID|, i requires 0 <= i < |ID| => HubValidate.Ascii(ID[i])) == "id";
    assert seq(|START_DATE_MS|, i requires 0 <= i < |START_DATE_MS| => HubValidate.Ascii(START_DATE_MS[i])) ==
           "start_date_ms";
  }

  // A listed field that decoding has accepted is read as exactly the number on the wire, a 64-bit integer.
  lemma FieldIsWireValue(drive: Json.Value, name: Text, convert: Conversion)
    requires drive.Obj? && HubValidate.FieldsExact(drive, convert) && HubValidate.Listed(name)
    requires Member(drive.members, name).Some? && Member(drive.members, name).value.Num?
    ensures var lexeme := Member(drive.members, name).value.lexeme;
            && IsLexeme(lexeme) && !convert(lexeme).NonFinite? && convert(lexeme).Value() == WireValue(lexeme)
            && IsIntegral(WireValue(lexeme))
  {
    hide HubValidate.Listed, Valid, Denotes, Render, IsIntegral;
    var i := MemberIs(drive.members, name);
    assert ChildAt(drive, i) == drive.members[i].value;
    assert HubValidate.FieldExact(drive, i, convert);
    var lexeme := drive.members[i].value.lexeme;
    var l :| Valid(l) && Render(l) == lexeme && Denotes(l) == convert(lexeme).Value();
  }

  ghost predicate HasLexemes(drive: Json.Value) {
    IsDrive(drive) && IsLexeme(IdLexeme(drive)) && IsLexeme(StartLexeme(drive))
  }

  /** The drive with the exact numbers on the wire. */
  ghost function WireDrive(drive: Json.Value): Drive
    requires HasLexemes(drive)
  {
    Drive(WireValue(IdLexeme(drive)), Member(drive.members, VEHICLE_ID).value.s, WireValue(StartLexeme(drive)))
  }

  // An accepted drive is read as it is on the wire.
  lemma DriveIsWireDrive(drive: Json.Value, convert: Conversion)
    requires IsDrive(drive) && HubValidate.FieldsExact(drive, convert)
    ensures HasLexemes(drive) && ReadDrive(Camel(drive), convert) == Some(WireDrive(drive))
    ensures IsIntegral(WireDrive(drive).id) && IsIntegral(WireDrive(drive).startDateMs)
  {
    ListedNames();
    JavaScriptNames();
    FieldIsWireValue(drive, ID, convert);
    FieldIsWireValue(drive, START_DATE_MS, convert);
    CamelMember(drive, ID);
    CamelMember(drive, VEHICLE_ID);
    CamelMember(drive, START_DATE_MS);
    hide HubValidate.FieldsExact, HubValidate.Listed, WireValue, CamelName, CamelMembers, StayDistinct, Member,
         IsLexeme, IsIntegral;
  }

  ghost predicate AllHaveLexemes(items: seq<Json.Value>) {
    forall i :: 0 <= i < |items| ==> HasLexemes(items[i])
  }

  ghost function WireDrives(items: seq<Json.Value>): seq<Drive>
    requires AllHaveLexemes(items)
  {
    seq(|items|, i requires 0 <= i < |items| => WireDrive(items[i]))
  }

  ghost predicate ExactDrives(items: seq<Json.Value>, convert: Conversion) {
    forall i :: 0 <= i < |items| ==> IsDrive(items[i]) && HubValidate.FieldsExact(items[i], convert)
  }

  lemma {:induction false} DrivesAreWireDrives(items: seq<Json.Value>, convert: Conversion)
    requires ExactDrives(items, convert)
    ensures AllHaveLexemes(items)
    ensures ReadDrives(CamelAll(items), convert) == Some(WireDrives(items))
  {
    hide IsDrive, HubValidate.FieldsExact, HasLexemes, ReadDrive, WireDrive, Camel;
    if |items| > 0 {
      DriveIsWireDrive(items[0], convert);
      assert forall i :: 0 <= i < |items[1..]| ==> items[1..][i] == items[i + 1];
      DrivesAreWireDrives(items[1..], convert);
      assert forall i :: 1 <= i < |items| ==> items[i] == items[1..][i - 1];
      assert CamelAll(items)[1..] == CamelAll(items[1..]);
      assert WireDrives(items) == [WireDrive(items[0])] + WireDrives(items[1..]);
    }
  }

  function CamelAll(items: seq<Json.Value>): seq<Json.Value> {
    seq(|items|, i requires 0 <= i < |items| => Camel(items[i]))
  }

  // The items of a page are exact if the page is.
  lemma ItemsExact(v: Json.Value, convert: Conversion)
    requires IsDrivesPage(v) && HubValidate.FieldsExact(v, convert)
    ensures ExactDrives(Items(v), convert)
  {
    hide IsDrive, HubValidate.FieldExact, StayDistinct;
    var k := MemberIs(v.members, ITEMS);
    var list := v.members[k].value;
    assert ChildAt(v, k) == list && HubValidate.FieldsExact(list, convert);
    forall i | 0 <= i < |list.elements| ensures HubValidate.FieldsExact(list.elements[i], convert) {
      assert ChildAt(list, i) == list.elements[i];
    }
  }

  // A decoded page is read with the numbers that are on the wire.
  lemma PageIsWirePage(v: Json.Value, convert: Conversion)
    requires IsDrivesPage(v) && HubValidate.FieldsExact(v, convert)
    ensures AllHaveLexemes(Items(v)) && ReadPage(Camel(v), convert) == Some(WireDrives(Items(v)))
  {
    ItemsExact(v, convert);
    DrivesAreWireDrives(Items(v), convert);
    CamelMember(v, ITEMS);
    JavaScriptNames();
    var list := Member(v.members, ITEMS).value;
    assert Camel(list) == Json.Arr(CamelAll(list.elements));
    hide HubValidate.FieldsExact, ReadDrives, WireDrives, CamelAll, CamelName, CamelMembers, StayDistinct, Member;
  }

  // The checks accept exactly the pages that are in order on the wire: of any two drives the earlier listed one has the
  // later start time, or the same and the greater id, by the exact numbers of the response. So no two drives agree in
  // both, and rounding hides none.
  lemma AcceptedOnTheWire(v: Json.Value, convert: Conversion, vehicleId: Text, fromMs: Option<int>, toMs: Option<int>,
                          limit: Option<int>)
    requires IsDrivesPage(v) && HubValidate.FieldsExact(v, convert)
    ensures AllHaveLexemes(Items(v)) && ReadPage(Camel(v), convert).Some?
    ensures var drives := WireDrives(Items(v));
            CheckPage(ReadPage(Camel(v), convert).value, vehicleId, fromMs, toMs, limit) == None <==>
            && |drives| <= limit.GetOr(100)
            && (forall i :: 0 <= i < |drives| ==>
                  && drives[i].vehicleId == vehicleId
                  && Real(fromMs.GetOr(0)) <= drives[i].startDateMs < Real(toMs.GetOr(9_007_199_254_740_991)))
            && (forall i, j :: 0 <= i < j < |drives| ==> Precedes(drives[i], drives[j]))
  {
    PageIsWirePage(v, convert);
    AcceptedPage(WireDrives(Items(v)), vehicleId, fromMs, toMs, limit);
  }

  datatype DrivesError = Undecodable(decode: HubValidate.DecodeError) | Refused(page: PageError)

  /** The whole way of a drives response; the schema check lets only drives pages through. */
  method ReceivePage(source: Text, convert: Conversion, validator: Json.Value -> bool, vehicleId: Text,
                     fromMs: Option<int>, toMs: Option<int>, limit: Option<int>)
    returns (r: Result<seq<Drive>, DrivesError>)
    requires Faithful(convert) && forall v :: validator(v) ==> IsDrivesPage(v)
    ensures match Json.Parse(source)
            case None => r == Err(Undecodable(HubValidate.Invalid))
            case Some(v) =>
              if !AllFinite(v, convert) then r == Err(Undecodable(HubValidate.NumberRange))
              else if !HubValidate.FieldsExact(v, convert) then r == Err(Undecodable(HubValidate.Integer))
              else if !validator(v) then r == Err(Undecodable(HubValidate.Schema))
              else
                && IsDrivesPage(v) && AllHaveLexemes(Items(v))
                && var drives := WireDrives(Items(v));
                   match CheckPage(drives, vehicleId, fromMs, toMs, limit)
                   case Some(error) => r == Err(Refused(error))
                   case None =>
                     && r == Ok(drives) && |drives| <= limit.GetOr(100)
                     && (forall i :: 0 <= i < |drives| ==>
                           && drives[i].vehicleId == vehicleId
                           && Real(fromMs.GetOr(0)) <= drives[i].startDateMs < Real(toMs.GetOr(9_007_199_254_740_991)))
                     && (forall i, j :: 0 <= i < j < |drives| ==> Precedes(drives[i], drives[j]))
  {
    hide AllFinite, IsDrivesPage, Faithful, HubValidate.FieldsExact, Json.Parse, Camel, ReadPage, CheckPage, WireDrives,
         Precedes, AllHaveLexemes;
    var decoded := HubValidate.DecodeHubJson(source, convert, validator);
    if decoded.Err? { return Err(Undecodable(decoded.error)); }
    ghost var v := Json.Parse(source).value;
    PageIsWirePage(v, convert);
    AcceptedOnTheWire(v, convert, vehicleId, fromMs, toMs, limit);
    var drives := ReadPage(decoded.value, convert).value;
    var refused := CheckPage(drives, vehicleId, fromMs, toMs, limit);
    return if refused.Some? then Err(Refused(refused.value)) else Ok(drives);
  }
}
