/** `parseProtocolJson`: a JSON text is parsed beside its numeric mirror, and keeps the lexeme of every number. */
module ProtocolJson {
  import opened Utf16
  import opened Wrappers
  import opened ObjectGraph
  import opened JsonTree
  import opened MirrorTheorem
  import opened TreeWalk
  import NumericMirror
  import VisitJson
  import Json

  // ----- Parsed objects have distinct names

  ghost predicate DistinctNames(members: seq<Json.Member>) {
    forall i, j :: 0 <= i < j < |members| ==> members[i].name != members[j].name
  }

  ghost predicate DistinctMembers(members: seq<Json.Member>) {
    DistinctNames(members) && forall i :: 0 <= i < |members| ==> Distinct(members[i].value)
  }

  ghost predicate DistinctElements(elements: seq<Json.Value>) {
    forall i :: 0 <= i < |elements| ==> Distinct(elements[i])
  }

  // Assigning adds no name but its own.
  lemma {:induction false} AssignNames(members: seq<Json.Member>, name: Text, value: Json.Value, taken: Text)
    requires taken != name && forall k :: 0 <= k < |members| ==> members[k].name != taken
    ensures forall i :: 0 <= i < |Json.Assign(members, name, value)| ==>
            Json.Assign(members, name, value)[i].name != taken
  {
    if |members| > 0 && members[0].name != name { AssignNames(members[1..], name, value, taken); }
  }

  lemma {:induction false} AssignDistinct(members: seq<Json.Member>, name: Text, value: Json.Value)
    requires DistinctMembers(members) && Distinct(value)
    ensures DistinctMembers(Json.Assign(members, name, value))
  {
    hide Distinct;
    if |members| > 0 {
      var tail := members[1..];
      assert forall k :: 0 <= k < |tail| ==> tail[k] == members[k + 1];
      if members[0].name == name {
        PrependDistinct(Json.Member(name, value), tail);
      } else {
        AssignDistinct(tail, name, value);
        AssignNames(tail, name, value, members[0].name);
        PrependDistinct(members[0], Json.Assign(tail, name, value));
      }
    }
  }

  lemma PrependDistinct(first: Json.Member, rest: seq<Json.Member>)
    requires DistinctMembers(rest) && Distinct(first.value) && forall k :: 0 <= k < |rest| ==>
             rest[k].name != first.name
    ensures DistinctMembers([first] + rest)
  {
    hide Distinct;
    var all := [first] + rest;
    assert forall k :: 1 <= k < |all| ==> all[k] == rest[k - 1];
  }

  lemma {:induction false} ParseDistinct(tokens: seq<Json.Token>)
    requires Json.ParseValue(tokens).Some?
    ensures Distinct(Json.ParseValue(tokens).value.0)
    decreases |tokens|, 0
  {
    hide Json.Unescape, Json.ParseElements, Json.ParseMembers;
    match tokens[0] {
      case Punct(u) =>
        if u == Json.LBRACKET && !Json.Starts(tokens[1..], Json.RBRACKET) {
          ParseElementsDistinct(tokens[1..], []);
        } else if u == Json.LBRACE && !Json.Starts(tokens[1..], Json.RBRACE) {
          ParseMembersDistinct(tokens[1..], []);
          var v := Json.ParseValue(tokens).value.0;
          assert forall i :: 0 <= i < Size(v) ==> KeyAt(v, i) == Name(v.members[i].name);
        }
      case _ =>
    }
  }

  lemma {:induction false} ParseElementsDistinct(tokens: seq<Json.Token>, read: seq<Json.Value>)
    requires DistinctElements(read) && Json.ParseElements(tokens, read).Some?
    ensures DistinctElements(Json.ParseElements(tokens, read).value.0)
    decreases |tokens|, 1
  {
    ParseDistinct(tokens);
    var (v, rest) := Json.ParseValue(tokens).value;
    if Json.Starts(rest, Json.COMMA) { ParseElementsDistinct(rest[1..], read + [v]); }
  }

  lemma {:induction false} ParseMembersDistinct(tokens: seq<Json.Token>, read: seq<Json.Member>)
    requires DistinctMembers(read) && Json.ParseMembers(tokens, read).Some?
    ensures DistinctMembers(Json.ParseMembers(tokens, read).value.0)
    decreases |tokens|, 1
  {
    hide Json.Unescape, DistinctMembers, Json.Assign;
    ParseDistinct(tokens[2..]);
    var name := Json.Unescape(tokens[0].raw).value;
    var (v, rest) := Json.ParseValue(tokens[2..]).value;
    AssignDistinct(read, name, v);
    if Json.Starts(rest, Json.COMMA) { ParseMembersDistinct(rest[1..], Json.Assign(read, name, v)); }
  }

  // ----- The parser

  datatype ParseError = Invalid | NumberRange

  datatype Parsed = Parsed(value: Json.Value, lexemes: Lexemes)

  /** Succeeds exactly on the JSON texts without an overflowing number, and records the lexeme of every number. */
  method ParseProtocolJson(source: Text, convert: Conversion) returns (r: Result<Parsed, ParseError>)
    ensures match Json.Parse(source)
            case None => r == Err(Invalid)
            case Some(v) =>
              if AllFinite(v, convert) then r.Ok? && r.value.value == v && Recorded(r.value.lexemes, v, [])
              else r == Err(NumberRange)
  {
    hide Json.Parse, NumericMirror.Mirror, AllFinite, Recorded, Build, ToVal, TreeVisits;
    var text := NumericMirror.NumericMirror(source);
    var mirror := Json.Parse(text);
    var value := Json.Parse(source);
    if value.Some? { MirrorParses(source); }
    if mirror.None? || value.None? { return Err(Invalid); }
    var v := value.value;
    var g, mirrors := Build(v, [], convert), Build(mirror.value, [], convert);
    Prepare(source, v, convert, g, mirrors);
    var visits, finite := VisitJson.VisitJson(g, mirrors, ToVal(v, [], convert),
                                              Some(ToVal(mirror.value, [], convert)));
    Outcome(v, convert, visits, finite);
    if !finite { return Err(NumberRange); }
    var lexemes: Lexemes := map[];
    assert visits[0..] == visits;
    for i := 0 to |visits|
      invariant RecordAll(lexemes, visits[i..]) == RecordAll(map[], visits)
    {
      assert visits[i..][1..] == visits[i + 1..];
      lexemes := Record(lexemes, visits[i]);
    }
    assert visits[|visits|..] == [];
    return Ok(Parsed(v, lexemes));
  }

  lemma Prepare(source: Text, v: Json.Value, convert: Conversion, g: Graph, mirrors: Graph)
    requires Json.Parse(source) == Some(v)
    requires g == Build(v, [], convert) && mirrors == Build(MirrorValue(v), [], convert)
    ensures Closed(g) && Known(g, ToVal(v, [], convert)) && Distinct(v)
    ensures VisitValue(g, mirrors, ToVal(v, [], convert), Some(ToVal(MirrorValue(v), [], convert)), None, {}) ==
            TreeVisits(v, [], convert, None)
  {
    BuildEmbeds(g, v, [], convert);
    BuildEmbeds(mirrors, MirrorValue(v), [], convert);
    BuildClosed(g, v, [], convert);
    var tokens := Json.Tokens(source).value;
    ParseDistinct(Json.Significant(tokens));
    WalkTree(g, mirrors, v, [], convert, None, {});
  }

  lemma Outcome(v: Json.Value, convert: Conversion, visits: seq<Visit>, finite: bool)
    requires VisitJson.Outcome(TreeVisits(v, [], convert, None), visits, finite) && Distinct(v)
    ensures finite <==> AllFinite(v, convert)
    ensures finite ==> Recorded(RecordAll(map[], visits), v, [])
  {
    VisitsFinite(v, [], convert, None);
    RecordTree(map[], v, [], convert, None);
  }
}
