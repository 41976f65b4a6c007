/** `camelize`: the members of a decoded Hub response under their JavaScript names. */
module Camelize {
  import opened Utf16
  import Json

  const UNDERSCORE: Unit := 0x5F

  predicate IsLower(u: Unit) { 0x61 <= u <= 0x7A }

  /** Each underscore before a lower-case letter goes, and the letter becomes a capital. */
  function CamelName(name: Text): Text {
    if |name| == 0 then []
    else if |name| >= 2 && name[0] == UNDERSCORE && IsLower(name[1]) then [name[1] - 0x20] + CamelName(name[2..])
    else [name[0]] + CamelName(name[1..])
  }

  // A name without an underscore stays as it is.
  lemma {:induction false} PlainName(name: Text)
    requires 0x5F !in name
    ensures CamelName(name) == name
  {
    if |name| > 0 { PlainName(name[1..]); }
  }

  // An underscore before any of the letters a to z goes, and the letter becomes the capital one.
  lemma {:induction false} NameThenCapital(before: Text, letter: Unit, after: Text)
    requires 0x5F !in before && 0x61 <= letter <= 0x7A
    ensures CamelName(before + [0x5F, letter] + after) == before + [letter - 0x20] + CamelName(after)
  {
    var name := before + [0x5F, letter] + after;
    if |before| == 0 {
      assert name[2..] == after;
    } else {
      assert name[1..] == before[1..] + [0x5F, letter] + after;
      NameThenCapital(before[1..], letter, after);
    }
  }

  // An underscore before anything else, or at the end of a name, stays.
  lemma {:induction false} UnderscoreStays(before: Text, after: Text)
    requires 0x5F !in before && (after == [] || after[0] < 0x61 || 0x7A < after[0])
    ensures CamelName(before + [0x5F] + after) == before + [0x5F] + CamelName(after)
  {
    var name := before + [0x5F] + after;
    if |before| == 0 {
      assert name[1..] == after;
    } else {
      assert name[1..] == before[1..] + [0x5F] + after;
      UnderscoreStays(before[1..], after);
    }
  }

  /** A later member replaces an earlier one of the same new name, as in `Object.fromEntries`. */
  function Camel(v: Json.Value): Json.Value
    decreases v
  {
    match v
    case Arr(elements) => Json.Arr(seq(|elements|, i requires 0 <= i < |elements| => Camel(elements[i])))
    case Obj(members) => Json.Obj(CamelMembers(members))
    case _ => v
  }

  function CamelMembers(members: seq<Json.Member>): seq<Json.Member>
    decreases members
  {
    if |members| == 0 then []
    else
      var last := members[|members| - 1];
      Json.Assign(CamelMembers(members[..|members| - 1]), CamelName(last.name), Camel(last.value))
  }

  // Arrays keep their elements in place, each renamed within, and anything else but an object stays as it is.
  lemma CamelShape(v: Json.Value)
    ensures v.Arr? ==>
              && Camel(v).Arr? && |Camel(v).elements| == |v.elements|
              && forall i :: 0 <= i < |v.elements| ==> Camel(v).elements[i] == Camel(v.elements[i])
    ensures v.Obj? ==> Camel(v) == Json.Obj(CamelMembers(v.members))
    ensures !v.Arr? && !v.Obj? ==> Camel(v) == v
  {
  }

  /** No two members get the same name. */
  ghost predicate StayDistinct(members: seq<Json.Member>) {
    forall i, j :: 0 <= i < j < |members| ==> CamelName(members[i].name) != CamelName(members[j].name)
  }

  ghost predicate Has(members: seq<Json.Member>, name: Text) {
    exists i :: 0 <= i < |members| && members[i].name == name
  }

  lemma {:induction false} AssignSize(members: seq<Json.Member>, name: Text, value: Json.Value)
    ensures |Json.Assign(members, name, value)| == |members| + (if Has(members, name) then 0 else 1)
    ensures forall other :: Has(Json.Assign(members, name, value), other) <==> Has(members, other) || other == name
    ensures !Has(members, name) ==> Json.Assign(members, name, value) == members + [Json.Member(name, value)]
  {
    if |members| == 0 {
      assert Json.Assign(members, name, value)[0].name == name;
    } else {
      var tail, after := members[1..], Json.Assign(members, name, value);
      HasSplits(members);
      HasSplits(after);
      if members[0].name == name {
        assert after[1..] == tail;
      } else {
        AssignSize(tail, name, value);
        assert after[1..] == Json.Assign(tail, name, value);
      }
    }
  }

  lemma HasSplits(members: seq<Json.Member>)
    requires |members| > 0
    ensures forall name :: Has(members, name) <==> members[0].name == name || Has(members[1..], name)
  {
    forall name | Has(members[1..], name) ensures Has(members, name) {
      var i :| 0 <= i < |members[1..]| && members[1..][i].name == name;
      assert members[i + 1].name == name;
    }
    forall name | Has(members, name) && members[0].name != name ensures Has(members[1..], name) {
      var i :| 0 <= i < |members| && members[i].name == name;
      assert members[1..][i - 1].name == name;
    }
  }

  /** The members under their new names, one by one. */
  function Renamed(members: seq<Json.Member>): seq<Json.Member> {
    seq(|members|, i requires 0 <= i < |members| => Json.Member(CamelName(members[i].name), Camel(members[i].value)))
  }

  lemma HasPush(members: seq<Json.Member>, last: Json.Member)
    ensures forall name :: Has(members + [last], name) <==> Has(members, name) || last.name == name
  {
    var more := members + [last];
    forall name | Has(members, name) || last.name == name ensures Has(more, name) {
      if last.name == name {
        assert more[|members|].name == name;
      } else {
        var i :| 0 <= i < |members| && members[i].name == name;
        assert more[i].name == name;
      }
    }
  }

  // What the last member adds.
  lemma LastRenamed(members: seq<Json.Member>)
    requires |members| > 0
    ensures var before, last := members[..|members| - 1], members[|members| - 1];
            && Renamed(members) == Renamed(before) + [Json.Member(CamelName(last.name), Camel(last.value))]
            && (StayDistinct(members) <==> StayDistinct(before) && !Has(Renamed(before), CamelName(last.name)))
  {
    hide CamelName, Camel;
    var before, last := members[..|members| - 1], members[|members| - 1];
    assert forall i :: 0 <= i < |before| ==>
      members[i] == before[i] && Renamed(before)[i].name == CamelName(members[i].name);
  }

  // Renaming keeps every member in its place exactly if no two get the same name; otherwise a member is lost. Every new
  // name is there.
  lemma {:induction false} NoMemberLost(members: seq<Json.Member>)
    ensures StayDistinct(members) <==> CamelMembers(members) == Renamed(members)
    ensures StayDistinct(members) <==> |CamelMembers(members)| == |members|
    ensures |CamelMembers(members)| <= |members|
    ensures forall name :: Has(CamelMembers(members), name) <==> Has(Renamed(members), name)
    decreases |members|
  {
    if |members| > 0 {
      var before, last := members[..|members| - 1], members[|members| - 1];
      var renamed := Json.Member(CamelName(last.name), Camel(last.value));
      NoMemberLost(before);
      AssignSize(CamelMembers(before), renamed.name, renamed.value);
      LastRenamed(members);
      HasPush(Renamed(before), renamed);
      assert CamelMembers(members) == Json.Assign(CamelMembers(before), renamed.name, renamed.value);
      assert |Renamed(before)| == |before|;
      hide *;
    }
  }
}
