/** `snapshotJsonRequest`: copies a plain value out of a caller's object graph and prints it in the same walk. */
module JsonSnapshot {
  import opened Utf16
  import opened Wrappers
  import opened Decimals
  import opened Powers
  import opened ExactInteger
  import opened Sets
  import opened JsonTree
  import opened JsonQuote
  import opened JsonPrint
  import opened RequestGraph
  import JsonRoundTrip
  import Utf8Decoder
  import Json
  import JsonGrammar

  datatype Snapshot = Snapshot(value: Tree, body: Text)

  lemma {:induction false} CommasElements(pieces: seq<Text>, elements: seq<Tree>, format: Format)
    requires |pieces| == |elements| && forall i :: 0 <= i < |pieces| ==> pieces[i] == Print(elements[i], format)
    ensures JsonGrammar.Commas(pieces) == PrintElements(elements, format)
  {
    hide Print;
    if |pieces| > 0 { CommasElements(pieces[1..], elements[1..], format); }
  }

  lemma {:induction false} CommasMembers(pieces: seq<Text>, members: seq<Entry>, format: Format)
    requires |pieces| == |members| && forall i :: 0 <= i < |pieces| ==> pieces[i] == PrintMember(members[i], format)
    ensures JsonGrammar.Commas(pieces) == PrintMembers(members, format)
  {
    hide PrintMember;
    if |pieces| > 0 { CommasMembers(pieces[1..], members[1..], format); }
  }

  // ----- The keys of a dense array

  ghost predicate KeyBefore(node: Node, name: Text, j: nat)
    requires j <= |node.keys|
  {
    exists k :: 0 <= k < j && node.keys[k].key == Name(name)
  }

  ghost predicate Covers(node: Node, indices: set<nat>, j: nat)
    requires node.Array? && j <= |node.keys|
  {
    forall i: nat :: i in indices <==> i < node.length && KeyBefore(node, Canonical(i), j)
  }

  /** `indices` are those of the first `j` keys, which are otherwise only `length`. */
  ghost predicate Filled(node: Node, indices: set<nat>, j: nat)
    requires node.Array? && j <= |node.keys|
  {
    && Covers(node, indices, j)
    && |indices| + (if KeyBefore(node, LENGTH, j) then 1 else 0) == j
  }

  ghost predicate DistinctKeys(node: Node) {
    forall i, j :: 0 <= i < j < |node.keys| ==> node.keys[i].key != node.keys[j].key
  }

  lemma BeforeNext(node: Node, name: Text, j: nat)
    requires j < |node.keys|
    ensures KeyBefore(node, name, j + 1) <==> KeyBefore(node, name, j) || node.keys[j].key == Name(name)
  {
  }

  lemma FilledLength(node: Node, indices: set<nat>, j: nat)
    requires node.Array? && DistinctKeys(node) && j < |node.keys| && Filled(node, indices, j)
    requires node.keys[j].key == Name(LENGTH)
    ensures Filled(node, indices, j + 1)
  {
    forall i: nat ensures KeyBefore(node, Canonical(i), j + 1) <==> KeyBefore(node, Canonical(i), j) {
      CanonicalIsNotLength(i);
      BeforeNext(node, Canonical(i), j);
    }
    hide Canonical;
  }

  lemma FilledIndex(node: Node, indices: set<nat>, j: nat, n: nat)
    requires node.Array? && DistinctKeys(node) && j < |node.keys| && Filled(node, indices, j)
    requires n < node.length && node.keys[j].key == Name(Canonical(n))
    ensures n !in indices && Filled(node, indices + {n}, j + 1)
  {
    CanonicalIsNotLength(n);
    BeforeNext(node, LENGTH, j);
    NewIndexCovered(node, indices, j, n);
    hide Covers, Canonical, KeyBefore, DistinctKeys;
  }

  lemma NewIndexCovered(node: Node, indices: set<nat>, j: nat, n: nat)
    requires node.Array? && DistinctKeys(node) && j < |node.keys| && Covers(node, indices, j)
    requires n < node.length && node.keys[j].key == Name(Canonical(n))
    ensures n !in indices && Covers(node, indices + {n}, j + 1)
  {
    NewIndex(node, j, n);
    hide Canonical, KeyBefore, DistinctKeys;
  }

  lemma NewIndex(node: Node, j: nat, n: nat)
    requires DistinctKeys(node) && j < |node.keys| && node.keys[j].key == Name(Canonical(n))
    ensures !KeyBefore(node, Canonical(n), j)
    ensures forall i: nat :: KeyBefore(node, Canonical(i), j + 1) <==> KeyBefore(node, Canonical(i), j) || i == n
  {
    forall i: nat ensures KeyBefore(node, Canonical(i), j + 1) <==> KeyBefore(node, Canonical(i), j) || i == n {
      BeforeNext(node, Canonical(i), j);
      IndexIsCanonical(Canonical(i), n);
      IndexIsCanonical(Canonical(i), i);
    }
    hide Canonical;
  }

  ghost function Below(n: nat): set<nat> {
    if n == 0 then {} else Below(n - 1) + {n - 1}
  }

  lemma {:induction false} BelowSize(n: nat)
    ensures |Below(n)| == n && forall i: nat :: i in Below(n) <==> i < n
  {
    if n > 0 { BelowSize(n - 1); }
  }

  // Pigeonhole: as many indices as slots, all below the length, leave no slot empty.
  lemma AllFilled(node: Node, indices: set<nat>)
    requires node.Array? && |node.keys| == node.length + 1 && KeyBefore(node, LENGTH, |node.keys|)
    requires Filled(node, indices, |node.keys|)
    ensures indices == Below(node.length)
  {
    BelowSize(node.length);
    SameSize(indices, Below(node.length));
  }

  ghost function Names(node: Node): set<Key> { set k | 0 <= k < |node.keys| :: node.keys[k].key }

  lemma {:induction false} NamesSize(keys: seq<Own>)
    requires forall i, j :: 0 <= i < j < |keys| ==> keys[i].key != keys[j].key
    ensures |set k | 0 <= k < |keys| :: keys[k].key| == |keys|
  {
    var names := set k | 0 <= k < |keys| :: keys[k].key;
    if |keys| > 0 {
      var shorter, last := keys[..|keys| - 1], keys[|keys| - 1].key;
      NamesSize(shorter);
      var others := set k | 0 <= k < |shorter| :: shorter[k].key;
      assert last !in others;
      forall key ensures key in names <==> key in others + {last} {
        if key in others {
          var k :| 0 <= k < |shorter| && shorter[k].key == key;
          assert keys[k].key == key;
        }
      }
      assert names == others + {last};
    }
  }

  /** The keys of an array with all its elements. */
  ghost function DenseNames(n: nat): set<Key> {
    if n == 0 then {Name(LENGTH)} else DenseNames(n - 1) + {Name(Canonical(n - 1))}
  }

  lemma {:induction false} DenseSize(n: nat)
    ensures |DenseNames(n)| == n + 1
    ensures forall key :: key in DenseNames(n) <==> key == Name(LENGTH) || IsIndexBelow(key, n)
  {
    hide *;
    if n == 0 {
      DenseNone();
    } else {
      DenseSize(n - 1);
      NextIndex(n - 1);
      DenseStep(n);
    }
  }

  lemma DenseNone()
    ensures DenseNames(0) == {Name(LENGTH)} && forall key :: !IsIndexBelow(key, 0)
  {
  }

  lemma DenseStep(n: nat)
    requires n > 0
    ensures DenseNames(n) == DenseNames(n - 1) + {Name(Canonical(n - 1))}
  {
    hide Canonical;
  }

  ghost predicate IsIndexBelow(key: Key, n: nat) {
    key.Name? && ToIndex(key.name).Some? && ToIndex(key.name).value < n
  }

  lemma NextIndex(n: nat)
    ensures forall key :: IsIndexBelow(key, n + 1) <==> IsIndexBelow(key, n) || key == Name(Canonical(n))
    ensures !IsIndexBelow(Name(Canonical(n)), n) && Canonical(n) != LENGTH
  {
    CanonicalIsNotLength(n);
    IndexIsCanonical(Canonical(n), n);
    forall key: Key | key.Name? && ToIndex(key.name) == Some(n) ensures key == Name(Canonical(n)) {
      IndexIsCanonical(key.name, n);
    }
    hide Canonical, ToIndex;
  }

  // Every key of a regular array is `length` or an index.
  lemma DenseKeys(node: Node)
    requires node.Array? && DistinctKeys(node) && KeyBefore(node, LENGTH, |node.keys|) && Regular(node)
    ensures Names(node) == DenseNames(node.length)
  {
    NamesSize(node.keys);
    DenseSize(node.length);
    hide Canonical, Lookup, ToIndex, DenseNames;
    forall key | key in DenseNames(node.length) ensures key in Names(node) {
      if key != Name(LENGTH) {
        var i := ToIndex(key.name).value;
        IndexIsCanonical(key.name, i);
        RegularHolds(node, i);
        var k := LookupFinds(node.keys, key);
      }
    }
    SameSize(DenseNames(node.length), Names(node));
  }

  // The element of a key, and its property.
  lemma RegularKey(node: Node, j: nat)
    requires node.Array? && DistinctKeys(node) && KeyBefore(node, LENGTH, |node.keys|) && Regular(node)
    requires j < |node.keys| && node.keys[j].key != Name(LENGTH)
    ensures var own := node.keys[j];
            own.key.Name? && ToIndex(own.key.name).Some? && ToIndex(own.key.name).value < node.length
                && Holds(Some(own.property))
  {
    DenseKeys(node);
    DenseSize(node.length);
    assert node.keys[j].key in Names(node);
    LookupAt(node.keys, j);
    hide Regular, Canonical, Lookup, ToIndex, DenseNames;
    var i := ToIndex(node.keys[j].key.name).value;
    IndexIsCanonical(node.keys[j].key.name, i);
    RegularHolds(node, i);
  }

  lemma RegularHolds(node: Node, i: nat)
    requires Regular(node) && i < Slots(node)
    ensures Holds(Slot(node, i))
  {
  }

  // ----- The walk

  /** What a copy of a value is; without one, some path from the value offends. */
  ghost predicate Copied(g: Graph, v: JsValue, ancestors: set<nat>, r: Option<Snapshot>, format: Format) {
    match r
    case Some(s) => Is(g, v, s.value) && s.body == Print(s.value, format)
    case None => Rejects(g, v, ancestors)
  }

  // A node that is not regular, or is on the way already.
  lemma RejectedHere(g: Graph, v: JsValue, ancestors: set<nat>)
    requires !Good(g, v) || (v.Ref? && v.id in ancestors)
    ensures Rejects(g, v, ancestors)
  {
    assert Path(g, v, [v]) && Offends(g, [v], ancestors);
  }

  // What is wrong with a child is wrong with its node.
  lemma RejectedBelow(g: Graph, id: nat, child: JsValue, ancestors: set<nat>)
    requires IsChild(g, Ref(id), child) && Rejects(g, child, ancestors)
    ensures Rejects(g, Ref(id), ancestors - {id})
  {
    var path :| Path(g, child, path) && Offends(g, path, ancestors);
    var longer := [Ref(id)] + path;
    assert Path(g, Ref(id), longer) by {
      forall i | 0 <= i < |longer| - 1 ensures IsChild(g, longer[i], longer[i + 1]) {
        if i > 0 { assert IsChild(g, path[i - 1], path[i]); }
      }
    }
    var n := |path| - 1;
    assert longer[..n + 1] == [Ref(id)] + path[..n] && longer[n + 1] == path[n];
    assert Offends(g, longer, ancestors - {id});
  }

  lemma IrregularRejected(g: Graph, id: nat, ancestors: set<nat>)
    requires id in g
    ensures !Regular(g[id]) ==> Rejects(g, Ref(id), ancestors)
  {
    if !Regular(g[id]) { RejectedHere(g, Ref(id), ancestors); }
  }

  lemma NodeKeys(g: Graph, id: nat)
    requires ValidGraph(g) && id in g
    ensures DistinctKeys(g[id]) && (g[id].Array? ==> KeyBefore(g[id], LENGTH, |g[id].keys|))
  {
    assert ValidNode(g, g[id]);
  }

  lemma Irregular(node: Node)
    ensures !node.plain || (node.Array? && |node.keys| != node.length + 1) ==> !Regular(node)
  {
  }

  lemma IrregularKey(node: Node, j: nat)
    requires node.Array? && DistinctKeys(node) && KeyBefore(node, LENGTH, |node.keys|) && j < |node.keys|
    requires node.keys[j].key != Name(LENGTH)
    requires var own := node.keys[j];
             var index := if own.key.Name? then ToIndex(own.key.name) else None;
             index.None? || index.value >= node.length || !Holds(Some(own.property))
    ensures !Regular(node)
  {
    if Regular(node) { RegularKey(node, j); }
  }

  lemma NextElement(g: Graph, id: nat, j: nat, n: nat)
    requires ValidGraph(g) && id in g && g[id].Array? && DistinctKeys(g[id]) && j < |g[id].keys| && n < g[id].length
    requires g[id].keys[j].key.Name? && ToIndex(g[id].keys[j].key.name) == Some(n)
             && Holds(Some(g[id].keys[j].property))
    ensures var node := g[id];
            var own := node.keys[j];
            && own.property.Data? && own.key == Name(Canonical(n))
            && Slot(node, n) == Some(own.property) && SlotValue(node, n) == own.property.value
            && IsChild(g, Ref(id), own.property.value) && Known(g, own.property.value)
  {
    assert ValidNode(g, g[id]);
    IndexIsCanonical(g[id].keys[j].key.name, n);
    LookupAt(g[id].keys, j);
    hide Canonical, ToIndex, Lookup;
    assert SlotValue(g[id], n) == g[id].keys[j].property.value;
  }

  /** A copied element or member of a node. */
  ghost predicate Element(g: Graph, node: Node, format: Format, i: nat, s: Snapshot) {
    i < Slots(node) && Holds(Slot(node, i)) && Is(g, SlotValue(node, i), s.value) && s.body == Print(s.value, format)
  }

  lemma ArrayCopied(g: Graph, id: nat, copies: seq<Snapshot>, ancestors: set<nat>, format: Format)
    requires id in g && g[id].Array? && g[id].plain && |g[id].keys| == g[id].length + 1 && |copies| == g[id].length
    requires forall i :: 0 <= i < |copies| ==> Element(g, g[id], format, i, copies[i])
    ensures var values, bodies := Values(copies), Bodies(copies);
            Copied(g, Ref(id), ancestors,
                   Some(Snapshot(Tree.Array(values), [Json.LBRACKET] + JsonGrammar.Commas(bodies) + [Json.RBRACKET])),
                   format)
  {
    hide Slot, SlotValue, Holds;
    var t := Tree.Array(Values(copies));
    forall i | 0 <= i < Width(t) ensures Holds(Slot(g[id], i)) && Is(g, SlotValue(g[id], i), Child(t, i)) {
      assert Element(g, g[id], format, i, copies[i]);
    }
    CommasElements(Bodies(copies), Values(copies), format);
  }

  function Values(copies: seq<Snapshot>): seq<Tree> {
    seq(|copies|, i requires 0 <= i < |copies| => copies[i].value)
  }

  function Bodies(copies: seq<Snapshot>): seq<Text> {
    seq(|copies|, i requires 0 <= i < |copies| => copies[i].body)
  }

  lemma StopAtMember(g: Graph, id: nat, j: nat, ancestors: set<nat>, format: Format)
    requires id in g && g[id].Object? && j < |g[id].keys|
    requires !g[id].keys[j].key.Name? || !Holds(Some(g[id].keys[j].property))
    ensures Copied(g, Ref(id), ancestors, None, format)
  {
    assert Slot(g[id], j) == Some(g[id].keys[j].property);
    IrregularRejected(g, id, ancestors);
  }

  lemma NextMember(g: Graph, id: nat, j: nat)
    requires ValidGraph(g) && id in g && g[id].Object? && j < |g[id].keys| && Holds(Some(g[id].keys[j].property))
    ensures var node := g[id];
            var own := node.keys[j];
            && own.property.Data? && Slot(node, j) == Some(own.property) && SlotValue(node, j) == own.property.value
            && IsChild(g, Ref(id), own.property.value) && Known(g, own.property.value)
  {
    assert ValidNode(g, g[id]);
    assert SlotValue(g[id], j) == g[id].keys[j].property.value;
  }

  /** The first members of an object, copied. */
  ghost predicate Members(g: Graph, node: Node, format: Format, copy: seq<Entry>, members: seq<Text>) {
    && |copy| == |members| <= |node.keys|
    && forall k :: 0 <= k < |copy| ==>
         && node.keys[k].key == Name(copy[k].name) && members[k] == PrintMember(copy[k], format)
         && Element(g, node, format, k, Snapshot(copy[k].value, Print(copy[k].value, format)))
  }

  predicate IsMember(own: Own) {
    own.key.Name? && Holds(Some(own.property))
  }

  // What the key at `j` may lead to.
  lemma NextOwn(g: Graph, id: nat, format: Format, copy: seq<Entry>, members: seq<Text>, j: nat, ancestors: set<nat>)
    requires ValidGraph(g) && id in g && g[id].Object? && j < |g[id].keys| && |copy| == j
    requires Members(g, g[id], format, copy, members)
    ensures var own := g[id].keys[j];
            && (!IsMember(own) ==> Copied(g, Ref(id), Without(ancestors, id), None, format))
            && (IsMember(own) ==>
                  && own.key.Name? && own.property.Data? && Known(g, own.property.value)
                  && (Copied(g, own.property.value, ancestors, None, format) ==>
                        Copied(g, Ref(id), Without(ancestors, id), None, format))
                  && forall child :: Copied(g, own.property.value, ancestors, Some(child), format) ==>
                       Members(g, g[id], format, copy + [Entry(own.key.name, child.value)],
                               members + [Quote(own.key.name) + [COLON] + child.body]))
  {
    var own := g[id].keys[j];
    if !IsMember(own) {
      StopAtMember(g, id, j, Without(ancestors, id), format);
    } else {
      NextMember(g, id, j);
      hide ValidGraph, Members, IsChild, Known;
      if Copied(g, own.property.value, ancestors, None, format) {
        StopAtChild(g, id, own.property.value, ancestors, format);
      }
      forall child | Copied(g, own.property.value, ancestors, Some(child), format)
        ensures Members(g, g[id], format, copy + [Entry(own.key.name, child.value)],
                        members + [Quote(own.key.name) + [COLON] + child.body])
      {
        MemberCopied(g, id, format, copy, members, j, child);
      }
    }
  }

  lemma MemberCopied(g: Graph, id: nat, format: Format, copy: seq<Entry>, members: seq<Text>, j: nat, child: Snapshot)
    requires id in g && g[id].Object? && j < |g[id].keys| && |copy| == j && Members(g, g[id], format, copy, members)
    requires IsMember(g[id].keys[j]) && g[id].keys[j].property.Data?
    requires Slot(g[id], j) == Some(g[id].keys[j].property) && SlotValue(g[id], j) == g[id].keys[j].property.value
    requires Is(g, g[id].keys[j].property.value, child.value) && child.body == Print(child.value, format)
    ensures var name := g[id].keys[j].key.name;
            Members(g, g[id], format, copy + [Entry(name, child.value)],
                    members + [Quote(name) + [COLON] + child.body])
  {
    hide Is, Slot, SlotValue, Print, Quote, PrintMember;
    MemberPrinted(Entry(g[id].keys[j].key.name, child.value), format);
    assert Element(g, g[id], format, j, child);
  }

  lemma NoMembers(g: Graph, id: nat, format: Format)
    requires id in g
    ensures Members(g, g[id], format, [], [])
  {
  }

  /** The snapshot of an object from its members. */
  function Braced(copy: seq<Entry>, members: seq<Text>): Snapshot {
    Snapshot(Tree.Object(copy), [Json.LBRACE] + JsonGrammar.Commas(members) + [Json.RBRACE])
  }

  lemma ObjectCopied(g: Graph, id: nat, copy: seq<Entry>, members: seq<Text>, ancestors: set<nat>, format: Format)
    requires id in g && g[id].Object? && g[id].plain && |copy| == |g[id].keys|
             && Members(g, g[id], format, copy, members)
    ensures Copied(g, Ref(id), ancestors, Some(Braced(copy, members)), format)
  {
    hide Slot, SlotValue, Holds;
    var t := Tree.Object(copy);
    forall i | 0 <= i < Width(t) ensures Holds(Slot(g[id], i)) && Is(g, SlotValue(g[id], i), Child(t, i)) {
      assert Element(g, g[id], format, i, Snapshot(copy[i].value, Print(copy[i].value, format)));
    }
    CommasMembers(members, copy, format);
  }

  /** The elements under the first `j` keys of an array are copied, each into its slot. */
  ghost predicate Progress(g: Graph, id: nat, format: Format, children: map<nat, Snapshot>, j: nat)
    requires id in g && g[id].Array? && j <= |g[id].keys|
  {
    Filled(g[id], children.Keys, j) && forall i <- children :: Element(g, g[id], format, i, children[i])
  }

  predicate IsLength(node: Node, j: nat)
    requires j < |node.keys|
  {
    node.keys[j].key == Name(LENGTH)
  }

  lemma Begin(g: Graph, id: nat, format: Format)
    requires id in g && g[id].Array?
    ensures Progress(g, id, format, map[], 0)
  {
    var none: map<nat, Snapshot> := map[];
    assert none.Keys == {};
  }

  lemma SkipLength(g: Graph, id: nat, format: Format, children: map<nat, Snapshot>, j: nat)
    requires ValidGraph(g) && id in g && g[id].Array? && j < |g[id].keys| && Progress(g, id, format, children, j)
    requires IsLength(g[id], j)
    ensures Progress(g, id, format, children, j + 1)
  {
    NodeKeys(g, id);
    hide Element, ValidGraph;
    FilledLength(g[id], children.Keys, j);
  }

  lemma StopAtNode(g: Graph, id: nat, ancestors: set<nat>, format: Format)
    requires id in g
    ensures !g[id].plain || (g[id].Array? && |g[id].keys| != g[id].length + 1) ==>
            Copied(g, Ref(id), ancestors, None, format)
  {
    IrregularRejected(g, id, ancestors);
    Irregular(g[id]);
  }

  lemma StopAtChild(g: Graph, id: nat, child: JsValue, ancestors: set<nat>, format: Format)
    requires IsChild(g, Ref(id), child) && Copied(g, child, ancestors, None, format)
    ensures Copied(g, Ref(id), Without(ancestors, id), None, format)
  {
    RejectedBelow(g, id, child, ancestors);
  }

  lemma StopAtKey(g: Graph, id: nat, j: nat, ancestors: set<nat>, format: Format)
    requires ValidGraph(g) && id in g && g[id].Array? && j < |g[id].keys| && !IsLength(g[id], j)
    requires ElementIndex(g[id], j).None?
    ensures Copied(g, Ref(id), ancestors, None, format)
  {
    NodeKeys(g, id);
    IrregularKey(g[id], j);
    IrregularRejected(g, id, ancestors);
  }

  /** The index that the key names, if it names a slot and its property holds a value. */
  function ElementIndex(node: Node, j: nat): Option<nat>
    requires node.Array? && j < |node.keys|
  {
    var own := node.keys[j];
    var index := if own.key.Name? then ToIndex(own.key.name) else None;
    if index.None? || index.value >= node.length || !Holds(Some(own.property)) then None else index
  }

  lemma ElementIsChild(g: Graph, id: nat, j: nat)
    requires ValidGraph(g) && id in g && g[id].Array? && j < |g[id].keys| && ElementIndex(g[id], j).Some?
    ensures var p := g[id].keys[j].property;
            p.Data? && IsChild(g, Ref(id), p.value) && Known(g, p.value)
  {
    NodeKeys(g, id);
    NextElement(g, id, j, ElementIndex(g[id], j).value);
  }

  lemma Fill(g: Graph, id: nat, format: Format, children: map<nat, Snapshot>, j: nat, child: Snapshot,
             ancestors: set<nat>)
    requires ValidGraph(g) && id in g && g[id].Array? && j < |g[id].keys| && Progress(g, id, format, children, j)
    requires ElementIndex(g[id], j).Some? && g[id].keys[j].property.Data?
    requires Copied(g, g[id].keys[j].property.value, ancestors, Some(child), format)
    ensures Progress(g, id, format, children[ElementIndex(g[id], j).value := child], j + 1)
  {
    var n := ElementIndex(g[id], j).value;
    FillKeys(g, id, children.Keys, j);
    NodeKeys(g, id);
    NextElement(g, id, j, n);
    NewElement(g, id, format, j, n, child, ancestors);
    hide *;
    Stored(g, id, format, children, j, n, child);
  }

  lemma Stored(g: Graph, id: nat, format: Format, children: map<nat, Snapshot>, j: nat, n: nat, child: Snapshot)
    requires id in g && g[id].Array? && j < |g[id].keys| && Progress(g, id, format, children, j)
    requires Filled(g[id], children.Keys + {n}, j + 1) && Element(g, g[id], format, n, child)
    ensures Progress(g, id, format, children[n := child], j + 1)
  {
    hide Filled, Element;
    assert children[n := child].Keys == children.Keys + {n};
  }

  lemma FillKeys(g: Graph, id: nat, indices: set<nat>, j: nat)
    requires ValidGraph(g) && id in g && g[id].Array? && j < |g[id].keys| && ElementIndex(g[id], j).Some?
    requires Filled(g[id], indices, j)
    ensures Filled(g[id], indices + {ElementIndex(g[id], j).value}, j + 1)
  {
    var n := ElementIndex(g[id], j).value;
    NodeKeys(g, id);
    IndexIsCanonical(g[id].keys[j].key.name, n);
    hide ValidGraph, DistinctKeys, KeyBefore, Filled, Canonical;
    FilledIndex(g[id], indices, j, n);
  }

  lemma NewElement(g: Graph, id: nat, format: Format, j: nat, n: nat, child: Snapshot, ancestors: set<nat>)
    requires id in g && g[id].Array? && j < |g[id].keys| && n < g[id].length
    requires var p := g[id].keys[j].property;
             && p.Data? && Holds(Some(p)) && Slot(g[id], n) == Some(p) && SlotValue(g[id], n) == p.value
             && Copied(g, p.value, ancestors, Some(child), format)
    ensures Element(g, g[id], format, n, child)
  {
  }

  // What the key at `j` may lead to.
  lemma NextKey(g: Graph, id: nat, format: Format, children: map<nat, Snapshot>, j: nat, ancestors: set<nat>)
    requires ValidGraph(g) && id in g && g[id].Array? && j < |g[id].keys| && Progress(g, id, format, children, j)
    ensures IsLength(g[id], j) ==> Progress(g, id, format, children, j + 1)
    ensures !IsLength(g[id], j) && ElementIndex(g[id], j).None? ==>
            Copied(g, Ref(id), Without(ancestors, id), None, format)
    ensures !IsLength(g[id], j) && ElementIndex(g[id], j).Some? ==>
              var p, index := g[id].keys[j].property, ElementIndex(g[id], j).value;
              && p.Data? && Known(g, p.value)
              && (Copied(g, p.value, ancestors, None, format) ==>
                  Copied(g, Ref(id), Without(ancestors, id), None, format))
              && forall child :: Copied(g, p.value, ancestors, Some(child), format) ==>
                   Progress(g, id, format, children[index := child], j + 1)
  {
    hide *;
    if IsLength(g[id], j) {
      SkipLength(g, id, format, children, j);
    } else if ElementIndex(g[id], j).None? {
      StopAtKey(g, id, j, Without(ancestors, id), format);
    } else {
      ElementIsChild(g, id, j);
      var value := g[id].keys[j].property.value;
      if Copied(g, value, ancestors, None, format) { StopAtChild(g, id, value, ancestors, format); }
      forall child | Copied(g, value, ancestors, Some(child), format)
        ensures Progress(g, id, format, children[ElementIndex(g[id], j).value := child], j + 1)
      {
        Fill(g, id, format, children, j, child, ancestors);
      }
    }
  }

  /** No slot is empty. */
  ghost predicate Full(children: map<nat, Snapshot>, length: nat) {
    forall i: nat :: i < length ==> i in children
  }

  /** The snapshot of an array from those of its elements. */
  function InOrder(children: map<nat, Snapshot>, length: nat): Snapshot
    requires Full(children, length)
  {
    var copies := seq(length, i requires 0 <= i < length => children[i]);
    Snapshot(Tree.Array(Values(copies)), [Json.LBRACKET] + JsonGrammar.Commas(Bodies(copies)) + [Json.RBRACKET])
  }

  lemma AllThere(g: Graph, id: nat, format: Format, children: map<nat, Snapshot>)
    requires ValidGraph(g) && id in g && g[id].Array? && |g[id].keys| == g[id].length + 1
    requires Progress(g, id, format, children, |g[id].keys|)
    ensures Full(children, g[id].length)
  {
    NodeKeys(g, id);
    AllFilled(g[id], children.Keys);
    BelowSize(g[id].length);
    hide Below, ValidGraph, Filled, KeyBefore, DistinctKeys, Element;
  }

  lemma Complete(g: Graph, id: nat, format: Format, children: map<nat, Snapshot>, ancestors: set<nat>)
    requires ValidGraph(g) && id in g && g[id].Array? && g[id].plain && |g[id].keys| == g[id].length + 1
    requires Progress(g, id, format, children, |g[id].keys|)
    ensures Full(children, g[id].length)
    ensures Copied(g, Ref(id), ancestors, Some(InOrder(children, g[id].length)), format)
  {
    AllThere(g, id, format, children);
    hide ValidGraph, Element, Copied, Filled;
    ArrayCopied(g, id, seq(g[id].length, i requires 0 <= i < g[id].length => children[i]), ancestors, format);
  }

  // Values that are not nodes.
  lemma LeafCopied(g: Graph, v: JsValue, ancestors: set<nat>, format: Format)
    ensures v.Null? ==> Copied(g, v, ancestors, Some(Snapshot(Tree.Null, Json.NULL)), format)
    ensures v.Bool? ==> Copied(g, v, ancestors, Some(Snapshot(Tree.Bool(v.b), if v.b then Json.TRUE else Json.FALSE)),
                               format)
    ensures v.String? ==> Copied(g, v, ancestors, Some(Snapshot(Tree.String(v.text), Quote(v.text))), format)
    ensures v.Number? && !v.number.NonFinite? ==>
              Copied(g, v, ancestors, Some(Snapshot(Tree.Number(v.number), format(v.number))), format)
    ensures v.Other? || (v.Number? && v.number.NonFinite?) || (v.Ref? && v.id in ancestors) ==>
            Copied(g, v, ancestors, None, format)
  {
    hide Quote;
    if v.Other? || (v.Number? && v.number.NonFinite?) || (v.Ref? && v.id in ancestors) {
      RejectedHere(g, v, ancestors);
    }
  }

  ghost predicate Within(g: Graph, ancestors: set<nat>) { ancestors <= g.Keys }

  ghost function Without(ancestors: set<nat>, id: nat): set<nat> { ancestors - {id} }

  /** How many nodes are not on the way. */
  ghost function Unvisited(g: Graph, ancestors: set<nat>): nat { |g.Keys - ancestors| }

  class Copier {
    const g: Graph
    const format: Format
    /** The nodes on the way to the value being copied. */
    var ancestors: set<nat>

    constructor (g: Graph, format: Format)
      ensures this.g == g && this.format == format && ancestors == {}
    {
      this.g, this.format, ancestors := g, format, {};
    }

    method CopyJsonValue(v: JsValue) returns (r: Option<Snapshot>)
      requires ValidGraph(g) && Known(g, v) && Within(g, ancestors)
      modifies this
      ensures ancestors == old(ancestors)
      ensures Copied(g, v, ancestors, r, format)
      decreases Unvisited(g, ancestors), 0
    {
      LeafCopied(g, v, ancestors, format);
      hide ValidGraph, Copied, Quote;
      match v {
        case Null => return Some(Snapshot(Tree.Null, Json.NULL));
        case Bool(b) => return Some(Snapshot(Tree.Bool(b), if b then Json.TRUE else Json.FALSE));
        case String(text) => return Some(Snapshot(Tree.String(text), Quote(text)));
        case Number(number) =>
          if !number.NonFinite? { return Some(Snapshot(Tree.Number(number), format(number))); }
        case Ref(id) =>
          if id !in ancestors {
            ghost var before := ancestors;
            ancestors := ancestors + {id};
            Fewer(g.Keys - ancestors, g.Keys - before);
            if g[id].Array? { r := CopyJsonArray(id); } else { r := CopyJsonObject(id); }
            ancestors := ancestors - {id};
            assert ancestors == before;
            return r;
          }
        case Other =>
      }
      return None;
    }

    method CopyJsonArray(id: nat) returns (r: Option<Snapshot>)
      requires ValidGraph(g) && Within(g, ancestors) && id in g && g[id].Array?
      modifies this
      ensures ancestors == old(ancestors)
      ensures Copied(g, Ref(id), Without(ancestors, id), r, format)
      decreases Unvisited(g, ancestors), 2
    {
      var node := g[id];
      ghost var above := Without(ancestors, id);
      r := None;
      StopAtNode(g, id, above, format);
      hide *;
      if !node.plain || |node.keys| != node.length + 1 { return; }
      var children := CopyElements(id);
      if children.None? { return; }
      Complete(g, id, format, children.value, above);
      return Some(InOrder(children.value, node.length));
    }

    /** The loop of `CopyJsonArray`. */
    method CopyElements(id: nat) returns (r: Option<map<nat, Snapshot>>)
      requires ValidGraph(g) && Within(g, ancestors) && id in g && g[id].Array?
      modifies this
      ensures ancestors == old(ancestors)
      ensures r.None? ==> Copied(g, Ref(id), Without(ancestors, id), None, format)
      ensures r.Some? ==> Progress(g, id, format, r.value, |g[id].keys|)
      decreases Unvisited(g, ancestors), 1
    {
      hide *;
      var node := g[id];
      var children: map<nat, Snapshot> := map[];
      Begin(g, id, format);
      for j := 0 to |node.keys|
        invariant ancestors == old(ancestors) && Progress(g, id, format, children, j)
      {
        NextKey(g, id, format, children, j, ancestors);
        if IsLength(node, j) { continue; }
        var index := ElementIndex(node, j);
        if index.None? { return None; }
        var child := CopyJsonValue(node.keys[j].property.value);
        if child.None? { return None; }
        children := children[index.value := child.value];
      }
      return Some(children);
    }

    method CopyJsonObject(id: nat) returns (r: Option<Snapshot>)
      requires ValidGraph(g) && Within(g, ancestors) && id in g && g[id].Object?
      modifies this
      ensures ancestors == old(ancestors)
      ensures Copied(g, Ref(id), Without(ancestors, id), r, format)
      decreases Unvisited(g, ancestors), 1
    {
      var node := g[id];
      StopAtNode(g, id, Without(ancestors, id), format);
      hide *;
      if !node.plain { return None; }
      var copy: seq<Entry>, members: seq<Text> := [], [];
      NoMembers(g, id, format);
      for j := 0 to |node.keys|
        invariant ancestors == old(ancestors)
        invariant |copy| == j && Members(g, node, format, copy, members)
      {
        var own := node.keys[j];
        NextOwn(g, id, format, copy, members, j, ancestors);
        if !IsMember(own) { return None; }
        var child := CopyJsonValue(own.property.value);
        if child.None? { return None; }
        copy := copy + [Entry(own.key.name, child.value.value)];
        members := members + [Quote(own.key.name) + [COLON] + child.value.body];
      }
      ObjectCopied(g, id, copy, members, Without(ancestors, id), format);
      return Some(Braced(copy, members));
    }
  }

  lemma MemberPrinted(member: Entry, format: Format)
    ensures PrintMember(member, format) == Quote(member.name) + [COLON] + Print(member.value, format)
  {
  }

  // ----- The snapshot

  datatype SnapshotError = InvalidRequestBody | Size

  ghost predicate Fitting(body: Text, maximumBytes: Option<nat>) {
    maximumBytes.Some? ==> |Utf8Decoder.Encode(body)| <= maximumBytes.value
  }

  /** Accepts exactly the plain values whose text fits. */
  method SnapshotJsonRequest(g: Graph, value: JsValue, maximumBytes: Option<nat>, format: Format)
    returns (r: Result<Snapshot, SnapshotError>)
    requires ValidGraph(g) && Known(g, value)
    ensures match r
            case Ok(s) => Is(g, value, s.value) && s.body == Print(s.value, format) && Fitting(s.body, maximumBytes)
            case Err(Size) => exists t :: Is(g, value, t) && !Fitting(Print(t, format), maximumBytes)
            case Err(InvalidRequestBody) => Rejects(g, value, {}) && forall t :: !Is(g, value, t)
  {
    var copier := new Copier(g, format);
    var snapshot := copier.CopyJsonValue(value);
    PlainExactly(g, value);
    hide Is, Rejects;
    if snapshot.None? { return Err(InvalidRequestBody); }
    if maximumBytes.Some? && |Utf8Decoder.Encode(snapshot.value.body)| > maximumBytes.value { return Err(Size); }
    return Ok(snapshot.value);
  }

  // A server that decodes and parses the bytes of a snapshot has the caller's value, exactly if it holds no negative
  // zero.
  lemma SnapshotRoundTrip(g: Graph, value: JsValue, t: Tree, format: Format, convert: Conversion)
    requires ValidGraph(g) && FiniteGraph(g) && FiniteValue(value) && Is(g, value, t)
             && JsonPrint.Lossless(format, convert)
    ensures var received := JsonRoundTrip.Read(Utf8Decoder.DecodeAll(Utf8Decoder.Encode(Print(t, format))), convert);
            && received == Some(JsonRoundTrip.WithoutNegativeZero(t))
            && (received == Some(t) <==> !JsonRoundTrip.HasNegativeZero(t))
  {
    PlainIsPrintable(g, value, t);
    JsonRoundTrip.WireRoundTrip(t, format, convert);
    JsonRoundTrip.WithoutChanges(t);
  }

  // ----- The one loss

  /** `[-0]`. */
  function NegativeZeroArray(): Graph {
    map[0 := Node.Array(true, 1, [Own(Name(Canonical(0)), Data(JsValue.Number(NegativeZero), true)),
                             Own(Name(LENGTH), Data(JsValue.Number(Finite(1.0)), false))])]
  }

  lemma OneIsFinite()
    ensures IsFinite(Finite(1.0))
  {
    PowGrows(2.0, 1, 53);
    assert Pow(2.0, 1) == 2.0 && Pow(2.0, 0) == 1.0;
    assert IsScaled(1.0, 1, 0);
  }

  lemma NegativeZeroIsPlain()
    ensures ValidGraph(NegativeZeroArray()) && FiniteGraph(NegativeZeroArray())
    ensures Is(NegativeZeroArray(), Ref(0), Tree.Array([Tree.Number(NegativeZero)]))
  {
    OneIsFinite();
    CanonicalIsNotLength(0);
    var g := NegativeZeroArray();
    var node := g[0];
    hide IsFinite, Canonical;
    assert node.keys[1].key == Name(LENGTH);
    LookupAt(node.keys, 0);
    assert Slot(node, 0) == Some(node.keys[0].property);
    assert Slots(node) == 1;
    assert Is(g, SlotValue(node, 0), Tree.Number(NegativeZero));
    assert Child(Tree.Array([Tree.Number(NegativeZero)]), 0) == Tree.Number(NegativeZero);
  }

  ghost function Received(t: Tree, format: Format, convert: Conversion): Option<Tree> {
    JsonRoundTrip.Read(Utf8Decoder.DecodeAll(Utf8Decoder.Encode(Print(t, format))), convert)
  }

  // A caller passes an array that holds a negative zero. The snapshot accepts it, and whoever decodes and parses its
  // bytes has an array that holds a positive one.
  method NegativeZeroIsLost(format: Format, ghost convert: Conversion) returns (r: Result<Snapshot, SnapshotError>)
    requires JsonPrint.Lossless(format, convert)
    ensures r.Ok? && r.value.value == Tree.Array([Tree.Number(NegativeZero)])
    ensures r.value.body == Print(r.value.value, format)
    ensures Received(r.value.value, format, convert) ==
            Some(Tree.Array([Tree.Number(Finite(0.0))])) != Some(r.value.value)
  {
    NegativeZeroIsPlain();
    JsonRoundTrip.NegativeZeroComesBack(format, convert);
    assert Received(Tree.Array([Tree.Number(NegativeZero)]), format, convert) ==
           Some(Tree.Array([Tree.Number(Finite(0.0))]));
    hide ValidGraph, Is, Print, JsonPrint.Lossless, Rejects, Received, NegativeZeroArray, FiniteGraph;
    r := SnapshotJsonRequest(NegativeZeroArray(), Ref(0), None, format);
    if r.Ok? { Unique(NegativeZeroArray(), Ref(0), Tree.Array([Tree.Number(NegativeZero)]), r.value.value); }
  }
}
