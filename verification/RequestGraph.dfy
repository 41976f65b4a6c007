/** JavaScript object graphs as a caller passes them to a request, and the plain JSON values that some of them are. */
module RequestGraph {
  import opened Utf16
  import opened Wrappers
  import opened Decimals
  import opened ExactInteger
  import opened Sets
  import opened JsonPrint

  /** `Other` stands for `undefined`, functions, symbols and big integers. */
  datatype JsValue = Null | Bool(b: bool) | Number(number: JsNumber) | String(text: Text) | Ref(id: nat) | Other

  datatype Key = Name(name: Text) | Symbol(id: nat)

  datatype Property = Data(value: JsValue, enumerable: bool) | Accessor(enumerable: bool)

  datatype Own = Own(key: Key, property: Property)

  /** An object with its own properties in `Reflect.ownKeys` order; `plain` says that its prototype is the usual one. */
  datatype Node = Array(plain: bool, length: nat, keys: seq<Own>) | Object(plain: bool, keys: seq<Own>)

  type Graph = map<nat, Node>

  const LENGTH: Text := [0x6C, 0x65, 0x6E, 0x67, 0x74, 0x68]

  ghost predicate Known(g: Graph, v: JsValue) {
    v.Ref? ==> v.id in g
  }

  /** What JavaScript guarantees of any node: distinct keys, and the `length` of an array among them. */
  ghost predicate ValidNode(g: Graph, node: Node) {
    && (forall i, j :: 0 <= i < j < |node.keys| ==> node.keys[i].key != node.keys[j].key)
    && (forall i :: 0 <= i < |node.keys| && node.keys[i].property.Data? ==> Known(g, node.keys[i].property.value))
    && (node.Array? ==> exists i :: 0 <= i < |node.keys| && node.keys[i].key == Name(LENGTH))
  }

  ghost predicate ValidGraph(g: Graph) {
    forall id <- g :: ValidNode(g, g[id])
  }

  // ----- Array indices

  /** The index whose canonical text is `name`: `Number(name)`, if `String` brings the name back. */
  function ToIndex(name: Text): Option<nat> {
    if |name| > 0 && AllDigits(name) && Canonical(Decimal(name)) == name then Some(Decimal(name)) else None
  }

  // The one key of an array that is no index.
  lemma LengthKey()
    ensures |LENGTH| == 6 && LENGTH == [0x6C, 0x65, 0x6E, 0x67, 0x74, 0x68]
  {
  }

  lemma IndexIsCanonical(name: Text, n: nat)
    ensures ToIndex(name) == Some(n) <==> name == Canonical(n)
  {
  }

  lemma CanonicalIsNotLength(n: nat)
    ensures Canonical(n) != LENGTH
  {
    assert !IsDigit(LENGTH[|LENGTH| - 1]);
  }

  // ----- The plain value of a graph

  function Lookup(keys: seq<Own>, key: Key): Option<Property> {
    if |keys| == 0 then None else if keys[0].key == key then Some(keys[0].property) else Lookup(keys[1..], key)
  }

  lemma {:induction false} LookupAt(keys: seq<Own>, i: nat)
    requires i < |keys| && forall j, k :: 0 <= j < k < |keys| ==> keys[j].key != keys[k].key
    ensures Lookup(keys, keys[i].key) == Some(keys[i].property)
  {
    if i > 0 {
      assert keys[1..][i - 1] == keys[i];
      LookupAt(keys[1..], i - 1);
    }
  }

  lemma {:induction false} LookupFinds(keys: seq<Own>, key: Key) returns (i: nat)
    requires Lookup(keys, key).Some?
    ensures i < |keys| && keys[i].key == key && Lookup(keys, key) == Some(keys[i].property)
  {
    if keys[0].key == key {
      i := 0;
    } else {
      var j := LookupFinds(keys[1..], key);
      i := j + 1;
    }
  }

  function Slots(node: Node): nat {
    if node.Array? then node.length else |node.keys|
  }

  /** The property that holds element or member `i`. */
  function Slot(node: Node, i: nat): Option<Property> {
    if node.Array? then Lookup(node.keys, Name(Canonical(i)))
    else if i < |node.keys| then Some(node.keys[i].property)
    else None
  }

  predicate Holds(p: Option<Property>) {
    p.Some? && p.value.Data? && p.value.enumerable
  }

  function SlotValue(node: Node, i: nat): JsValue {
    var p := Slot(node, i);
    if p.Some? && p.value.Data? then p.value.value else Other
  }

  /** A dense array or an object of named members, with nothing else to it. */
  ghost predicate Regular(node: Node) {
    && node.plain
    && (node.Array? ==> |node.keys| == node.length + 1)
    && (node.Object? ==> forall i :: 0 <= i < |node.keys| ==> node.keys[i].key.Name?)
    && forall i :: 0 <= i < Slots(node) ==> Holds(Slot(node, i))
  }

  ghost predicate Fits(node: Node, t: Tree) {
    && IsNode(t) && (node.Array? <==> t.Array?) && Width(t) == Slots(node)
    && (t.Object? ==> forall i :: 0 <= i < |t.members| ==> node.keys[i].key == Name(t.members[i].name))
  }

  /** The value is the plain JSON value `t`, however its nodes are shared. */
  ghost predicate Is(g: Graph, v: JsValue, t: Tree)
    decreases t
  {
    match t
    case Null => v.Null?
    case Bool(b) => v == JsValue.Bool(b)
    case Number(number) => v == JsValue.Number(number) && !number.NonFinite?
    case String(text) => v == JsValue.String(text)
    case _ =>
      && v.Ref? && v.id in g && Regular(g[v.id]) && Fits(g[v.id], t)
      && forall i :: 0 <= i < Width(t) ==> Is(g, SlotValue(g[v.id], i), Child(t, i))
  }

  // Values that are no objects are their own plain values; `undefined`, functions and the like are none, and neither
  // are NaN and the infinities.
  lemma LeavesAre(g: Graph, v: JsValue, t: Tree)
    requires !v.Ref?
    ensures Is(g, v, t) <==>
            match v
            case Null => t == Tree.Null
            case Bool(b) => t == Tree.Bool(b)
            case Number(number) => t == Tree.Number(number) && number != NonFinite
            case String(text) => t == Tree.String(text)
            case Other => false
  {
  }

  // An object is plain exactly if its prototype is the usual one and all its own keys name enumerable data properties
  // with plain values.
  lemma ObjectsAre(g: Graph, id: nat, members: seq<Entry>)
    requires id in g && g[id].Object?
    ensures Is(g, Ref(id), Tree.Object(members)) <==>
            var keys := g[id].keys;
            && g[id].plain && |keys| == |members|
            && forall i :: 0 <= i < |keys| ==>
                 && keys[i].key == Name(members[i].name) && keys[i].property.Data? && keys[i].property.enumerable
                 && Is(g, keys[i].property.value, members[i].value)
  {
    var keys, t := g[id].keys, Tree.Object(members);
    if |keys| == |members| {
      forall i | 0 <= i < |keys| && Holds(Slot(g[id], i))
        ensures Child(t, i) == members[i].value && SlotValue(g[id], i) == keys[i].property.value
      {
      }
    }
  }

  /** One of the keys is the index `i`, with an enumerable data property that holds the plain value. */
  ghost predicate HasElement(g: Graph, keys: seq<Own>, i: nat, t: Tree) {
    exists k :: 0 <= k < |keys| && keys[k].key == Name(Canonical(i)) && keys[k].property.Data?
                && keys[k].property.enumerable && Is(g, keys[k].property.value, t)
  }

  // An array is plain exactly if its prototype is the usual one and its own keys are `length` and the indices below it,
  // each an enumerable data property with a plain value.
  lemma ArraysAre(g: Graph, id: nat, elements: seq<Tree>)
    requires id in g && g[id].Array? && ValidNode(g, g[id])
    ensures Is(g, Ref(id), Tree.Array(elements)) <==>
            && g[id].plain && g[id].length == |elements| && |g[id].keys| == |elements| + 1
            && forall i :: 0 <= i < |elements| ==> HasElement(g, g[id].keys, i, elements[i])
  {
    var node, t := g[id], Tree.Array(elements);
    if node.length == |elements| {
      forall i | 0 <= i < |elements|
        ensures Holds(Slot(node, i)) && Is(g, SlotValue(node, i), elements[i]) <==>
                HasElement(g, node.keys, i, elements[i])
      {
        SlotIsElement(g, node, i, elements[i]);
      }
      hide Is, HasElement, Slot, SlotValue;
      ArrayIs(g, id, t);
    } else {
      hide HasElement;
    }
  }

  lemma ArrayIs(g: Graph, id: nat, t: Tree)
    requires id in g && g[id].Array? && t.Array? && g[id].length == |t.elements|
    ensures Is(g, Ref(id), t) <==>
            && g[id].plain && |g[id].keys| == g[id].length + 1
            && forall i :: 0 <= i < |t.elements| ==> Holds(Slot(g[id], i)) && Is(g, SlotValue(g[id], i), t.elements[i])
  {
    hide Slot, SlotValue, Holds;
    assert forall i :: 0 <= i < |t.elements| ==> Child(t, i) == t.elements[i];
  }

  lemma SlotIsElement(g: Graph, node: Node, i: nat, t: Tree)
    requires node.Array? && ValidNode(g, node)
    ensures Holds(Slot(node, i)) && Is(g, SlotValue(node, i), t) <==> HasElement(g, node.keys, i, t)
  {
    hide Is, Canonical;
    if Slot(node, i).Some? {
      var k := LookupFinds(node.keys, Name(Canonical(i)));
    }
    forall k | 0 <= k < |node.keys| && node.keys[k].key == Name(Canonical(i))
      ensures Slot(node, i) == Some(node.keys[k].property)
    {
      LookupAt(node.keys, k);
    }
  }

  // A value is at most one plain value.
  lemma {:induction false} Unique(g: Graph, v: JsValue, t: Tree, u: Tree)
    requires Is(g, v, t) && Is(g, v, u)
    ensures t == u
    decreases t
  {
    if IsNode(t) {
      forall i | 0 <= i < Width(t) ensures Child(t, i) == Child(u, i) {
        Unique(g, SlotValue(g[v.id], i), Child(t, i), Child(u, i));
      }
      SameChildren(t, u);
    }
  }

  lemma SameChildren(t: Tree, u: Tree)
    requires IsNode(t) && IsNode(u) && (t.Array? <==> u.Array?) && Width(t) == Width(u)
    requires t.Object? ==> forall i :: 0 <= i < Width(t) ==> t.members[i].name == u.members[i].name
    requires forall i :: 0 <= i < Width(t) ==> Child(t, i) == Child(u, i)
    ensures t == u
  {
    if t.Array? {
      assert forall i :: 0 <= i < Width(t) ==> t.elements[i] == Child(t, i) && u.elements[i] == Child(u, i);
      assert t.elements == u.elements;
    } else {
      assert forall i :: 0 <= i < Width(t) ==> t.members[i].value == Child(t, i) && u.members[i].value == Child(u, i);
      assert t.members == u.members;
    }
  }

  // ----- Which graphs have a plain value

  ghost predicate IsChild(g: Graph, v: JsValue, w: JsValue) {
    v.Ref? && v.id in g && exists i :: 0 <= i < Slots(g[v.id]) && SlotValue(g[v.id], i) == w
  }

  /** A path from `v` through children. */
  ghost predicate Path(g: Graph, v: JsValue, path: seq<JsValue>) {
    |path| > 0 && path[0] == v && forall i :: 0 <= i < |path| - 1 ==> IsChild(g, path[i], path[i + 1])
  }

  ghost predicate Good(g: Graph, v: JsValue) {
    && !v.Other? && (v.Number? ==> !v.number.NonFinite?)
    && (v.Ref? ==> v.id in g && Regular(g[v.id]))
  }

  /** The path ends in something that JSON does not have, or back on a node of its own or of `ancestors`. */
  ghost predicate Offends(g: Graph, path: seq<JsValue>, ancestors: set<nat>)
    requires |path| > 0
  {
    var last := path[|path| - 1];
    !Good(g, last) || (last.Ref? && (last.id in ancestors || last in path[..|path| - 1]))
  }

  /** Some path from the value offends. */
  ghost predicate Rejects(g: Graph, v: JsValue, ancestors: set<nat>) {
    exists path :: Path(g, v, path) && Offends(g, path, ancestors)
  }

  lemma PathParts(g: Graph, v: JsValue, path: seq<JsValue>, j: nat)
    requires Path(g, v, path) && j < |path|
    ensures Path(g, v, path[..j + 1]) && Path(g, path[j], path[j..])
  {
    forall k | 0 <= k < |path[j..]| - 1 ensures IsChild(g, path[j..][k], path[j..][k + 1]) {
      assert IsChild(g, path[j + k], path[j + k + 1]);
    }
  }

  // The value in a slot is the child of the tree.
  lemma SlotTree(g: Graph, v: JsValue, t: Tree, i: nat)
    requires Is(g, v, t) && v.Ref? && v.id in g && i < Slots(g[v.id])
    ensures IsNode(t) && i < Width(t) && Is(g, SlotValue(g[v.id], i), Child(t, i))
  {
  }

  lemma {:induction false} TreeAlong(g: Graph, v: JsValue, t: Tree, path: seq<JsValue>) returns (u: Tree)
    requires Is(g, v, t) && Path(g, v, path)
    ensures Is(g, path[|path| - 1], u)
    ensures if |path| == 1 then u == t else u < t
    decreases |path|
  {
    if |path| == 1 {
      u := t;
    } else {
      assert IsChild(g, path[0], path[1]);
      var i :| 0 <= i < Slots(g[v.id]) && SlotValue(g[v.id], i) == path[1];
      PathParts(g, v, path, 1);
      SlotTree(g, v, t, i);
      hide Is, Regular, Fits;
      u := TreeAlong(g, path[1], Child(t, i), path[1..]);
    }
  }

  lemma TreeIsNotRejected(g: Graph, v: JsValue, t: Tree)
    requires Is(g, v, t)
    ensures !Rejects(g, v, {})
  {
    forall path | Path(g, v, path) ensures !Offends(g, path, {}) {
      var n := |path| - 1;
      var u := TreeAlong(g, v, t, path);
      TreeIsGood(g, path[n], u);
      if path[n] in path[..n] {
        var j :| 0 <= j < n && path[j] == path[n];
        NoReturn(g, v, t, path, j);
      }
    }
  }

  lemma TreeIsGood(g: Graph, v: JsValue, t: Tree)
    requires Is(g, v, t)
    ensures Good(g, v)
  {
    hide Regular, Fits;
  }

  // A node below itself would have a plain value inside its own.
  lemma NoReturn(g: Graph, v: JsValue, t: Tree, path: seq<JsValue>, j: nat)
    requires Is(g, v, t) && Path(g, v, path) && j < |path| - 1
    ensures path[j] != path[|path| - 1]
  {
    PathParts(g, v, path, j);
    hide Is, Path;
    var w := TreeAlong(g, v, t, path[..j + 1]);
    var x := TreeAlong(g, path[j], w, path[j..]);
    if path[j] == path[|path| - 1] { Unique(g, path[j], w, x); }
  }

  ghost function Ids(path: seq<JsValue>): set<nat> {
    if |path| == 0 then {}
    else Ids(path[..|path| - 1]) + if path[|path| - 1].Ref? then {path[|path| - 1].id} else {}
  }

  lemma {:induction false} IdsAre(path: seq<JsValue>, id: nat)
    ensures id in Ids(path) <==> Ref(id) in path
  {
    if |path| > 0 {
      IdsAre(path[..|path| - 1], id);
      assert path == path[..|path| - 1] + [path[|path| - 1]];
    }
  }

  // One more step of a path meets a new node.
  lemma NextNode(g: Graph, root: JsValue, path: seq<JsValue>, child: JsValue)
    requires !Rejects(g, root, {}) && Path(g, root, path) && IsChild(g, path[|path| - 1], child)
    ensures Path(g, root, path + [child]) && Good(g, child)
    ensures child.Ref? ==> |g.Keys - Ids(path + [child])| < |g.Keys - Ids(path)|
  {
    var longer := path + [child];
    assert longer[..|path|] == path;
    assert Path(g, root, longer) by {
      forall i | 0 <= i < |longer| - 1 ensures IsChild(g, longer[i], longer[i + 1]) {
        if i < |path| - 1 { assert IsChild(g, path[i], path[i + 1]); }
      }
    }
    assert !Offends(g, longer, {});
    if child.Ref? {
      IdsAre(path, child.id);
      Fewer(g.Keys - Ids(longer), g.Keys - Ids(path));
    }
  }

  ghost function Leaf(v: JsValue): Tree
    requires !v.Ref? && !v.Other?
  {
    match v
    case Null => Tree.Null
    case Bool(b) => Tree.Bool(b)
    case Number(number) => Tree.Number(number)
    case String(text) => Tree.String(text)
  }

  lemma {:induction false} Construct(g: Graph, root: JsValue, path: seq<JsValue>) returns (t: Tree)
    requires !Rejects(g, root, {}) && Path(g, root, path)
    ensures Is(g, path[|path| - 1], t)
    decreases |g.Keys - Ids(path)|, 1, 0
  {
    var v := path[|path| - 1];
    assert !Offends(g, path, {});
    if v.Ref? {
      var ts := ConstructChildren(g, root, path, 0);
      t := Assemble(g, v, ts);
    } else {
      t := LeafOf(g, v);
    }
  }

  lemma {:induction false} ConstructChildren(g: Graph, root: JsValue, path: seq<JsValue>, i: nat)
      returns (ts: seq<Tree>)
    requires !Rejects(g, root, {}) && Path(g, root, path)
    requires path[|path| - 1].Ref? && path[|path| - 1].id in g && i <= Slots(g[path[|path| - 1].id])
    ensures var node := g[path[|path| - 1].id];
            |ts| == Slots(node) - i && forall k :: 0 <= k < |ts| ==> Is(g, SlotValue(node, i + k), ts[k])
    decreases |g.Keys - Ids(path)|, 0, Slots(g[path[|path| - 1].id]) - i
  {
    var v := path[|path| - 1];
    var node := g[v.id];
    if i == Slots(node) {
      ts := [];
    } else {
      var child := SlotValue(node, i);
      SlotIsChild(g, v, i);
      NextNode(g, root, path, child);
      Depth(g, path, child);
      hide Ids, Is, Rejects, Path, Good, IsChild, SlotValue;
      var first;
      if child.Ref? { first := Construct(g, root, path + [child]); } else { first := LeafOf(g, child); }
      var more := ConstructChildren(g, root, path, i + 1);
      ts := [first] + more;
      OneMoreChild(g, node, i, first, more);
    }
  }

  lemma OneMoreChild(g: Graph, node: Node, i: nat, first: Tree, more: seq<Tree>)
    requires Is(g, SlotValue(node, i), first)
    requires forall k :: 0 <= k < |more| ==> Is(g, SlotValue(node, i + 1 + k), more[k])
    ensures forall k :: 0 <= k < |[first] + more| ==> Is(g, SlotValue(node, i + k), ([first] + more)[k])
  {
    hide Is, SlotValue;
    forall k | 0 <= k < |[first] + more| ensures Is(g, SlotValue(node, i + k), ([first] + more)[k]) {
      if k > 0 { assert Is(g, SlotValue(node, i + 1 + (k - 1)), more[k - 1]); }
    }
  }

  lemma SlotIsChild(g: Graph, v: JsValue, i: nat)
    requires v.Ref? && v.id in g && i < Slots(g[v.id])
    ensures IsChild(g, v, SlotValue(g[v.id], i))
  {
  }

  lemma Depth(g: Graph, path: seq<JsValue>, child: JsValue)
    ensures (path + [child])[|path|] == child
  {
  }

  lemma LeafOf(g: Graph, v: JsValue) returns (t: Tree)
    requires Good(g, v) && !v.Ref?
    ensures Is(g, v, t)
  {
    t := Leaf(v);
  }

  lemma Assemble(g: Graph, v: JsValue, ts: seq<Tree>) returns (t: Tree)
    requires v.Ref? && v.id in g && Regular(g[v.id]) && |ts| == Slots(g[v.id])
    requires forall k :: 0 <= k < |ts| ==> Is(g, SlotValue(g[v.id], k), ts[k])
    ensures Is(g, v, t)
  {
    var node := g[v.id];
    if node.Array? {
      t := Tree.Array(ts);
      assert forall i :: 0 <= i < Width(t) ==> Child(t, i) == ts[i];
    } else {
      t := Tree.Object(seq(|ts|, i requires 0 <= i < |ts| => Entry(node.keys[i].key.name, ts[i])));
      assert forall i :: 0 <= i < Width(t) ==> Child(t, i) == ts[i];
    }
  }

  // A value is plain JSON exactly if no path from it ends in something else or closes a cycle; sharing is no obstacle.
  lemma PlainExactly(g: Graph, v: JsValue)
    ensures (exists t :: Is(g, v, t)) <==> !Rejects(g, v, {})
  {
    forall t | Is(g, v, t) ensures !Rejects(g, v, {}) { TreeIsNotRejected(g, v, t); }
    if !Rejects(g, v, {}) {
      assert Path(g, v, [v]);
      var t := Construct(g, v, [v]);
      assert Is(g, v, t);
    }
  }

  // ----- What the plain values of valid graphs are like

  ghost predicate FiniteGraph(g: Graph) {
    forall id <- g :: forall i :: 0 <= i < |g[id].keys| ==> FiniteProperty(g[id].keys[i].property)
  }

  /** A number in a property, if it is finite, is a binary64 number. */
  ghost predicate FiniteProperty(p: Property) {
    p.Data? ==> FiniteValue(p.value)
  }

  ghost predicate FiniteValue(v: JsValue) {
    v.Number? && !v.number.NonFinite? ==> IsFinite(v.number)
  }

  lemma SlotIsFinite(node: Node, i: nat)
    requires forall k :: 0 <= k < |node.keys| ==> FiniteProperty(node.keys[k].property)
    ensures FiniteValue(SlotValue(node, i))
  {
    hide IsFinite, Canonical;
    if node.Array? && Slot(node, i).Some? {
      var k := LookupFinds(node.keys, Name(Canonical(i)));
      assert FiniteProperty(node.keys[k].property);
    }
  }

  lemma {:induction false} PlainIsPrintable(g: Graph, v: JsValue, t: Tree)
    requires ValidGraph(g) && FiniteGraph(g) && FiniteValue(v) && Is(g, v, t)
    ensures FiniteNumbers(t) && DistinctNames(t)
    decreases t
  {
    hide IsFinite;
    if IsNode(t) {
      forall i | 0 <= i < Width(t) ensures FiniteNumbers(Child(t, i)) && DistinctNames(Child(t, i)) {
        SlotIsFinite(g[v.id], i);
        PlainIsPrintable(g, SlotValue(g[v.id], i), Child(t, i));
      }
      assert ValidNode(g, g[v.id]);
      if t.Object? {
        var node := g[v.id];
        forall i, j | 0 <= i < j < |t.members| ensures t.members[i].name != t.members[j].name {
          assert node.keys[i].key == Name(t.members[i].name) && node.keys[j].key == Name(t.members[j].name);
        }
      }
    }
  }
}
