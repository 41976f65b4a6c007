/** Finite JavaScript object graphs, and what the recursive walk over one finds. */
module ObjectGraph {
  import opened Utf16
  import opened Wrappers
  import opened ExactInteger
  import opened Sets

  /** The identity of an object. Any naming does; the objects of a parse tree are named by their place in it. */
  type Identity = seq<nat>

  /** A JavaScript value; objects and arrays are nodes of a graph. */
  datatype Val = Primitive | Number(number: JsNumber) | Text(text: Text) | Ref(node: Identity)

  datatype Key = Index(index: nat) | Name(name: Text)

  datatype Node = Array(elements: seq<Val>) | Object(members: seq<(Text, Val)>) {
    function Length(): nat {
      if Array? then |elements| else |members|
    }

    function KeyAt(i: nat): Key
      requires i < Length()
    {
      if Array? then Index(i) else Name(members[i].0)
    }

    function ChildAt(i: nat): Val
      requires i < Length()
    {
      if Array? then elements[i] else members[i].1
    }
  }

  type Graph = map<Identity, Node>

  /** Every reference leads to a node. */
  ghost predicate Closed(g: Graph) {
    forall n <- g :: forall i :: 0 <= i < g[n].Length() && g[n].ChildAt(i).Ref? ==> g[n].ChildAt(i).node in g
  }

  ghost predicate Known(g: Graph, v: Val) {
    v.Ref? ==> v.node in g
  }

  function FindMember(members: seq<(Text, Val)>, name: Text): Option<Val> {
    if |members| == 0 then None
    else if members[0].0 == name then Some(members[0].1)
    else FindMember(members[1..], name)
  }

  /** The property of a value under a key, where it has one. */
  function Property(g: Graph, v: Option<Val>, key: Key): Option<Val> {
    if v.None? || !v.value.Ref? || v.value.node !in g then None
    else match (g[v.value.node], key)
      case (Array(elements), Index(i)) => if i < |elements| then Some(elements[i]) else None
      case (Object(members), Name(name)) => FindMember(members, name)
      case _ => None
  }

  /** A call of the visitor: a number, where it is, and the value at the same place in the mirror. */
  datatype Visit = Visit(parent: Option<(Identity, Key)>, number: JsNumber, lexical: Option<Val>)

  /** The walk below a value, entering only nodes outside `path`, the nodes on the way to it. */
  ghost function VisitValue(g: Graph, mirrors: Graph, v: Val, mirror: Option<Val>,
                               parent: Option<(Identity, Key)>, path: set<Identity>): seq<Visit>
    requires Closed(g) && Known(g, v) && path <= g.Keys
    decreases |g.Keys - path|, 0, 0
  {
    match v
    case Number(number) => [Visit(parent, number, mirror)]
    case Ref(n) =>
      if n in path then []
      else
        assert g.Keys - (path + {n}) < g.Keys - path;
        Fewer(g.Keys - (path + {n}), g.Keys - path);
        VisitNode(g, mirrors, n, mirror, path + {n}, 0)
    case _ => []
  }

  ghost function VisitNode(g: Graph, mirrors: Graph, n: Identity, mirror: Option<Val>, path: set<Identity>, i: nat)
    : seq<Visit>
    requires Closed(g) && n in g && path <= g.Keys && i <= g[n].Length()
    decreases |g.Keys - path|, 1, g[n].Length() - i
  {
    if i == g[n].Length() then []
    else
      var key := g[n].KeyAt(i);
      VisitValue(g, mirrors, g[n].ChildAt(i), Property(mirrors, mirror, key), Some((n, key)), path)
      + VisitNode(g, mirrors, n, mirror, path, i + 1)
  }

  /** How many passes of the loop the walk takes: one for each child and one for each node left. */
  ghost function Passes(g: Graph, n: Identity, path: set<Identity>, i: nat): nat
    requires Closed(g) && n in g && path <= g.Keys && i <= g[n].Length()
    decreases |g.Keys - path|, g[n].Length() - i
  {
    if i == g[n].Length() then 1
    else
      var child := g[n].ChildAt(i);
      var below :=
        if child.Ref? && child.node !in path then
          Fewer(g.Keys - (path + {child.node}), g.Keys - path);
          Passes(g, child.node, path + {child.node}, 0)
        else 0;
      1 + below + Passes(g, n, path, i + 1)
  }

  // ----- Reachability

  /** Consecutive values, each a child of the one before. */
  ghost predicate Chain(g: Graph, vs: seq<Val>) {
    forall i :: 0 <= i < |vs| - 1 ==> IsChild(g, vs[i], vs[i + 1])
  }

  ghost predicate IsChild(g: Graph, v: Val, w: Val) {
    v.Ref? && v.node in g && exists i :: 0 <= i < g[v.node].Length() && g[v.node].ChildAt(i) == w
  }

  /** Some number below `v` is not finite. */
  ghost predicate ReachesNonFinite(g: Graph, v: Val) {
    exists vs: seq<Val> :: LeadsToNonFinite(g, v, vs)
  }

  ghost predicate LeadsToNonFinite(g: Graph, v: Val, vs: seq<Val>) {
    |vs| > 0 && vs[0] == v && Chain(g, vs) && vs[|vs| - 1] == Number(NonFinite)
  }

  ghost predicate SeesNonFinite(visits: seq<Visit>) {
    exists i :: 0 <= i < |visits| && visits[i].number.NonFinite?
  }

  lemma SeesConcat(a: seq<Visit>, b: seq<Visit>)
    ensures SeesNonFinite(a + b) <==> SeesNonFinite(a) || SeesNonFinite(b)
  {
    if SeesNonFinite(a) {
      var i :| 0 <= i < |a| && a[i].number.NonFinite?;
      assert (a + b)[i].number.NonFinite?;
    }
    if SeesNonFinite(b) {
      var i :| 0 <= i < |b| && b[i].number.NonFinite?;
      assert (a + b)[|a| + i].number.NonFinite?;
    }
  }

  // What the walk sees is there.
  lemma {:induction false} SeenIsReachable(g: Graph, mirrors: Graph, v: Val, mirror: Option<Val>,
                                              parent: Option<(Identity, Key)>, path: set<Identity>)
    requires Closed(g) && Known(g, v) && path <= g.Keys
    requires SeesNonFinite(VisitValue(g, mirrors, v, mirror, parent, path))
    ensures ReachesNonFinite(g, v)
    decreases |g.Keys - path|, 0, 0
  {
    if v.Number? {
      assert LeadsToNonFinite(g, v, [v]);
    } else if v.Ref? && v.node !in path {
      Fewer(g.Keys - (path + {v.node}), g.Keys - path);
      SeenBelow(g, mirrors, v.node, mirror, path + {v.node}, 0);
    }
  }

  lemma {:induction false} SeenBelow(g: Graph, mirrors: Graph, n: Identity, mirror: Option<Val>, path: set<Identity>,
                                     i: nat)
    requires Closed(g) && n in g && path <= g.Keys && i <= g[n].Length()
    requires SeesNonFinite(VisitNode(g, mirrors, n, mirror, path, i))
    ensures ReachesNonFinite(g, Ref(n))
    decreases |g.Keys - path|, 1, g[n].Length() - i
  {
    if i < g[n].Length() {
      var key, child := g[n].KeyAt(i), g[n].ChildAt(i);
      var first := VisitValue(g, mirrors, child, Property(mirrors, mirror, key), Some((n, key)), path);
      SeesConcat(first, VisitNode(g, mirrors, n, mirror, path, i + 1));
      if SeesNonFinite(first) {
        SeenIsReachable(g, mirrors, child, Property(mirrors, mirror, key), Some((n, key)), path);
        var vs: seq<Val> :| LeadsToNonFinite(g, child, vs);
        assert IsChild(g, Ref(n), child);
        assert LeadsToNonFinite(g, Ref(n), [Ref(n)] + vs);
      } else {
        SeenBelow(g, mirrors, n, mirror, path, i + 1);
      }
    }
  }

  ghost predicate Avoids(vs: seq<Val>, path: set<Identity>) {
    forall i :: 0 <= i < |vs| && vs[i].Ref? ==> vs[i].node !in path
  }

  /** The last place of a node in a chain. */
  lemma {:induction false} LastPlace(vs: seq<Val>, n: Identity) returns (j: nat)
    requires |vs| > 0 && vs[0] == Ref(n)
    ensures j < |vs| && vs[j] == Ref(n) && forall k :: j < k < |vs| ==> vs[k] != Ref(n)
  {
    if vs[|vs| - 1] == Ref(n) {
      j := |vs| - 1;
    } else {
      j := LastPlace(vs[..|vs| - 1], n);
    }
  }

  // What is there is seen: a chain that avoids the nodes on the way can be cut short at every node it repeats.
  lemma {:induction false} ReachableIsSeen(g: Graph, mirrors: Graph, v: Val, mirror: Option<Val>,
                                              parent: Option<(Identity, Key)>, path: set<Identity>, vs: seq<Val>)
    requires Closed(g) && Known(g, v) && path <= g.Keys
    requires LeadsToNonFinite(g, v, vs) && Avoids(vs, path)
    ensures SeesNonFinite(VisitValue(g, mirrors, v, mirror, parent, path))
    decreases |g.Keys - path|
  {
    if |vs| == 1 {
      assert VisitValue(g, mirrors, v, mirror, parent, path)[0].number.NonFinite?;
    } else {
      assert IsChild(g, vs[0], vs[1]);
      var n := v.node;
      var j := LastPlace(vs, n);
      var rest := vs[j + 1..];
      assert IsChild(g, vs[j], vs[j + 1]);
      var i :| 0 <= i < g[n].Length() && g[n].ChildAt(i) == vs[j + 1];
      Fewer(g.Keys - (path + {n}), g.Keys - path);
      assert LeadsToNonFinite(g, rest[0], rest) by {
        forall k | 0 <= k < |rest| - 1 ensures IsChild(g, rest[k], rest[k + 1]) {
          assert IsChild(g, vs[j + 1 + k], vs[j + 1 + k + 1]);
        }
      }
      assert Avoids(rest, path + {n});
      ReachableIsSeen(g, mirrors, rest[0], Property(mirrors, mirror, g[n].KeyAt(i)), Some((n, g[n].KeyAt(i))),
                      path + {n}, rest);
      ChildIsSeen(g, mirrors, n, mirror, path + {n}, 0, i);
    }
  }

  lemma {:induction false} ChildIsSeen(g: Graph, mirrors: Graph, n: Identity, mirror: Option<Val>, path: set<Identity>,
                                          from: nat, i: nat)
    requires Closed(g) && n in g && path <= g.Keys && from <= i < g[n].Length()
    requires var key := g[n].KeyAt(i);
             SeesNonFinite(VisitValue(g, mirrors, g[n].ChildAt(i), Property(mirrors, mirror, key), Some((n, key)),
                                      path))
    ensures SeesNonFinite(VisitNode(g, mirrors, n, mirror, path, from))
    decreases i - from
  {
    var key := g[n].KeyAt(from);
    SeesConcat(VisitValue(g, mirrors, g[n].ChildAt(from), Property(mirrors, mirror, key), Some((n, key)), path),
               VisitNode(g, mirrors, n, mirror, path, from + 1));
    if from < i { ChildIsSeen(g, mirrors, n, mirror, path, from + 1, i); }
  }

  // The walk meets a non-finite number exactly when one is reachable, cycles or not.
  lemma SeenIffReachable(g: Graph, mirrors: Graph, v: Val, mirror: Option<Val>)
    requires Closed(g) && Known(g, v)
    ensures SeesNonFinite(VisitValue(g, mirrors, v, mirror, None, {})) <==> ReachesNonFinite(g, v)
  {
    if ReachesNonFinite(g, v) {
      var vs: seq<Val> :| LeadsToNonFinite(g, v, vs);
      ReachableIsSeen(g, mirrors, v, mirror, None, {}, vs);
    }
    if SeesNonFinite(VisitValue(g, mirrors, v, mirror, None, {})) {
      SeenIsReachable(g, mirrors, v, mirror, None, {});
    }
  }
}
