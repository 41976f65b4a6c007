/** The object graph that `JSON.parse` builds, and the walk over it: a tree whose objects are named by their place. */
module JsonTree {
  import opened Utf16
  import opened ExactInteger
  import opened ObjectGraph
  import Json

  /** How `JSON.parse` reads a number. */
  type Conversion = Text -> JsNumber

  function ToVal(v: Json.Value, at: Identity, convert: Conversion): Val {
    match v
    case Num(lexeme) => Number(convert(lexeme))
    case Str(s) => Val.Text(s)
    case Arr(_) => Ref(at)
    case Obj(_) => Ref(at)
    case _ => Primitive
  }

  predicate IsContainer(v: Json.Value) { v.Arr? || v.Obj? }

  function Size(v: Json.Value): nat
    requires IsContainer(v)
  {
    if v.Arr? then |v.elements| else |v.members|
  }

  function ChildAt(v: Json.Value, i: nat): (child: Json.Value)
    requires IsContainer(v) && i < Size(v)
    ensures child < v
  {
    if v.Arr? then v.elements[i] else v.members[i].value
  }

  function KeyAt(v: Json.Value, i: nat): Key
    requires IsContainer(v) && i < Size(v)
  {
    if v.Arr? then Index(i) else Name(v.members[i].name)
  }

  /** The node of an array or object whose children are named by extending its own name. */
  function NodeFor(v: Json.Value, at: Identity, convert: Conversion): Node
    requires IsContainer(v)
  {
    if v.Arr? then Array(seq(|v.elements|, i requires 0 <= i < |v.elements| => ToVal(v.elements[i], at + [i], convert)))
    else Object(seq(|v.members|, i requires 0 <= i < |v.members| =>
                  (v.members[i].name, ToVal(v.members[i].value, at + [i], convert))))
  }

  lemma NodeForShape(v: Json.Value, at: Identity, convert: Conversion)
    requires IsContainer(v)
    ensures var node := NodeFor(v, at, convert);
            && node.Length() == Size(v)
            && forall i :: 0 <= i < Size(v) ==>
                 node.KeyAt(i) == KeyAt(v, i) && node.ChildAt(i) == ToVal(ChildAt(v, i), at + [i], convert)
  {
  }

  /** The nodes of a tree. */
  function Build(v: Json.Value, at: Identity, convert: Conversion): Graph
    decreases v, 1, 0
  {
    if !IsContainer(v) then map[] else map[at := NodeFor(v, at, convert)] + BuildFrom(v, at, convert, 0)
  }

  function BuildFrom(v: Json.Value, at: Identity, convert: Conversion, i: nat): Graph
    requires IsContainer(v) && i <= Size(v)
    decreases v, 0, Size(v) - i
  {
    if i == Size(v) then map[] else Build(ChildAt(v, i), at + [i], convert) + BuildFrom(v, at, convert, i + 1)
  }

  /** The graph holds the tree of `v`, with its root at `at`. */
  ghost predicate Embeds(g: Graph, v: Json.Value, at: Identity, convert: Conversion)
    decreases v
  {
    IsContainer(v) ==>
      && at in g && g[at] == NodeFor(v, at, convert)
      && forall i :: 0 <= i < Size(v) ==> Embeds(g, ChildAt(v, i), at + [i], convert)
  }

  // The names below a child.
  lemma BelowChild(at: Identity, i: nat, n: Identity)
    requires at + [i] <= n
    ensures at < n && n[|at|] == i
  {
    assert n == at + [i] + n[|at| + 1..];
    assert n[|at|] == (at + [i])[|at|];
  }

  lemma {:induction false} BuildNames(v: Json.Value, at: Identity, convert: Conversion)
    ensures forall n <- Build(v, at, convert) :: at <= n
    decreases v, 1, 0
  {
    if IsContainer(v) { BuildFromNames(v, at, convert, 0); }
  }

  lemma {:induction false} BuildFromNames(v: Json.Value, at: Identity, convert: Conversion, i: nat)
    requires IsContainer(v) && i <= Size(v)
    ensures forall n <- BuildFrom(v, at, convert, i) :: at < n && n[|at|] >= i
    decreases v, 0, Size(v) - i
  {
    if i < Size(v) {
      BuildNames(ChildAt(v, i), at + [i], convert);
      BuildFromNames(v, at, convert, i + 1);
      forall n | n in BuildFrom(v, at, convert, i) ensures at < n && n[|at|] >= i {
        var first := Build(ChildAt(v, i), at + [i], convert);
        if n in first {
          assert n in first.Keys;
          BelowChild(at, i, n);
        } else {
          assert n in BuildFrom(v, at, convert, i + 1).Keys;
        }
      }
    }
  }

  /** Every node of `h` is in `g`. */
  ghost predicate Extends(g: Graph, h: Graph) {
    forall n <- h :: n in g && g[n] == h[n]
  }

  // A graph that holds all the nodes of a built tree holds the tree.
  lemma {:induction false} BuildEmbeds(g: Graph, v: Json.Value, at: Identity, convert: Conversion)
    requires Extends(g, Build(v, at, convert))
    ensures Embeds(g, v, at, convert)
    decreases v, 1, 0
  {
    if IsContainer(v) {
      BuildFromNames(v, at, convert, 0);
      assert at !in BuildFrom(v, at, convert, 0);
      assert at in Build(v, at, convert) && g[at] == NodeFor(v, at, convert);
      ChildrenEmbed(g, v, at, convert, 0);
    }
  }

  lemma {:induction false} ChildrenEmbed(g: Graph, v: Json.Value, at: Identity, convert: Conversion, i: nat)
    requires IsContainer(v) && i <= Size(v) && Extends(g, BuildFrom(v, at, convert, i))
    ensures forall k :: i <= k < Size(v) ==> Embeds(g, ChildAt(v, k), at + [k], convert)
    decreases v, 0, Size(v) - i
  {
    if i < Size(v) {
      var first, rest := Build(ChildAt(v, i), at + [i], convert), BuildFrom(v, at, convert, i + 1);
      BuildNames(ChildAt(v, i), at + [i], convert);
      BuildFromNames(v, at, convert, i + 1);
      forall n | n in first ensures n in g && g[n] == first[n] {
        BelowChild(at, i, n);
        assert n !in rest;
        assert n in BuildFrom(v, at, convert, i);
      }
      BuildEmbeds(g, ChildAt(v, i), at + [i], convert);
      assert Extends(g, rest);
      ChildrenEmbed(g, v, at, convert, i + 1);
    }
  }

  // The tree of a value is a closed graph.
  lemma {:induction false} BuildClosed(g: Graph, v: Json.Value, at: Identity, convert: Conversion)
    requires Extends(g, Build(v, at, convert))
    ensures forall n <- Build(v, at, convert) ::
              forall k :: 0 <= k < g[n].Length() && g[n].ChildAt(k).Ref? ==> g[n].ChildAt(k).node in g
    decreases v, 1, 0
  {
    BuildEmbeds(g, v, at, convert);
    if IsContainer(v) {
      NodeForShape(v, at, convert);
      BuildFromNames(v, at, convert, 0);
      assert Extends(g, BuildFrom(v, at, convert, 0)) by {
        forall n | n in BuildFrom(v, at, convert, 0) ensures n in g && g[n] == BuildFrom(v, at, convert, 0)[n] {
          assert n in Build(v, at, convert);
        }
      }
      BuildFromClosed(g, v, at, convert, 0);
      forall k | 0 <= k < Size(v) && g[at].ChildAt(k).Ref? ensures g[at].ChildAt(k).node in g {
        assert Embeds(g, ChildAt(v, k), at + [k], convert);
      }
    }
  }

  lemma {:induction false} BuildFromClosed(g: Graph, v: Json.Value, at: Identity, convert: Conversion, i: nat)
    requires IsContainer(v) && i <= Size(v) && Extends(g, BuildFrom(v, at, convert, i))
    ensures forall n <- BuildFrom(v, at, convert, i) ::
              forall k :: 0 <= k < g[n].Length() && g[n].ChildAt(k).Ref? ==> g[n].ChildAt(k).node in g
    decreases v, 0, Size(v) - i
  {
    if i < Size(v) {
      var first, rest := Build(ChildAt(v, i), at + [i], convert), BuildFrom(v, at, convert, i + 1);
      BuildNames(ChildAt(v, i), at + [i], convert);
      BuildFromNames(v, at, convert, i + 1);
      forall n | n in first ensures n in g && g[n] == first[n] {
        BelowChild(at, i, n);
        assert n !in rest;
        assert n in BuildFrom(v, at, convert, i);
      }
      BuildClosed(g, ChildAt(v, i), at + [i], convert);
      assert Extends(g, rest);
      BuildFromClosed(g, v, at, convert, i + 1);
    }
  }
}
