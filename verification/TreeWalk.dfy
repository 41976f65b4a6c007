/** The walk over a parse tree beside its mirror, and the lexemes that it records. */
module TreeWalk {
  import opened Utf16
  import opened Wrappers
  import opened ObjectGraph
  import opened JsonTree
  import opened MirrorTheorem
  import Json

  /** Each number of a tree once, in document order: where it is, its value and its lexeme. */
  ghost function TreeVisits(v: Json.Value, at: Identity, convert: Conversion,
                            parent: Option<(Identity, Key)>): seq<Visit>
    decreases v, 1, 0
  {
    if v.Num? then [Visit(parent, convert(v.lexeme), Some(Val.Text(v.lexeme)))]
    else if IsContainer(v) then TreeVisitsFrom(v, at, convert, 0)
    else []
  }

  ghost function TreeVisitsFrom(v: Json.Value, at: Identity, convert: Conversion, i: nat): seq<Visit>
    requires IsContainer(v) && i <= Size(v)
    decreases v, 0, Size(v) - i
  {
    if i == Size(v) then []
    else
      TreeVisits(ChildAt(v, i), at + [i], convert, Some((at, KeyAt(v, i)))) + TreeVisitsFrom(v, at, convert, i + 1)
  }

  /** No object has two members of the same name. */
  ghost predicate Distinct(v: Json.Value)
    decreases v
  {
    IsContainer(v) ==>
      && (forall i, j :: 0 <= i < j < Size(v) ==> KeyAt(v, i) != KeyAt(v, j))
      && forall i :: 0 <= i < Size(v) ==> Distinct(ChildAt(v, i))
  }

  lemma {:induction false} MirrorElement(vs: seq<Json.Value>, i: nat)
    requires i < |vs|
    ensures |MirrorValues(vs)| == |vs| && MirrorValues(vs)[i] == MirrorValue(vs[i])
  {
    if |vs| > 1 {
      MirrorElement(vs[..|vs| - 1], if i < |vs| - 1 then i else 0);
    } else {
      assert MirrorValues(vs[..0]) == [];
    }
  }

  lemma {:induction false} MirrorMember(ms: seq<Json.Member>, i: nat)
    requires i < |ms|
    ensures |MirrorMembers(ms)| == |ms|
    ensures MirrorMembers(ms)[i] == Json.Member(ms[i].name, MirrorValue(ms[i].value))
  {
    if |ms| > 1 { MirrorMember(ms[1..], if i > 0 then i - 1 else 0); } else { assert MirrorMembers(ms[1..]) == []; }
  }

  lemma MirrorShape(v: Json.Value)
    ensures IsContainer(MirrorValue(v)) <==> IsContainer(v)
    ensures IsContainer(v) ==> Size(MirrorValue(v)) == Size(v)
    ensures IsContainer(v) ==> forall i :: 0 <= i < Size(v) ==>
              KeyAt(MirrorValue(v), i) == KeyAt(v, i) && ChildAt(MirrorValue(v), i) == MirrorValue(ChildAt(v, i))
  {
    if v.Arr? {
      assert v.elements == [] ==> MirrorValues(v.elements) == [];
      if v.elements != [] { MirrorElement(v.elements, 0); }
      forall i | 0 <= i < Size(v) ensures MirrorValues(v.elements)[i] == MirrorValue(v.elements[i]) {
        MirrorElement(v.elements, i);
      }
    } else if v.Obj? {
      assert v.members == [] ==> MirrorMembers(v.members) == [];
      if v.members != [] { MirrorMember(v.members, 0); }
      forall i | 0 <= i < Size(v)
        ensures MirrorMembers(v.members)[i] == Json.Member(v.members[i].name, MirrorValue(v.members[i].value))
      {
        MirrorMember(v.members, i);
      }
    }
  }

  lemma {:induction false} FindUnique(members: seq<(Text, Val)>, i: nat)
    requires i < |members| && forall j, k :: 0 <= j < k < |members| ==> members[j].0 != members[k].0
    ensures FindMember(members, members[i].0) == Some(members[i].1)
  {
    if i > 0 {
      assert members[1..][i - 1] == members[i];
      FindUnique(members[1..], i - 1);
    }
  }

  // The mirror holds the mirrored child under the same key.
  lemma MirrorProperty(mirrors: Graph, v: Json.Value, at: Identity, convert: Conversion, i: nat)
    requires IsContainer(v) && i < Size(v) && Distinct(v)
    requires Embeds(mirrors, MirrorValue(v), at, convert)
    ensures Property(mirrors, Some(Ref(at)), KeyAt(v, i)) == Some(ToVal(MirrorValue(ChildAt(v, i)), at + [i], convert))
  {
    hide MirrorValue, Distinct;
    MirrorShape(v);
    var w := MirrorValue(v);
    SameKind(v);
    NodeForShape(w, at, convert);
    var node := mirrors[at];
    if v.Obj? {
      DistinctKeys(v);
      assert forall j :: 0 <= j < Size(v) ==> node.KeyAt(j) == KeyAt(v, j) && node.ChildAt(j) == node.members[j].1;
      assert forall j :: 0 <= j < Size(v) ==> Name(node.members[j].0) == KeyAt(v, j);
      FindUnique(node.members, i);
      assert node.ChildAt(i) == node.members[i].1;
    } else {
      assert node.ChildAt(i) == node.elements[i];
    }
  }

  lemma DistinctKeys(v: Json.Value)
    requires IsContainer(v) && Distinct(v)
    ensures forall i, j :: 0 <= i < j < Size(v) ==> KeyAt(v, i) != KeyAt(v, j)
  {
  }

  lemma SameKind(v: Json.Value)
    ensures v.Arr? ==> MirrorValue(v).Arr?
    ensures v.Obj? ==> MirrorValue(v).Obj?
    ensures v.Num? ==> MirrorValue(v) == Json.Str(v.lexeme)
  {
  }

  /** None of the nodes on the way is at or below `at`. */
  ghost predicate Above(path: set<Identity>, at: Identity) {
    forall n <- path :: !(at <= n)
  }

  // On a parse tree beside its mirror, the walk makes each number's visit once, with its own lexeme.
  lemma {:induction false} WalkTree(g: Graph, mirrors: Graph, v: Json.Value, at: Identity, convert: Conversion,
                                    parent: Option<(Identity, Key)>, path: set<Identity>)
    requires Closed(g) && path <= g.Keys && Above(path, at) && Distinct(v)
    requires Embeds(g, v, at, convert) && Embeds(mirrors, MirrorValue(v), at, convert)
    ensures Known(g, ToVal(v, at, convert))
    ensures VisitValue(g, mirrors, ToVal(v, at, convert), Some(ToVal(MirrorValue(v), at, convert)), parent, path) ==
            TreeVisits(v, at, convert, parent)
    decreases v, 1, 0
  {
    SameKind(v);
    if IsContainer(v) {
      assert at !in path;
      WalkChildren(g, mirrors, v, at, convert, path + {at}, 0);
    }
  }

  lemma {:induction false} WalkChildren(g: Graph, mirrors: Graph, v: Json.Value, at: Identity, convert: Conversion,
                                        path: set<Identity>, i: nat)
    requires Closed(g) && path <= g.Keys && Distinct(v) && IsContainer(v)
    requires Embeds(g, v, at, convert) && Embeds(mirrors, MirrorValue(v), at, convert)
    requires forall n <- path :: !(at < n)
    requires i <= Size(v) && g[at].Length() == Size(v)
    ensures VisitNode(g, mirrors, at, Some(Ref(at)), path, i) == TreeVisitsFrom(v, at, convert, i)
    decreases v, 0, Size(v) - i
  {
    if i < Size(v) {
      NodeForShape(v, at, convert);
      MirrorProperty(mirrors, v, at, convert, i);
      MirrorShape(v);
      assert Embeds(g, ChildAt(v, i), at + [i], convert);
      assert Embeds(mirrors, ChildAt(MirrorValue(v), i), at + [i], convert);
      forall n | n in path ensures !(at + [i] <= n) {
        if at + [i] <= n { BelowChild(at, i, n); }
      }
      WalkTree(g, mirrors, ChildAt(v, i), at + [i], convert, Some((at, KeyAt(v, i))), path);
      WalkChildren(g, mirrors, v, at, convert, path, i + 1);
    }
  }

  /** Every number of the tree is finite. */
  ghost predicate AllFinite(v: Json.Value, convert: Conversion)
    decreases v
  {
    && (v.Num? ==> !convert(v.lexeme).NonFinite?)
    && (IsContainer(v) ==> forall i :: 0 <= i < Size(v) ==> AllFinite(ChildAt(v, i), convert))
  }

  lemma {:induction false} VisitsFinite(v: Json.Value, at: Identity, convert: Conversion,
                                        parent: Option<(Identity, Key)>)
    ensures SeesNonFinite(TreeVisits(v, at, convert, parent)) <==> !AllFinite(v, convert)
    decreases v, 1, 0
  {
    if v.Num? {
      assert TreeVisits(v, at, convert, parent)[0].number == convert(v.lexeme);
    } else if IsContainer(v) {
      VisitsFiniteFrom(v, at, convert, 0);
    }
  }

  lemma {:induction false} VisitsFiniteFrom(v: Json.Value, at: Identity, convert: Conversion, i: nat)
    requires IsContainer(v) && i <= Size(v)
    ensures SeesNonFinite(TreeVisitsFrom(v, at, convert, i)) <==>
            exists k :: i <= k < Size(v) && !AllFinite(ChildAt(v, k), convert)
    decreases v, 0, Size(v) - i
  {
    if i < Size(v) {
      VisitsFinite(ChildAt(v, i), at + [i], convert, Some((at, KeyAt(v, i))));
      VisitsFiniteFrom(v, at, convert, i + 1);
      SeesConcat(TreeVisits(ChildAt(v, i), at + [i], convert, Some((at, KeyAt(v, i)))),
                 TreeVisitsFrom(v, at, convert, i + 1));
    }
  }

  // ----- The recorded lexemes

  type Entry = (Identity, Key)

  type Lexemes = map<Entry, Text>

  function Record(lexemes: Lexemes, visit: Visit): Lexemes {
    if visit.parent.Some? && visit.lexical.Some? && visit.lexical.value.Text? then
      lexemes[visit.parent.value := visit.lexical.value.text]
    else lexemes
  }

  ghost function RecordAll(lexemes: Lexemes, visits: seq<Visit>): Lexemes
    decreases |visits|
  {
    if |visits| == 0 then lexemes else RecordAll(Record(lexemes, visits[0]), visits[1..])
  }

  lemma {:induction false} RecordConcat(lexemes: Lexemes, a: seq<Visit>, b: seq<Visit>)
    ensures RecordAll(lexemes, a + b) == RecordAll(RecordAll(lexemes, a), b)
    decreases |a|
  {
    if |a| == 0 {
      assert a + b == b;
    } else {
      assert (a + b)[1..] == a[1..] + b;
      RecordConcat(Record(lexemes, a[0]), a[1..], b);
    }
  }

  /** Every number in an array or object of the tree has its lexeme recorded under its place and key. */
  ghost predicate Recorded(lexemes: Lexemes, v: Json.Value, at: Identity)
    decreases v
  {
    IsContainer(v) ==> forall i :: 0 <= i < Size(v) ==> RecordedChild(lexemes, v, at, i)
  }

  ghost predicate RecordedChild(lexemes: Lexemes, v: Json.Value, at: Identity, i: nat)
    requires IsContainer(v) && i < Size(v)
    decreases v, 0
  {
    && (ChildAt(v, i).Num? ==>
          (at, KeyAt(v, i)) in lexemes && lexemes[(at, KeyAt(v, i))] == ChildAt(v, i).lexeme)
    && Recorded(lexemes, ChildAt(v, i), at + [i])
  }

  /** `b` agrees with `a` on the entries of all objects outside the subtree at `at`, except for the entry `own`. */
  ghost predicate SameOutside(a: Lexemes, b: Lexemes, at: Identity, own: Option<(Identity, Key)>) {
    forall e: Entry :: !(at <= e.0) && own != Some(e) ==> (e in a <==> e in b) && (e in a ==> a[e] == b[e])
  }

  /** `b` agrees with `a` on the entries of the objects of the subtree at `at`. */
  ghost predicate SameInside(a: Lexemes, b: Lexemes, at: Identity) {
    forall e: Entry :: at <= e.0 && e in a ==> e in b && a[e] == b[e]
  }

  lemma {:induction false} StillRecorded(a: Lexemes, b: Lexemes, v: Json.Value, at: Identity)
    requires Recorded(a, v, at) && SameInside(a, b, at)
    ensures Recorded(b, v, at)
    decreases v
  {
    if IsContainer(v) {
      forall i | 0 <= i < Size(v) ensures RecordedChild(b, v, at, i) {
        assert RecordedChild(a, v, at, i);
        forall e: Entry | at + [i] <= e.0 && e in a ensures e in b && a[e] == b[e] {
          BelowChild(at, i, e.0);
        }
        StillRecorded(a, b, ChildAt(v, i), at + [i]);
      }
    }
  }

  lemma {:induction false} RecordTree(lexemes: Lexemes, v: Json.Value, at: Identity, convert: Conversion,
                                      parent: Option<(Identity, Key)>)
    requires Distinct(v)
    ensures var after := RecordAll(lexemes, TreeVisits(v, at, convert, parent));
            && Recorded(after, v, at) && SameOutside(lexemes, after, at, parent)
            && (v.Num? && parent.Some? ==> parent.value in after && after[parent.value] == v.lexeme)
    decreases v, 1, 0
  {
    if v.Num? {
      var visits := TreeVisits(v, at, convert, parent);
      assert visits[1..] == [];
      assert RecordAll(lexemes, visits) == Record(lexemes, visits[0]);
    } else if IsContainer(v) {
      RecordChildren(lexemes, v, at, convert, 0);
    }
  }

  lemma {:induction false} RecordChildren(lexemes: Lexemes, v: Json.Value, at: Identity, convert: Conversion, i: nat)
    requires Distinct(v) && IsContainer(v) && i <= Size(v)
    requires forall k :: 0 <= k < i ==> RecordedChild(lexemes, v, at, k)
    ensures var after := RecordAll(lexemes, TreeVisitsFrom(v, at, convert, i));
            && (forall k :: 0 <= k < Size(v) ==> RecordedChild(after, v, at, k))
            && SameOutside(lexemes, after, at, None)
    decreases v, 0, Size(v) - i
  {
    if i < Size(v) {
      var child, own := ChildAt(v, i), Some((at, KeyAt(v, i)));
      var visits := TreeVisits(child, at + [i], convert, own);
      RecordTree(lexemes, child, at + [i], convert, own);
      var middle := RecordAll(lexemes, visits);
      RecordConcat(lexemes, visits, TreeVisitsFrom(v, at, convert, i + 1));
      forall k | 0 <= k < i ensures RecordedChild(middle, v, at, k) {
        assert RecordedChild(lexemes, v, at, k);
        KeepChild(lexemes, middle, v, at, k, i);
      }
      RecordChildren(middle, v, at, convert, i + 1);
      Outside(lexemes, middle, RecordAll(middle, TreeVisitsFrom(v, at, convert, i + 1)), at, i, KeyAt(v, i));
    }
  }

  // Recording one child leaves what is recorded about another.
  lemma KeepChild(a: Lexemes, b: Lexemes, v: Json.Value, at: Identity, k: nat, i: nat)
    requires Distinct(v) && IsContainer(v) && k < i < Size(v)
    requires RecordedChild(a, v, at, k) && SameOutside(a, b, at + [i], Some((at, KeyAt(v, i))))
    ensures RecordedChild(b, v, at, k)
  {
    assert KeyAt(v, k) != KeyAt(v, i);
    assert !(at + [i] <= at);
    forall e: Entry | at + [k] <= e.0 && e in a ensures e in b && a[e] == b[e] {
      BelowChild(at, k, e.0);
      if at + [i] <= e.0 { BelowChild(at, i, e.0); }
    }
    StillRecorded(a, b, ChildAt(v, k), at + [k]);
  }

  lemma Outside(a: Lexemes, b: Lexemes, c: Lexemes, at: Identity, i: nat, key: Key)
    requires SameOutside(a, b, at + [i], Some((at, key))) && SameOutside(b, c, at, None)
    ensures SameOutside(a, c, at, None)
  {
    forall e: Entry | !(at <= e.0) ensures (e in a <==> e in c) && (e in a ==> a[e] == c[e]) {
      if at + [i] <= e.0 { BelowChild(at, i, e.0); }
      assert e != (at, key);
    }
  }
}
