/** `visitJson`: the walk over an object graph with an explicit stack, one child at a time. */
module VisitJson {
  import opened Wrappers
  import opened ObjectGraph

  datatype Frame = Frame(node: Identity, mirror: Option<Val>, index: nat)

  /** The nodes on the stack: the set `visited` of the source. */
  function Nodes(frames: seq<Frame>): set<Identity> {
    if |frames| == 0 then {} else Nodes(frames[..|frames| - 1]) + {frames[|frames| - 1].node}
  }

  /** Distinct known nodes, each with an index up to its length. */
  ghost predicate Stack(g: Graph, frames: seq<Frame>) {
    |frames| == 0 ||
    var top, below := frames[|frames| - 1], frames[..|frames| - 1];
    Stack(g, below) && top.node in g && top.index <= g[top.node].Length() && top.node !in Nodes(below)
  }

  lemma {:induction false} StackKnown(g: Graph, frames: seq<Frame>)
    requires Stack(g, frames)
    ensures Nodes(frames) <= g.Keys
  {
    if |frames| > 0 { StackKnown(g, frames[..|frames| - 1]); }
  }

  /** What the walk still has to visit, the top frame first. */
  ghost function Left(g: Graph, mirrors: Graph, frames: seq<Frame>): seq<Visit>
    requires Closed(g) && Stack(g, frames)
  {
    if |frames| == 0 then []
    else
      var top := frames[|frames| - 1];
      StackKnown(g, frames);
      VisitNode(g, mirrors, top.node, top.mirror, Nodes(frames), top.index) + Left(g, mirrors, frames[..|frames| - 1])
  }

  ghost function PassesLeft(g: Graph, frames: seq<Frame>): nat
    requires Closed(g) && Stack(g, frames)
  {
    if |frames| == 0 then 0
    else
      var top := frames[|frames| - 1];
      StackKnown(g, frames);
      Passes(g, top.node, Nodes(frames), top.index) + PassesLeft(g, frames[..|frames| - 1])
  }

  // The top frame moves past one child.
  lemma Advance(g: Graph, mirrors: Graph, frames: seq<Frame>)
    requires Closed(g) && Stack(g, frames) && |frames| > 0
    requires frames[|frames| - 1].index < g[frames[|frames| - 1].node].Length()
    ensures var top := frames[|frames| - 1];
            var key, child := g[top.node].KeyAt(top.index), g[top.node].ChildAt(top.index);
            var moved := frames[..|frames| - 1] + [top.(index := top.index + 1)];
            var mirror := Property(mirrors, top.mirror, key);
            && Stack(g, moved) && Nodes(moved) == Nodes(frames) <= g.Keys && Known(g, child)
            && Left(g, mirrors, frames) ==
               VisitValue(g, mirrors, child, mirror, Some((top.node, key)), Nodes(frames)) + Left(g, mirrors, moved)
            && PassesLeft(g, frames) ==
               1 + PassesLeft(g, moved)
               + (if child.Ref? && child.node !in Nodes(frames) then
                    assert Nodes(frames) + {child.node} <= g.Keys;
                    Passes(g, child.node, Nodes(frames) + {child.node}, 0)
                  else 0)
  {
    var top, below := frames[|frames| - 1], frames[..|frames| - 1];
    assert frames == below + [top];
    Pushed(g, mirrors, below, top);
    Pushed(g, mirrors, below, top.(index := top.index + 1));
    NextVisit(g, mirrors, top.node, top.mirror, Nodes(frames), top.index);
    hide Property, VisitValue, VisitNode, Passes, Stack, Nodes, Left, PassesLeft, Closed;
  }

  // A frame on top of a stack.
  lemma Pushed(g: Graph, mirrors: Graph, below: seq<Frame>, top: Frame)
    requires Closed(g) && Stack(g, below) && top.node in g && top.index <= g[top.node].Length()
             && top.node !in Nodes(below)
    ensures var frames := below + [top];
            && Stack(g, frames) && Nodes(frames) == Nodes(below) + {top.node} <= g.Keys
            && Left(g, mirrors, frames) ==
               VisitNode(g, mirrors, top.node, top.mirror, Nodes(frames), top.index) + Left(g, mirrors, below)
            && PassesLeft(g, frames) == Passes(g, top.node, Nodes(frames), top.index) + PassesLeft(g, below)
  {
    StackKnown(g, below);
    assert (below + [top])[..|below|] == below;
  }

  lemma NextVisit(g: Graph, mirrors: Graph, n: Identity, mirror: Option<Val>, path: set<Identity>, i: nat)
    requires Closed(g) && n in g && path <= g.Keys && i < g[n].Length()
    ensures var key, child := g[n].KeyAt(i), g[n].ChildAt(i);
            && Known(g, child)
            && VisitNode(g, mirrors, n, mirror, path, i) ==
               VisitValue(g, mirrors, child, Property(mirrors, mirror, key), Some((n, key)), path)
               + VisitNode(g, mirrors, n, mirror, path, i + 1)
            && Passes(g, n, path, i) ==
               1 + Passes(g, n, path, i + 1)
               + (if child.Ref? && child.node !in path then
                    assert path + {child.node} <= g.Keys;
                    Passes(g, child.node, path + {child.node}, 0)
                  else 0)
  {
    hide Property;
  }

  // Entering a node outside the stack.
  lemma Enter(g: Graph, mirrors: Graph, frames: seq<Frame>, n: Identity, mirror: Option<Val>,
              parent: Option<(Identity, Key)>)
    requires Closed(g) && Stack(g, frames) && n in g && n !in Nodes(frames) && Nodes(frames) <= g.Keys
    ensures var pushed := frames + [Frame(n, mirror, 0)];
            && Stack(g, pushed) && Nodes(pushed) == Nodes(frames) + {n} <= g.Keys
            && Left(g, mirrors, pushed) ==
               VisitValue(g, mirrors, Ref(n), mirror, parent, Nodes(frames)) + Left(g, mirrors, frames)
            && PassesLeft(g, pushed) == Passes(g, n, Nodes(frames) + {n}, 0) + PassesLeft(g, frames)
  {
    Pushed(g, mirrors, frames, Frame(n, mirror, 0));
  }

  /** The visits of a walk that stops at the first number that is not finite. */
  ghost predicate Outcome(all: seq<Visit>, visits: seq<Visit>, finite: bool) {
    && visits <= all
    && (finite <==> !SeesNonFinite(all))
    && (finite ==> visits == all)
    && (!finite ==> |visits| > 0 && visits[|visits| - 1].number.NonFinite?)
  }

  // The visits are the first ones of the walk: all of them if every number is finite, and otherwise those up to a
  // number that is not.
  lemma OutcomeMeans(all: seq<Visit>, visits: seq<Visit>, finite: bool)
    requires Outcome(all, visits, finite)
    ensures |visits| <= |all| && forall i :: 0 <= i < |visits| ==> visits[i] == all[i]
    ensures finite <==> forall i :: 0 <= i < |all| ==> !all[i].number.NonFinite?
    ensures finite ==> visits == all
    ensures !finite ==> |visits| > 0 && visits[|visits| - 1].number.NonFinite?
  {
  }

  /** What has been visited, what is left, and nothing that stops the walk so far. */
  ghost predicate OnTheWay(all: seq<Visit>, visits: seq<Visit>, left: seq<Visit>) {
    all == visits + left && !SeesNonFinite(visits)
  }

  lemma VisitOne(all: seq<Visit>, visits: seq<Visit>, visit: Visit, left: seq<Visit>)
    requires OnTheWay(all, visits, [visit] + left)
    ensures if visit.number.NonFinite? then Outcome(all, visits + [visit], false)
            else OnTheWay(all, visits + [visit], left)
  {
    assert visits + ([visit] + left) == visits + [visit] + left;
    SeesConcat(visits + [visit], left);
    SeesConcat(visits, [visit]);
    assert visit.number.NonFinite? ==> [visit][0].number.NonFinite?;
  }

  /**
   The walk from a value, in lockstep with a mirror; the visitor of every caller stops it at a number that is not
   finite. It ends on every graph, and makes exactly the visits of the recursive walk.
   */
  method VisitJson(g: Graph, mirrors: Graph, value: Val, mirror: Option<Val>) returns (visits: seq<Visit>, finite: bool)
    requires Closed(g) && Known(g, value)
    ensures Outcome(VisitValue(g, mirrors, value, mirror, None, {}), visits, finite)
  {
    hide Outcome, OnTheWay, Property, Left, PassesLeft, VisitValue, Closed, Stack, Nodes;
    ghost var all := VisitValue(g, mirrors, value, mirror, None, {});
    var frames: seq<Frame> := [];
    var visited: set<Identity> := {};
    EmptyStack(g, mirrors, value, mirror);
    visits, finite := [], true;
    if value.Number? {
      VisitOne(all, visits, Visit(None, value.number, mirror), []);
      visits := visits + [Visit(None, value.number, mirror)];
      if value.number.NonFinite? { return visits, false; }
    }
    if value.Ref? {
      Enter(g, mirrors, frames, value.node, mirror, None);
      visited := visited + {value.node};
      frames := frames + [Frame(value.node, mirror, 0)];
    }
    Resumed(all, visits, Left(g, mirrors, frames), value, g, mirrors, mirror);
    while |frames| > 0
      invariant Stack(g, frames) && visited == Nodes(frames)
      invariant OnTheWay(all, visits, Left(g, mirrors, frames))
      decreases PassesLeft(g, frames)
    {
      var top := frames[|frames| - 1];
      StackTop(g, frames);
      if top.index == g[top.node].Length() {
        Pop(g, mirrors, frames);
        visited := visited - {top.node};
        frames := frames[..|frames| - 1];
        continue;
      }
      var key, child := g[top.node].KeyAt(top.index), g[top.node].ChildAt(top.index);
      var lexical := Property(mirrors, top.mirror, key);
      Advance(g, mirrors, frames);
      ghost var before := frames;
      frames := frames[..|frames| - 1] + [top.(index := top.index + 1)];
      ChildVisits(g, mirrors, child, lexical, Some((top.node, key)), Nodes(frames), Left(g, mirrors, frames));
      if child.Number? {
        var visit := Visit(Some((top.node, key)), child.number, lexical);
        VisitOne(all, visits, visit, Left(g, mirrors, frames));
        visits := visits + [visit];
        if child.number.NonFinite? { return visits, false; }
      }
      if child.Ref? && child.node !in visited {
        Enter(g, mirrors, frames, child.node, lexical, Some((top.node, key)));
        visited := visited + {child.node};
        frames := frames + [Frame(child.node, lexical, 0)];
      }
    }
    Finished(g, mirrors, all, visits);
  }

  lemma EmptyStack(g: Graph, mirrors: Graph, value: Val, mirror: Option<Val>)
    requires Closed(g) && Known(g, value)
    ensures Stack(g, []) && Nodes([]) == {} && Left(g, mirrors, []) == [] && PassesLeft(g, []) == 0
    ensures var all := VisitValue(g, mirrors, value, mirror, None, {});
            OnTheWay(all, [], all) && (value.Number? ==> all == [Visit(None, value.number, mirror)] + [])
  {
  }

  lemma Resumed(all: seq<Visit>, visits: seq<Visit>, left: seq<Visit>, value: Val, g: Graph, mirrors: Graph,
                mirror: Option<Val>)
    requires Closed(g) && Known(g, value) && all == VisitValue(g, mirrors, value, mirror, None, {})
    requires if value.Number? then OnTheWay(all, visits, []) && left == []
             else OnTheWay(all, visits, all) && left == (if value.Ref? then all + [] else [])
    ensures OnTheWay(all, visits, left)
  {
  }

  lemma StackTop(g: Graph, frames: seq<Frame>)
    requires Stack(g, frames) && |frames| > 0
    ensures frames[|frames| - 1].node in g && frames[|frames| - 1].index <= g[frames[|frames| - 1].node].Length()
  {
  }

  lemma Pop(g: Graph, mirrors: Graph, frames: seq<Frame>)
    requires Closed(g) && Stack(g, frames) && |frames| > 0
    requires frames[|frames| - 1].index == g[frames[|frames| - 1].node].Length()
    ensures var below := frames[..|frames| - 1];
            && Stack(g, below) && Nodes(below) == Nodes(frames) - {frames[|frames| - 1].node}
            && Left(g, mirrors, below) == Left(g, mirrors, frames)
            && PassesLeft(g, below) < PassesLeft(g, frames)
  {
    assert [] + Left(g, mirrors, frames[..|frames| - 1]) == Left(g, mirrors, frames[..|frames| - 1]);
  }

  lemma ChildVisits(g: Graph, mirrors: Graph, child: Val, lexical: Option<Val>, parent: Option<(Identity, Key)>,
                    path: set<Identity>, left: seq<Visit>)
    requires Closed(g) && Known(g, child) && path <= g.Keys
    ensures var visits := VisitValue(g, mirrors, child, lexical, parent, path);
            && (child.Number? ==> visits == [Visit(parent, child.number, lexical)])
            && (!child.Number? && !(child.Ref? && child.node !in path) ==> visits + left == left)
  {
  }

  lemma Finished(g: Graph, mirrors: Graph, all: seq<Visit>, visits: seq<Visit>)
    requires Closed(g) && OnTheWay(all, visits, Left(g, mirrors, []))
    ensures Outcome(all, visits, true)
  {
    assert visits + [] == visits;
  }

  /** `assertFiniteNumbers`: on any finite graph, rejects exactly if a number that is not finite can be reached. */
  method AssertFiniteNumbers(g: Graph, value: Val) returns (accepted: bool)
    requires Closed(g) && Known(g, value)
    ensures accepted <==> !ReachesNonFinite(g, value)
  {
    SeenIffReachable(g, map[], value, None);
    var visits;
    visits, accepted := VisitJson(g, map[], value, None);
  }
}
