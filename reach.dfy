/**
 * The reachability closure that filters the graph view: `addReachable`
 * grows a set of node ids from a start id by repeatedly sweeping the edge
 * list until a sweep adds nothing, and marks the edge that first reached each
 * new node.
 */
module Reach {
  import opened Graph

  /** Some edge goes from `a` to `b`. */
  ghost predicate Linked(edges: seq<Edge>, a: string, b: string) {
    exists i :: 0 <= i < |edges| && edges[i].source == a && edges[i].target == b
  }

  /** `p` follows edges source to target. */
  ghost predicate IsPath(edges: seq<Edge>, p: seq<string>) {
    |p| >= 1 && forall k :: 0 <= k < |p| - 1 ==> Linked(edges, p[k], p[k + 1])
  }

  /** `x` can be reached from `start` by following edges forward. */
  ghost predicate Reachable(edges: seq<Edge>, start: string, x: string) {
    exists p :: IsPath(edges, p) && p[0] == start && p[|p| - 1] == x
  }

  /** Every id a traversal from `start` can meet: the start and the edge
      targets. */
  function Universe(edges: seq<Edge>, start: string): set<string> {
    {start} + set i | 0 <= i < |edges| :: edges[i].target
  }

  /** The set of ids reachable from `start`. */
  ghost function ReachSet(edges: seq<Edge>, start: string): set<string> {
    set x | x in Universe(edges, start) && Reachable(edges, start, x)
  }

  /** No edge leaves `s`. */
  ghost predicate Closed(edges: seq<Edge>, s: set<string>) {
    forall i :: 0 <= i < |edges| && edges[i].source in s ==> edges[i].target in s
  }

  lemma PathExtend(edges: seq<Edge>, p: seq<string>, i: nat)
    requires IsPath(edges, p) && i < |edges| && edges[i].source == p[|p| - 1]
    ensures IsPath(edges, p + [edges[i].target])
  {
    var q := p + [edges[i].target];
    forall k | 0 <= k < |q| - 1
      ensures Linked(edges, q[k], q[k + 1])
    {
      if k < |p| - 1 {
        assert q[k] == p[k] && q[k + 1] == p[k + 1];
      } else {
        assert q[k] == p[|p| - 1] && q[k + 1] == edges[i].target;
      }
    }
  }

  /** Every node of a path from inside a closed set stays inside it. */
  lemma {:induction false} PathStaysInClosed(edges: seq<Edge>, s: set<string>, p: seq<string>, k: nat)
    requires IsPath(edges, p) && p[0] in s && Closed(edges, s) && k < |p|
    ensures p[k] in s
  {
    if k > 0 {
      PathStaysInClosed(edges, s, p, k - 1);
      assert Linked(edges, p[k - 1], p[k]);
      var i :| 0 <= i < |edges| && edges[i].source == p[k - 1] && edges[i].target == p[k];
    }
  }

  /** A closed set containing the start contains everything reachable from
      it: the closure is the least closed set around the start. */
  lemma ClosedContainsReachable(edges: seq<Edge>, s: set<string>, start: string, x: string)
    requires start in s && Closed(edges, s) && Reachable(edges, start, x)
    ensures x in s
  {
    var p :| IsPath(edges, p) && p[0] == start && p[|p| - 1] == x;
    PathStaysInClosed(edges, s, p, |p| - 1);
  }

  /** A reachable id other than the start is the target of some edge. */
  lemma ReachableInUniverse(edges: seq<Edge>, start: string, x: string)
    requires Reachable(edges, start, x)
    ensures x in Universe(edges, start)
  {
    var p :| IsPath(edges, p) && p[0] == start && p[|p| - 1] == x;
    if |p| > 1 {
      assert Linked(edges, p[|p| - 2], p[|p| - 1]);
      var i :| 0 <= i < |edges| && edges[i].source == p[|p| - 2] && edges[i].target == p[|p| - 1];
      assert edges[i].target in set i | 0 <= i < |edges| :: edges[i].target;
    }
  }

  /** A closed set of reachable ids around the start is the reach set. */
  lemma ReachSetIs(edges: seq<Edge>, start: string, s: set<string>)
    requires start in s && Closed(edges, s)
    requires forall x :: x in s ==> Reachable(edges, start, x)
    ensures s == ReachSet(edges, start)
  {
    forall x | x in s
      ensures x in ReachSet(edges, start)
    {
      ReachableInUniverse(edges, start, x);
    }
    forall x | x in ReachSet(edges, start)
      ensures x in s
    {
      ClosedContainsReachable(edges, s, start, x);
    }
  }

  /** The reach set is closed: every edge out of it leads back into it. */
  lemma ReachSetClosed(edges: seq<Edge>, start: string)
    ensures Closed(edges, ReachSet(edges, start))
  {
    forall i | 0 <= i < |edges| && edges[i].source in ReachSet(edges, start)
      ensures edges[i].target in ReachSet(edges, start)
    {
      var p :| IsPath(edges, p) && p[0] == start && p[|p| - 1] == edges[i].source;
      PathExtend(edges, p, i);
      var q := p + [edges[i].target];
      assert q[0] == start && q[|q| - 1] == edges[i].target;
      ReachableInUniverse(edges, start, edges[i].target);
    }
  }

  /** Starting again from a reached id reaches nothing new. */
  lemma ReseedAddsNothing(edges: seq<Edge>, start: string, x: string)
    requires x in ReachSet(edges, start)
    ensures ReachSet(edges, x) <= ReachSet(edges, start)
  {
    ReachSetClosed(edges, start);
    forall y | y in ReachSet(edges, x)
      ensures y in ReachSet(edges, start)
    {
      ClosedContainsReachable(edges, ReachSet(edges, start), x, y);
    }
  }

  lemma StrictSubsetShrinksRest(u: set<string>, a: set<string>, b: set<string>)
    requires a < b <= u
    ensures |u - b| < |u - a|
  {
    var x :| x in b && x !in a;
    assert u - a == (u - b) + (b - a);
    assert (u - b) * (b - a) == {};
    assert x in b - a;
  }

  /** The ids of the recorded parent edges. */
  ghost function ParentIds(parent: map<string, Edge>): set<string> {
    set x | x in parent :: parent[x].id
  }

  /** Every related id has a recorded path from `start` that ends at it. */
  ghost predicate HasPaths(edges: seq<Edge>, start: string, related: set<string>, paths: map<string, seq<string>>) {
    forall x :: x in related ==>
      x in paths && IsPath(edges, paths[x]) && paths[x][0] == start && paths[x][|paths[x]| - 1] == x
  }

  /** The state of one traversal from `start`: every related id has a path
      from the start, every related id other than the start has the edge
      that reached it, and the marked edge ids are those edges' ids. */
  ghost predicate Traversal(edges: seq<Edge>, start: string, related: set<string>, paths: map<string, seq<string>>,
                            parent: map<string, Edge>, edgeIds0: set<string>, edgeIds: set<string>) {
    && start in related && related <= Universe(edges, start)
    && HasPaths(edges, start, related, paths)
    && parent.Keys == related - {start}
    && (forall x :: x in parent ==> parent[x] in edges && parent[x].target == x && parent[x].source in related)
    && edgeIds == edgeIds0 + ParentIds(parent)
  }

  /** `rank` numbers the related ids in the order they were reached, the
      start first, and every parent edge leads from an id reached earlier
      to the id it reached. */
  ghost predicate Ranked(start: string, related: set<string>, parent: map<string, Edge>, rank: map<string, nat>) {
    && rank.Keys == related && start in rank && rank[start] == 0
    && (forall x, y :: x in rank && y in rank && x != y ==> rank[x] != rank[y])
    && (forall x :: x in parent ==> x in rank && parent[x].source in rank && rank[parent[x].source] < rank[x])
  }

  /** Every rank handed out so far is below `next`. */
  ghost predicate RanksBelow(rank: map<string, nat>, next: nat) {
    forall x :: x in rank ==> rank[x] < next
  }

  /** Recording one more parent edge adds its id to the marked ids. */
  lemma ParentIdsStep(parent: map<string, Edge>, e: Edge)
    requires e.target !in parent
    ensures ParentIds(parent[e.target := e]) == ParentIds(parent) + {e.id}
  {
    var parent' := parent[e.target := e];
    forall x | x in parent
      ensures parent'[x].id == parent[x].id
    {
    }
    assert parent'[e.target].id == e.id;
  }

  /** Adding the target of an edge from a related id, with the source's
      path extended, keeps a path for every related id. */
  lemma PathsStep(edges: seq<Edge>, start: string, related: set<string>, paths: map<string, seq<string>>, i: nat)
    requires HasPaths(edges, start, related, paths)
    requires i < |edges| && edges[i].source in related
    ensures var e := edges[i];
      HasPaths(edges, start, related + {e.target}, paths[e.target := paths[e.source] + [e.target]])
  {
    PathExtend(edges, paths[edges[i].source], i);
  }

  /** Adding the target of an edge that leaves the related set keeps the
      traversal state. */
  lemma TraversalStep(edges: seq<Edge>, start: string, related: set<string>, paths: map<string, seq<string>>,
                      parent: map<string, Edge>, edgeIds0: set<string>, edgeIds: set<string>, i: nat)
    requires Traversal(edges, start, related, paths, parent, edgeIds0, edgeIds)
    requires i < |edges| && edges[i].source in related && edges[i].target !in related
    ensures var e := edges[i];
      Traversal(edges, start, related + {e.target}, paths[e.target := paths[e.source] + [e.target]],
                parent[e.target := e], edgeIds0, edgeIds + {e.id})
  {
    var e := edges[i];
    var related', parent' := related + {e.target}, parent[e.target := e];
    PathsStep(edges, start, related, paths, i);
    assert e.target in set j | 0 <= j < |edges| :: edges[j].target;
    assert parent'.Keys == related' - {start};
    forall x | x in parent'
      ensures parent'[x] in edges && parent'[x].target == x && parent'[x].source in related'
    {
      if x == e.target {
        assert e in edges;
      }
    }
    ParentIdsStep(parent, e);
    assert related' <= Universe(edges, start);
    assert edgeIds + {e.id} == edgeIds0 + ParentIds(parent');
  }

  /** The id an edge reaches takes the next rank, after every id reached
      before it, its edge's source among them. */
  lemma RankedStep(start: string, related: set<string>, parent: map<string, Edge>, rank: map<string, nat>, next: nat, e: Edge)
    requires Ranked(start, related, parent, rank) && RanksBelow(rank, next)
    requires e.source in related && e.target !in related
    ensures Ranked(start, related + {e.target}, parent[e.target := e], rank[e.target := next])
    ensures RanksBelow(rank[e.target := next], next + 1)
  {
    var rank' := rank[e.target := next];
    forall x, y | x in rank' && y in rank' && x != y
      ensures rank'[x] != rank'[y]
    {
      if x != e.target && y != e.target {
        assert rank'[x] == rank[x] && rank'[y] == rank[y];
      }
    }
  }

  /** One pass of `hierarchy.edges.forEach` inside the `while (foundNew)`
      loop: an edge from a related id to an unrelated one adds its target,
      ranks it next and marks the edge. A pass that adds nothing leaves a
      closed set. */
  method Sweep(edges: seq<Edge>, start: string, related0: set<string>, ghost paths0: map<string, seq<string>>,
               ghost parent0: map<string, Edge>, ghost rank0: map<string, nat>, ghost next0: nat,
               ghost edgeIdsInit: set<string>, edgeIds0: set<string>)
    returns (related: set<string>, ghost paths: map<string, seq<string>>, ghost parent: map<string, Edge>,
             ghost rank: map<string, nat>, ghost next: nat, edgeIds: set<string>, foundNew: bool)
    requires Traversal(edges, start, related0, paths0, parent0, edgeIdsInit, edgeIds0)
    requires Ranked(start, related0, parent0, rank0) && RanksBelow(rank0, next0)
    ensures Traversal(edges, start, related, paths, parent, edgeIdsInit, edgeIds)
    ensures Ranked(start, related, parent, rank) && RanksBelow(rank, next)
    ensures foundNew ==> related0 < related
    ensures !foundNew ==> related == related0 && Closed(edges, related)
  {
    related, paths, parent, rank, next, edgeIds := related0, paths0, parent0, rank0, next0, edgeIds0;
    foundNew := false;
    for i := 0 to |edges|
      invariant Traversal(edges, start, related, paths, parent, edgeIdsInit, edgeIds)
      invariant Ranked(start, related, parent, rank) && RanksBelow(rank, next)
      invariant related0 <= related
      invariant foundNew ==> related0 < related
      invariant !foundNew ==> related == related0
      invariant !foundNew ==> forall j :: 0 <= j < i && edges[j].source in related ==> edges[j].target in related
    {
      var e := edges[i];
      if e.source in related && e.target !in related {
        TraversalStep(edges, start, related, paths, parent, edgeIdsInit, edgeIds, i);
        RankedStep(start, related, parent, rank, next, e);
        rank, next := rank[e.target := next], next + 1;
        related := related + {e.target};
        paths := paths[e.target := paths[e.source] + [e.target]];
        parent := parent[e.target := e];
        edgeIds := edgeIds + {e.id};
        foundNew := true;
      }
    }
  }

  /** How a traversal from `start` reached its ids: `parent[x]` is the edge
      that reached `x`, and `rank[x]` counts the ids reached before `x`. */
  datatype Discovery = Discovery(parent: map<string, Edge>, rank: map<string, nat>)

  /** `d` is a discovery tree of the reach set: every reachable id but the
      start was reached by exactly one edge of the list, that edge leads
      from an id reached strictly earlier, and the start was reached first. */
  ghost predicate DiscoveryTree(edges: seq<Edge>, start: string, d: Discovery) {
    && d.rank.Keys == ReachSet(edges, start)
    && d.parent.Keys == ReachSet(edges, start) - {start}
    && (forall x :: x in d.parent ==> d.parent[x] in edges && d.parent[x].target == x)
    && Ranked(start, ReachSet(edges, start), d.parent, d.rank)
  }

  /** Every id reached from `start`, other than the start itself, has an
      edge from a reachable id whose id is in `ids`: the marked edges span
      the reach set. */
  ghost predicate Spans(edges: seq<Edge>, start: string, ids: set<string>) {
    forall x :: x in ReachSet(edges, start) && x != start ==>
      exists i :: 0 <= i < |edges| && edges[i].target == x && edges[i].source in ReachSet(edges, start) && edges[i].id in ids
  }

  /** The edges of a discovery tree span the reach set. */
  lemma TreeSpans(edges: seq<Edge>, start: string, d: Discovery)
    requires DiscoveryTree(edges, start, d)
    ensures Spans(edges, start, ParentIds(d.parent))
  {
    forall x | x in ReachSet(edges, start) && x != start
      ensures exists i :: 0 <= i < |edges| && edges[i].target == x && edges[i].source in ReachSet(edges, start) && edges[i].id in ParentIds(d.parent)
    {
      var i :| 0 <= i < |edges| && edges[i] == d.parent[x];
    }
  }

  /** `addReachable(startId)`: the ids reachable from `startId` join `nodeIds`,
      and the edge that first reached each new id joins `edgeIds`. `d`
      records those edges and the order in which their targets were reached:
      one edge per reached id other than the start, each from an id reached
      strictly earlier, so never an edge into an id reached before it. */
  method AddReachable(edges: seq<Edge>, start: string, nodeIds0: set<string>, edgeIds0: set<string>)
    returns (nodeIds: set<string>, edgeIds: set<string>, ghost d: Discovery)
    ensures nodeIds == nodeIds0 + ReachSet(edges, start)
    ensures DiscoveryTree(edges, start, d)
    ensures edgeIds == edgeIds0 + ParentIds(d.parent)
  {
    var related := {start};
    ghost var paths := map[start := [start]];
    ghost var parent: map<string, Edge> := map[];
    ghost var rank := map[start := 0];
    ghost var next := 1;
    ghost var u := Universe(edges, start);
    edgeIds := edgeIds0;
    var foundNew := true;
    while foundNew
      invariant Traversal(edges, start, related, paths, parent, edgeIds0, edgeIds)
      invariant Ranked(start, related, parent, rank) && RanksBelow(rank, next)
      invariant !foundNew ==> Closed(edges, related)
      decreases |u - related| + (if foundNew then 1 else 0)
    {
      ghost var before := related;
      related, paths, parent, rank, next, edgeIds, foundNew :=
        Sweep(edges, start, related, paths, parent, rank, next, edgeIds0, edgeIds);
      if foundNew {
        StrictSubsetShrinksRest(u, before, related);
      }
    }
    ReachSetIs(edges, start, related);
    d := Discovery(parent, rank);
    nodeIds := nodeIds0 + related;
  }

  /** The start is always reached. */
  lemma StartReached(edges: seq<Edge>, start: string)
    ensures start in ReachSet(edges, start)
  {
    assert IsPath(edges, [start]);
  }

  /** The list `S→A (e1), A→B (e2), B→A (e3)`, which has a cycle. */
  function CycleEdges(): seq<Edge> {
    [Edge("e1", "S", "A"), Edge("e2", "A", "B"), Edge("e3", "B", "A")]
  }

  /** Everything on the cycle is reached from S. */
  lemma CycleReach()
    ensures ReachSet(CycleEdges(), "S") == {"S", "A", "B"}
  {
    var edges := CycleEdges();
    var reach := ReachSet(edges, "S");
    StartReached(edges, "S");
    ReachSetClosed(edges, "S");
    assert "A" in reach by {
      assert edges[0].source == "S" && edges[0].target == "A";
    }
    assert "B" in reach by {
      assert edges[1].source == "A" && edges[1].target == "B";
    }
    assert Universe(edges, "S") == {"S", "A", "B"} by {
      assert (set i | 0 <= i < |edges| :: edges[i].target) == {"A", "B"} by {
        assert edges[0].target == "A" && edges[1].target == "B";
      }
    }
  }

  /** Parent edges into A and B on the cycle, each from an id of lower rank,
      are e1 and e2. */
  lemma CycleParentIds(parent: map<string, Edge>, rank: map<string, nat>)
    requires parent.Keys == {"A", "B"}
    requires forall x :: x in parent ==> parent[x] in CycleEdges() && parent[x].target == x
    requires forall x :: x in parent ==> x in rank && parent[x].source in rank && rank[parent[x].source] < rank[x]
    ensures ParentIds(parent) == {"e1", "e2"}
  {
    var edges := CycleEdges();
    var eA, eB := parent["A"], parent["B"];
    assert eB == edges[1] by {
      var i :| 0 <= i < |edges| && edges[i] == eB;
      assert i == 0 || i == 1 || i == 2;
    }
    assert eA.source != "B";
    assert eA == edges[0] by {
      var i :| 0 <= i < |edges| && edges[i] == eA;
      assert i == 0 || i == 1 || i == 2;
    }
    assert ParentIds(parent) == {eA.id, eB.id};
  }

  /** On the cycle, A is first reached by e1, so whatever the sweeps do, the
      marked edges are e1 and e2, never the back edge e3. */
  lemma BackEdgeNeverMarked(d: Discovery)
    requires DiscoveryTree(CycleEdges(), "S", d)
    ensures ParentIds(d.parent) == {"e1", "e2"}
  {
    CycleReach();
    CycleParentIds(d.parent, d.rank);
  }
}
