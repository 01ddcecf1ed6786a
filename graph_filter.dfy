/**
 * `filteredCyElements`: the graph view narrowed to what the selected system,
 * assemblies, subassemblies and component reach, with the traversed edges
 * highlighted.
 */
module GraphFilter {
  import opened Sheets
  import opened Graph
  import opened Reach
  import opened Elements

  /** The filter dropdowns: a blank system or component means none. */
  datatype Selection = Selection(system: string, assemblies: seq<string>, subassemblies: seq<string>, component: string)

  predicate NoSelection(sel: Selection) {
    sel.system == "" && |sel.assemblies| == 0 && |sel.subassemblies| == 0 && sel.component == ""
  }

  function AssemblySeeds(names: seq<string>): (r: seq<string>)
    ensures |r| == |names|
  {
    seq(|names|, i requires 0 <= i < |names| => "asm-" + names[i])
  }

  /** The ids `addReachable` is called on, in call order. */
  function Seeds(sel: Selection): seq<string> {
    (if sel.system != "" then ["sys-" + sel.system] else []) + AssemblySeeds(sel.assemblies) + AssemblySeeds(sel.subassemblies)
  }

  /** The union of `f(s)` over the strings `s` of `xs`. */
  ghost function UnionOver(f: string -> set<string>, xs: seq<string>): set<string>
    decreases |xs|
  {
    if |xs| == 0 then {}
    else UnionOver(f, xs[..|xs| - 1]) + f(xs[|xs| - 1])
  }

  lemma {:induction false} UnionOverMembers(f: string -> set<string>, xs: seq<string>, x: string)
    ensures x in UnionOver(f, xs) <==> exists s :: s in xs && x in f(s)
    decreases |xs|
  {
    if |xs| > 0 {
      var n := |xs| - 1;
      UnionOverMembers(f, xs[..n], x);
      assert xs == xs[..n] + [xs[n]];
    }
  }

  /** Everything reachable from one of the seeds. */
  ghost function SeedReach(edges: seq<Edge>, seeds: seq<string>): set<string>
    decreases |seeds|
  {
    if |seeds| == 0 then {}
    else SeedReach(edges, seeds[..|seeds| - 1]) + ReachSet(edges, seeds[|seeds| - 1])
  }

  lemma {:induction false} SeedReachIsUnion(edges: seq<Edge>, seeds: seq<string>)
    ensures SeedReach(edges, seeds) == UnionOver(s => ReachSet(edges, s), seeds)
    decreases |seeds|
  {
    if |seeds| > 0 {
      SeedReachIsUnion(edges, seeds[..|seeds| - 1]);
    }
  }

  lemma SeedReachMembers(edges: seq<Edge>, seeds: seq<string>, x: string)
    ensures x in SeedReach(edges, seeds) <==> exists s :: s in seeds && x in ReachSet(edges, s)
  {
    SeedReachIsUnion(edges, seeds);
    UnionOverMembers(s => ReachSet(edges, s), seeds, x);
  }

  /** One more seed adds its reach set. */
  lemma SeedReachStep(edges: seq<Edge>, seeds: seq<string>, s: string)
    ensures SeedReach(edges, seeds + [s]) == SeedReach(edges, seeds) + ReachSet(edges, s)
  {
    assert (seeds + [s])[..|seeds|] == seeds;
  }

  /** Re-seeding the filter from any node it already keeps adds no node. */
  lemma ReseedFilterAddsNothing(edges: seq<Edge>, seeds: seq<string>, x: string)
    requires x in SeedReach(edges, seeds)
    ensures ReachSet(edges, x) <= SeedReach(edges, seeds)
  {
    SeedReachMembers(edges, seeds, x);
    var s :| s in seeds && x in ReachSet(edges, s);
    ReseedAddsNothing(edges, s, x);
    forall y | y in ReachSet(edges, x)
      ensures y in SeedReach(edges, seeds)
    {
      SeedReachMembers(edges, seeds, y);
    }
  }

  /** `ds[k]` is how the traversal from `seeds[k]` reached its ids. */
  ghost predicate Trees(edges: seq<Edge>, seeds: seq<string>, ds: seq<Discovery>) {
    |ds| == |seeds| && forall k :: 0 <= k < |seeds| ==> DiscoveryTree(edges, seeds[k], ds[k])
  }

  /** The ids of every tree's parent edges. */
  ghost function TreeIds(ds: seq<Discovery>): set<string>
    decreases |ds|
  {
    if |ds| == 0 then {}
    else TreeIds(ds[..|ds| - 1]) + ParentIds(ds[|ds| - 1].parent)
  }

  /** An id is a tree id exactly when it names the parent edge of some id in
      some tree. */
  lemma {:induction false} TreeIdsMembers(ds: seq<Discovery>, id: string)
    ensures id in TreeIds(ds) <==> exists k, x :: 0 <= k < |ds| && x in ds[k].parent && ds[k].parent[x].id == id
    decreases |ds|
  {
    if |ds| > 0 {
      var n := |ds| - 1;
      TreeIdsMembers(ds[..n], id);
      if id in TreeIds(ds[..n]) {
        var k, x :| 0 <= k < n && x in ds[..n][k].parent && ds[..n][k].parent[x].id == id;
        assert ds[k] == ds[..n][k];
      } else if id in ParentIds(ds[n].parent) {
        var x :| x in ds[n].parent && ds[n].parent[x].id == id;
      }
      if exists k, x :: 0 <= k < |ds| && x in ds[k].parent && ds[k].parent[x].id == id {
        var k, x :| 0 <= k < |ds| && x in ds[k].parent && ds[k].parent[x].id == id;
        if k < n {
          assert ds[..n][k] == ds[k];
        } else {
          assert id in ParentIds(ds[n].parent);
        }
      }
    }
  }

  /** One more traversal adds its tree. */
  lemma TreesStep(edges: seq<Edge>, seeds: seq<string>, ds: seq<Discovery>, s: string, d: Discovery)
    requires Trees(edges, seeds, ds) && DiscoveryTree(edges, s, d)
    ensures Trees(edges, seeds + [s], ds + [d])
    ensures TreeIds(ds + [d]) == TreeIds(ds) + ParentIds(d.parent)
  {
    assert (ds + [d])[..|ds|] == ds;
  }

  /** One `addReachable` call, with the tree it grows. */
  method AddSeed(edges: seq<Edge>, s: string, ghost seeds: seq<string>, ghost ds: seq<Discovery>,
                 nodeIds0: set<string>, edgeIds0: set<string>)
    returns (nodeIds: set<string>, edgeIds: set<string>, ghost d: Discovery)
    requires Trees(edges, seeds, ds) && nodeIds0 == SeedReach(edges, seeds) && edgeIds0 == TreeIds(ds)
    ensures Trees(edges, seeds + [s], ds + [d])
    ensures nodeIds == SeedReach(edges, seeds + [s]) && edgeIds == TreeIds(ds + [d])
  {
    nodeIds, edgeIds, d := AddReachable(edges, s, nodeIds0, edgeIds0);
    TreesStep(edges, seeds, ds, s, d);
    SeedReachStep(edges, seeds, s);
  }

  lemma PrefixStep(seeds: seq<string>, added: seq<string>, j: nat)
    requires j <= |added|
    ensures seeds + added[..0] == seeds && seeds + added[..|added|] == seeds + added
    ensures j < |added| ==> seeds + added[..j + 1] == (seeds + added[..j]) + [added[j]]
  {
    assert added[..|added|] == added;
    if j < |added| {
      assert added[..j + 1] == added[..j] + [added[j]];
    }
  }

  /** One `addReachable` from the `asm-` id of each selected name, in order. */
  method AddAssemblies(edges: seq<Edge>, names: seq<string>, ghost seeds: seq<string>, ghost ds0: seq<Discovery>,
                       nodeIds0: set<string>, edgeIds0: set<string>)
    returns (nodeIds: set<string>, edgeIds: set<string>, ghost ds: seq<Discovery>)
    requires Trees(edges, seeds, ds0) && nodeIds0 == SeedReach(edges, seeds) && edgeIds0 == TreeIds(ds0)
    ensures Trees(edges, seeds + AssemblySeeds(names), ds)
    ensures nodeIds == SeedReach(edges, seeds + AssemblySeeds(names)) && edgeIds == TreeIds(ds)
  {
    nodeIds, edgeIds, ds := nodeIds0, edgeIds0, ds0;
    ghost var added := AssemblySeeds(names);
    PrefixStep(seeds, added, 0);
    for j := 0 to |names|
      invariant Trees(edges, seeds + added[..j], ds)
      invariant nodeIds == SeedReach(edges, seeds + added[..j]) && edgeIds == TreeIds(ds)
    {
      PrefixStep(seeds, added, j);
      ghost var d;
      nodeIds, edgeIds, d := AddSeed(edges, "asm-" + names[j], seeds + added[..j], ds, nodeIds, edgeIds);
      ds := ds + [d];
    }
    PrefixStep(seeds, added, |names|);
  }

  // ---------------------------------------------------------------------------
  // The component hop
  // ---------------------------------------------------------------------------

  predicate Incident(e: Edge, cid: string) {
    e.source == cid || e.target == cid
  }

  /** Both ends of every edge touching `cid`. */
  function HopEnds(edges: seq<Edge>, cid: string): set<string>
    decreases |edges|
  {
    if |edges| == 0 then {}
    else
      var e := edges[|edges| - 1];
      HopEnds(edges[..|edges| - 1], cid) + (if Incident(e, cid) then {e.source, e.target} else {})
  }

  /** The ids of the edges touching `cid`. */
  function HopEdgeIds(edges: seq<Edge>, cid: string): set<string>
    decreases |edges|
  {
    if |edges| == 0 then {}
    else
      var e := edges[|edges| - 1];
      HopEdgeIds(edges[..|edges| - 1], cid) + (if Incident(e, cid) then {e.id} else {})
  }

  /** A node is a hop end exactly when it is an end of an edge touching
      `cid`. */
  lemma {:induction false} HopEndsMembers(edges: seq<Edge>, cid: string, x: string)
    ensures x in HopEnds(edges, cid) <==> exists e :: e in edges && Incident(e, cid) && (x == e.source || x == e.target)
    decreases |edges|
  {
    if |edges| > 0 {
      var n := |edges| - 1;
      HopEndsMembers(edges[..n], cid, x);
      assert edges == edges[..n] + [edges[n]];
    }
  }

  /** An id is a hop edge id exactly when it is the id of an edge touching
      `cid`. */
  lemma {:induction false} HopEdgeIdsMembers(edges: seq<Edge>, cid: string, x: string)
    ensures x in HopEdgeIds(edges, cid) <==> exists e :: e in edges && Incident(e, cid) && x == e.id
    decreases |edges|
  {
    if |edges| > 0 {
      var n := |edges| - 1;
      HopEdgeIdsMembers(edges[..n], cid, x);
      assert edges == edges[..n] + [edges[n]];
    }
  }

  /** The component filter: the component's own id, and every edge touching
      it together with both its ends. */
  method ComponentHop(edges: seq<Edge>, cid: string, nodeIds0: set<string>, edgeIds0: set<string>)
    returns (nodeIds: set<string>, edgeIds: set<string>)
    ensures nodeIds == nodeIds0 + {cid} + HopEnds(edges, cid)
    ensures edgeIds == edgeIds0 + HopEdgeIds(edges, cid)
  {
    nodeIds := nodeIds0 + {cid};
    edgeIds := edgeIds0;
    for i := 0 to |edges|
      invariant nodeIds == nodeIds0 + {cid} + HopEnds(edges[..i], cid)
      invariant edgeIds == edgeIds0 + HopEdgeIds(edges[..i], cid)
    {
      assert edges[..i + 1][..i] == edges[..i];
      var e := edges[i];
      if e.source == cid || e.target == cid {
        edgeIds := edgeIds + {e.id};
        nodeIds := nodeIds + {e.source};
        nodeIds := nodeIds + {e.target};
      }
    }
    assert edges[..|edges|] == edges;
  }

  // ---------------------------------------------------------------------------
  // Keeping and highlighting elements
  // ---------------------------------------------------------------------------

  /** The node filter: an element is kept exactly when its id is one of the
      kept ids, in element order. */
  function KeepNodes(els: seq<Element>, ids: set<string>): (r: seq<Element>)
    ensures forall el {:trigger el in r} :: el in r <==> el in els && ElementId(el).Some? && ElementId(el).value in ids
    decreases |els|
  {
    if |els| == 0 then []
    else
      assert els == [els[0]] + els[1..];
      var id := ElementId(els[0]);
      (if id.Some? && id.value in ids then [els[0]] else []) + KeepNodes(els[1..], ids)
  }

  /** The edge filter: an element is kept exactly when it has a truthy
      source and its id is one of the marked edge ids, in element order. */
  function KeepEdges(els: seq<Element>, ids: set<string>): (r: seq<Element>)
    ensures forall el {:trigger el in r} :: el in r <==>
      el in els && Truthy(Get(el.data, "source")) && ElementId(el).Some? && ElementId(el).value in ids
    decreases |els|
  {
    if |els| == 0 then []
    else
      assert els == [els[0]] + els[1..];
      var id := ElementId(els[0]);
      (if Truthy(Get(els[0].data, "source")) && id.Some? && id.value in ids then [els[0]] else [])
        + KeepEdges(els[1..], ids)
  }

  /** Each element with the class `highlighted-edge` appended to its classes. */
  function Highlight(els: seq<Element>): (r: seq<Element>)
    ensures |r| == |els|
  {
    seq(|els|, i requires 0 <= i < |els| => els[i].(classes := Some(OrEmpty(els[i].classes) + " highlighted-edge")))
  }

  /** Keeping nodes distributes over concatenation, so the kept nodes keep
      their order among the elements. */
  lemma {:induction false} KeepNodesAppend(a: seq<Element>, b: seq<Element>, ids: set<string>)
    ensures KeepNodes(a + b, ids) == KeepNodes(a, ids) + KeepNodes(b, ids)
    decreases |a|
  {
    if |a| > 0 {
      var id := ElementId(a[0]);
      var head := if id.Some? && id.value in ids then [a[0]] else [];
      assert (a + b)[0] == a[0] && (a + b)[1..] == a[1..] + b;
      assert KeepNodes(a + b, ids) == head + KeepNodes(a[1..] + b, ids);
      assert KeepNodes(a, ids) == head + KeepNodes(a[1..], ids);
      KeepNodesAppend(a[1..], b, ids);
    } else {
      assert a + b == b;
    }
  }

  /** Keeping edges distributes over concatenation, so the kept edges keep
      their order among the elements. */
  lemma {:induction false} KeepEdgesAppend(a: seq<Element>, b: seq<Element>, ids: set<string>)
    ensures KeepEdges(a + b, ids) == KeepEdges(a, ids) + KeepEdges(b, ids)
    decreases |a|
  {
    if |a| > 0 {
      var id := ElementId(a[0]);
      var head := if Truthy(Get(a[0].data, "source")) && id.Some? && id.value in ids then [a[0]] else [];
      assert (a + b)[0] == a[0] && (a + b)[1..] == a[1..] + b;
      assert KeepEdges(a + b, ids) == head + KeepEdges(a[1..] + b, ids);
      assert KeepEdges(a, ids) == head + KeepEdges(a[1..], ids);
      KeepEdgesAppend(a[1..], b, ids);
    } else {
      assert a + b == b;
    }
  }

  /** When every element's id is marked, keeping nodes returns the elements
      unchanged. */
  lemma {:induction false} KeepNodesAll(els: seq<Element>, ids: set<string>)
    requires forall i :: 0 <= i < |els| ==> ElementId(els[i]).Some? && ElementId(els[i]).value in ids
    ensures KeepNodes(els, ids) == els
    decreases |els|
  {
    if |els| > 0 {
      KeepNodesAll(els[1..], ids);
    }
  }

  // ---------------------------------------------------------------------------
  // The whole filter
  // ---------------------------------------------------------------------------

  function ComponentId(sel: Selection): string {
    "comp-" + sel.component
  }

  /** The node ids the filter keeps. */
  ghost function KeptNodeIds(edges: seq<Edge>, sel: Selection): set<string> {
    SeedReach(edges, Seeds(sel))
      + (if sel.component != "" then {ComponentId(sel)} + HopEnds(edges, ComponentId(sel)) else {})
  }

  /** What the marked edge ids are: the parent edges of each seed's
      discovery tree, plus every edge touching the selected component. */
  ghost predicate MarkedEdges(edges: seq<Edge>, sel: Selection, ds: seq<Discovery>, ids: set<string>) {
    && Trees(edges, Seeds(sel), ds)
    && ids == TreeIds(ds) + (if sel.component != "" then HopEdgeIds(edges, ComponentId(sel)) else {})
  }

  /** The `addReachable` calls, in order: the system, then each assembly,
      then each subassembly. */
  method SeedAll(edges: seq<Edge>, sel: Selection) returns (nodeIds: set<string>, edgeIds: set<string>, ghost ds: seq<Discovery>)
    ensures Trees(edges, Seeds(sel), ds)
    ensures nodeIds == SeedReach(edges, Seeds(sel)) && edgeIds == TreeIds(ds)
  {
    nodeIds, edgeIds, ds := {}, {}, [];
    ghost var done: seq<string> := [];
    if sel.system != "" {
      ghost var d;
      nodeIds, edgeIds, d := AddSeed(edges, "sys-" + sel.system, done, ds, nodeIds, edgeIds);
      done, ds := done + ["sys-" + sel.system], ds + [d];
    }
    assert done == (if sel.system != "" then ["sys-" + sel.system] else []);
    nodeIds, edgeIds, ds := AddAssemblies(edges, sel.assemblies, done, ds, nodeIds, edgeIds);
    done := done + AssemblySeeds(sel.assemblies);
    nodeIds, edgeIds, ds := AddAssemblies(edges, sel.subassemblies, done, ds, nodeIds, edgeIds);
    done := done + AssemblySeeds(sel.subassemblies);
    assert done == Seeds(sel);
  }

  /** The node and edge ids the filter marks. */
  method Mark(edges: seq<Edge>, sel: Selection) returns (nodeIds: set<string>, edgeIds: set<string>, ghost ds: seq<Discovery>)
    ensures nodeIds == KeptNodeIds(edges, sel) && MarkedEdges(edges, sel, ds, edgeIds)
  {
    nodeIds, edgeIds, ds := SeedAll(edges, sel);
    if sel.component != "" {
      nodeIds, edgeIds := ComponentHop(edges, "comp-" + sel.component, nodeIds, edgeIds);
    }
  }

  /** Every node a seed reaches, other than the seed, has a marked edge into
      it from a node that seed reaches. */
  lemma MarkedEdgesSpan(edges: seq<Edge>, sel: Selection, ds: seq<Discovery>, ids: set<string>, k: nat)
    requires MarkedEdges(edges, sel, ds, ids) && k < |Seeds(sel)|
    ensures Spans(edges, Seeds(sel)[k], ids)
  {
    var s := Seeds(sel)[k];
    TreeSpans(edges, s, ds[k]);
    forall id | id in ParentIds(ds[k].parent)
      ensures id in ids
    {
      var x :| x in ds[k].parent && ds[k].parent[x].id == id;
      TreeIdsMembers(ds, id);
    }
  }

  /** `filteredCyElements`. `graphView` stands for the guard that the graph
      view is showing a built graph; `edgeIds` are the marked edge ids. With
      no selection the whole view is shown; otherwise the nodes whose ids a
      seed reaches or the component hop adds, then the marked edges,
      highlighted. */
  method FilteredCyElements(graphView: bool, g: Graph, sel: Selection)
    returns (els: seq<Element>, edgeIds: set<string>, ghost ds: seq<Discovery>)
    ensures !graphView ==> els == [] && edgeIds == {}
    ensures graphView && NoSelection(sel) ==> els == CyElements(g) && edgeIds == {}
    ensures graphView && !NoSelection(sel) ==>
      && els == KeepNodes(CyElements(g), KeptNodeIds(g.edges, sel)) + Highlight(KeepEdges(CyElements(g), edgeIds))
      && MarkedEdges(g.edges, sel, ds, edgeIds)
  {
    if !graphView {
      return [], {}, [];
    }
    var cy := CyElements(g);
    if sel.system == "" && |sel.assemblies| == 0 && |sel.subassemblies| == 0 && sel.component == "" {
      return cy, {}, [];
    }
    var nodeIds;
    nodeIds, edgeIds, ds := Mark(g.edges, sel);
    els := KeepNodes(cy, nodeIds) + Highlight(KeepEdges(cy, edgeIds));
  }

  /** A node of the graph whose data does not override `id` is shown
      exactly when its id is kept. */
  lemma ShownNode(g: Graph, ids: set<string>, n: Node)
    requires n in g.nodes && "id" !in n.data
    ensures NodeElement(n) in KeepNodes(CyElements(g), ids) <==> n.id in ids
  {
    var i :| 0 <= i < |g.nodes| && g.nodes[i] == n;
    assert CyElements(g)[i] == NodeElement(n);
  }

  /** A marked edge with a non-empty source is always shown. */
  lemma ShownEdge(g: Graph, edgeIds: set<string>, e: Edge)
    requires e in g.edges && e.source != "" && e.id in edgeIds
    ensures EdgeElement(e) in KeepEdges(CyElements(g), edgeIds)
  {
    var j :| 0 <= j < |g.edges| && g.edges[j] == e;
    assert CyElements(g)[|g.nodes| + j] == EdgeElement(e);
  }
}
