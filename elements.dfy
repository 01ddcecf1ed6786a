/**
 * The graph as the Cytoscape view receives it (`cyElements`), and the name
 * lists that feed the graph filter's dropdowns.
 */
module Elements {
  import opened Text
  import opened Sheets
  import opened Graph

  /** A Cytoscape element: its `data` object and its `classes` (`undefined`
      on edges). */
  datatype Element = Element(data: Record, classes: Cell)

  /** A node's label: the first truthy of its Name, ParentName and ChildName, else its id. */
  function Label(n: Node): (l: string)
    ensures n.id != "" ==> l != ""
  {
    var name, parent, child := Get(n.data, "Name"), Get(n.data, "ParentName"), Get(n.data, "ChildName");
    if Truthy(name) then name.value
    else if Truthy(parent) then parent.value
    else if Truthy(child) then child.value
    else n.id
  }

  /** The element of a node: its id and label, then its own data spread
      last, so a data property named `id` or `label` wins; its type is the
      element's classes. */
  function NodeElement(n: Node): (el: Element)
    ensures el.classes == Some(n.kind)
    ensures el.data.Keys == n.data.Keys + {"id", "label"}
    ensures ElementId(el) == (if "id" in n.data then n.data["id"] else Some(n.id))
    ensures Get(el.data, "label") == (if "label" in n.data then n.data["label"] else Some(Label(n)))
    ensures forall k :: k in n.data ==> el.data[k] == n.data[k]
  {
    Element(map["id" := Some(n.id), "label" := Some(Label(n))] + n.data, Some(n.kind))
  }

  /** The element of an edge: its id, source and target, and no classes. */
  function EdgeElement(e: Edge): (el: Element)
    ensures el.classes == None && el.data.Keys == {"id", "source", "target"}
    ensures ElementId(el) == Some(e.id) && Get(el.data, "source") == Some(e.source) && Get(el.data, "target") == Some(e.target)
  {
    Element(map["id" := Some(e.id), "source" := Some(e.source), "target" := Some(e.target)], None)
  }

  /** `cyElements`: one element per node, then one per edge, in order. */
  function CyElements(g: Graph): (els: seq<Element>)
    ensures |els| == |g.nodes| + |g.edges|
    ensures forall i :: 0 <= i < |g.nodes| ==> els[i] == NodeElement(g.nodes[i])
    ensures forall j :: 0 <= j < |g.edges| ==> els[|g.nodes| + j] == EdgeElement(g.edges[j])
  {
    seq(|g.nodes|, i requires 0 <= i < |g.nodes| => NodeElement(g.nodes[i]))
      + seq(|g.edges|, i requires 0 <= i < |g.edges| => EdgeElement(g.edges[i]))
  }

  /** The id an element carries in its data, if any. */
  function ElementId(el: Element): Cell {
    Get(el.data, "id")
  }

  // ---------------------------------------------------------------------------
  // Name lists
  // ---------------------------------------------------------------------------

  /** The Names of the nodes of one type, in node order. */
  function NamesOfKind(nodes: seq<Node>, kind: string): seq<Cell>
    decreases |nodes|
  {
    if |nodes| == 0 then []
    else (if nodes[0].kind == kind then [Get(nodes[0].data, "Name")] else []) + NamesOfKind(nodes[1..], kind)
  }

  lemma {:induction false} NamesOfKindAppend(a: seq<Node>, b: seq<Node>, kind: string)
    ensures NamesOfKind(a + b, kind) == NamesOfKind(a, kind) + NamesOfKind(b, kind)
    decreases |a|
  {
    if |a| > 0 {
      NamesOfKindAppend(a[1..], b, kind);
      assert (a + b)[1..] == a[1..] + b;
    } else {
      assert a + b == b;
    }
  }

  /** The Names of `nodes`, in order. */
  function NamesOf(nodes: seq<Node>): (r: seq<Cell>)
    ensures |r| == |nodes|
  {
    seq(|nodes|, i requires 0 <= i < |nodes| => Get(nodes[i].data, "Name"))
  }

  /** Nodes all of one kind contribute their Names in order; nodes of
      another kind contribute nothing. */
  lemma {:induction false} NamesOfKindUniform(nodes: seq<Node>, kind: string, k: string)
    requires forall i :: 0 <= i < |nodes| ==> nodes[i].kind == k
    ensures NamesOfKind(nodes, kind) == if k == kind then NamesOf(nodes) else []
    decreases |nodes|
  {
    if |nodes| > 0 {
      NamesOfKindUniform(nodes[1..], kind, k);
      if k == kind {
        assert NamesOf(nodes) == [Get(nodes[0].data, "Name")] + NamesOf(nodes[1..]);
      }
    }
  }

  /** Three runs of nodes, each of one kind, listed for one of the kinds. */
  lemma NamesOfKindRuns(a: seq<Node>, b: seq<Node>, c: seq<Node>, ka: string, kb: string, kc: string, kind: string)
    requires forall i :: 0 <= i < |a| ==> a[i].kind == ka
    requires forall i :: 0 <= i < |b| ==> b[i].kind == kb
    requires forall i :: 0 <= i < |c| ==> c[i].kind == kc
    ensures NamesOfKind(a + b + c, kind)
      == (if ka == kind then NamesOf(a) else []) + (if kb == kind then NamesOf(b) else [])
         + (if kc == kind then NamesOf(c) else [])
  {
    NamesOfKindAppend(a + b, c, kind);
    NamesOfKindAppend(a, b, kind);
    NamesOfKindUniform(a, kind, ka);
    NamesOfKindUniform(b, kind, kb);
    NamesOfKindUniform(c, kind, kc);
  }

  function SystemNames(g: Graph): seq<Cell> {
    NamesOfKind(g.nodes, "system")
  }

  function AssemblyNameList(g: Graph): seq<Cell> {
    NamesOfKind(g.nodes, "assembly")
  }

  function ComponentNames(g: Graph): seq<Cell> {
    NamesOfKind(g.nodes, "component")
  }

  /** The Name of each row of a sheet, in sheet order. */
  function RowNames(t: Table): (r: seq<Cell>)
    ensures |r| == |t.rows|
  {
    seq(|t.rows|, i requires 0 <= i < |t.rows| => Get(RecordOf(t.header, t.rows[i]), "Name"))
  }

  /** On a built graph the system dropdown lists the System records' Names,
      one per row, in sheet order. */
  lemma SystemNamesOfBuiltGraph(sheets: Workbook)
    requires HasGraphSheets(sheets)
    ensures SystemNames(GraphHierarchy(sheets)) == RowNames(sheets["System"])
  {
    var sysT, asmT, compT := sheets["System"], sheets["Assembly"], sheets["Component"];
    BuiltNodes(sheets);
    NamesOfBuiltNodes(sysT, AssemblyNames(asmT), compT, "system");
    assert NamesOf(SystemNodes(sysT)) == RowNames(sysT);
  }

  /** The built node list, system nodes then assembly nodes then component
      nodes, contributes to the list of one kind only that kind's run. */
  lemma NamesOfBuiltNodes(sysT: Table, names: seq<Cell>, compT: Table, kind: string)
    ensures NamesOfKind(SystemNodes(sysT) + AssemblyNodes(names) + ComponentNodes(compT), kind)
      == (if kind == "system" then NamesOf(SystemNodes(sysT)) else [])
         + (if kind == "assembly" then NamesOf(AssemblyNodes(names)) else [])
         + (if kind == "component" then NamesOf(ComponentNodes(compT)) else [])
  {
    var sn, an, cn := SystemNodes(sysT), AssemblyNodes(names), ComponentNodes(compT);
    assert forall i :: 0 <= i < |sn| ==> sn[i].kind == "system";
    assert forall i :: 0 <= i < |an| ==> an[i].kind == "assembly";
    assert forall i :: 0 <= i < |cn| ==> cn[i].kind == "component";
    NamesOfKindRuns(sn, an, cn, "system", "assembly", "component", kind);
  }

  lemma AssemblyNodeNames(names: seq<Cell>)
    ensures NamesOf(AssemblyNodes(names)) == names
  {
    var an := AssemblyNodes(names);
    forall i | 0 <= i < |names|
      ensures NamesOf(an)[i] == names[i]
    {
      assert an[i].data == map["Name" := names[i]];
    }
  }

  /** The assembly dropdown lists the distinct ParentName cells in order of
      first occurrence. */
  lemma AssemblyNamesOfBuiltGraph(sheets: Workbook)
    requires HasGraphSheets(sheets)
    ensures AssemblyNameList(GraphHierarchy(sheets)) == AssemblyNames(sheets["Assembly"])
  {
    var sysT, asmT, compT := sheets["System"], sheets["Assembly"], sheets["Component"];
    var names := AssemblyNames(asmT);
    BuiltNodes(sheets);
    NamesOfBuiltNodes(sysT, names, compT, "assembly");
    AssemblyNodeNames(names);
  }

  /** The component dropdown lists the Component records' Names, one per
      row, in sheet order. */
  lemma ComponentNamesOfBuiltGraph(sheets: Workbook)
    requires HasGraphSheets(sheets)
    ensures ComponentNames(GraphHierarchy(sheets)) == RowNames(sheets["Component"])
  {
    var sysT, asmT, compT := sheets["System"], sheets["Assembly"], sheets["Component"];
    var names := AssemblyNames(asmT);
    BuiltNodes(sheets);
    NamesOfBuiltNodes(sysT, names, compT, "component");
    assert NamesOf(ComponentNodes(compT)) == RowNames(compT);
  }

  /** Targets of edges between two `asm-` ids, with the prefix removed. */
  function AssemblyTargets(edges: seq<Edge>): seq<string>
    decreases |edges|
  {
    if |edges| == 0 then []
    else
      var e := edges[0];
      (if IsPrefix("asm-", e.source) && IsPrefix("asm-", e.target) then [e.target[4..]] else [])
        + AssemblyTargets(edges[1..])
  }

  lemma {:induction false} AssemblyTargetsEmpty(edges: seq<Edge>)
    requires forall i :: 0 <= i < |edges| ==> !(IsPrefix("asm-", edges[i].source) && IsPrefix("asm-", edges[i].target))
    ensures AssemblyTargets(edges) == []
    decreases |edges|
  {
    if |edges| > 0 {
      AssemblyTargetsEmpty(edges[1..]);
    }
  }

  /** The subassembly dropdown: every assembly target once. */
  function SubassemblyNames(g: Graph): (r: seq<string>)
    ensures forall x :: x in r <==> x in AssemblyTargets(g.edges)
    ensures forall i, j :: 0 <= i < j < |r| ==> r[i] != r[j]
  {
    var ts := AssemblyTargets(g.edges);
    assert forall i, j :: 0 <= i < j < |Dedup(ts)| ==> Dedup(ts)[i] != Dedup(ts)[j] by {
      forall i, j | 0 <= i < j < |Dedup(ts)|
        ensures Dedup(ts)[i] != Dedup(ts)[j]
      {
        DedupDistinct(ts, i, j);
      }
    }
    Dedup(ts)
  }

  /** `nodes` of a built graph, written out. */
  lemma BuiltNodes(sheets: Workbook)
    requires HasGraphSheets(sheets)
    ensures var sysT, asmT, compT := sheets["System"], sheets["Assembly"], sheets["Component"];
      GraphHierarchy(sheets).nodes == SystemNodes(sysT) + AssemblyNodes(AssemblyNames(asmT)) + ComponentNodes(compT)
  {
  }

  /** An edge out of a system or into a component is no assembly link. */
  lemma NotAssemblyLink(e: Edge)
    requires IsPrefix("sys-", e.source) || IsPrefix("comp-", e.target)
    ensures !(IsPrefix("asm-", e.source) && IsPrefix("asm-", e.target))
  {
    if IsPrefix("sys-", e.source) {
      assert e.source[..4] == "sys-" != "asm-";
    } else {
      assert e.target[..4] == e.target[..5][..4] == "comp" != "asm-";
    }
  }

  /** The builder never links two assemblies: system edges start at `sys-`
      ids and assembly edges end at `comp-` ids, so on a built graph the
      subassembly list is always empty. */
  lemma SubassemblyNamesEmpty(sheets: Workbook)
    ensures SubassemblyNames(GraphHierarchy(sheets)) == []
  {
    var g := GraphHierarchy(sheets);
    if HasGraphSheets(sheets) {
      var sysT, asmT, compT := sheets["System"], sheets["Assembly"], sheets["Component"];
      var names, childCells, compNames := AssemblyNames(asmT), ChildCells(asmT), ComponentNameCells(compT);
      var sysEdges := SysAsmEdges(sysT.header, sysT.rows, names) + SysCompEdges(sysT.header, sysT.rows, names, childCells, compNames);
      assert g.edges == sysEdges + AsmEdges(asmT.header, asmT.rows);
      forall i | 0 <= i < |g.edges|
        ensures !(IsPrefix("asm-", g.edges[i].source) && IsPrefix("asm-", g.edges[i].target))
      {
        var e := g.edges[i];
        if i < |sysEdges| {
          assert e in sysEdges;
        } else {
          assert e in AsmEdges(asmT.header, asmT.rows);
        }
        NotAssemblyLink(e);
      }
      AssemblyTargetsEmpty(g.edges);
    }
  }
}
