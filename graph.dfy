/**
 * `buildCobieGraphHierarchy`: System, Assembly and Component data flattened
 * into nodes with prefixed ids (`sys-`, `asm-`, `comp-`) and three kinds of
 * edges: system to assembly, system to component (a fallback for listed
 * names that are plain components), and assembly to component.
 */
module Graph {
  import opened Text
  import opened Sheets

  /** A graph node; `kind` is the node's `type` ("system", "assembly" or
      "component") and `data` the record it carries. */
  datatype Node = Node(id: string, kind: string, data: Record)

  datatype Edge = Edge(id: string, source: string, target: string)

  datatype Graph = Graph(nodes: seq<Node>, edges: seq<Edge>)

  predicate HasNode(g: Graph, id: string) {
    exists k :: 0 <= k < |g.nodes| && g.nodes[k].id == id
  }

  // ---------------------------------------------------------------------------
  // Nodes
  // ---------------------------------------------------------------------------

  /** One `sys-<Name>` node per System row, carrying the row's record. */
  function SystemNodes(sysT: Table): (ns: seq<Node>)
    ensures |ns| == |sysT.rows|
  {
    seq(|sysT.rows|, i requires 0 <= i < |sysT.rows| =>
      var rec := RecordOf(sysT.header, sysT.rows[i]);
      Node("sys-" + Str(Get(rec, "Name")), "system", rec))
  }

  /** The ParentName cell of each Assembly row. */
  function ParentCells(asmT: Table): (ps: seq<Cell>)
    ensures |ps| == |asmT.rows|
  {
    seq(|asmT.rows|, i requires 0 <= i < |asmT.rows| => Column(asmT.header, asmT.rows[i], "ParentName"))
  }

  /** The assembly names: the distinct ParentName cells in
      order of first occurrence (a blank cell included, as `undefined`). */
  function AssemblyNames(asmT: Table): seq<Cell> {
    Dedup(ParentCells(asmT))
  }

  /** One `asm-<name>` node per assembly name, carrying `{Name: name}`. */
  function AssemblyNodes(names: seq<Cell>): (ns: seq<Node>)
    ensures |ns| == |names|
  {
    seq(|names|, i requires 0 <= i < |names| =>
      Node("asm-" + Str(names[i]), "assembly", map["Name" := names[i]]))
  }

  /** The Name cell of each Component row. */
  function ComponentNameCells(compT: Table): (cs: seq<Cell>)
    ensures |cs| == |compT.rows|
  {
    seq(|compT.rows|, i requires 0 <= i < |compT.rows| => Column(compT.header, compT.rows[i], "Name"))
  }

  /** One `comp-<Name>` node per Component row, carrying the row's record. */
  function ComponentNodes(compT: Table): (ns: seq<Node>)
    ensures |ns| == |compT.rows|
  {
    seq(|compT.rows|, i requires 0 <= i < |compT.rows| =>
      var rec := RecordOf(compT.header, compT.rows[i]);
      Node("comp-" + Str(Get(rec, "Name")), "component", rec))
  }

  // ---------------------------------------------------------------------------
  // System edges
  // ---------------------------------------------------------------------------

  /** The Name cell of a System row. */
  function SystemName(header: Row, row: Row): Cell {
    Column(header, row, "Name")
  }

  /** A System row's ComponentNames split at `;` and trimmed; unlike the
      functional builder's list, blank entries are kept. */
  function CompList(header: Row, row: Row): (l: seq<string>)
    ensures |l| >= 1
  {
    var parts := Split(OrEmpty(Column(header, row, "ComponentNames")), ';');
    seq(|parts|, i requires 0 <= i < |parts| => Trim(parts[i]))
  }

  function SysAsmEdge(sysName: Cell, p: string): (e: Edge)
    ensures IsPrefix("sys-", e.source) && IsPrefix("asm-", e.target)
  {
    Edge("e-sys-" + Str(sysName) + "-asm-" + p, "sys-" + Str(sysName), "asm-" + p)
  }

  function SysCompEdge(sysName: Cell, c: string): (e: Edge)
    ensures IsPrefix("sys-", e.source) && IsPrefix("comp-", e.target)
  {
    Edge("e-sys-" + Str(sysName) + "-comp-" + c, "sys-" + Str(sysName), "comp-" + c)
  }

  /** A ParentName is listed when it is one of the system's component names;
      a blank ParentName never is. */
  predicate Listed(compList: seq<string>, p: Cell) {
    p.Some? && p.value in compList
  }

  /** The inner `assemblyNames.forEach` for one system. */
  function RowAsmEdges(sysName: Cell, compList: seq<string>, names: seq<Cell>): (r: seq<Edge>)
    ensures forall e {:trigger e in r} :: e in r ==> IsPrefix("sys-", e.source) && IsPrefix("asm-", e.target)
    decreases |names|
  {
    if |names| == 0 then []
    else
      var n := |names| - 1;
      RowAsmEdges(sysName, compList, names[..n])
        + (if Listed(compList, names[n]) then [SysAsmEdge(sysName, names[n].value)] else [])
  }

  /** The outer `systemRows.forEach` building system-to-assembly edges: each
      leads from a `sys-` id to an `asm-` id. */
  function SysAsmEdges(header: Row, rows: seq<Row>, names: seq<Cell>): (r: seq<Edge>)
    ensures forall e {:trigger e in r} :: e in r ==> IsPrefix("sys-", e.source) && IsPrefix("asm-", e.target)
    decreases |rows|
  {
    if |rows| == 0 then []
    else
      var last := rows[|rows| - 1];
      SysAsmEdges(header, rows[..|rows| - 1], names) + RowAsmEdges(SystemName(header, last), CompList(header, last), names)
  }

  /** The fallback test: the listed name is neither an assembly name nor any
      row's ChildName, but is some Component row's Name. */
  predicate Fallback(c: string, names: seq<Cell>, childCells: seq<Cell>, compNames: seq<Cell>) {
    Some(c) !in names && Some(c) !in childCells && Some(c) in compNames
  }

  /** The inner `compList.forEach` for one system. */
  function RowCompEdges(sysName: Cell, compList: seq<string>, names: seq<Cell>, childCells: seq<Cell>, compNames: seq<Cell>): (r: seq<Edge>)
    ensures forall e {:trigger e in r} :: e in r ==> IsPrefix("sys-", e.source) && IsPrefix("comp-", e.target)
    decreases |compList|
  {
    if |compList| == 0 then []
    else
      var n := |compList| - 1;
      RowCompEdges(sysName, compList[..n], names, childCells, compNames)
        + (if Fallback(compList[n], names, childCells, compNames) then [SysCompEdge(sysName, compList[n])] else [])
  }

  /** The second `systemRows.forEach` building system-to-component edges:
      each leads from a `sys-` id to a `comp-` id. */
  function SysCompEdges(header: Row, rows: seq<Row>, names: seq<Cell>, childCells: seq<Cell>, compNames: seq<Cell>): (r: seq<Edge>)
    ensures forall e {:trigger e in r} :: e in r ==> IsPrefix("sys-", e.source) && IsPrefix("comp-", e.target)
    decreases |rows|
  {
    if |rows| == 0 then []
    else
      var last := rows[|rows| - 1];
      SysCompEdges(header, rows[..|rows| - 1], names, childCells, compNames)
        + SystemCompEdges(header, last, names, childCells, compNames)
  }

  /** The fallback edges of one System row. */
  function SystemCompEdges(header: Row, row: Row, names: seq<Cell>, childCells: seq<Cell>, compNames: seq<Cell>): (r: seq<Edge>)
    ensures forall e {:trigger e in r} :: e in r ==> IsPrefix("sys-", e.source) && IsPrefix("comp-", e.target)
  {
    RowCompEdges(SystemName(header, row), CompList(header, row), names, childCells, compNames)
  }

  lemma SysAsmEdgesStep(header: Row, rows: seq<Row>, i: nat, names: seq<Cell>)
    requires i < |rows|
    ensures SysAsmEdges(header, rows[..i + 1], names)
      == SysAsmEdges(header, rows[..i], names) + RowAsmEdges(SystemName(header, rows[i]), CompList(header, rows[i]), names)
  {
    assert rows[..i + 1][..i] == rows[..i];
  }

  lemma RowAsmEdgesStep(sysName: Cell, compList: seq<string>, j: nat, names: seq<Cell>)
    requires j < |names|
    ensures RowAsmEdges(sysName, compList, names[..j + 1])
      == RowAsmEdges(sysName, compList, names[..j])
        + (if Listed(compList, names[j]) then [SysAsmEdge(sysName, names[j].value)] else [])
  {
    assert names[..j + 1][..j] == names[..j];
  }

  /** The inner `assemblyNames.forEach` for one system, pushing onto
      `sysEdges`. */
  method PushRowAsmEdges(sysName: Cell, compList: seq<string>, names: seq<Cell>, start: seq<Edge>)
    returns (sysEdges: seq<Edge>)
    ensures sysEdges == start + RowAsmEdges(sysName, compList, names)
  {
    sysEdges := start;
    for j := 0 to |names|
      invariant sysEdges == start + RowAsmEdges(sysName, compList, names[..j])
    {
      RowAsmEdgesStep(sysName, compList, j, names);
      var parentName := names[j];
      if parentName.Some? && parentName.value in compList {
        sysEdges := sysEdges + [SysAsmEdge(sysName, parentName.value)];
      }
    }
    assert names[..|names|] == names;
  }

  /** The first pair of nested `forEach` loops pushing onto `sysEdges`: for
      each system, each assembly name its ComponentNames list includes. */
  method PushSysAsmEdges(sysT: Table, names: seq<Cell>) returns (sysEdges: seq<Edge>)
    ensures sysEdges == SysAsmEdges(sysT.header, sysT.rows, names)
  {
    var header, rows := sysT.header, sysT.rows;
    sysEdges := [];
    for i := 0 to |rows|
      invariant sysEdges == SysAsmEdges(header, rows[..i], names)
    {
      SysAsmEdgesStep(header, rows, i, names);
      var sysName := CellAt(rows[i], IndexOf(header, "Name"));
      sysEdges := PushRowAsmEdges(sysName, CompList(header, rows[i]), names, sysEdges);
    }
    assert rows[..|rows|] == rows;
  }

  lemma SysCompEdgesStep(header: Row, rows: seq<Row>, i: nat, names: seq<Cell>, childCells: seq<Cell>, compNames: seq<Cell>)
    requires i < |rows|
    ensures SysCompEdges(header, rows[..i + 1], names, childCells, compNames)
      == SysCompEdges(header, rows[..i], names, childCells, compNames)
        + RowCompEdges(SystemName(header, rows[i]), CompList(header, rows[i]), names, childCells, compNames)
  {
    assert rows[..i + 1][..i] == rows[..i];
  }

  lemma RowCompEdgesStep(sysName: Cell, compList: seq<string>, j: nat, names: seq<Cell>, childCells: seq<Cell>, compNames: seq<Cell>)
    requires j < |compList|
    ensures RowCompEdges(sysName, compList[..j + 1], names, childCells, compNames)
      == RowCompEdges(sysName, compList[..j], names, childCells, compNames)
        + (if Fallback(compList[j], names, childCells, compNames) then [SysCompEdge(sysName, compList[j])] else [])
  {
    assert compList[..j + 1][..j] == compList[..j];
  }

  /** The inner `compList.forEach` for one system, pushing onto `sysEdges`. */
  method PushRowCompEdges(sysName: Cell, compList: seq<string>, names: seq<Cell>, childCells: seq<Cell>, compNames: seq<Cell>, start: seq<Edge>)
    returns (sysEdges: seq<Edge>)
    ensures sysEdges == start + RowCompEdges(sysName, compList, names, childCells, compNames)
  {
    sysEdges := start;
    for j := 0 to |compList|
      invariant sysEdges == start + RowCompEdges(sysName, compList[..j], names, childCells, compNames)
    {
      RowCompEdgesStep(sysName, compList, j, names, childCells, compNames);
      var compName := compList[j];
      if Some(compName) !in names && Some(compName) !in childCells && Some(compName) in compNames {
        sysEdges := sysEdges + [SysCompEdge(sysName, compName)];
      }
    }
    assert compList[..|compList|] == compList;
  }

  /** The second pair of nested `forEach` loops pushing onto `sysEdges`: for
      each system, each listed name that passes the fallback test. */
  method PushSysCompEdges(sysT: Table, names: seq<Cell>, childCells: seq<Cell>, compNames: seq<Cell>)
    returns (sysEdges: seq<Edge>)
    ensures sysEdges == SysCompEdges(sysT.header, sysT.rows, names, childCells, compNames)
  {
    var header, rows := sysT.header, sysT.rows;
    sysEdges := [];
    for i := 0 to |rows|
      invariant sysEdges == SysCompEdges(header, rows[..i], names, childCells, compNames)
    {
      SysCompEdgesStep(header, rows, i, names, childCells, compNames);
      var sysName := SystemName(header, rows[i]);
      var compList := CompList(header, rows[i]);
      sysEdges := PushRowCompEdges(sysName, compList, names, childCells, compNames, sysEdges);
    }
    assert rows[..|rows|] == rows;
  }

  // ---------------------------------------------------------------------------
  // Assembly edges
  // ---------------------------------------------------------------------------

  function AsmEdge(p: string, c: string): (e: Edge)
    ensures IsPrefix("asm-", e.source) && IsPrefix("comp-", e.target)
  {
    Edge("e-asm-" + p + "-comp-" + c, "asm-" + p, "comp-" + c)
  }

  /** The Assembly rows with a truthy ParentName and ChildName, each an edge
      from `asm-<ParentName>` to `comp-<ChildName>`: every assembly edge leads
      from an `asm-` id to a `comp-` id. */
  function AsmEdges(header: Row, rows: seq<Row>): (r: seq<Edge>)
    ensures forall e {:trigger e in r} :: e in r ==> IsPrefix("asm-", e.source) && IsPrefix("comp-", e.target)
    decreases |rows|
  {
    if |rows| == 0 then []
    else
      var p, c := Column(header, rows[0], "ParentName"), Column(header, rows[0], "ChildName");
      (if Truthy(p) && Truthy(c) then [AsmEdge(p.value, c.value)] else []) + AsmEdges(header, rows[1..])
  }

  /** The ChildName cell of every Assembly row, in sheet order: the contents
      of `allChildNames`. */
  function ChildCells(asmT: Table): (cs: seq<Cell>)
    ensures |cs| == |asmT.rows|
  {
    seq(|asmT.rows|, i requires 0 <= i < |asmT.rows| => Column(asmT.header, asmT.rows[i], "ChildName"))
  }

  // ---------------------------------------------------------------------------
  // The graph
  // ---------------------------------------------------------------------------

  predicate HasGraphSheets(sheets: Workbook) {
    "Component" in sheets && "Assembly" in sheets && "System" in sheets
  }

  /** The whole of `buildCobieGraphHierarchy` as a value: it never fails, and
      a missing sheet gives the empty graph. */
  function GraphHierarchy(sheets: Workbook): (g: Graph)
    ensures !HasGraphSheets(sheets) ==> g == Graph([], [])
    ensures HasGraphSheets(sheets) ==>
      |g.nodes| == |sheets["System"].rows| + |AssemblyNames(sheets["Assembly"])| + |sheets["Component"].rows|
  {
    if !HasGraphSheets(sheets) then Graph([], [])
    else
      var compT, asmT, sysT := sheets["Component"], sheets["Assembly"], sheets["System"];
      var names := AssemblyNames(asmT);
      Graph(
        SystemNodes(sysT) + AssemblyNodes(names) + ComponentNodes(compT),
        SysAsmEdges(sysT.header, sysT.rows, names)
          + SysCompEdges(sysT.header, sysT.rows, names, ChildCells(asmT), ComponentNameCells(compT))
          + AsmEdges(asmT.header, asmT.rows))
  }

  method BuildCobieGraphHierarchy(sheets: Workbook) returns (g: Graph)
    ensures g == GraphHierarchy(sheets)
  {
    if !("Component" in sheets && "Assembly" in sheets && "System" in sheets) {
      return Graph([], []);
    }
    var compT, asmT, sysT := sheets["Component"], sheets["Assembly"], sheets["System"];
    var names := AssemblyNames(asmT);
    var nodes := SystemNodes(sysT) + AssemblyNodes(names) + ComponentNodes(compT);
    var sysEdges := PushSysAsmEdges(sysT, names);
    var compEdges := PushSysCompEdges(sysT, names, ChildCells(asmT), ComponentNameCells(compT));
    sysEdges := sysEdges + compEdges;
    g := Graph(nodes, sysEdges + AsmEdges(asmT.header, asmT.rows));
  }

  // ---------------------------------------------------------------------------
  // Which edges exist
  // ---------------------------------------------------------------------------

  /** One system gets an edge to each assembly name its list includes. */
  lemma {:induction false} RowAsmEdgesMembers(sysName: Cell, compList: seq<string>, names: seq<Cell>, e: Edge)
    ensures e in RowAsmEdges(sysName, compList, names) <==>
      exists p :: p in names && Listed(compList, p) && e == SysAsmEdge(sysName, p.value)
    decreases |names|
  {
    if |names| > 0 {
      var n := |names| - 1;
      var p := names[n];
      RowAsmEdgesMembers(sysName, compList, names[..n], e);
      assert names == names[..n] + [p];
      var tail := if Listed(compList, p) then [SysAsmEdge(sysName, p.value)] else [];
      assert RowAsmEdges(sysName, compList, names) == RowAsmEdges(sysName, compList, names[..n]) + tail;
      if e in tail {
        assert p in names && Listed(compList, p) && e == SysAsmEdge(sysName, p.value);
      }
      if exists q :: q in names[..n] && Listed(compList, q) && e == SysAsmEdge(sysName, q.value) {
        var q :| q in names[..n] && Listed(compList, q) && e == SysAsmEdge(sysName, q.value);
        assert q in names;
      }
    }
  }

  /** One system gets a fallback edge to each listed name that passes the
      fallback test (a name listed twice gets two). */
  lemma {:induction false} RowCompEdgesMembers(sysName: Cell, compList: seq<string>, names: seq<Cell>, childCells: seq<Cell>, compNames: seq<Cell>, e: Edge)
    ensures e in RowCompEdges(sysName, compList, names, childCells, compNames) <==>
      exists c :: c in compList && Fallback(c, names, childCells, compNames) && e == SysCompEdge(sysName, c)
    decreases |compList|
  {
    if |compList| > 0 {
      var n := |compList| - 1;
      var c := compList[n];
      RowCompEdgesMembers(sysName, compList[..n], names, childCells, compNames, e);
      assert compList == compList[..n] + [c];
      var tail := if Fallback(c, names, childCells, compNames) then [SysCompEdge(sysName, c)] else [];
      assert RowCompEdges(sysName, compList, names, childCells, compNames)
        == RowCompEdges(sysName, compList[..n], names, childCells, compNames) + tail;
    }
  }

  /** The lists `f(x)` for the elements `x` of `xs`, concatenated in order. */
  function ConcatOver<T, U>(f: T -> seq<U>, xs: seq<T>): seq<U>
    decreases |xs|
  {
    if |xs| == 0 then [] else ConcatOver(f, xs[..|xs| - 1]) + f(xs[|xs| - 1])
  }

  lemma {:induction false} ConcatOverMembers<T, U>(f: T -> seq<U>, xs: seq<T>, u: U)
    ensures u in ConcatOver(f, xs) <==> exists x :: x in xs && u in f(x)
    decreases |xs|
  {
    if |xs| > 0 {
      var n := |xs| - 1;
      ConcatOverMembers(f, xs[..n], u);
      assert xs == xs[..n] + [xs[n]];
    }
  }

  lemma {:induction false} SysAsmEdgesConcat(header: Row, rows: seq<Row>, names: seq<Cell>)
    ensures SysAsmEdges(header, rows, names)
      == ConcatOver(row => RowAsmEdges(SystemName(header, row), CompList(header, row), names), rows)
    decreases |rows|
  {
    if |rows| > 0 {
      SysAsmEdgesConcat(header, rows[..|rows| - 1], names);
    }
  }

  lemma {:induction false} SysCompEdgesConcat(header: Row, rows: seq<Row>, names: seq<Cell>, childCells: seq<Cell>, compNames: seq<Cell>)
    ensures SysCompEdges(header, rows, names, childCells, compNames)
      == ConcatOver(row => SystemCompEdges(header, row, names, childCells, compNames), rows)
    decreases |rows|
  {
    if |rows| > 0 {
      SysCompEdgesConcat(header, rows[..|rows| - 1], names, childCells, compNames);
    }
  }

  /** The system-to-assembly edges are exactly the edges of the individual
      systems. */
  lemma SysAsmEdgesMembers(header: Row, rows: seq<Row>, names: seq<Cell>, e: Edge)
    ensures e in SysAsmEdges(header, rows, names) <==>
      exists row :: row in rows && e in RowAsmEdges(SystemName(header, row), CompList(header, row), names)
  {
    SysAsmEdgesConcat(header, rows, names);
    ConcatOverMembers(row => RowAsmEdges(SystemName(header, row), CompList(header, row), names), rows, e);
  }

  /** The system-to-component edges are exactly the fallback edges of the
      individual systems. */
  lemma SysCompEdgesMembers(header: Row, rows: seq<Row>, names: seq<Cell>, childCells: seq<Cell>, compNames: seq<Cell>, e: Edge)
    ensures e in SysCompEdges(header, rows, names, childCells, compNames) <==>
      exists row :: row in rows && e in SystemCompEdges(header, row, names, childCells, compNames)
  {
    SysCompEdgesConcat(header, rows, names, childCells, compNames);
    ConcatOverMembers(row => SystemCompEdges(header, row, names, childCells, compNames), rows, e);
  }

  /** `row` has a truthy ParentName and ChildName, and `e` is its edge. */
  predicate AsmRowEdge(header: Row, row: Row, e: Edge) {
    var p, c := Column(header, row, "ParentName"), Column(header, row, "ChildName");
    Truthy(p) && Truthy(c) && e == AsmEdge(p.value, c.value)
  }

  /** The assembly edges are exactly those of the Assembly rows with a truthy
      ParentName and ChildName. */
  lemma {:induction false} AsmEdgesMembers(header: Row, rows: seq<Row>, e: Edge)
    ensures e in AsmEdges(header, rows) <==> exists row :: row in rows && AsmRowEdge(header, row, e)
    decreases |rows|
  {
    if |rows| > 0 {
      AsmEdgesMembers(header, rows[1..], e);
      var p, c := Column(header, rows[0], "ParentName"), Column(header, rows[0], "ChildName");
      var head := if Truthy(p) && Truthy(c) then [AsmEdge(p.value, c.value)] else [];
      assert AsmEdges(header, rows) == head + AsmEdges(header, rows[1..]);
      assert e in head <==> AsmRowEdge(header, rows[0], e);
      assert rows == [rows[0]] + rows[1..];
    }
  }

  // ---------------------------------------------------------------------------
  // Edge endpoints
  // ---------------------------------------------------------------------------

  /** Every assembly name has its `asm-` node. */
  lemma AssemblyNodeExists(sheets: Workbook, p: Cell)
    requires HasGraphSheets(sheets)
    requires p in AssemblyNames(sheets["Assembly"])
    ensures HasNode(GraphHierarchy(sheets), "asm-" + Str(p))
  {
    var g := GraphHierarchy(sheets);
    var names := AssemblyNames(sheets["Assembly"]);
    var k := FirstIndex(names, p);
    assert g.nodes == SystemNodes(sheets["System"]) + AssemblyNodes(names) + ComponentNodes(sheets["Component"]);
    AssemblyNodeAt(sheets["System"], names, sheets["Component"], k);
  }

  /** The `k`-th assembly node sits after the system nodes. */
  lemma AssemblyNodeAt(sysT: Table, names: seq<Cell>, compT: Table, k: nat)
    requires k < |names|
    ensures (SystemNodes(sysT) + AssemblyNodes(names) + ComponentNodes(compT))[|sysT.rows| + k].id == "asm-" + Str(names[k])
  {
    assert (SystemNodes(sysT) + AssemblyNodes(names) + ComponentNodes(compT))[|sysT.rows| + k] == AssemblyNodes(names)[k];
  }

  /** With a single Name column in the System sheet, every System row has its
      `sys-` node. */
  lemma SystemNodeExists(sheets: Workbook, row: Row)
    requires HasGraphSheets(sheets)
    requires UniqueColumn(sheets["System"].header, "Name")
    requires row in sheets["System"].rows
    ensures HasNode(GraphHierarchy(sheets), "sys-" + Str(SystemName(sheets["System"].header, row)))
  {
    var sysT := sheets["System"];
    var g := GraphHierarchy(sheets);
    var i :| 0 <= i < |sysT.rows| && sysT.rows[i] == row;
    RecordColumnAgrees(sysT.header, row, "Name");
    assert g.nodes[i] == SystemNodes(sysT)[i];
  }

  /** With a single Name column in the Component sheet, every Component Name
      cell has its `comp-` node. */
  lemma ComponentNodeExists(sheets: Workbook, c: string)
    requires HasGraphSheets(sheets)
    requires UniqueColumn(sheets["Component"].header, "Name")
    requires Some(c) in ComponentNameCells(sheets["Component"])
    ensures HasNode(GraphHierarchy(sheets), "comp-" + c)
  {
    var compT := sheets["Component"];
    var g := GraphHierarchy(sheets);
    var cells := ComponentNameCells(compT);
    var i :| 0 <= i < |cells| && cells[i] == Some(c);
    RecordColumnAgrees(compT.header, compT.rows[i], "Name");
    var off := |sheets["System"].rows| + |AssemblyNames(sheets["Assembly"])|;
    assert g.nodes[off + i] == ComponentNodes(compT)[i];
  }

  /** With single Name columns in the System and Component sheets, both ends
      of every system edge are nodes of the graph: a fallback edge only
      targets a listed name that is some Component row's Name. */
  lemma SystemEdgeEndpoints(sheets: Workbook, e: Edge)
    requires HasGraphSheets(sheets)
    requires UniqueColumn(sheets["System"].header, "Name") && UniqueColumn(sheets["Component"].header, "Name")
    requires var sysT, asmT, names := sheets["System"], sheets["Assembly"], AssemblyNames(sheets["Assembly"]);
      || e in SysAsmEdges(sysT.header, sysT.rows, names)
      || e in SysCompEdges(sysT.header, sysT.rows, names, ChildCells(asmT), ComponentNameCells(sheets["Component"]))
    ensures HasNode(GraphHierarchy(sheets), e.source) && HasNode(GraphHierarchy(sheets), e.target)
  {
    var sysT, asmT, compT := sheets["System"], sheets["Assembly"], sheets["Component"];
    var names, childCells, compNames := AssemblyNames(asmT), ChildCells(asmT), ComponentNameCells(compT);
    SysAsmEdgesMembers(sysT.header, sysT.rows, names, e);
    SysCompEdgesMembers(sysT.header, sysT.rows, names, childCells, compNames, e);
    if e in SysAsmEdges(sysT.header, sysT.rows, names) {
      var row :| row in sysT.rows && e in RowAsmEdges(SystemName(sysT.header, row), CompList(sysT.header, row), names);
      var sysName := SystemName(sysT.header, row);
      RowAsmEdgesMembers(sysName, CompList(sysT.header, row), names, e);
      var p :| p in names && Listed(CompList(sysT.header, row), p) && e == SysAsmEdge(sysName, p.value);
      SystemNodeExists(sheets, row);
      AssemblyNodeExists(sheets, p);
    } else {
      var row :| row in sysT.rows && e in SystemCompEdges(sysT.header, row, names, childCells, compNames);
      var sysName, list := SystemName(sysT.header, row), CompList(sysT.header, row);
      RowCompEdgesMembers(sysName, list, names, childCells, compNames, e);
      var c :| c in list && Fallback(c, names, childCells, compNames) && e == SysCompEdge(sysName, c);
      SystemNodeExists(sheets, row);
      ComponentNodeExists(sheets, c);
    }
  }

  /** Every assembly edge starts at an existing `asm-` node (its ParentName is
      one of the assembly names) and targets a `comp-` id. */
  lemma AssemblyEdgeSource(sheets: Workbook, e: Edge)
    requires HasGraphSheets(sheets)
    requires e in AsmEdges(sheets["Assembly"].header, sheets["Assembly"].rows)
    ensures HasNode(GraphHierarchy(sheets), e.source)
    ensures exists c :: e.target == "comp-" + c
  {
    var asmT := sheets["Assembly"];
    AsmEdgesMembers(asmT.header, asmT.rows, e);
    var row :| row in asmT.rows && AsmRowEdge(asmT.header, row, e);
    var i :| 0 <= i < |asmT.rows| && asmT.rows[i] == row;
    var p := Column(asmT.header, row, "ParentName");
    assert ParentCells(asmT)[i] == p;
    AssemblyNodeExists(sheets, p);
  }

  /** With single Name columns, every edge's source is a node of the graph. */
  lemma EdgeSourcesExist(sheets: Workbook)
    requires HasGraphSheets(sheets)
    requires UniqueColumn(sheets["System"].header, "Name") && UniqueColumn(sheets["Component"].header, "Name")
    ensures forall e :: e in GraphHierarchy(sheets).edges ==> HasNode(GraphHierarchy(sheets), e.source)
  {
    var sysT, asmT, compT := sheets["System"], sheets["Assembly"], sheets["Component"];
    var names := AssemblyNames(asmT);
    forall e | e in GraphHierarchy(sheets).edges
      ensures HasNode(GraphHierarchy(sheets), e.source)
    {
      if e in AsmEdges(asmT.header, asmT.rows) {
        AssemblyEdgeSource(sheets, e);
      } else {
        SystemEdgeEndpoints(sheets, e);
      }
    }
  }

  /** A Component sheet with one component C1, and an Assembly sheet whose
      only row links A1 to Ghost, which is no component. */
  function GhostSheets(): Workbook {
    map[
      "System" := Table([Some("Name")], []),
      "Component" := Table([Some("Name")], [[Some("C1")]]),
      "Assembly" := Table([Some("ParentName"), Some("ChildName")], [[Some("A1"), Some("Ghost")]])]
  }

  lemma GhostNodes()
    ensures GraphHierarchy(GhostSheets()).nodes
      == [Node("asm-A1", "assembly", map["Name" := Some("A1")]), Node("comp-C1", "component", map["Name" := Some("C1")])]
  {
    var sheets := GhostSheets();
    var asmT, compT := sheets["Assembly"], sheets["Component"];
    assert ParentCells(asmT) == [Some("A1")];
    assert AssemblyNames(asmT) == [Some("A1")] by {
      assert [Some("A1")][..0] == [];
    }
    var rec := RecordOf(compT.header, compT.rows[0]);
    assert rec == map["Name" := Some("C1")] by {
      assert compT.header[..0] == [];
    }
    assert "asm-" + Str(Some("A1")) == "asm-A1";
    assert AssemblyNodes([Some("A1")])[0] == Node("asm-A1", "assembly", map["Name" := Some("A1")]);
    assert "comp-" + Str(Get(rec, "Name")) == "comp-C1";
    assert ComponentNodes(compT)[0] == Node("comp-C1", "component", rec);
  }

  /** An assembly edge can dangle: the Assembly row linking A1 to Ghost yields
      the edge `asm-A1 -> comp-Ghost`, and the graph has no node `comp-Ghost`. */
  lemma DanglingAssemblyEdge()
    ensures AsmEdge("A1", "Ghost") in GraphHierarchy(GhostSheets()).edges
    ensures !HasNode(GraphHierarchy(GhostSheets()), "comp-Ghost")
  {
    var sheets := GhostSheets();
    var asmT := sheets["Assembly"];
    assert AsmEdges(asmT.header, asmT.rows) == [AsmEdge("A1", "Ghost")] by {
      assert Column(asmT.header, asmT.rows[0], "ParentName") == Some("A1");
      assert Column(asmT.header, asmT.rows[0], "ChildName") == Some("Ghost");
      assert asmT.rows[1..] == [];
    }
    GhostNodes();
    assert "asm-A1" != "comp-Ghost" by { assert "asm-A1"[0] != "comp-Ghost"[0]; }
    assert "comp-C1" != "comp-Ghost" by { assert "comp-C1"[5] != "comp-Ghost"[5]; }
  }
}
