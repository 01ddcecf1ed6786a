/**
 * `buildCobieSystemHierarchy`: the System > Component > Assembly tree. A
 * system's components come from two joins: the Component rows whose
 * SystemName cell equals the system's Name, then the names listed in the
 * system's `;`-separated ComponentNames cell, each resolved to the first
 * Component row of that Name.
 */
module Functional {
  import opened Text
  import opened Sheets

  const MissingSheets := "Missing required sheets"

  /** A joined component: its record and the raw Assembly rows whose
      ComponentName equals its Name. */
  datatype ComponentNode = ComponentNode(attrs: Record, assemblies: seq<Row>)

  datatype SystemNode = SystemNode(attrs: Record, components: seq<ComponentNode>)

  datatype SystemResult = SystemError(error: string) | SystemTree(systems: seq<SystemNode>)

  /** A component's Name property. */
  function NameOf(c: ComponentNode): Cell {
    Get(c.attrs, "Name")
  }

  /** The component built from a Component row: its record, and as
      `assemblies` the Assembly rows whose ComponentName is the record's Name. */
  function ComponentOf(compT: Table, asmT: Table, row: Row): (c: ComponentNode)
    ensures c.attrs == RecordOf(compT.header, row)
    ensures forall a :: a in c.assemblies <==>
      a in asmT.rows && Column(asmT.header, a, "ComponentName") == NameOf(c)
  {
    var rec := RecordOf(compT.header, row);
    ComponentNode(rec, RowsWhere(asmT.header, asmT.rows, "ComponentName", Get(rec, "Name")))
  }

  /** A component whose assembly list is the one `ComponentOf` attaches. */
  predicate Joined(asmT: Table, c: ComponentNode) {
    c.assemblies == RowsWhere(asmT.header, asmT.rows, "ComponentName", NameOf(c))
  }

  // ---------------------------------------------------------------------------
  // First join: the SystemName column
  // ---------------------------------------------------------------------------

  /** The Component rows whose SystemName cell is exactly the system's Name,
      when the Component sheet has a SystemName column; otherwise none. */
  function SystemNameRows(compT: Table, sys: Record): seq<Row> {
    if IndexOf(compT.header, "SystemName") != -1
    then RowsWhere(compT.header, compT.rows, "SystemName", Get(sys, "Name"))
    else []
  }

  function SystemNameComponents(compT: Table, asmT: Table, sys: Record): (cs: seq<ComponentNode>)
    ensures |cs| == |SystemNameRows(compT, sys)|
  {
    var rs := SystemNameRows(compT, sys);
    seq(|rs|, i requires 0 <= i < |rs| => ComponentOf(compT, asmT, rs[i]))
  }

  // ---------------------------------------------------------------------------
  // Second join: the ComponentNames list
  // ---------------------------------------------------------------------------

  /** The parts, trimmed, with the empty ones dropped. */
  function TrimmedNonEmpty(parts: seq<string>): (r: seq<string>)
    decreases |parts|
  {
    if |parts| == 0 then []
    else
      var t := Trim(parts[0]);
      (if t != "" then [t] else []) + TrimmedNonEmpty(parts[1..])
  }

  /** The list holds exactly the non-empty trimmed parts. */
  lemma {:induction false} TrimmedNonEmptyMembers(parts: seq<string>, name: string)
    ensures name in TrimmedNonEmpty(parts) <==> name != "" && exists j :: 0 <= j < |parts| && Trim(parts[j]) == name
    decreases |parts|
  {
    if |parts| > 0 {
      TrimmedNonEmptyMembers(parts[1..], name);
      if exists j :: 0 <= j < |parts| && Trim(parts[j]) == name {
        var j :| 0 <= j < |parts| && Trim(parts[j]) == name;
        if j > 0 {
          assert parts[1..][j - 1] == parts[j];
        }
      }
      if exists j :: 0 <= j < |parts| - 1 && Trim(parts[1..][j]) == name {
        var j :| 0 <= j < |parts| - 1 && Trim(parts[1..][j]) == name;
        assert parts[j + 1] == parts[1..][j];
      }
    }
  }

  /** The non-blank, trimmed entries of a system's `;`-separated ComponentNames. */
  function ListedNames(sys: Record): seq<string> {
    TrimmedNonEmpty(Split(OrEmpty(Get(sys, "ComponentNames")), ';'))
  }

  /** Some component already carries the Name `name`. */
  predicate HasName(cs: seq<ComponentNode>, name: string) {
    exists k :: 0 <= k < |cs| && NameOf(cs[k]) == Some(name)
  }

  /** `findComponentByName(name)`: the first Component row whose Name cell is
      `name`. */
  function FindComponentByName(compT: Table, name: string): (r: Option<Row>)
    ensures r.Some? ==> r.value in compT.rows && Column(compT.header, r.value, "Name") == Some(name)
    ensures r.None? <==> forall row :: row in compT.rows ==> Column(compT.header, row, "Name") != Some(name)
  {
    FindRow(compT.header, compT.rows, "Name", Some(name))
  }

  /** The `compNames.forEach` loop as a value: each name not yet present is
      resolved and, when found, its component is pushed. */
  function NamedJoin(compT: Table, asmT: Table, start: seq<ComponentNode>, names: seq<string>): (r: seq<ComponentNode>)
    ensures |start| <= |r| <= |start| + |names|
    decreases |names|
  {
    if |names| == 0 then start
    else
      var n := |names| - 1;
      var cs := NamedJoin(compT, asmT, start, names[..n]);
      if HasName(cs, names[n]) then cs
      else match FindComponentByName(compT, names[n])
        case None => cs
        case Some(row) => cs + [ComponentOf(compT, asmT, row)]
  }

  method JoinNamedComponents(compT: Table, asmT: Table, start: seq<ComponentNode>, names: seq<string>)
    returns (components: seq<ComponentNode>)
    ensures components == NamedJoin(compT, asmT, start, names)
  {
    components := start;
    for i := 0 to |names|
      invariant components == NamedJoin(compT, asmT, start, names[..i])
    {
      assert names[..i + 1][..i] == names[..i];
      var name := names[i];
      if !(exists k :: 0 <= k < |components| && NameOf(components[k]) == Some(name)) {
        var found := FindComponentByName(compT, name);
        if found.Some? {
          var comp := ProjectRecord(compT.header, found.value);
          var assemblies := RowsWhere(asmT.header, asmT.rows, "ComponentName", Get(comp, "Name"));
          components := components + [ComponentNode(comp, assemblies)];
        }
      }
    }
    assert names[..|names|] == names;
  }

  /** The name `names[j]` resolves, and `c` is the component built from its
      row. */
  predicate ResolvedFrom(compT: Table, asmT: Table, names: seq<string>, c: ComponentNode) {
    exists j :: 0 <= j < |names| && FindComponentByName(compT, names[j]).Some? &&
      c == ComponentOf(compT, asmT, FindComponentByName(compT, names[j]).value)
  }

  /** The join keeps the components already present, in order, and appends
      only components resolved from listed names (unresolved names add
      nothing); every appended component carries its assemblies. */
  lemma {:induction false} NamedJoinAppends(compT: Table, asmT: Table, start: seq<ComponentNode>, names: seq<string>)
    ensures var r := NamedJoin(compT, asmT, start, names);
      && |start| <= |r| <= |start| + |names|
      && r[..|start|] == start
      && (forall k :: |start| <= k < |r| ==> ResolvedFrom(compT, asmT, names, r[k]) && Joined(asmT, r[k]))
    decreases |names|
  {
    if |names| > 0 {
      var n := |names| - 1;
      var init := names[..n];
      NamedJoinAppends(compT, asmT, start, init);
      var cs := NamedJoin(compT, asmT, start, init);
      var r := NamedJoin(compT, asmT, start, names);
      forall k | |start| <= k < |r|
        ensures ResolvedFrom(compT, asmT, names, r[k]) && Joined(asmT, r[k])
      {
        if k < |cs| {
          assert r[k] == cs[k];
          var j :| 0 <= j < |init| && FindComponentByName(compT, init[j]).Some? &&
            cs[k] == ComponentOf(compT, asmT, FindComponentByName(compT, init[j]).value);
          assert init[j] == names[j];
        } else {
          assert FindComponentByName(compT, names[n]).Some?;
        }
      }
    }
  }

  /** With a single Name column, a record's Name is its row's Name cell, so a
      resolved name is present under that very name after it is pushed. */
  lemma ResolvedHasName(compT: Table, asmT: Table, name: string)
    requires UniqueColumn(compT.header, "Name")
    requires FindComponentByName(compT, name).Some?
    ensures NameOf(ComponentOf(compT, asmT, FindComponentByName(compT, name).value)) == Some(name)
  {
    RecordColumnAgrees(compT.header, FindComponentByName(compT, name).value, "Name");
  }

  /** When the Component sheet has a single Name column, every listed name
      that some Component row carries is present afterwards. */
  lemma {:induction false} NamedJoinComplete(compT: Table, asmT: Table, start: seq<ComponentNode>, names: seq<string>)
    requires UniqueColumn(compT.header, "Name")
    ensures forall j :: 0 <= j < |names| && FindComponentByName(compT, names[j]).Some? ==>
      HasName(NamedJoin(compT, asmT, start, names), names[j])
    decreases |names|
  {
    if |names| > 0 {
      var n := |names| - 1;
      var init := names[..n];
      NamedJoinComplete(compT, asmT, start, init);
      var cs := NamedJoin(compT, asmT, start, init);
      var r := NamedJoin(compT, asmT, start, names);
      assert |cs| <= |r| && forall k :: 0 <= k < |cs| ==> r[k] == cs[k];
      forall j | 0 <= j < |names| && FindComponentByName(compT, names[j]).Some?
        ensures HasName(r, names[j])
      {
        if j < n {
          assert init[j] == names[j];
          var k :| 0 <= k < |cs| && NameOf(cs[k]) == Some(names[j]);
          assert NameOf(r[k]) == Some(names[j]);
        } else if !HasName(cs, names[n]) {
          ResolvedHasName(compT, asmT, names[n]);
          assert NameOf(r[|cs|]) == Some(names[n]);
        } else {
          var k :| 0 <= k < |cs| && NameOf(cs[k]) == Some(names[n]);
          assert NameOf(r[k]) == Some(names[n]);
        }
      }
    }
  }

  /** When the Component sheet has a single Name column, no appended
      component repeats the Name of a component before it. */
  lemma {:induction false} NamedJoinNoDuplicate(compT: Table, asmT: Table, start: seq<ComponentNode>, names: seq<string>)
    requires UniqueColumn(compT.header, "Name")
    ensures var r := NamedJoin(compT, asmT, start, names);
      forall k, l :: 0 <= l < k < |r| && |start| <= k ==> NameOf(r[l]) != NameOf(r[k])
    decreases |names|
  {
    if |names| > 0 {
      var n := |names| - 1;
      var init := names[..n];
      NamedJoinNoDuplicate(compT, asmT, start, init);
      NamedJoinAppends(compT, asmT, start, init);
      var cs := NamedJoin(compT, asmT, start, init);
      var r := NamedJoin(compT, asmT, start, names);
      if |r| > |cs| {
        ResolvedHasName(compT, asmT, names[n]);
        assert !HasName(cs, names[n]);
        forall l | 0 <= l < |cs|
          ensures NameOf(r[l]) != NameOf(r[|cs|])
        {
          assert r[l] == cs[l];
        }
      }
    }
  }

  /** A component appended for the last name carries that name, and the
      name is not listed before: an earlier listing would have added it. */
  lemma NamedJoinAppendsFresh(compT: Table, asmT: Table, start: seq<ComponentNode>, names: seq<string>)
    requires UniqueColumn(compT.header, "Name")
    requires |names| > 0
    requires |NamedJoin(compT, asmT, start, names)| > |NamedJoin(compT, asmT, start, names[..|names| - 1])|
    ensures var n := |names| - 1;
      && NameOf(NamedJoin(compT, asmT, start, names)[|NamedJoin(compT, asmT, start, names[..n])|]) == Some(names[n])
      && names[n] !in names[..n]
  {
    var n := |names| - 1;
    var init := names[..n];
    ResolvedHasName(compT, asmT, names[n]);
    NamedJoinComplete(compT, asmT, start, init);
    assert !HasName(NamedJoin(compT, asmT, start, init), names[n]);
  }

  /** When the Component sheet has a single Name column, the appended
      components carry listed names, in the order those names are first
      listed. */
  lemma {:induction false} NamedJoinOrder(compT: Table, asmT: Table, start: seq<ComponentNode>, names: seq<string>)
    requires UniqueColumn(compT.header, "Name")
    ensures var r := NamedJoin(compT, asmT, start, names);
      forall k :: |start| <= k < |r| ==> NameOf(r[k]).Some? && NameOf(r[k]).value in names
    ensures var r := NamedJoin(compT, asmT, start, names);
      forall k, l :: |start| <= k < l < |r| ==>
        FirstIndex(names, NameOf(r[k]).value) < FirstIndex(names, NameOf(r[l]).value)
    decreases |names|
  {
    if |names| > 0 {
      var n := |names| - 1;
      var init := names[..n];
      NamedJoinOrder(compT, asmT, start, init);
      NamedJoinAppends(compT, asmT, start, init);
      var cs := NamedJoin(compT, asmT, start, init);
      var r := NamedJoin(compT, asmT, start, names);
      assert |cs| <= |r| && forall k :: 0 <= k < |cs| ==> r[k] == cs[k];
      forall k | |start| <= k < |cs|
        ensures NameOf(r[k]).Some? && NameOf(r[k]).value in init
        ensures FirstIndex(names, NameOf(r[k]).value) == FirstIndex(init, NameOf(r[k]).value)
      {
        FirstIndexPrefix(names, n, NameOf(r[k]).value);
      }
      if |r| > |cs| {
        NamedJoinAppendsFresh(compT, asmT, start, names);
        assert FirstIndex(names, names[n]) == n;
      }
    }
  }

  // ---------------------------------------------------------------------------
  // The tree
  // ---------------------------------------------------------------------------

  /** One system: its record, the SystemName-matched components, then the
      components joined from its ComponentNames list. */
  function SystemNodeOf(compT: Table, asmT: Table, sys: Record): (r: SystemNode)
    ensures r.attrs == sys
    ensures var m := |SystemNameRows(compT, sys)|;
      m <= |r.components| <= m + |ListedNames(sys)| && r.components[..m] == SystemNameComponents(compT, asmT, sys)
  {
    var matched := SystemNameComponents(compT, asmT, sys);
    NamedJoinAppends(compT, asmT, matched, ListedNames(sys));
    SystemNode(sys, NamedJoin(compT, asmT, matched, ListedNames(sys)))
  }

  predicate HasRequiredSheets(sheets: Workbook) {
    "System" in sheets && "Component" in sheets && "Assembly" in sheets
  }

  /** The whole of `buildCobieSystemHierarchy` as a value. */
  function SystemHierarchy(sheets: Workbook): (r: SystemResult)
    ensures r.SystemError? <==> !HasRequiredSheets(sheets)
    ensures r.SystemError? ==> r.error == MissingSheets
    ensures r.SystemTree? ==> |r.systems| == |sheets["System"].rows|
  {
    if !HasRequiredSheets(sheets) then SystemError(MissingSheets)
    else
      var sysT := sheets["System"];
      SystemTree(Systems(sysT.header, sysT.rows, sheets["Component"], sheets["Assembly"]))
  }

  /** One system node per System row, in sheet order. */
  function Systems(header: Row, rows: seq<Row>, compT: Table, asmT: Table): (ss: seq<SystemNode>)
    ensures |ss| == |rows|
    decreases |rows|
  {
    if |rows| == 0 then []
    else
      var n := |rows| - 1;
      Systems(header, rows[..n], compT, asmT) + [SystemNodeOf(compT, asmT, RecordOf(header, rows[n]))]
  }

  /** `f` applied to each element, in order. */
  function MapOver<T, U>(f: T -> U, xs: seq<T>): (ys: seq<U>)
    ensures |ys| == |xs|
    decreases |xs|
  {
    if |xs| == 0 then [] else MapOver(f, xs[..|xs| - 1]) + [f(xs[|xs| - 1])]
  }

  lemma {:induction false} MapOverAt<T, U>(f: T -> U, xs: seq<T>, i: nat)
    requires i < |xs|
    ensures MapOver(f, xs)[i] == f(xs[i])
    decreases |xs|
  {
    var n := |xs| - 1;
    if i < n {
      MapOverAt(f, xs[..n], i);
    }
  }

  lemma {:induction false} SystemsMap(header: Row, rows: seq<Row>, compT: Table, asmT: Table)
    ensures Systems(header, rows, compT, asmT) == MapOver(row => SystemNodeOf(compT, asmT, RecordOf(header, row)), rows)
    decreases |rows|
  {
    if |rows| > 0 {
      SystemsMap(header, rows[..|rows| - 1], compT, asmT);
    }
  }

  /** The `i`-th system node is built from the `i`-th System row. */
  lemma SystemsAt(header: Row, rows: seq<Row>, compT: Table, asmT: Table, i: nat)
    requires i < |rows|
    ensures Systems(header, rows, compT, asmT)[i] == SystemNodeOf(compT, asmT, RecordOf(header, rows[i]))
  {
    SystemsMap(header, rows, compT, asmT);
    MapOverAt(row => SystemNodeOf(compT, asmT, RecordOf(header, row)), rows, i);
  }

  lemma SystemsStep(header: Row, rows: seq<Row>, compT: Table, asmT: Table, i: nat)
    requires i < |rows|
    ensures Systems(header, rows[..i + 1], compT, asmT)
      == Systems(header, rows[..i], compT, asmT) + [SystemNodeOf(compT, asmT, RecordOf(header, rows[i]))]
  {
    assert rows[..i + 1][..i] == rows[..i];
  }

  /** The body of `systemRows.map(...)` for one System row. */
  method BuildSystemNode(header: Row, row: Row, compT: Table, asmT: Table) returns (node: SystemNode)
    ensures node == SystemNodeOf(compT, asmT, RecordOf(header, row))
  {
    var sys := ProjectRecord(header, row);
    var matched := SystemNameComponents(compT, asmT, sys);
    var components := JoinNamedComponents(compT, asmT, matched, ListedNames(sys));
    node := SystemNode(sys, components);
  }

  /** `buildCobieSystemHierarchy`. */
  method BuildCobieSystemHierarchy(sheets: Workbook) returns (r: SystemResult)
    ensures r == SystemHierarchy(sheets)
  {
    if !("System" in sheets && "Component" in sheets && "Assembly" in sheets) {
      return SystemError(MissingSheets);
    }
    var sysT := sheets["System"];
    var systems := BuildSystems(sysT.header, sysT.rows, sheets["Component"], sheets["Assembly"]);
    r := SystemTree(systems);
  }

  /** The system list built row by row. */
  method BuildSystems(header: Row, rows: seq<Row>, compT: Table, asmT: Table) returns (systems: seq<SystemNode>)
    ensures systems == Systems(header, rows, compT, asmT)
  {
    systems := [];
    for i := 0 to |rows|
      invariant systems == Systems(header, rows[..i], compT, asmT)
    {
      var node := BuildSystemNode(header, rows[i], compT, asmT);
      SystemsStep(header, rows, compT, asmT, i);
      systems := systems + [node];
    }
    assert rows[..|rows|] == rows;
  }

  // ---------------------------------------------------------------------------
  // Properties of the tree
  // ---------------------------------------------------------------------------

  /** A system's components start with exactly the Component rows whose
      SystemName equals its Name (in sheet order, only when that column
      exists); every later one was resolved from its ComponentNames list; and
      every component's assemblies are the Assembly rows whose ComponentName
      equals its Name. */
  lemma SystemComponents(compT: Table, asmT: Table, sys: Record)
    ensures var node := SystemNodeOf(compT, asmT, sys);
      var rs := SystemNameRows(compT, sys);
      && |rs| <= |node.components|
      && (forall k :: 0 <= k < |rs| ==> node.components[k] == ComponentOf(compT, asmT, rs[k]))
      && (forall k :: |rs| <= k < |node.components| ==> ResolvedFrom(compT, asmT, ListedNames(sys), node.components[k]))
      && (forall k :: 0 <= k < |node.components| ==> Joined(asmT, node.components[k]))
  {
    var matched := SystemNameComponents(compT, asmT, sys);
    var node := SystemNodeOf(compT, asmT, sys);
    NamedJoinAppends(compT, asmT, matched, ListedNames(sys));
    forall k | 0 <= k < |matched|
      ensures node.components[k] == matched[k]
    {
      assert node.components[..|matched|][k] == node.components[k];
    }
  }

  /** When the Component sheet has a single Name column, the components a
      system gains from its ComponentNames list follow that list's order and
      each carries a listed name. */
  lemma SystemComponentsOrder(compT: Table, asmT: Table, sys: Record)
    requires UniqueColumn(compT.header, "Name")
    ensures var cs := SystemNodeOf(compT, asmT, sys).components;
      var m, names := |SystemNameRows(compT, sys)|, ListedNames(sys);
      && (forall k :: m <= k < |cs| ==> NameOf(cs[k]).Some? && NameOf(cs[k]).value in names)
      && (forall k, l :: m <= k < l < |cs| ==> FirstIndex(names, NameOf(cs[k]).value) < FirstIndex(names, NameOf(cs[l]).value))
  {
    var matched := SystemNameComponents(compT, asmT, sys);
    var cs := SystemNodeOf(compT, asmT, sys).components;
    NamedJoinOrder(compT, asmT, matched, ListedNames(sys));
    assert cs == NamedJoin(compT, asmT, matched, ListedNames(sys));
    assert |matched| == |SystemNameRows(compT, sys)|;
  }

  /** The SystemName join is an exact match: a matched row's SystemName cell
      is the system's Name cell (both may be `undefined`). */
  lemma SystemNameMatchIsExact(compT: Table, sys: Record, row: Row)
    requires row in SystemNameRows(compT, sys)
    ensures row in compT.rows
    ensures Column(compT.header, row, "SystemName") == Get(sys, "Name")
    ensures Some("SystemName") in compT.header
  {
  }

  /** Splitting "X; ;Y" at `;` keeps the blank middle piece: ["X", " ", "Y"]. */
  lemma SplitSample()
    ensures Split("X; ;Y", ';') == ["X", " ", "Y"]
  {
    assert Split("Y", ';') == ["Y"] by {
      assert "Y"[1..] == "" && Split("", ';') == [""];
      assert ['Y'] + "" == "Y";
    }
    assert Split(";Y", ';') == ["", "Y"] by {
      assert ";Y"[1..] == "Y";
    }
    assert Split(" ;Y", ';') == [" ", "Y"] by {
      assert " ;Y"[1..] == ";Y";
      assert [' '] + "" == " ";
      assert ["", "Y"][1..] == ["Y"];
    }
    assert Split("; ;Y", ';') == ["", " ", "Y"] by {
      assert "; ;Y"[1..] == " ;Y";
    }
    assert "X; ;Y"[1..] == "; ;Y";
    assert ['X'] + "" == "X";
    assert ["", " ", "Y"][1..] == [" ", "Y"];
  }

  /** Blank entries of a ComponentNames cell are skipped and the others
      trimmed: `"X; ;Y"` lists X and Y. */
  lemma ListedNamesSkipBlank(sys: Record)
    requires Get(sys, "ComponentNames") == Some("X; ;Y")
    ensures ListedNames(sys) == ["X", "Y"]
  {
    SplitSample();
    assert Trim(" ") == "" by { assert SkipLeading(" ", 0) == 1; }
    assert Trim("X") == "X" by { TrimUnpadded("X"); }
    assert Trim("Y") == "Y" by { TrimUnpadded("Y"); }
    assert TrimmedNonEmpty(["Y"]) == ["Y"] by {
      assert ["Y"][1..] == [];
    }
    assert TrimmedNonEmpty([" ", "Y"]) == ["Y"] by {
      assert [" ", "Y"][1..] == ["Y"];
    }
    assert ["X", " ", "Y"][1..] == [" ", "Y"];
  }

  /** A listed name is dropped when no Component row carries it: from the
      list X, Y, where only X is a component, the join adds exactly X's
      component. */
  lemma UnresolvedNameDropped(compT: Table, asmT: Table, rowX: Row)
    requires compT.header == [Some("Name")]
    requires compT.rows == [rowX] && rowX == [Some("X")]
    ensures NamedJoin(compT, asmT, [], ["X", "Y"]) == [ComponentOf(compT, asmT, rowX)]
  {
    var names := ["X", "Y"];
    assert names[..1] == ["X"] && names[..1][..0] == [];
    assert FindComponentByName(compT, "X") == Some(rowX);
    assert FindComponentByName(compT, "Y") == None;
    var cs := NamedJoin(compT, asmT, [], ["X"]);
    assert cs == [ComponentOf(compT, asmT, rowX)];
    assert !HasName(cs, "Y") by {
      assert NameOf(cs[0]) == Some("X");
    }
  }
}
