/**
 * The system drill-down view over a functional hierarchy: the flattened
 * assembly list, each system's top-level assemblies, how an assembly's
 * children split into subassemblies and components, and the expand/collapse
 * state.
 */
module Drilldown {
  import opened Text
  import opened Sheets
  import opened Functional

  // ---------------------------------------------------------------------------
  // Expand/collapse state
  // ---------------------------------------------------------------------------

  /** `expanded[id]`: an id never toggled reads as closed. */
  function IsOpen(expanded: map<string, bool>, id: string): bool {
    id in expanded && expanded[id]
  }

  /** `toggle(id)`: only `id` flips; every other entry, present or absent,
      is left as it was. */
  function Toggle(expanded: map<string, bool>, id: string): (r: map<string, bool>)
    ensures IsOpen(r, id) == !IsOpen(expanded, id)
    ensures r.Keys == expanded.Keys + {id}
    ensures forall k :: k in expanded && k != id ==> r[k] == expanded[k]
  {
    expanded[id := !IsOpen(expanded, id)]
  }

  /** Toggling twice restores what every id reads as. */
  lemma ToggleTwice(expanded: map<string, bool>, id: string, k: string)
    ensures IsOpen(Toggle(Toggle(expanded, id), id), k) == IsOpen(expanded, k)
  {
  }

  // ---------------------------------------------------------------------------
  // Assembly objects
  // ---------------------------------------------------------------------------

  /** What a component's `assemblies` hold: the raw Assembly rows the builder
      stores, or (for the corrected view) records projected from them with
      the Assembly sheet's header. */
  datatype AssemblyShape = RawRows | Records(header: Row)

  /** A raw row spread into an object: its cells under the index keys "0", "1" and onwards. */
  function RowSpread(row: Row): Record
    decreases |row|
  {
    if |row| == 0 then map[]
    else RowSpread(row[..|row| - 1])[NatToString(|row| - 1) := row[|row| - 1]]
  }

  predicate AllDigits(s: string) {
    forall i :: 0 <= i < |s| ==> IsDigit(s[i])
  }

  /** Spreading an array only yields index keys. */
  lemma {:induction false} RowSpreadKeys(row: Row, k: string)
    requires k in RowSpread(row)
    ensures AllDigits(k)
    decreases |row|
  {
    if |row| > 0 && k != NatToString(|row| - 1) {
      RowSpreadKeys(row[..|row| - 1], k);
    }
  }

  /** An array has no property of a non-index name: `asm.Name`,
      `a.ChildName` and `a.ParentName` read as `undefined` on a spread row. */
  lemma RowSpreadNamedProperty(row: Row, k: string)
    requires |k| > 0 && !IsDigit(k[0])
    ensures Get(RowSpread(row), k) == None
  {
    if k in RowSpread(row) {
      RowSpreadKeys(row, k);
    }
  }

  function AsmObject(shape: AssemblyShape, row: Row): Record {
    match shape
    case RawRows => RowSpread(row)
    case Records(header) => RecordOf(header, row)
  }

  /** An assembly entry spread into a new object and tagged with its component's Name. */
  function Tagged(shape: AssemblyShape, comp: ComponentNode, row: Row): (e: Record)
    ensures Get(e, "ComponentName") == Get(comp.attrs, "Name")
    ensures forall k :: k != "ComponentName" ==> Get(e, k) == Get(AsmObject(shape, row), k)
  {
    AsmObject(shape, row)["ComponentName" := Get(comp.attrs, "Name")]
  }

  // ---------------------------------------------------------------------------
  // allAssemblies
  // ---------------------------------------------------------------------------

  /** One component's tagged assemblies, in order. */
  function ComponentEntries(shape: AssemblyShape, comp: ComponentNode): (r: seq<Record>)
    ensures |r| == |comp.assemblies|
  {
    seq(|comp.assemblies|, i requires 0 <= i < |comp.assemblies| => Tagged(shape, comp, comp.assemblies[i]))
  }

  /** The tagged assemblies of a list of components, component by component. */
  function ComponentsEntries(shape: AssemblyShape, comps: seq<ComponentNode>): seq<Record>
    decreases |comps|
  {
    if |comps| == 0 then []
    else ComponentsEntries(shape, comps[..|comps| - 1]) + ComponentEntries(shape, comps[|comps| - 1])
  }

  /** `allAssemblies`: over systems, then components, then assemblies; one
      entry per assembly of every component of every system. */
  function AllEntries(shape: AssemblyShape, systems: seq<SystemNode>): (r: seq<Record>)
    ensures |r| == TotalAssemblies(systems)
    decreases |systems|
  {
    if |systems| == 0 then []
    else
      ComponentsEntriesLength(shape, systems[|systems| - 1].components);
      AllEntries(shape, systems[..|systems| - 1]) + ComponentsEntries(shape, systems[|systems| - 1].components)
  }

  function AssemblyCount(comps: seq<ComponentNode>): nat
    decreases |comps|
  {
    if |comps| == 0 then 0 else AssemblyCount(comps[..|comps| - 1]) + |comps[|comps| - 1].assemblies|
  }

  function TotalAssemblies(systems: seq<SystemNode>): nat
    decreases |systems|
  {
    if |systems| == 0 then 0 else TotalAssemblies(systems[..|systems| - 1]) + AssemblyCount(systems[|systems| - 1].components)
  }

  lemma {:induction false} ComponentsEntriesLength(shape: AssemblyShape, comps: seq<ComponentNode>)
    ensures |ComponentsEntries(shape, comps)| == AssemblyCount(comps)
    decreases |comps|
  {
    if |comps| > 0 {
      ComponentsEntriesLength(shape, comps[..|comps| - 1]);
    }
  }

  /** Every system's entries are among the flattened ones. */
  lemma {:induction false} SystemEntriesInAll(shape: AssemblyShape, systems: seq<SystemNode>, s: nat, e: Record)
    requires s < |systems| && e in ComponentsEntries(shape, systems[s].components)
    ensures e in AllEntries(shape, systems)
    decreases |systems|
  {
    var n := |systems| - 1;
    if s < n {
      assert systems[..n][s] == systems[s];
      SystemEntriesInAll(shape, systems[..n], s, e);
    }
  }

  /** Every flattened entry is one component's assembly, tagged with that
      component's Name. */
  lemma {:induction false} ComponentsEntriesMembers(shape: AssemblyShape, comps: seq<ComponentNode>, e: Record)
    ensures e in ComponentsEntries(shape, comps) <==>
      exists c :: 0 <= c < |comps| && e in ComponentEntries(shape, comps[c])
    decreases |comps|
  {
    if |comps| > 0 {
      var n := |comps| - 1;
      ComponentsEntriesMembers(shape, comps[..n], e);
      if exists c :: 0 <= c < n && e in ComponentEntries(shape, comps[..n][c]) {
        var c :| 0 <= c < n && e in ComponentEntries(shape, comps[..n][c]);
        assert comps[..n][c] == comps[c];
      }
      if exists c :: 0 <= c < |comps| && e in ComponentEntries(shape, comps[c]) {
        var c :| 0 <= c < |comps| && e in ComponentEntries(shape, comps[c]);
        if c < n {
          assert comps[..n][c] == comps[c];
        }
      }
    }
  }

  method PushComponentEntries(shape: AssemblyShape, comp: ComponentNode, acc: seq<Record>) returns (r: seq<Record>)
    ensures r == acc + ComponentEntries(shape, comp)
  {
    r := acc;
    for i := 0 to |comp.assemblies|
      invariant r == acc + ComponentEntries(shape, comp)[..i]
    {
      assert ComponentEntries(shape, comp)[..i + 1] == ComponentEntries(shape, comp)[..i] + [Tagged(shape, comp, comp.assemblies[i])];
      r := r + [AsmObject(shape, comp.assemblies[i])["ComponentName" := Get(comp.attrs, "Name")]];
    }
    assert ComponentEntries(shape, comp)[..|comp.assemblies|] == ComponentEntries(shape, comp);
  }

  method PushSystemEntries(shape: AssemblyShape, comps: seq<ComponentNode>, acc: seq<Record>) returns (r: seq<Record>)
    ensures r == acc + ComponentsEntries(shape, comps)
  {
    r := acc;
    for c := 0 to |comps|
      invariant r == acc + ComponentsEntries(shape, comps[..c])
    {
      assert comps[..c + 1][..c] == comps[..c];
      r := PushComponentEntries(shape, comps[c], r);
    }
    assert comps[..|comps|] == comps;
  }

  /** `allAssemblies`, built by pushing inside nested `forEach` loops. */
  method AllAssemblies(shape: AssemblyShape, systems: seq<SystemNode>) returns (all: seq<Record>)
    ensures all == AllEntries(shape, systems)
  {
    all := [];
    for s := 0 to |systems|
      invariant all == AllEntries(shape, systems[..s])
    {
      assert systems[..s + 1][..s] == systems[..s];
      all := PushSystemEntries(shape, systems[s].components, all);
    }
    assert systems[..|systems|] == systems;
  }

  // ---------------------------------------------------------------------------
  // Top-level assemblies
  // ---------------------------------------------------------------------------

  /** Some entry names `name` as its ChildName. */
  predicate IsChildOfAny(all: seq<Record>, name: Cell) {
    exists i :: 0 <= i < |all| && Get(all[i], "ChildName") == name
  }

  /** The entries whose Name is no entry's ChildName, in order: an entry is
      top-level exactly when no entry names it as its child. */
  function TopLevelOf(entries: seq<Record>, all: seq<Record>): (r: seq<Record>)
    ensures forall e {:trigger e in r} :: e in r <==> e in entries && !IsChildOfAny(all, Get(e, "Name"))
    decreases |entries|
  {
    if |entries| == 0 then []
    else
      var n := |entries| - 1;
      var e := entries[n];
      assert entries == entries[..n] + [e];
      TopLevelOf(entries[..n], all) + (if IsChildOfAny(all, Get(e, "Name")) then [] else [e])
  }

  lemma {:induction false} TopLevelAppend(a: seq<Record>, b: seq<Record>, all: seq<Record>)
    ensures TopLevelOf(a + b, all) == TopLevelOf(a, all) + TopLevelOf(b, all)
    decreases |b|
  {
    if |b| == 0 {
      assert a + b == a;
    } else {
      var n := |b| - 1;
      assert (a + b)[..|a + b| - 1] == a + b[..n];
      TopLevelAppend(a, b[..n], all);
    }
  }

  lemma TopLevelStep(entries: seq<Record>, all: seq<Record>, i: nat)
    requires i < |entries|
    ensures TopLevelOf(entries[..i + 1], all)
      == TopLevelOf(entries[..i], all) + (if IsChildOfAny(all, Get(entries[i], "Name")) then [] else [entries[i]])
  {
    assert entries[..i + 1][..i] == entries[..i];
  }

  method PushTopLevel(shape: AssemblyShape, comp: ComponentNode, all: seq<Record>, acc: seq<Record>) returns (r: seq<Record>)
    ensures r == acc + TopLevelOf(ComponentEntries(shape, comp), all)
  {
    r := acc;
    var entries := ComponentEntries(shape, comp);
    for i := 0 to |comp.assemblies|
      invariant r == acc + TopLevelOf(entries[..i], all)
    {
      var asm := AsmObject(shape, comp.assemblies[i]);
      TopLevelStep(entries, all, i);
      assert Get(entries[i], "Name") == Get(asm, "Name");
      if !(exists j :: 0 <= j < |all| && Get(all[j], "ChildName") == Get(asm, "Name")) {
        r := r + [asm["ComponentName" := Get(comp.attrs, "Name")]];
      }
    }
    assert entries[..|comp.assemblies|] == entries;
  }

  /** A system's top-level assemblies: its components' tagged assemblies
      whose Name is not the ChildName of any flattened entry, in encounter
      order. */
  method TopLevelAssemblies(shape: AssemblyShape, sys: SystemNode, all: seq<Record>) returns (assemblies: seq<Record>)
    ensures assemblies == TopLevelOf(ComponentsEntries(shape, sys.components), all)
  {
    var comps := sys.components;
    assemblies := [];
    for c := 0 to |comps|
      invariant assemblies == TopLevelOf(ComponentsEntries(shape, comps[..c]), all)
    {
      assert comps[..c + 1][..c] == comps[..c];
      TopLevelAppend(ComponentsEntries(shape, comps[..c]), ComponentEntries(shape, comps[c]), all);
      assemblies := PushTopLevel(shape, comps[c], all, assemblies);
    }
    assert comps[..|comps|] == comps;
  }

  /** Entries that are all some entry's children leave nothing top-level. */
  lemma {:induction false} TopLevelEmpty(entries: seq<Record>, all: seq<Record>)
    requires forall k :: 0 <= k < |entries| ==> IsChildOfAny(all, Get(entries[k], "Name"))
    ensures TopLevelOf(entries, all) == []
    decreases |entries|
  {
    if |entries| > 0 {
      TopLevelEmpty(entries[..|entries| - 1], all);
    }
  }

  /** A raw-row entry reads `undefined` for both Name and ChildName. */
  lemma RawEntryUndefined(comp: ComponentNode, row: Row)
    ensures Get(Tagged(RawRows, comp, row), "Name") == None
    ensures Get(Tagged(RawRows, comp, row), "ChildName") == None
  {
    RowSpreadNamedProperty(row, "Name");
    RowSpreadNamedProperty(row, "ChildName");
  }

  /** A raw-row entry of some system counts as the child of an entry:
      itself. */
  lemma RawEntryIsChild(systems: seq<SystemNode>, s: nat, e: Record)
    requires s < |systems| && e in ComponentsEntries(RawRows, systems[s].components)
    ensures IsChildOfAny(AllEntries(RawRows, systems), Get(e, "Name"))
  {
    var all := AllEntries(RawRows, systems);
    SystemEntriesInAll(RawRows, systems, s, e);
    ComponentsEntriesMembers(RawRows, systems[s].components, e);
    var c :| 0 <= c < |systems[s].components| && e in ComponentEntries(RawRows, systems[s].components[c]);
    var comp := systems[s].components[c];
    var i :| 0 <= i < |comp.assemblies| && ComponentEntries(RawRows, comp)[i] == e;
    RawEntryUndefined(comp, comp.assemblies[i]);
    var j :| 0 <= j < |all| && all[j] == e;
  }

  /** As written (raw rows), no system ever has a top-level assembly: every
      entry's ChildName and every assembly's Name read as `undefined`, so
      each assembly counts as some entry's child. */
  lemma TopLevelEmptyForRawRows(systems: seq<SystemNode>, s: nat)
    requires s < |systems|
    ensures TopLevelOf(ComponentsEntries(RawRows, systems[s].components), AllEntries(RawRows, systems)) == []
  {
    var entries := ComponentsEntries(RawRows, systems[s].components);
    forall k | 0 <= k < |entries|
      ensures IsChildOfAny(AllEntries(RawRows, systems), Get(entries[k], "Name"))
    {
      RawEntryIsChild(systems, s, entries[k]);
    }
    TopLevelEmpty(entries, AllEntries(RawRows, systems));
  }

  /** With records, an assembly whose Name is no entry's ChildName is a
      top-level assembly of its system. */
  lemma TopLevelForRecords(header: Row, systems: seq<SystemNode>, s: nat, c: nat, i: nat)
    requires s < |systems| && c < |systems[s].components| && i < |systems[s].components[c].assemblies|
    requires var comp := systems[s].components[c];
      !IsChildOfAny(AllEntries(Records(header), systems), Get(RecordOf(header, comp.assemblies[i]), "Name"))
    ensures var comp := systems[s].components[c];
      Tagged(Records(header), comp, comp.assemblies[i])
        in TopLevelOf(ComponentsEntries(Records(header), systems[s].components), AllEntries(Records(header), systems))
  {
    var comp := systems[s].components[c];
    var e := Tagged(Records(header), comp, comp.assemblies[i]);
    assert ComponentEntries(Records(header), comp)[i] == e;
    ComponentsEntriesMembers(Records(header), systems[s].components, e);
  }

  /** One system with one component C1 whose one assembly row is A1 (part
      of P1, child X1), under the Assembly header Name, ComponentName,
      ParentName, ChildName. */
  function OneAssemblySystems(): seq<SystemNode> {
    [SystemNode(map["Name" := Some("S1")],
      [ComponentNode(map["Name" := Some("C1")], [[Some("A1"), Some("C1"), Some("P1"), Some("X1")]])])]
  }

  function AssemblyHeader(): Row {
    [Some("Name"), Some("ComponentName"), Some("ParentName"), Some("ChildName")]
  }

  /** On that input the system shows no top-level assembly as written. */
  lemma OneAssemblyRawRows()
    ensures TopLevelOf(ComponentsEntries(RawRows, OneAssemblySystems()[0].components), AllEntries(RawRows, OneAssemblySystems())) == []
  {
    TopLevelEmptyForRawRows(OneAssemblySystems(), 0);
  }

  /** With records, the same input shows A1 as its one top-level assembly. */
  lemma OneAssemblyRecords()
    ensures var systems, h := OneAssemblySystems(), AssemblyHeader();
      |TopLevelOf(ComponentsEntries(Records(h), systems[0].components), AllEntries(Records(h), systems))| == 1
  {
    var systems, h := OneAssemblySystems(), AssemblyHeader();
    var comp := systems[0].components[0];
    var row := comp.assemblies[0];
    var rec := RecordOf(h, row);
    RecordLookup(h, row, "Name");
    RecordLookup(h, row, "ChildName");
    assert LastKeyIndex(h, "ChildName") == 3;
    assert LastKeyIndex(h[..1], "Name") == 0;
    assert h[..2][..1] == h[..1] && h[..3][..2] == h[..2] && h[..3] == h[..|h| - 1];
    assert LastKeyIndex(h[..2], "Name") == 0;
    assert LastKeyIndex(h[..3], "Name") == 0;
    assert LastKeyIndex(h, "Name") == 0;
    var e := Tagged(Records(h), comp, row);
    assert Get(e, "Name") == Some("A1") && Get(e, "ChildName") == Some("X1");
    assert ComponentEntries(Records(h), comp) == [e];
    assert ComponentsEntries(Records(h), systems[0].components) == [e] by {
      assert systems[0].components[..0] == [];
    }
    assert AllEntries(Records(h), systems) == [e] by {
      assert systems[..0] == [];
    }
    assert !IsChildOfAny([e], Get(e, "Name"));
    assert [e][..0] == [];
  }

  // ---------------------------------------------------------------------------
  // An assembly's children
  // ---------------------------------------------------------------------------

  predicate IsSubassembly(a: Record, asm: Record) {
    Get(a, "ParentName") == Get(asm, "Name") && Get(a, "ComponentName") != Get(asm, "ComponentName")
  }

  predicate IsChildComponent(a: Record, asm: Record) {
    Get(a, "ParentName") == Get(asm, "Name") && Get(a, "ComponentName") == Get(asm, "ComponentName")
      && Truthy(Get(a, "ChildName"))
  }

  /** The entries under `asm` that belong to another component. */
  function Subassemblies(all: seq<Record>, asm: Record): (r: seq<Record>)
    ensures forall a :: a in r <==> a in all && IsSubassembly(a, asm)
    decreases |all|
  {
    if |all| == 0 then []
    else
      assert all == [all[0]] + all[1..];
      (if IsSubassembly(all[0], asm) then [all[0]] else []) + Subassemblies(all[1..], asm)
  }

  /** The entries under `asm` of the same component that name a child. */
  function ChildComponents(all: seq<Record>, asm: Record): (r: seq<Record>)
    ensures forall a :: a in r <==> a in all && IsChildComponent(a, asm)
    decreases |all|
  {
    if |all| == 0 then []
    else
      assert all == [all[0]] + all[1..];
      (if IsChildComponent(all[0], asm) then [all[0]] else []) + ChildComponents(all[1..], asm)
  }

  /** The two child lists are disjoint, and every entry under the assembly
      that has a ChildName lands in exactly one of them. */
  lemma ChildrenPartition(all: seq<Record>, asm: Record, a: Record)
    ensures !(a in Subassemblies(all, asm) && a in ChildComponents(all, asm))
    ensures a in all && Get(a, "ParentName") == Get(asm, "Name") && Truthy(Get(a, "ChildName")) ==>
      a in Subassemblies(all, asm) || a in ChildComponents(all, asm)
  {
  }

  // ---------------------------------------------------------------------------
  // What the view shows
  // ---------------------------------------------------------------------------

  /** What an expanded system shows. */
  datatype SystemBody = AssemblyTree(assemblies: seq<Record>) | ComponentList(components: seq<ComponentNode>) | NothingToShow

  /** The view: the "No system hierarchy data" message, or one body per
      system. */
  datatype View = NoHierarchyData | SystemsView(bodies: seq<SystemBody>)

  /** Top-level assemblies if any, else the components if any, else the
      "No assemblies or components" message. */
  function BodyOf(topLevel: seq<Record>, sys: SystemNode): (b: SystemBody)
    ensures b.AssemblyTree? <==> |topLevel| > 0
    ensures b.ComponentList? ==> b.components == sys.components && |sys.components| > 0
    ensures b.NothingToShow? <==> |topLevel| == 0 && |sys.components| == 0
  {
    if |topLevel| > 0 then AssemblyTree(topLevel)
    else if |sys.components| > 0 then ComponentList(sys.components)
    else NothingToShow
  }

  /** The drill-down of a functional hierarchy, every system expanded. */
  method SystemDrilldown(shape: AssemblyShape, h: SystemResult) returns (v: View)
    ensures v.NoHierarchyData? <==> h.SystemError?
    ensures h.SystemTree? ==> |v.bodies| == |h.systems| && forall s :: 0 <= s < |h.systems| ==>
      v.bodies[s] == BodyOf(TopLevelOf(ComponentsEntries(shape, h.systems[s].components), AllEntries(shape, h.systems)), h.systems[s])
  {
    if h.SystemError? {
      return NoHierarchyData;
    }
    var all := AllAssemblies(shape, h.systems);
    var bodies: seq<SystemBody> := [];
    for s := 0 to |h.systems|
      invariant bodies == Bodies(shape, h.systems[..s], all)
    {
      var b := ExpandSystem(shape, h.systems[s], all);
      assert h.systems[..s + 1][..s] == h.systems[..s];
      bodies := bodies + [b];
    }
    assert h.systems[..|h.systems|] == h.systems;
    forall t | 0 <= t < |h.systems|
      ensures bodies[t] == BodyOf(TopLevelOf(ComponentsEntries(shape, h.systems[t].components), all), h.systems[t])
    {
      BodiesAt(shape, h.systems, all, t);
    }
    v := SystemsView(bodies);
  }

  /** One body per system, in order. */
  function Bodies(shape: AssemblyShape, systems: seq<SystemNode>, all: seq<Record>): (bs: seq<SystemBody>)
    ensures |bs| == |systems|
    decreases |systems|
  {
    if |systems| == 0 then []
    else
      var sys := systems[|systems| - 1];
      Bodies(shape, systems[..|systems| - 1], all) + [BodyOf(TopLevelOf(ComponentsEntries(shape, sys.components), all), sys)]
  }

  lemma {:induction false} BodiesAt(shape: AssemblyShape, systems: seq<SystemNode>, all: seq<Record>, t: nat)
    requires t < |systems|
    ensures Bodies(shape, systems, all)[t] == BodyOf(TopLevelOf(ComponentsEntries(shape, systems[t].components), all), systems[t])
    decreases |systems|
  {
    var n := |systems| - 1;
    var before := Bodies(shape, systems[..n], all);
    var bs := Bodies(shape, systems, all);
    assert bs == before + [bs[n]];
    if t < n {
      BodiesAt(shape, systems[..n], all, t);
      assert systems[..n][t] == systems[t];
      assert bs[t] == before[t];
    }
  }

  /** What one expanded system shows. */
  method ExpandSystem(shape: AssemblyShape, sys: SystemNode, all: seq<Record>) returns (b: SystemBody)
    ensures b == BodyOf(TopLevelOf(ComponentsEntries(shape, sys.components), all), sys)
  {
    var assemblies := TopLevelAssemblies(shape, sys, all);
    b := BodyOf(assemblies, sys);
  }

  /** As written, an expanded system never shows an assembly tree: it shows
      its components, or the message when it has none. */
  lemma RawRowsNeverShowAssemblies(h: SystemResult, s: nat)
    requires h.SystemTree? && s < |h.systems|
    ensures !BodyOf(TopLevelOf(ComponentsEntries(RawRows, h.systems[s].components), AllEntries(RawRows, h.systems)), h.systems[s]).AssemblyTree?
  {
    TopLevelEmptyForRawRows(h.systems, s);
  }
}
