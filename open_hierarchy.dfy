/**
 * `openHierarchy`: the sheets chosen for each role in the dropdowns are
 * bundled into an object and handed to the builder of the selected view.
 */
module OpenHierarchy {
  import opened Sheets
  import Spatial
  import Functional
  import Graph

  datatype HierarchyType = FacilityView | SystemView | GraphView

  /** The sheet chosen for each role. */
  datatype Tabs = Tabs(facility: string, floor: string, space: string, system: string, component: string, assembly: string)

  datatype Opened = OpenedSpatial(spatial: Spatial.SpatialResult) | OpenedSystem(system: Functional.SystemResult) | OpenedGraph(graph: Graph.Graph)

  /** One property of an object literal: its key and the sheet name whose
      contents it holds. */
  datatype Entry = Entry(key: string, tab: string)

  /** An object literal built left to right: a later key overwrites an
      earlier one, and `allSheets[tab]` of a sheet that does not exist is
      `undefined`. */
  function ObjectLiteral(all: Workbook, entries: seq<Entry>): map<string, Option<Table>>
    decreases |entries|
  {
    if |entries| == 0 then map[]
    else
      var e := entries[|entries| - 1];
      ObjectLiteral(all, entries[..|entries| - 1])[e.key := if e.tab in all then Some(all[e.tab]) else None]
  }

  /** The builders test `!sheets.X`: a property holding `undefined` is a
      missing sheet. */
  function Defined(obj: map<string, Option<Table>>): (w: Workbook)
    ensures forall k :: k in w <==> k in obj && obj[k].Some?
  {
    map k | k in obj && obj[k].Some? :: obj[k].value
  }

  function Bundle(all: Workbook, entries: seq<Entry>): Workbook {
    Defined(ObjectLiteral(all, entries))
  }

  /** The object has exactly the entries' keys. */
  lemma {:induction false} ObjectLiteralKeys(all: Workbook, entries: seq<Entry>, k: string)
    ensures k in ObjectLiteral(all, entries) <==> exists e :: e in entries && e.key == k
    decreases |entries|
  {
    if |entries| > 0 {
      var n := |entries| - 1;
      ObjectLiteralKeys(all, entries[..n], k);
      assert entries == entries[..n] + [entries[n]];
    }
  }

  /** A key no entry carries is absent from the object. */
  lemma {:induction false} ObjectLiteralMissing(all: Workbook, entries: seq<Entry>, k: string)
    requires forall i :: 0 <= i < |entries| ==> entries[i].key != k
    ensures k !in ObjectLiteral(all, entries)
    decreases |entries|
  {
    if |entries| > 0 {
      ObjectLiteralMissing(all, entries[..|entries| - 1], k);
    }
  }

  /** With distinct keys, each key holds its own sheet. */
  lemma {:induction false} ObjectLiteralDistinct(all: Workbook, entries: seq<Entry>, i: nat)
    requires i < |entries|
    requires forall a, b :: 0 <= a < b < |entries| ==> entries[a].key != entries[b].key
    ensures entries[i].key in ObjectLiteral(all, entries)
    ensures ObjectLiteral(all, entries)[entries[i].key] == if entries[i].tab in all then Some(all[entries[i].tab]) else None
    decreases |entries|
  {
    var n := |entries| - 1;
    if i < n {
      assert entries[..n][i] == entries[i];
      ObjectLiteralDistinct(all, entries[..n], i);
    }
  }

  /** The properties `openHierarchy` writes, as written: each chosen sheet
      under its own sheet name, and for the graph also the component and
      assembly sheets under the names Component and Assembly. */
  function AsWrittenEntries(t: HierarchyType, tabs: Tabs): seq<Entry> {
    match t
    case FacilityView => [Entry(tabs.facility, tabs.facility), Entry(tabs.floor, tabs.floor), Entry(tabs.space, tabs.space)]
    case SystemView => [Entry(tabs.system, tabs.system), Entry(tabs.component, tabs.component), Entry(tabs.assembly, tabs.assembly)]
    case GraphView =>
      [Entry(tabs.system, tabs.system), Entry(tabs.component, tabs.component), Entry(tabs.assembly, tabs.assembly),
       Entry(tabs.facility, tabs.facility), Entry(tabs.floor, tabs.floor), Entry(tabs.space, tabs.space),
       Entry("Component", tabs.component), Entry("Assembly", tabs.assembly)]
  }

  /** The properties keyed by the role each builder looks up. */
  function RoleEntries(t: HierarchyType, tabs: Tabs): seq<Entry> {
    match t
    case FacilityView => [Entry("Facility", tabs.facility), Entry("Floor", tabs.floor), Entry("Space", tabs.space)]
    case _ => [Entry("System", tabs.system), Entry("Component", tabs.component), Entry("Assembly", tabs.assembly)]
  }

  function Build(t: HierarchyType, sheets: Workbook): Opened {
    match t
    case FacilityView => OpenedSpatial(Spatial.SpatialHierarchy(sheets))
    case SystemView => OpenedSystem(Functional.SystemHierarchy(sheets))
    case GraphView => OpenedGraph(Graph.GraphHierarchy(sheets))
  }

  /** `openHierarchy` as written: the selected view decides which builder
      runs. */
  function Open(t: HierarchyType, tabs: Tabs, all: Workbook): (r: Opened)
    ensures r.OpenedSpatial? <==> t == FacilityView
    ensures r.OpenedSystem? <==> t == SystemView
    ensures r.OpenedGraph? <==> t == GraphView
  {
    Build(t, Bundle(all, AsWrittenEntries(t, tabs)))
  }

  /** `openHierarchy` with the bundle keyed by role. */
  function OpenByRole(t: HierarchyType, tabs: Tabs, all: Workbook): Opened {
    Build(t, Bundle(all, RoleEntries(t, tabs)))
  }

  /** As written, a role is only found when some chosen sheet is named after
      it: with no sheet named Facility, Floor or Space among the three
      chosen, the facility view reports missing sheets. */
  lemma AsWrittenNeedsRoleNames(tabs: Tabs, all: Workbook)
    requires "Facility" !in {tabs.facility, tabs.floor, tabs.space}
    ensures Open(FacilityView, tabs, all) == OpenedSpatial(Spatial.SpatialError(Spatial.MissingSheets))
  {
    var es := AsWrittenEntries(FacilityView, tabs);
    var b := Bundle(all, es);
    ObjectLiteralMissing(all, es, "Facility");
    assert Open(FacilityView, tabs, all) == OpenedSpatial(Spatial.SpatialHierarchy(b));
  }

  /** As written, the graph view finds the component and assembly sheets
      but sees no System sheet unless a chosen sheet is named System, and
      then shows the empty graph. */
  lemma AsWrittenGraphNeedsSystemName(tabs: Tabs, all: Workbook)
    requires "System" !in {tabs.system, tabs.component, tabs.assembly, tabs.facility, tabs.floor, tabs.space}
    ensures Open(GraphView, tabs, all) == OpenedGraph(Graph.Graph([], []))
  {
    var es := AsWrittenEntries(GraphView, tabs);
    var b := Bundle(all, es);
    ObjectLiteralMissing(all, es, "System");
    assert Open(GraphView, tabs, all) == OpenedGraph(Graph.GraphHierarchy(b));
  }

  /** As written, the facility bundle holds only the three chosen sheets, so
      unless one of them is itself named Zone or Component the spatial builder
      sees neither: every space it builds shows no zone and no components. */
  lemma AsWrittenFacilityLacksZoneAndComponents(tabs: Tabs, all: Workbook)
    requires "Zone" !in {tabs.facility, tabs.floor, tabs.space}
    requires "Component" !in {tabs.facility, tabs.floor, tabs.space}
    ensures var b := Bundle(all, AsWrittenEntries(FacilityView, tabs));
      && Open(FacilityView, tabs, all) == OpenedSpatial(Spatial.SpatialHierarchy(b))
      && "Zone" !in b && "Component" !in b
      && ("Space" in b ==> forall space :: Spatial.SpaceChildrenOf(Spatial.LookupsOf(b), space) == Spatial.Components([]))
  {
    var es := AsWrittenEntries(FacilityView, tabs);
    var b := Bundle(all, es);
    ObjectLiteralMissing(all, es, "Zone");
    ObjectLiteralMissing(all, es, "Component");
    if "Space" in b {
      var look := Spatial.LookupsOf(b);
      assert !look.hasZoneSheet && look.componentsBySpace == map[];
    }
  }

  /** Keyed by role, each builder gets exactly the chosen sheets, so it
      reports missing sheets only when a chosen sheet does not exist. */
  lemma ByRoleFindsChosenSheets(t: HierarchyType, tabs: Tabs, all: Workbook)
    ensures var b, es := Bundle(all, RoleEntries(t, tabs)), RoleEntries(t, tabs);
      forall i :: 0 <= i < |es| ==> (es[i].key in b <==> es[i].tab in all) && (es[i].tab in all ==> b[es[i].key] == all[es[i].tab])
    ensures t == FacilityView ==>
      (OpenByRole(t, tabs, all).spatial.SpatialError? <==> !(tabs.facility in all && tabs.floor in all && tabs.space in all))
    ensures t == SystemView ==>
      (OpenByRole(t, tabs, all).system.SystemError? <==> !(tabs.system in all && tabs.component in all && tabs.assembly in all))
  {
    var es := RoleEntries(t, tabs);
    forall i | 0 <= i < |es|
      ensures es[i].key in ObjectLiteral(all, es)
      ensures ObjectLiteral(all, es)[es[i].key] == if es[i].tab in all then Some(all[es[i].tab]) else None
    {
      ObjectLiteralDistinct(all, es, i);
    }
    assert es[0].key in ObjectLiteral(all, es) && es[1].key in ObjectLiteral(all, es) && es[2].key in ObjectLiteral(all, es);
  }

  /** Three sheets named Facilities, Floors and Spaces, chosen for the
      facility view. */
  function RenamedTabs(): Tabs {
    Tabs("Facilities", "Floors", "Spaces", "Systems", "Components", "Assemblies")
  }

  function RenamedSheets(): Workbook {
    var t := Table([Some("Name")], []);
    map["Facilities" := t, "Floors" := t, "Spaces" := t]
  }

  /** On those sheets the facility view fails as written and succeeds when
      keyed by role. */
  lemma RenamedSheetsOpen()
    ensures Open(FacilityView, RenamedTabs(), RenamedSheets()).spatial.SpatialError?
    ensures OpenByRole(FacilityView, RenamedTabs(), RenamedSheets()).spatial.SpatialTree?
  {
    AsWrittenNeedsRoleNames(RenamedTabs(), RenamedSheets());
    ByRoleFindsChosenSheets(FacilityView, RenamedTabs(), RenamedSheets());
  }
}
