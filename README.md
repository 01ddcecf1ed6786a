# COBie hierarchy and graph engine, in Dafny

This project models the part of the spreadsheet viewer that turns COBie
workbook sheets into hierarchies and graphs, together with the pure
derivations the user interface runs on them:

- `buildCobieHierarchy`: the spatial tree Facility → Floor → Space →
  (Zone | Components). Its lookup tables are `zoneMap`, `componentsBySpace`
  and `zoneBySpace`.
- `buildCobieSystemHierarchy`: the functional tree System → Component →
  Assembly. It joins components to a system by the `SystemName` column and
  by the `;`-separated `ComponentNames` list.
- `buildCobieGraphHierarchy`: the graph of `sys-`, `asm-` and `comp-` nodes
  and its three kinds of edges.
- The graph view:
  - `cyElements`;
  - the four dropdown name lists;
  - `filteredCyElements`, including the `addReachable` fixpoint and the
    one-hop component filter.
- `openHierarchy`: how the chosen tabs are bundled for a builder.
- The grid projection of a decoded sheet.
- The system drill-down tree:
  - `toggle`;
  - the flattened `allAssemblies`;
  - each system's top-level assemblies;
  - the subassembly/component partition;
  - what an expanded system shows.
- The filter dropdown's selection algebra: search, toggle, select-all and
  clear-all.

A sheet is a `Table(header, rows)`: row 0 of the sheet is `header`. A cell
is an `Option<string>`, where `None` is JavaScript's `undefined`. A lookup
`row[header.indexOf(col)]` on an absent column reads `None`. A record (the
object built by `header.forEach((h, i) => obj[h] = row[i])`) is a
`map<string, Cell>`: when a column name repeats, the last one wins.

Where the source fills a dictionary, pushes onto a list or loops to a
fixpoint, the model is a `method` with the same loop. Most such methods are
proved equal to a specification function, and the properties are then
proved as lemmas about those functions:

- `Sheets.ProjectRecord`;
- `Spatial.BuildZoneMap`, `Spatial.BuildComponentsBySpace`,
  `Spatial.BuildZoneBySpace`;
- `Functional.JoinNamedComponents`;
- `Graph.PushSysAsmEdges`, `Graph.PushSysCompEdges`;
- `Drilldown.AllAssemblies`, `Drilldown.TopLevelAssemblies`.

The `addReachable` fixpoint and the edge ids it marks depend on the order
in which edges are visited, so `Reach.AddReachable` and `GraphFilter.Mark`
are proved against a description instead. The node ids are exactly the
reach set. The marked edge ids are exactly the edges of a discovery tree:
one edge into each reached id other than the start, leaving an id that was
reached strictly earlier.

Code that is written with `map` and `filter` is modelled as functions.

Modules, one per file:

- `Text`: `trim`, case mapping, `split`, `includes`, `new Set`, decimal
  rendering.
- `Sheets`: cells, tables, records, `indexOf`, `filter` and `find` on a
  column.
- `Spatial`, `Functional`, `Graph`: the three builders.
- `Elements`: `cyElements` and the name lists.
- `Reach`: `addReachable`.
- `GraphFilter`: `filteredCyElements`.
- `OpenHierarchy`, `Grid`, `Drilldown`, `FilterSection`.

## Model

| member | source | states |
|---|---|---|
| Sheets.CellAt | ui/src/app/spreadsheet/cobieHierarchy.js:26 | indexing past either end of a row (including index -1 from a failed `indexOf`) reads `undefined` |
| Sheets.IndexOf | ui/src/app/spreadsheet/cobieHierarchy.js:26 | `indexOf` is -1 exactly when the column is absent, and otherwise the first position holding exactly that name |
| Sheets.OrEmpty | ui/src/app/spreadsheet/cobieHierarchy.js:47 | `c \|\| ''` is non-empty exactly when the cell is truthy |
| Sheets.ProjectRecord | ui/src/app/spreadsheet/cobieHierarchy.js:34 | the `header.forEach` loop builds exactly the record of the row |
| Sheets.LastKeyIndex | ui/src/app/spreadsheet/cobieHierarchy.js:34 | finds the last header position carrying a key, or -1 when no later position does |
| Sheets.RecordLookup | ui/src/app/spreadsheet/cobieHierarchy.js:34 | a record has a key exactly when some header cell names it, and the key holds the row's cell under the last such header cell |
| Sheets.RecordColumnAgrees | ui/src/app/spreadsheet/cobieHierarchy.js:145-155 | when a column name occurs once, the record's property and the `row[header.indexOf(col)]` lookup agree |
| Sheets.RowsWhere | ui/src/app/spreadsheet/cobieHierarchy.js:79 | `filter` on a column keeps exactly the rows whose cell equals the value, and no more rows than it was given |
| Sheets.FindRow | ui/src/app/spreadsheet/cobieHierarchy.js:133-136 | a row `find` returns is one of the rows and matches, and `find` returns nothing exactly when no row matches |
| Sheets.FindIsFirstOfFilter | ui/src/app/spreadsheet/cobieHierarchy.js:133-136 | `find` returns the first row `filter` keeps, and nothing exactly when no row matches |
| Text.SkipLeading | ui/src/app/spreadsheet/cobieHierarchy.js:47 | the leading white-space run stays within the string |
| Text.SkipLeadingSpec | ui/src/app/spreadsheet/cobieHierarchy.js:47 | the run it skips is all white space and stops at a non-space or at the end |
| Text.SkipTrailing | ui/src/app/spreadsheet/cobieHierarchy.js:47 | the trailing white-space run stays within bounds |
| Text.SkipTrailingSpec | ui/src/app/spreadsheet/cobieHierarchy.js:47 | the run it cuts is all white space and stops at a non-space or at the lower bound |
| Text.TrimLead | ui/src/app/spreadsheet/cobieHierarchy.js:47 | the number of leading spaces removed is at most the length |
| Text.Trim | ui/src/app/spreadsheet/cobieHierarchy.js:47 | `trim` leaves the infix after the leading white space: it neither starts nor ends with white space, and everything cut off on either side is white space |
| Text.TrimUnpadded | ui/src/app/spreadsheet/cobieHierarchy.js:163 | trimming a string with no outer white space changes nothing |
| Text.Upper | ui/src/app/spreadsheet/cobieHierarchy.js:47 | `toUpperCase` keeps the length |
| Text.Lower | ui/src/app/spreadsheet/FilterSection.tsx:22 | `toLowerCase` keeps the length |
| Text.Normalize | ui/src/app/spreadsheet/cobieHierarchy.js:47 | a normalised space key is no longer than the raw name, has no outer white space and no lower-case letter |
| Text.NormalizeIdempotent | ui/src/app/spreadsheet/cobieHierarchy.js:47 | a trimmed, upper-cased space key is its own normal form |
| Text.Split | ui/src/app/spreadsheet/cobieHierarchy.js:163 | `split` always yields at least one part |
| Text.SplitJoin | ui/src/app/spreadsheet/cobieHierarchy.js:163 | joining the parts of a split gives back the string, and no part contains the separator |
| Text.JoinSplit | ui/src/app/spreadsheet/cobieHierarchy.js:242 | splitting separator-free parts joined by the separator gives the parts back |
| Text.SplitCons | ui/src/app/spreadsheet/cobieHierarchy.js:163 | a non-separator character joins the first part |
| Text.SplitSep | ui/src/app/spreadsheet/cobieHierarchy.js:163 | a leading separator starts an empty first part |
| Text.ContainsIff | ui/src/app/spreadsheet/FilterSection.tsx:22 | `includes` holds exactly when the term occurs at some position |
| Text.OccursContains | ui/src/app/spreadsheet/FilterSection.tsx:22 | an occurrence at any position makes `includes` true |
| Text.ContainsOccurs | ui/src/app/spreadsheet/FilterSection.tsx:22 | `includes` yields a position where the term occurs |
| Text.Dedup | ui/src/app/spreadsheet/cobieHierarchy.js:217 | `Array.from(new Set(xs))` holds exactly the elements of `xs` |
| Text.DedupDistinct | ui/src/app/spreadsheet/cobieHierarchy.js:217 | no element appears twice in the deduplicated list |
| Text.DedupOrder | ui/src/app/spreadsheet/cobieHierarchy.js:217 | the deduplicated list keeps elements in order of first occurrence |
| Text.FirstIndex | ui/src/app/spreadsheet/cobieHierarchy.js:217 | the index of the first occurrence of an element |
| Text.NatToString | ui/src/app/spreadsheet/page.tsx:310 | `String(idx)` is a non-empty string of digits |
| Text.ParseNatToString | ui/src/app/spreadsheet/page.tsx:310 | `String(idx)` reads back as `idx`, so distinct positions get distinct keys |
| Spatial.BuildZoneMap | ui/src/app/spreadsheet/cobieHierarchy.js:29-37 | the zone `forEach` fills exactly the zone map |
| Spatial.ZoneMapOf | ui/src/app/spreadsheet/cobieHierarchy.js:32-36 | every zone-map key is a non-empty zone Name, holding a zone record with that Name |
| Spatial.ZoneMapKeys | ui/src/app/spreadsheet/cobieHierarchy.js:32-36 | a name is a zone-map key exactly when it is non-empty and some zone row carries it as Name |
| Spatial.ZoneMapLast | ui/src/app/spreadsheet/cobieHierarchy.js:32-36 | a zone-map key holds the record of the last zone row with that Name |
| Spatial.SpaceKeys | ui/src/app/spreadsheet/cobieHierarchy.js:42-47 | one normalised space key per component row |
| Spatial.RecordsOf | ui/src/app/spreadsheet/cobieHierarchy.js:44-45 | one record per component row |
| Spatial.GroupBy | ui/src/app/spreadsheet/cobieHierarchy.js:52-53 | grouping by push has a key exactly for the keys that occur, and no group is empty |
| Spatial.GroupByBuckets | ui/src/app/spreadsheet/cobieHierarchy.js:52-53 | each group holds the values pushed under its key, in order; a key that never occurs reads as the empty group |
| Spatial.GroupByStep | ui/src/app/spreadsheet/cobieHierarchy.js:52-53 | one push extends the grouping of a prefix by the next pair |
| Spatial.BuildComponentsBySpace | ui/src/app/spreadsheet/cobieHierarchy.js:40-59 | the component `forEach` fills exactly the grouping of component records by normalised space key |
| Spatial.ComponentsBySpaceOf | ui/src/app/spreadsheet/cobieHierarchy.js:42-53 | a bucket exists exactly for the normalised key of some component row, and no bucket is empty |
| Spatial.ComponentsBySpaceBuckets | ui/src/app/spreadsheet/cobieHierarchy.js:42-53 | a bucket exists exactly for each normalised key some row has, and holds those rows' records in sheet order; so every component lands in exactly one bucket |
| Spatial.PaddedLowerCaseSpaceKey | ui/src/app/spreadsheet/cobieHierarchy.js:47 | a component whose SpaceName is `" s1 "` is bucketed under `S1` |
| Spatial.BuildZoneBySpace | ui/src/app/spreadsheet/cobieHierarchy.js:62-70 | the space `forEach` fills exactly the zone-by-space map |
| Spatial.ZoneBySpaceOf | ui/src/app/spreadsheet/cobieHierarchy.js:65-69 | every zone-by-space entry holds a non-empty zone name |
| Spatial.ZoneBySpaceLookup | ui/src/app/spreadsheet/cobieHierarchy.js:65-69 | a raw space name is a key exactly when some space row with that Name has a truthy Zone |
| Spatial.SpatialHierarchy | ui/src/app/spreadsheet/cobieHierarchy.js:9-16 | the result is the "Missing required sheets" error exactly when the Facility, Floor or Space sheet is absent |
| Spatial.BuildCobieHierarchy | ui/src/app/spreadsheet/cobieHierarchy.js:9-114 | building the lookup tables and the tree step by step gives exactly the spatial hierarchy |
| Spatial.FacilitiesAndFloors | ui/src/app/spreadsheet/cobieHierarchy.js:73-83 | one facility per Facility row in sheet order; its floors are the Floor rows whose FacilityName equals its Name exactly, or all floors when there is no FacilityName column |
| Spatial.SpacesOfFloor | ui/src/app/spreadsheet/cobieHierarchy.js:85-89 | a floor's spaces are the Space rows whose FloorName equals its Name exactly, in sheet order |
| Spatial.SpaceChildrenOf | ui/src/app/spreadsheet/cobieHierarchy.js:95-104 | a space gets at most one zone, and the components it shows, under that zone or directly, are exactly the bucket of its normalised Name (none when there is no bucket) |
| Spatial.SpaceChildrenSpec | ui/src/app/spreadsheet/cobieHierarchy.js:90-105 | every space gets either a one-zone list or a component list. It gets the zone exactly when a Zone sheet exists and zoneBySpace has the normalised Name. The zone is its Zone record or `{Name}`, holding the space's components. Otherwise the space holds its components directly |
| Spatial.RawZoneKeyMissesNormalisedLookup | ui/src/app/spreadsheet/cobieHierarchy.js:66-97 | a space named `" s1 "` files its zone under the raw name, the lookup uses `S1`, so it gets components and no zone even with a Zone sheet |
| Functional.ComponentOf | ui/src/app/spreadsheet/cobieHierarchy.js:150-156 | a joined component is its row's record, and its assemblies are exactly the Assembly rows whose ComponentName is its Name |
| Functional.SystemNameComponents | ui/src/app/spreadsheet/cobieHierarchy.js:144-159 | one component per SystemName-matched row |
| Functional.TrimmedNonEmptyMembers | ui/src/app/spreadsheet/cobieHierarchy.js:163 | the name list holds exactly the non-empty trimmed parts |
| Functional.FindComponentByName | ui/src/app/spreadsheet/cobieHierarchy.js:133-136 | the row found is a Component row whose Name cell is the name, and nothing is found exactly when no Component row has that Name |
| Functional.NamedJoin | ui/src/app/spreadsheet/cobieHierarchy.js:164-177 | the join keeps at least the components it started with and adds at most one per listed name |
| Functional.JoinNamedComponents | ui/src/app/spreadsheet/cobieHierarchy.js:164-177 | the `compNames.forEach` loop with `push` computes exactly the named join |
| Functional.NamedJoinAppends | ui/src/app/spreadsheet/cobieHierarchy.js:164-177 | the named join keeps the components already present in order, and only appends components resolved from listed names, each with its assemblies |
| Functional.ResolvedHasName | ui/src/app/spreadsheet/cobieHierarchy.js:133-136 | with one Name column, the component built from the row `findComponentByName(name)` returns has Name `name` |
| Functional.NamedJoinComplete | ui/src/app/spreadsheet/cobieHierarchy.js:164-177 | with one Name column, every listed name that resolves ends up as the Name of some component |
| Functional.NamedJoinNoDuplicate | ui/src/app/spreadsheet/cobieHierarchy.js:166 | with one Name column, no appended component repeats the Name of an earlier one |
| Functional.NamedJoinAppendsFresh | ui/src/app/spreadsheet/cobieHierarchy.js:164-177 | with one Name column, a component appended for the last listed name carries that name, and the name was not listed before |
| Functional.NamedJoinOrder | ui/src/app/spreadsheet/cobieHierarchy.js:164-177 | with one Name column, appended components carry listed names, in the order those names are first listed |
| Functional.SystemHierarchy | ui/src/app/spreadsheet/cobieHierarchy.js:121-126 | the result is the "Missing required sheets" error exactly when the System, Component or Assembly sheet is absent; otherwise there is one system per System row |
| Functional.Systems | ui/src/app/spreadsheet/cobieHierarchy.js:139 | one system node per System row |
| Functional.MapOver | ui/src/app/spreadsheet/cobieHierarchy.js:139 | `map` keeps the length |
| Functional.MapOverAt | ui/src/app/spreadsheet/cobieHierarchy.js:139 | `map` applies the function at every position |
| Functional.SystemsMap | ui/src/app/spreadsheet/cobieHierarchy.js:139-181 | the system list is `systemRows.map` of the per-row builder |
| Functional.SystemsAt | ui/src/app/spreadsheet/cobieHierarchy.js:139-181 | the i-th system node is built from the i-th System row |
| Functional.SystemsStep | ui/src/app/spreadsheet/cobieHierarchy.js:139-181 | one more row appends its system node |
| Functional.SystemNodeOf | ui/src/app/spreadsheet/cobieHierarchy.js:140-180 | a system node carries its System record; its components start with the SystemName-matched ones and add at most one per listed name |
| Functional.BuildSystemNode | ui/src/app/spreadsheet/cobieHierarchy.js:140-180 | the per-row builder with its loop computes exactly that row's system node |
| Functional.BuildSystems | ui/src/app/spreadsheet/cobieHierarchy.js:139-181 | building the systems row by row gives exactly the system list |
| Functional.BuildCobieSystemHierarchy | ui/src/app/spreadsheet/cobieHierarchy.js:121-184 | the builder computes exactly the functional hierarchy |
| Functional.SystemComponents | ui/src/app/spreadsheet/cobieHierarchy.js:143-179 | a system's components are first the SystemName-matched rows in sheet order, then components resolved from its ComponentNames list; each has exactly its Assembly rows |
| Functional.SystemComponentsOrder | ui/src/app/spreadsheet/cobieHierarchy.js:161-177 | with one Name column, the components a system gains from its ComponentNames list carry listed names and follow that list's order |
| Functional.SystemNameMatchIsExact | ui/src/app/spreadsheet/cobieHierarchy.js:145-148 | a SystemName-matched row comes from the sheet, has a SystemName column, and its cell equals the system's Name exactly |
| Functional.SplitSample | ui/src/app/spreadsheet/cobieHierarchy.js:163 | `"X; ;Y".split(";")` is `["X", " ", "Y"]` |
| Functional.ListedNamesSkipBlank | ui/src/app/spreadsheet/cobieHierarchy.js:162-163 | a ComponentNames cell `"X; ;Y"` lists `X` and `Y`: blank entries are skipped |
| Functional.UnresolvedNameDropped | ui/src/app/spreadsheet/cobieHierarchy.js:167-168 | a listed name no Component row carries adds nothing |
| Graph.SystemNodes | ui/src/app/spreadsheet/cobieHierarchy.js:205-214 | one system node per System row |
| Graph.ParentCells | ui/src/app/spreadsheet/cobieHierarchy.js:217 | one ParentName cell per Assembly row |
| Graph.AssemblyNodes | ui/src/app/spreadsheet/cobieHierarchy.js:218-223 | one assembly node per distinct ParentName |
| Graph.ComponentNameCells | ui/src/app/spreadsheet/cobieHierarchy.js:226 | one Name cell per Component row |
| Graph.ComponentNodes | ui/src/app/spreadsheet/cobieHierarchy.js:227-236 | one component node per Component row |
| Graph.CompList | ui/src/app/spreadsheet/cobieHierarchy.js:242 | the ComponentNames list always has at least one entry |
| Graph.ChildCells | ui/src/app/spreadsheet/cobieHierarchy.js:266 | one ChildName cell per Assembly row |
| Graph.SysAsmEdge | ui/src/app/spreadsheet/cobieHierarchy.js:245-249 | a system-to-assembly edge leads from a `sys-` id to an `asm-` id |
| Graph.RowAsmEdges | ui/src/app/spreadsheet/cobieHierarchy.js:243-251 | every edge one System row gets to an assembly leads from a `sys-` id to an `asm-` id |
| Graph.SysAsmEdges | ui/src/app/spreadsheet/cobieHierarchy.js:239-252 | every system-to-assembly edge leads from a `sys-` id to an `asm-` id |
| Graph.SysCompEdge | ui/src/app/spreadsheet/cobieHierarchy.js:272-276 | a fallback edge leads from a `sys-` id to a `comp-` id |
| Graph.RowCompEdges | ui/src/app/spreadsheet/cobieHierarchy.js:270-278 | every fallback edge of one System row leads from a `sys-` id to a `comp-` id |
| Graph.SystemCompEdges | ui/src/app/spreadsheet/cobieHierarchy.js:267-279 | every fallback edge of one System row leads from a `sys-` id to a `comp-` id |
| Graph.SysCompEdges | ui/src/app/spreadsheet/cobieHierarchy.js:266-279 | every fallback edge leads from a `sys-` id to a `comp-` id |
| Graph.AsmEdge | ui/src/app/spreadsheet/cobieHierarchy.js:259-263 | an assembly edge leads from an `asm-` id to a `comp-` id |
| Graph.AsmEdges | ui/src/app/spreadsheet/cobieHierarchy.js:255-263 | every assembly edge leads from an `asm-` id to a `comp-` id |
| Graph.PushRowAsmEdges | ui/src/app/spreadsheet/cobieHierarchy.js:243-251 | the inner `assemblyNames.forEach` appends exactly one system's assembly edges |
| Graph.PushSysAsmEdges | ui/src/app/spreadsheet/cobieHierarchy.js:239-252 | the nested `forEach` loops push exactly the system-to-assembly edges |
| Graph.PushRowCompEdges | ui/src/app/spreadsheet/cobieHierarchy.js:270-278 | the inner `compList.forEach` appends exactly one system's fallback edges |
| Graph.PushSysCompEdges | ui/src/app/spreadsheet/cobieHierarchy.js:266-279 | the second pair of loops pushes exactly the system-to-component fallback edges |
| Graph.SysAsmEdgesStep | ui/src/app/spreadsheet/cobieHierarchy.js:240-252 | one more System row appends its assembly edges |
| Graph.RowAsmEdgesStep | ui/src/app/spreadsheet/cobieHierarchy.js:243-251 | one more assembly name appends its edge when listed |
| Graph.SysCompEdgesStep | ui/src/app/spreadsheet/cobieHierarchy.js:267-279 | one more System row appends its fallback edges |
| Graph.RowCompEdgesStep | ui/src/app/spreadsheet/cobieHierarchy.js:270-278 | one more listed name appends its fallback edge when it qualifies |
| Graph.GraphHierarchy | ui/src/app/spreadsheet/cobieHierarchy.js:193-197 | the graph builder never fails: a missing System, Component or Assembly sheet gives the empty graph; otherwise there is one node per System row, per distinct ParentName and per Component row |
| Graph.BuildCobieGraphHierarchy | ui/src/app/spreadsheet/cobieHierarchy.js:193-285 | the builder, with its push loops, computes exactly the graph |
| Graph.RowAsmEdgesMembers | ui/src/app/spreadsheet/cobieHierarchy.js:243-251 | a system gets an edge to an assembly exactly when its trimmed ComponentNames list includes that ParentName |
| Graph.RowCompEdgesMembers | ui/src/app/spreadsheet/cobieHierarchy.js:270-278 | a system gets a fallback edge to each listed name that is not a ParentName or a ChildName but is a Component Name |
| Graph.ConcatOverMembers | ui/src/app/spreadsheet/cobieHierarchy.js:240 | an element of the concatenation comes from the list of some item |
| Graph.SysAsmEdgesConcat | ui/src/app/spreadsheet/cobieHierarchy.js:240-252 | the system-to-assembly edges are the concatenation of each row's edges |
| Graph.SysCompEdgesConcat | ui/src/app/spreadsheet/cobieHierarchy.js:267-279 | the fallback edges are the concatenation of each row's edges |
| Graph.SysAsmEdgesMembers | ui/src/app/spreadsheet/cobieHierarchy.js:239-252 | the system-to-assembly edges are exactly those of the individual System rows |
| Graph.SysCompEdgesMembers | ui/src/app/spreadsheet/cobieHierarchy.js:266-279 | the fallback edges are exactly those of the individual System rows |
| Graph.AsmEdgesMembers | ui/src/app/spreadsheet/cobieHierarchy.js:255-263 | the assembly edges are exactly those of the Assembly rows with both ParentName and ChildName truthy |
| Graph.AssemblyNodeExists | ui/src/app/spreadsheet/cobieHierarchy.js:217-223 | every distinct ParentName has its `asm-` node |
| Graph.AssemblyNodeAt | ui/src/app/spreadsheet/cobieHierarchy.js:218-223 | the k-th assembly name's node sits after the system nodes, at its own position |
| Graph.SystemNodeExists | ui/src/app/spreadsheet/cobieHierarchy.js:205-214 | with one Name column, every System row has its `sys-` node |
| Graph.ComponentNodeExists | ui/src/app/spreadsheet/cobieHierarchy.js:226-236 | with one Name column, every Component Name has its `comp-` node |
| Graph.SystemEdgeEndpoints | ui/src/app/spreadsheet/cobieHierarchy.js:239-279 | with one Name column in the System and Component sheets, both ends of every system edge are nodes |
| Graph.AssemblyEdgeSource | ui/src/app/spreadsheet/cobieHierarchy.js:255-263 | an assembly edge always leaves an emitted assembly node and always targets a `comp-` id |
| Graph.EdgeSourcesExist | ui/src/app/spreadsheet/cobieHierarchy.js:281-284 | with one Name column in the System and Component sheets, every edge leaves a node of the graph |
| Graph.GhostNodes | ui/src/app/spreadsheet/cobieHierarchy.js:217-236 | for one component C1 and one Assembly row A1 → Ghost, the nodes are `asm-A1` and `comp-C1` |
| Graph.DanglingAssemblyEdge | ui/src/app/spreadsheet/cobieHierarchy.js:262 | on that input the edge `asm-A1 → comp-Ghost` exists while no `comp-Ghost` node does |
| Elements.Label | ui/src/app/spreadsheet/page.tsx:403 | the label is `Name \|\| ParentName \|\| ChildName \|\| id`, never empty for a node with an id |
| Elements.CyElements | ui/src/app/spreadsheet/page.tsx:400-410 | one element per node, then one per edge, each the element of that node or edge in order |
| Elements.NodeElement | ui/src/app/spreadsheet/page.tsx:402-405 | a node element has the node's type as its classes and the keys of its data plus `id` and `label`. Its id and label are the node's own unless its data overrides them, and it carries all of that data |
| Elements.EdgeElement | ui/src/app/spreadsheet/page.tsx:406-408 | an edge element has exactly the keys `id`, `source` and `target`, holding the edge's own, and no classes |
| Elements.NamesOfKindAppend | ui/src/app/spreadsheet/page.tsx:424 | the name list of one node type distributes over concatenation |
| Elements.NamesOf | ui/src/app/spreadsheet/page.tsx:424 | one name per node |
| Elements.NamesOfKindUniform | ui/src/app/spreadsheet/page.tsx:424 | a run of nodes of one type contributes all its names or none |
| Elements.NamesOfKindRuns | ui/src/app/spreadsheet/page.tsx:422-447 | three runs of one type each contribute only the run of the requested type |
| Elements.RowNames | ui/src/app/spreadsheet/page.tsx:424 | one Name per sheet row |
| Elements.SystemNamesOfBuiltGraph | ui/src/app/spreadsheet/page.tsx:422-425 | on a built graph the system dropdown lists the System records' Names, in sheet order |
| Elements.NamesOfBuiltNodes | ui/src/app/spreadsheet/page.tsx:422-447 | each dropdown over a built graph sees only its own run of nodes |
| Elements.AssemblyNodeNames | ui/src/app/spreadsheet/page.tsx:430 | the assembly nodes' Names are the assembly names |
| Elements.AssemblyNamesOfBuiltGraph | ui/src/app/spreadsheet/page.tsx:428-431 | the assembly dropdown lists the distinct ParentNames in first-occurrence order |
| Elements.ComponentNamesOfBuiltGraph | ui/src/app/spreadsheet/page.tsx:444-447 | the component dropdown lists the Component records' Names, in sheet order |
| Elements.AssemblyTargetsEmpty | ui/src/app/spreadsheet/page.tsx:437-439 | with no `asm-` → `asm-` edge there are no subassembly targets |
| Elements.SubassemblyNames | ui/src/app/spreadsheet/page.tsx:434-441 | the subassembly dropdown lists each `asm-` → `asm-` edge target once, with the prefix removed, and nothing else |
| Elements.BuiltNodes | ui/src/app/spreadsheet/cobieHierarchy.js:282 | a built graph's nodes are the system, then assembly, then component nodes |
| Elements.NotAssemblyLink | ui/src/app/spreadsheet/page.tsx:437-439 | an edge out of a `sys-` id or into a `comp-` id is no `asm-` → `asm-` link |
| Elements.SubassemblyNamesEmpty | ui/src/app/spreadsheet/page.tsx:434-441 | on any graph the builder produces, the subassembly dropdown is empty |
| GraphFilter.AssemblySeeds | ui/src/app/spreadsheet/page.tsx:480-486 | one `asm-` seed per selected name |
| GraphFilter.UnionOverMembers | ui/src/app/spreadsheet/page.tsx:473 | an id is in the union exactly when one member's set has it |
| GraphFilter.SeedReachIsUnion | ui/src/app/spreadsheet/page.tsx:476-486 | the reach of the seeds is the union of their reach sets |
| GraphFilter.SeedReachMembers | ui/src/app/spreadsheet/page.tsx:476-486 | an id is kept exactly when some seed reaches it |
| GraphFilter.SeedReachStep | ui/src/app/spreadsheet/page.tsx:476-486 | one more seed adds exactly its reach set |
| GraphFilter.ReseedFilterAddsNothing | ui/src/app/spreadsheet/page.tsx:460-486 | re-seeding the filter from any node it keeps adds no node |
| GraphFilter.TreeIdsMembers | ui/src/app/spreadsheet/page.tsx:468 | an edge id is marked by the traversals exactly when it is the discovery edge of some id in one of their trees |
| GraphFilter.TreesStep | ui/src/app/spreadsheet/page.tsx:476-486 | one more traversal adds its discovery tree, and its tree's edge ids to the marked ones |
| GraphFilter.AddSeed | ui/src/app/spreadsheet/page.tsx:460-474 | one `addReachable` call adds its reach set to the nodes and the edges of its discovery tree to the marked edge ids |
| GraphFilter.AddAssemblies | ui/src/app/spreadsheet/page.tsx:480-486 | the `forEach` over selected names adds the reach set and the discovery tree of each `asm-` seed, in order |
| GraphFilter.HopEndsMembers | ui/src/app/spreadsheet/page.tsx:490-496 | a node joins by the hop exactly when it is an end of an edge touching the component |
| GraphFilter.HopEdgeIdsMembers | ui/src/app/spreadsheet/page.tsx:490-496 | an edge id joins by the hop exactly when its edge touches the component |
| GraphFilter.ComponentHop | ui/src/app/spreadsheet/page.tsx:488-497 | the component filter adds the component's id, and every incident edge with both its ends, in both directions |
| GraphFilter.Highlight | ui/src/app/spreadsheet/page.tsx:501 | highlighting keeps the number of edges |
| GraphFilter.KeepNodes | ui/src/app/spreadsheet/page.tsx:499 | an element is kept as a node exactly when it has an id and that id is marked |
| GraphFilter.KeepEdges | ui/src/app/spreadsheet/page.tsx:500 | an element is kept as an edge exactly when it has a truthy source and a marked id |
| GraphFilter.KeepNodesAppend | ui/src/app/spreadsheet/page.tsx:499 | the node filter distributes over concatenation, so the kept nodes keep their order among the elements |
| GraphFilter.KeepEdgesAppend | ui/src/app/spreadsheet/page.tsx:500-501 | the edge filter distributes over concatenation, so the kept edges keep their order among the elements |
| GraphFilter.KeepNodesAll | ui/src/app/spreadsheet/page.tsx:499 | when every id is marked, the filter keeps the elements in order, unchanged |
| GraphFilter.SeedAll | ui/src/app/spreadsheet/page.tsx:475-486 | the system, assembly and subassembly traversals in call order keep exactly the union of the seeds' reach sets, and mark exactly the edges of one discovery tree per seed |
| GraphFilter.Mark | ui/src/app/spreadsheet/page.tsx:456-497 | the marked nodes are the union of the reach sets plus the component hop. The marked edges are exactly the discovery-tree edges of the traversals plus, with a component selected, every edge touching it |
| GraphFilter.MarkedEdgesSpan | ui/src/app/spreadsheet/page.tsx:460-497 | the marked edges reach every id each seed reaches, each by an edge from an id that seed reaches |
| GraphFilter.FilteredCyElements | ui/src/app/spreadsheet/page.tsx:450-503 | outside the graph view the result is empty. With nothing selected it is `cyElements` unchanged. Otherwise it is the kept nodes in `cyElements` order, then the edges whose ids are marked as `Mark` states, highlighted |
| GraphFilter.ShownNode | ui/src/app/spreadsheet/page.tsx:499 | a node whose data does not override `id` is shown exactly when its id is marked |
| GraphFilter.ShownEdge | ui/src/app/spreadsheet/page.tsx:500-501 | a marked edge with a non-empty source is always shown |
| Reach.PathExtend | ui/src/app/spreadsheet/page.tsx:466-467 | following an edge out of the end of a path extends the path |
| Reach.PathStaysInClosed | ui/src/app/spreadsheet/page.tsx:463-472 | a path from inside a closed set stays inside it |
| Reach.ClosedContainsReachable | ui/src/app/spreadsheet/page.tsx:463-472 | a closed set around the start contains everything reachable from it |
| Reach.ReachableInUniverse | ui/src/app/spreadsheet/page.tsx:466-467 | every reachable id is the start or an edge target |
| Reach.ReachSetIs | ui/src/app/spreadsheet/page.tsx:463-473 | a closed set of reachable ids around the start is the reach set |
| Reach.ReachSetClosed | ui/src/app/spreadsheet/page.tsx:463-472 | the reach set is closed under outgoing edges |
| Reach.ReseedAddsNothing | ui/src/app/spreadsheet/page.tsx:460-473 | starting again from a reached id reaches nothing new |
| Reach.StrictSubsetShrinksRest | ui/src/app/spreadsheet/page.tsx:463 | each sweep that finds something new shrinks what is left to find, so the loop terminates |
| Reach.ParentIdsStep | ui/src/app/spreadsheet/page.tsx:468 | recording one discovery edge adds exactly its id |
| Reach.PathsStep | ui/src/app/spreadsheet/page.tsx:466-467 | each newly related id gets a path from the start |
| Reach.TraversalStep | ui/src/app/spreadsheet/page.tsx:466-469 | adding an edge target that was not yet related keeps every related id reachable, with exactly one discovery edge each |
| Reach.RankedStep | ui/src/app/spreadsheet/page.tsx:466-468 | recording a newly reached id with the edge that reached it keeps every discovery edge leaving an id reached strictly earlier |
| Reach.Sweep | ui/src/app/spreadsheet/page.tsx:465-471 | one pass over the edges keeps the traversal state. It grows the set when it finds something new; otherwise the set is closed |
| Reach.TreeSpans | ui/src/app/spreadsheet/page.tsx:468 | the edges of a discovery tree reach every id of the reach set other than the start, each from a reachable id |
| Reach.AddReachable | ui/src/app/spreadsheet/page.tsx:460-474 | `addReachable` terminates and adds exactly the ids reachable from the start. The edge ids it marks are those of a discovery tree: one edge into each newly reached id, leaving an id reached strictly earlier |
| Reach.StartReached | ui/src/app/spreadsheet/page.tsx:461 | the start is always in its own reach set |
| Reach.CycleReach | ui/src/app/spreadsheet/page.tsx:460-474 | with edges e1: S → A, e2: A → B and e3: B → A, S reaches S, A and B |
| Reach.CycleParentIds | ui/src/app/spreadsheet/page.tsx:468 | on that graph, any choice of one earlier-ranked parent edge for A and for B marks e1 and e2 |
| Reach.BackEdgeNeverMarked | ui/src/app/spreadsheet/page.tsx:460-474 | on that graph, starting at S marks e1 and e2 but never the back edge e3, whatever the order of discovery |
| OpenHierarchy.Defined | ui/src/app/spreadsheet/page.tsx:342-363 | a property holding `undefined` is a missing sheet to the builders |
| OpenHierarchy.ObjectLiteralKeys | ui/src/app/spreadsheet/page.tsx:342-363 | the bundle has exactly the keys written in it |
| OpenHierarchy.ObjectLiteralMissing | ui/src/app/spreadsheet/page.tsx:342-363 | a key no entry carries is absent from the bundle |
| OpenHierarchy.ObjectLiteralDistinct | ui/src/app/spreadsheet/page.tsx:342-363 | with distinct keys, each key holds its own tab's sheet, or `undefined` when there is no such tab |
| OpenHierarchy.Open | ui/src/app/spreadsheet/page.tsx:339-374 | the selected view decides the builder: facility gives the spatial tree, system the functional tree and graph the graph |
| OpenHierarchy.AsWrittenNeedsRoleNames | ui/src/app/spreadsheet/page.tsx:341-346 | as written, when no chosen tab is named Facility, the facility view reports missing sheets |
| OpenHierarchy.AsWrittenGraphNeedsSystemName | ui/src/app/spreadsheet/page.tsx:353-363 | as written, when no chosen tab is named System, the graph view is empty |
| OpenHierarchy.AsWrittenFacilityLacksZoneAndComponents | ui/src/app/spreadsheet/page.tsx:341-346 | as written, unless a chosen tab is named Zone or Component, the facility bundle holds neither sheet, so every space the spatial builder makes shows no zone and no components |
| OpenHierarchy.ByRoleFindsChosenSheets | ui/src/app/spreadsheet/page.tsx:339-374 | keyed by role, each builder gets exactly the chosen sheets, and reports missing sheets exactly when a chosen tab does not exist |
| OpenHierarchy.RenamedSheetsOpen | ui/src/app/spreadsheet/page.tsx:341-346 | tabs named Facilities, Floors and Spaces fail as written and open when keyed by role |
| Grid.ColumnOf | ui/src/app/spreadsheet/page.tsx:310 | every grid column has a non-empty name |
| Grid.GridColumns | ui/src/app/spreadsheet/page.tsx:310 | one grid column per header cell |
| Grid.RowObject | ui/src/app/spreadsheet/page.tsx:311-315 | a non-array row is `{}`; an array row has the index key of each header position and no other, each holding its cell or `""` when missing |
| Grid.ProjectSheet | ui/src/app/spreadsheet/page.tsx:307-316 | the result is an error exactly for an empty sheet ("Sheet is empty") or a header that is not an array ("Header row is not an array"). Otherwise there is one column per header cell and one row per data row |
| Grid.NatToStringInjective | ui/src/app/spreadsheet/page.tsx:310 | distinct positions give distinct column keys |
| Grid.FillSpec | ui/src/app/spreadsheet/page.tsx:314 | the row object has the index key of each header position and no other, each holding its cell or `""` |
| Grid.FillKeys | ui/src/app/spreadsheet/page.tsx:314 | every key of a row object is an index key |
| Grid.ColumnKeys | ui/src/app/spreadsheet/page.tsx:310 | a column's key reads back as its position. A blank header cell is named `Column i+1`; any other cell names its column |
| Grid.RowUnderColumns | ui/src/app/spreadsheet/page.tsx:311-316 | a non-array row becomes `{}`. An array row shows, under each column's key, its cell or `""` when missing, and has no other key |
| Drilldown.Toggle | ui/src/app/spreadsheet/SystemDrilldownTree.tsx:6-8 | `toggle(id)` flips only `id` and leaves every other entry as it was |
| Drilldown.ToggleTwice | ui/src/app/spreadsheet/SystemDrilldownTree.tsx:6-8 | toggling twice restores what every id reads as |
| Drilldown.RowSpreadKeys | ui/src/app/spreadsheet/SystemDrilldownTree.tsx:18 | spreading an array row only yields index keys |
| Drilldown.RowSpreadNamedProperty | ui/src/app/spreadsheet/SystemDrilldownTree.tsx:18 | a spread array row has no Name, ParentName or ChildName property |
| Drilldown.Tagged | ui/src/app/spreadsheet/SystemDrilldownTree.tsx:18 | a tagged entry has ComponentName set to the component's Name and every other property of the assembly |
| Drilldown.ComponentEntries | ui/src/app/spreadsheet/SystemDrilldownTree.tsx:17-19 | one entry per assembly of the component |
| Drilldown.ComponentsEntriesLength | ui/src/app/spreadsheet/SystemDrilldownTree.tsx:15-21 | one entry per assembly of every component |
| Drilldown.AllEntries | ui/src/app/spreadsheet/SystemDrilldownTree.tsx:13-22 | `allAssemblies` has as many entries as all the assembly lists together |
| Drilldown.SystemEntriesInAll | ui/src/app/spreadsheet/SystemDrilldownTree.tsx:13-22 | every system's entries are in `allAssemblies` |
| Drilldown.ComponentsEntriesMembers | ui/src/app/spreadsheet/SystemDrilldownTree.tsx:15-21 | every entry is one component's tagged assembly, and each such is an entry |
| Drilldown.PushComponentEntries | ui/src/app/spreadsheet/SystemDrilldownTree.tsx:17-19 | the innermost loop pushes exactly the component's tagged assemblies |
| Drilldown.PushSystemEntries | ui/src/app/spreadsheet/SystemDrilldownTree.tsx:15-21 | the middle loop pushes exactly the system's tagged assemblies |
| Drilldown.AllAssemblies | ui/src/app/spreadsheet/SystemDrilldownTree.tsx:13-22 | the nested loops build exactly the concatenation over systems, then components, of each component's tagged assemblies |
| Drilldown.TopLevelOf | ui/src/app/spreadsheet/SystemDrilldownTree.tsx:96 | an entry is top-level exactly when its Name is no entry's ChildName |
| Drilldown.TopLevelStep | ui/src/app/spreadsheet/SystemDrilldownTree.tsx:94-98 | one more entry is appended exactly when it is top-level |
| Drilldown.TopLevelAppend | ui/src/app/spreadsheet/SystemDrilldownTree.tsx:91-101 | the top-level selection keeps encounter order |
| Drilldown.PushTopLevel | ui/src/app/spreadsheet/SystemDrilldownTree.tsx:94-99 | the inner loop pushes exactly the component's top-level assemblies |
| Drilldown.TopLevelAssemblies | ui/src/app/spreadsheet/SystemDrilldownTree.tsx:91-101 | a system's top-level assemblies are its components' assemblies whose Name is no entry's ChildName, in encounter order |
| Drilldown.TopLevelEmpty | ui/src/app/spreadsheet/SystemDrilldownTree.tsx:96 | when every entry is some entry's child, nothing is top-level |
| Drilldown.RawEntryUndefined | ui/src/app/spreadsheet/SystemDrilldownTree.tsx:18 | a raw-row entry reads `undefined` for Name and ChildName |
| Drilldown.RawEntryIsChild | ui/src/app/spreadsheet/SystemDrilldownTree.tsx:96 | every raw-row entry counts as some entry's child |
| Drilldown.TopLevelEmptyForRawRows | ui/src/app/spreadsheet/SystemDrilldownTree.tsx:91-101 | with the builder's raw rows, no system has a top-level assembly |
| Drilldown.TopLevelForRecords | ui/src/app/spreadsheet/SystemDrilldownTree.tsx:91-101 | with records, an assembly whose Name is no entry's ChildName is top-level in its system |
| Drilldown.OneAssemblyRawRows | ui/src/app/spreadsheet/SystemDrilldownTree.tsx:91-101 | one system with one assembly A1 shows no top-level assembly as written |
| Drilldown.OneAssemblyRecords | ui/src/app/spreadsheet/SystemDrilldownTree.tsx:91-101 | the same input shows one top-level assembly with records |
| Drilldown.Subassemblies | ui/src/app/spreadsheet/SystemDrilldownTree.tsx:31 | subassemblies are exactly the entries with ParentName = Name and a different ComponentName |
| Drilldown.ChildComponents | ui/src/app/spreadsheet/SystemDrilldownTree.tsx:33 | child components are exactly the entries with ParentName = Name, the same ComponentName and a truthy ChildName |
| Drilldown.ChildrenPartition | ui/src/app/spreadsheet/SystemDrilldownTree.tsx:31-33 | the two child lists are disjoint, and every entry under the assembly with a ChildName is in one of them |
| Drilldown.BodyOf | ui/src/app/spreadsheet/SystemDrilldownTree.tsx:118-122 | an expanded system shows an assembly tree exactly when it has top-level assemblies, else its components if it has any, else the message exactly when it has neither |
| Drilldown.Bodies | ui/src/app/spreadsheet/SystemDrilldownTree.tsx:88 | one body per system |
| Drilldown.BodiesAt | ui/src/app/spreadsheet/SystemDrilldownTree.tsx:88-128 | the t-th body is the t-th system's |
| Drilldown.ExpandSystem | ui/src/app/spreadsheet/SystemDrilldownTree.tsx:89-124 | one expanded system shows the body its top-level assemblies call for |
| Drilldown.SystemDrilldown | ui/src/app/spreadsheet/SystemDrilldownTree.tsx:10-128 | the "No system hierarchy data" message exactly for a result without systems; otherwise one body per system, from its top-level assemblies among all entries |
| Drilldown.RawRowsNeverShowAssemblies | ui/src/app/spreadsheet/SystemDrilldownTree.tsx:118-122 | as written, an expanded system never shows an assembly tree |
| FilterSection.FilteredItems | ui/src/app/spreadsheet/FilterSection.tsx:21-23 | an item is shown exactly when its lower-case form contains the lower-cased term |
| FilterSection.FilteredItemsAppend | ui/src/app/spreadsheet/FilterSection.tsx:21-23 | the search keeps item order |
| FilterSection.ContainsEmpty | ui/src/app/spreadsheet/FilterSection.tsx:22 | every string contains the empty term |
| FilterSection.EmptySearchShowsAll | ui/src/app/spreadsheet/FilterSection.tsx:21-23 | an empty search shows every item |
| FilterSection.Without | ui/src/app/spreadsheet/FilterSection.tsx:27 | removing an item never lengthens the selection |
| FilterSection.WithoutMembers | ui/src/app/spreadsheet/FilterSection.tsx:27 | removal drops every occurrence of the item and nothing else |
| FilterSection.WithoutAbsent | ui/src/app/spreadsheet/FilterSection.tsx:27 | removing an absent item changes nothing |
| FilterSection.WithoutAppend | ui/src/app/spreadsheet/FilterSection.tsx:27 | removal keeps order |
| FilterSection.Toggle | ui/src/app/spreadsheet/FilterSection.tsx:25-30 | a selected item leaves the selection, every occurrence of it and nothing else; an unselected one is appended at the end |
| FilterSection.ToggleTwiceRestores | ui/src/app/spreadsheet/FilterSection.tsx:25-30 | toggling an unselected item twice restores the selection |
| FilterSection.ToggleTwiceMovesToEnd | ui/src/app/spreadsheet/FilterSection.tsx:25-30 | toggling a selected item twice moves it to the end, once |
| FilterSection.SelectAll | ui/src/app/spreadsheet/FilterSection.tsx:32-34 | select-all replaces the selection by exactly the shown items, dropping selected items the search hides |
| FilterSection.ClearAll | ui/src/app/spreadsheet/FilterSection.tsx:36-38 | clear-all leaves the selection empty |

## Left out

- Rendering: all JSX, styling and the Cytoscape stylesheet, layout and tooltips. The counts shown next to names and the recursion of `renderAssemblies` are left out too. Only the data each view is computed from is modelled.
- The per-assembly `expanded` ids and the nested rendering: `Drilldown.SystemDrilldown` models every system as expanded. It shows what an expanded system displays. It does not model which systems the user has opened; `Drilldown.Toggle` models that state on its own.
- File upload, XLSX decoding and `sheet_to_json` are browser I/O and a foreign library. Sheets arrive as decoded tables, and `Grid.ProjectSheet` takes the decoded rows as a parameter.
- Debug `console.log` calls and React hooks and memoisation: they do not change any result.
- The `position` of each graph node (layout only) and `graphElements` (page.tsx:377-397), which only builds random positions for a hierarchy shape the graph view does not use.
- The API routes under `api/maximo-connections`: file system and database I/O.
- Cells are strings or `undefined`. Numeric or boolean cells from the decoder are not modelled; on those `trim()` would throw. Sparse rows are treated as dense rows of `undefined`.
- A sheet with no rows at all, which JavaScript destructuring turns into an `undefined` header: every `Table` has a header row.
- Text.Trim: `trim` strips the ASCII white-space characters only, not the other Unicode white space JavaScript also strips.
- Text.Upper: case mapping is modelled on ASCII letters only.
- Text.Lower: case mapping is modelled on ASCII letters only, so the search does not fold non-ASCII letters as `toLowerCase` does.
- The `hierarchyType !== 'graph' || !hierarchy || !('nodes' in hierarchy)` guard of `cyElements` and `filteredCyElements` is the `graphView` flag of `GraphFilter.FilteredCyElements`.
- Reach.AddReachable: each marked edge is proved to enter its id from an id reached strictly earlier, and no other edge id is marked. When several such edges enter one id, which one the sweep meets first depends on edge order, and the contract does not say which.
- GraphFilter.Mark: exact up to that same choice. For each traversal, the marked edges are one discovery edge per reached id other than the seed, plus the hop's edges.
- GraphFilter.ShownNode: states the node case for nodes whose data has no `id` property; a data `id` overrides the node id in the element, as `Elements.NodeElement` states.
- Elements.Label: its contract only promises a non-empty label for a node with an id; the full label and the override by node data are stated by `Elements.NodeElement`.
- The dictionaries `zoneMap`, `zoneBySpace`, `componentsBySpace` and `expanded` are JavaScript objects; they are modelled as maps holding only the keys written to them. An object also answers the keys it inherits from `Object.prototype`: a space whose Zone is `toString`, `constructor` or `valueOf` finds a truthy `zoneMap[zoneName]` even with no such zone row, and its zone is then built from that inherited function, without a Name. A zone row named `__proto__` replaces the prototype of `zoneMap` instead of adding an entry. Such names are not modelled. (The `componentsBySpace` and `zoneBySpace` lookups use upper-cased keys and `expanded` uses `sys-`/`asm-` ids, which no inherited key matches.)

## Findings

| source | as written | input that shows it | evidently intended | confidence | as-written member | corrected member |
|---|---|---|---|---|---|---|
| ui/src/app/spreadsheet/SystemDrilldownTree.tsx:91-101 | the functional builder stores assemblies as raw row arrays, so `{ ...asm }` has only index keys; `a.ChildName === asm.Name` compares `undefined` with `undefined` and every assembly counts as some entry's child | one system S1, one component C1, one Assembly row `[A1, C1, P1, X1]` under the header Name, ComponentName, ParentName, ChildName | A1 is the system's one top-level assembly, as when assemblies are records read through the Assembly header | high, not executed | Drilldown.OneAssemblyRawRows | Drilldown.OneAssemblyRecords |
| ui/src/app/spreadsheet/page.tsx:339-374 | the sheets handed to a builder are keyed by the chosen tab names, while the builders look up the fixed names Facility, Floor, Space and System; the facility bundle also never holds the Zone and Component sheets, so even with matching names every space shows no zone and no components (the page offers no zone tab to choose, so the corrected bundle keeps this) | tabs named Facilities, Floors and Spaces chosen for the facility view | each builder receives the chosen sheets under the role names it reads, so renamed tabs open | medium, not executed | OpenHierarchy.AsWrittenNeedsRoleNames | OpenHierarchy.ByRoleFindsChosenSheets |
