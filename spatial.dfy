/**
 * `buildCobieHierarchy`: the spatial containment tree
 * Facility > Floor > Space > (Zone | Components) joined by name across sheets.
 */
module Spatial {
  import opened Text
  import opened Sheets

  const MissingSheets := "Missing required sheets"

  datatype ZoneNode = ZoneNode(attrs: Record, components: seq<Record>)

  /** A space carries exactly one of `zones` (a single zone holding its
      components) or `components`. */
  datatype SpaceChildren = Zones(zones: seq<ZoneNode>) | Components(components: seq<Record>)

  datatype SpaceNode = SpaceNode(attrs: Record, children: SpaceChildren)

  datatype FloorNode = FloorNode(attrs: Record, spaces: seq<SpaceNode>)

  datatype FacilityNode = FacilityNode(attrs: Record, floors: seq<FloorNode>)

  datatype SpatialResult = SpatialError(error: string) | SpatialTree(facilities: seq<FacilityNode>)

  // ---------------------------------------------------------------------------
  // zoneMap: Zone name -> Zone record
  // ---------------------------------------------------------------------------

  function ZoneName(header: Row, row: Row): Cell {
    Get(RecordOf(header, row), "Name")
  }

  /** The zone map: a zone row whose Name is truthy files its record
      under that name; a later row of the same name replaces an earlier one.
      Every zone is filed under its own non-empty Name. */
  function ZoneMapOf(header: Row, rows: seq<Row>): (m: map<string, Record>)
    ensures forall k :: k in m ==> k != "" && Get(m[k], "Name") == Some(k)
    decreases |rows|
  {
    if |rows| == 0 then map[]
    else
      var m := ZoneMapOf(header, rows[..|rows| - 1]);
      var last := rows[|rows| - 1];
      var name := ZoneName(header, last);
      if Truthy(name) then m[name.value := RecordOf(header, last)] else m
  }

  method BuildZoneMap(header: Row, rows: seq<Row>) returns (zoneMap: map<string, Record>)
    ensures zoneMap == ZoneMapOf(header, rows)
  {
    zoneMap := map[];
    for i := 0 to |rows|
      invariant zoneMap == ZoneMapOf(header, rows[..i])
    {
      assert rows[..i + 1][..i] == rows[..i];
      var zone := ProjectRecord(header, rows[i]);
      var name := Get(zone, "Name");
      if name.Some? && name.value != "" {
        zoneMap := zoneMap[name.value := zone];
      }
    }
    assert rows[..|rows|] == rows;
  }

  /** A name is a key of zoneMap exactly when some zone row carries it as a
      non-empty Name. */
  lemma {:induction false} ZoneMapKeys(header: Row, rows: seq<Row>, k: string)
    ensures k in ZoneMapOf(header, rows) <==> k != "" && exists row :: row in rows && ZoneName(header, row) == Some(k)
    decreases |rows|
  {
    if |rows| > 0 {
      var n := |rows| - 1;
      ZoneMapKeys(header, rows[..n], k);
      assert rows == rows[..n] + [rows[n]];
    }
  }

  /** A key of zoneMap holds the record of the last zone row carrying that
      Name: later rows overwrite earlier ones. */
  lemma {:induction false} ZoneMapLast(header: Row, rows: seq<Row>, k: string)
    requires k in ZoneMapOf(header, rows)
    ensures exists i ::
      && 0 <= i < |rows| && ZoneName(header, rows[i]) == Some(k)
      && ZoneMapOf(header, rows)[k] == RecordOf(header, rows[i])
      && forall j :: i < j < |rows| ==> ZoneName(header, rows[j]) != Some(k)
    decreases |rows|
  {
    var n := |rows| - 1;
    var init := rows[..n];
    ZoneMapKeys(header, rows, k);
    if ZoneName(header, rows[n]) == Some(k) {
      assert ZoneMapOf(header, rows)[k] == RecordOf(header, rows[n]);
    } else {
      assert k in ZoneMapOf(header, init);
      ZoneMapLast(header, init, k);
      var i :| 0 <= i < n && ZoneName(header, init[i]) == Some(k)
        && ZoneMapOf(header, init)[k] == RecordOf(header, init[i])
        && forall j :: i < j < n ==> ZoneName(header, init[j]) != Some(k);
      assert init[i] == rows[i];
      forall j | i < j < |rows|
        ensures ZoneName(header, rows[j]) != Some(k)
      {
        if j < n {
          assert init[j] == rows[j];
        }
      }
    }
  }

  // ---------------------------------------------------------------------------
  // componentsBySpace: normalised space key -> Component records
  // ---------------------------------------------------------------------------

  /** The column a component names its space in: `SpaceName` when the header
      has one, otherwise `Space` (possibly -1). */
  function SpaceColumn(header: Row): int {
    if Some("SpaceName") in header then IndexOf(header, "SpaceName") else IndexOf(header, "Space")
  }

  /** The normalised space key of a component row. */
  function SpaceKey(header: Row, row: Row): string {
    Normalize(OrEmpty(CellAt(row, SpaceColumn(header))))
  }

  /** The normalised space key of each component row, in sheet order. */
  function SpaceKeys(header: Row, rows: seq<Row>): (keys: seq<string>)
    ensures |keys| == |rows|
  {
    seq(|rows|, i requires 0 <= i < |rows| => SpaceKey(header, rows[i]))
  }

  /** The record of each row, in sheet order. */
  function RecordsOf(header: Row, rows: seq<Row>): (recs: seq<Record>)
    ensures |recs| == |rows|
  {
    seq(|rows|, i requires 0 <= i < |rows| => RecordOf(header, rows[i]))
  }

  /** Each value pushed, in turn, onto the bucket of its key, a bucket being
      created at its key's first occurrence. */
  function GroupBy<V>(keys: seq<string>, vals: seq<V>): (m: map<string, seq<V>>)
    requires |keys| == |vals|
    ensures forall k :: k in m <==> k in keys
    ensures forall k :: k in m ==> |m[k]| > 0
    decreases |keys|
  {
    if |keys| == 0 then map[]
    else
      var n := |keys| - 1;
      assert keys == keys[..n] + [keys[n]];
      var m := GroupBy(keys[..n], vals[..n]);
      m[keys[n] := Lookup(m, keys[n]) + [vals[n]]]
  }

  /** The group under `key`, or none when there is no such group. */
  function Lookup<V>(m: map<string, seq<V>>, key: string): seq<V> {
    if key in m then m[key] else []
  }

  /** Reference definition of one group: the values whose key is `key`, in
      order. */
  function Bucket<V>(keys: seq<string>, vals: seq<V>, key: string): seq<V>
    requires |keys| == |vals|
    decreases |keys|
  {
    if |keys| == 0 then []
    else
      var n := |keys| - 1;
      Bucket(keys[..n], vals[..n], key) + (if keys[n] == key then [vals[n]] else [])
  }

  /** Each key's group is its bucket: every value is pushed onto the group of
      its own key, in order. */
  lemma {:induction false} GroupByBuckets<V>(keys: seq<string>, vals: seq<V>, key: string)
    requires |keys| == |vals|
    ensures Lookup(GroupBy(keys, vals), key) == Bucket(keys, vals, key)
    decreases |keys|
  {
    if |keys| > 0 {
      var n := |keys| - 1;
      GroupByBuckets(keys[..n], vals[..n], key);
      assert keys == keys[..n] + [keys[n]];
    }
  }

  /** The components by space: each component record is pushed onto the
      bucket of its normalised space key; the keys are the components' space
      keys, and no bucket is empty. */
  function ComponentsBySpaceOf(header: Row, rows: seq<Row>): (m: map<string, seq<Record>>)
    ensures forall key :: key in m <==> key in SpaceKeys(header, rows)
    ensures forall key :: key in m ==> |m[key]| > 0
  {
    GroupBy(SpaceKeys(header, rows), RecordsOf(header, rows))
  }

  /** The components of one space: the records of the component rows whose
      normalised space key is `key`, in sheet order. */
  function ComponentsOfSpace(header: Row, rows: seq<Row>, key: string): seq<Record> {
    Bucket(SpaceKeys(header, rows), RecordsOf(header, rows), key)
  }

  /** One push extends the grouping of a prefix to the next pair. */
  lemma GroupByStep<V>(keys: seq<string>, vals: seq<V>, i: nat)
    requires |keys| == |vals| && i < |keys|
    ensures GroupBy(keys[..i + 1], vals[..i + 1])
      == GroupBy(keys[..i], vals[..i])[keys[i] := Lookup(GroupBy(keys[..i], vals[..i]), keys[i]) + [vals[i]]]
  {
    assert keys[..i + 1][..i] == keys[..i];
    assert vals[..i + 1][..i] == vals[..i];
  }

  method BuildComponentsBySpace(header: Row, rows: seq<Row>) returns (bySpace: map<string, seq<Record>>)
    ensures bySpace == ComponentsBySpaceOf(header, rows)
  {
    ghost var keys, recs := SpaceKeys(header, rows), RecordsOf(header, rows);
    bySpace := map[];
    var spaceCol := SpaceColumn(header);
    for i := 0 to |rows|
      invariant bySpace == GroupBy(keys[..i], recs[..i])
    {
      GroupByStep(keys, recs, i);
      var comp := ProjectRecord(header, rows[i]);
      var spaceName := Normalize(OrEmpty(CellAt(rows[i], spaceCol)));
      assert spaceName == keys[i];
      var bucket := if spaceName in bySpace then bySpace[spaceName] else [];
      bySpace := bySpace[spaceName := bucket + [comp]];
    }
    assert keys[..|rows|] == keys && recs[..|rows|] == recs;
  }

  /** componentsBySpace has a key exactly for each normalised space key some
      component carries, and `componentsBySpace[key] || []` is that space's
      components: every component lands in the bucket of its own key, in sheet
      order. */
  lemma ComponentsBySpaceBuckets(header: Row, rows: seq<Row>, key: string)
    ensures key in ComponentsBySpaceOf(header, rows) <==> exists i :: 0 <= i < |rows| && SpaceKey(header, rows[i]) == key
    ensures Lookup(ComponentsBySpaceOf(header, rows), key) == ComponentsOfSpace(header, rows, key)
  {
    var keys := SpaceKeys(header, rows);
    GroupByBuckets(keys, RecordsOf(header, rows), key);
    if key in keys {
      var i :| 0 <= i < |keys| && keys[i] == key;
      assert SpaceKey(header, rows[i]) == key;
    }
    if exists i :: 0 <= i < |rows| && SpaceKey(header, rows[i]) == key {
      var i :| 0 <= i < |rows| && SpaceKey(header, rows[i]) == key;
      assert keys[i] == key;
    }
  }

  /** Whitespace and letter case do not separate buckets: a component whose
      space cell is `" s1 "` lands in the bucket "S1". */
  lemma PaddedLowerCaseSpaceKey(row: Row)
    requires |row| >= 2 && row[1] == Some(" s1 ")
    ensures SpaceKey([Some("Name"), Some("SpaceName")], row) == "S1"
  {
    var header: Row := [Some("Name"), Some("SpaceName")];
    assert SpaceColumn(header) == 1;
    assert TrimLead(" s1 ") == 1;
    assert SkipTrailing(" s1 ", 1, 4) == 3;
    assert Trim(" s1 ") == "s1";
    assert Upper("s1") == "S1";
  }

  // ---------------------------------------------------------------------------
  // zoneBySpace: raw space name -> zone name (only when Space has a Zone column)
  // ---------------------------------------------------------------------------

  /** The zone by space: a space whose Zone cell is truthy files the zone
      name under the RAW Name cell (as a property key, so `undefined` becomes
      "undefined"); a later row replaces an earlier one. */
  function ZoneBySpaceOf(header: Row, rows: seq<Row>): (m: map<string, string>)
    ensures forall k :: k in m ==> m[k] != ""
    decreases |rows|
  {
    if |rows| == 0 then map[]
    else
      var m := ZoneBySpaceOf(header, rows[..|rows| - 1]);
      var last := rows[|rows| - 1];
      var zone := Column(header, last, "Zone");
      if Truthy(zone) then m[Str(Column(header, last, "Name")) := zone.value] else m
  }

  method BuildZoneBySpace(header: Row, rows: seq<Row>) returns (zoneBySpace: map<string, string>)
    ensures zoneBySpace == ZoneBySpaceOf(header, rows)
  {
    zoneBySpace := map[];
    var zoneCol := IndexOf(header, "Zone");
    for i := 0 to |rows|
      invariant zoneBySpace == ZoneBySpaceOf(header, rows[..i])
    {
      assert rows[..i + 1][..i] == rows[..i];
      var spaceName := CellAt(rows[i], IndexOf(header, "Name"));
      var zoneName := CellAt(rows[i], zoneCol);
      if zoneName.Some? && zoneName.value != "" {
        zoneBySpace := zoneBySpace[Str(spaceName) := zoneName.value];
      }
    }
    assert rows[..|rows|] == rows;
  }

  /** A key of zoneBySpace is present exactly when some space row with that
      raw name has a non-empty Zone. */
  lemma {:induction false} ZoneBySpaceLookup(header: Row, rows: seq<Row>, k: string)
    ensures k in ZoneBySpaceOf(header, rows) <==>
      exists i :: 0 <= i < |rows| && Str(Column(header, rows[i], "Name")) == k && Truthy(Column(header, rows[i], "Zone"))
    decreases |rows|
  {
    if |rows| > 0 {
      var n := |rows| - 1;
      ZoneBySpaceLookup(header, rows[..n], k);
      assert forall i :: 0 <= i < n ==> rows[..n][i] == rows[i];
      if k in ZoneBySpaceOf(header, rows[..n]) {
        var i :| 0 <= i < n && Str(Column(header, rows[..n][i], "Name")) == k && Truthy(Column(header, rows[..n][i], "Zone"));
        assert Str(Column(header, rows[i], "Name")) == k;
      }
    }
  }

  // ---------------------------------------------------------------------------
  // The tree
  // ---------------------------------------------------------------------------

  /** The three lookup tables built before the tree, and whether a Zone sheet
      was supplied. */
  datatype Lookups = Lookups(
    hasZoneSheet: bool,
    zoneMap: map<string, Record>,
    componentsBySpace: map<string, seq<Record>>,
    zoneBySpace: map<string, string>)

  /** The children of one space (cobieHierarchy.js:90-105): a single zone or
      a plain list, holding the bucket of the space's normalised Name either
      way. */
  function SpaceChildrenOf(look: Lookups, space: Record): (ch: SpaceChildren)
    ensures ch.Zones? ==> |ch.zones| == 1
    ensures (if ch.Zones? then ch.zones[0].components else ch.components)
      == Lookup(look.componentsBySpace, Normalize(OrEmpty(Get(space, "Name"))))
  {
    var key := Normalize(OrEmpty(Get(space, "Name")));
    var comps := Lookup(look.componentsBySpace, key);
    if look.hasZoneSheet && key in look.zoneBySpace && look.zoneBySpace[key] != "" then
      var zoneName := look.zoneBySpace[key];
      var attrs := if zoneName in look.zoneMap then look.zoneMap[zoneName] else map["Name" := Some(zoneName)];
      Zones([ZoneNode(attrs, comps)])
    else
      Components(comps)
  }

  function SpaceNodes(spaceT: Table, look: Lookups, floor: Record): seq<SpaceNode> {
    var rs := RowsWhere(spaceT.header, spaceT.rows, "FloorName", Get(floor, "Name"));
    seq(|rs|, i requires 0 <= i < |rs| =>
      var space := RecordOf(spaceT.header, rs[i]);
      SpaceNode(space, SpaceChildrenOf(look, space)))
  }

  /** The floor rows of one facility: matched on FacilityName when the Floor
      sheet has that column, otherwise all of them. */
  function FloorRows(floorT: Table, fac: Record): seq<Row> {
    if Some("FacilityName") in floorT.header then RowsWhere(floorT.header, floorT.rows, "FacilityName", Get(fac, "Name"))
    else floorT.rows
  }

  function FloorNodes(floorT: Table, spaceT: Table, look: Lookups, fac: Record): seq<FloorNode> {
    var rs := FloorRows(floorT, fac);
    seq(|rs|, i requires 0 <= i < |rs| =>
      var floor := RecordOf(floorT.header, rs[i]);
      FloorNode(floor, SpaceNodes(spaceT, look, floor)))
  }

  function FacilityNodes(facT: Table, floorT: Table, spaceT: Table, look: Lookups): seq<FacilityNode> {
    seq(|facT.rows|, i requires 0 <= i < |facT.rows| =>
      var fac := RecordOf(facT.header, facT.rows[i]);
      FacilityNode(fac, FloorNodes(floorT, spaceT, look, fac)))
  }

  predicate HasRequiredSheets(sheets: Workbook) {
    "Facility" in sheets && "Floor" in sheets && "Space" in sheets
  }

  /** The lookup tables as `buildCobieHierarchy` builds them from the optional
      Zone and Component sheets and the Space sheet. */
  function LookupsOf(sheets: Workbook): Lookups
    requires "Space" in sheets
  {
    var spaceT := sheets["Space"];
    Lookups(
      "Zone" in sheets,
      if "Zone" in sheets then ZoneMapOf(sheets["Zone"].header, sheets["Zone"].rows) else map[],
      if "Component" in sheets then ComponentsBySpaceOf(sheets["Component"].header, sheets["Component"].rows) else map[],
      if Some("Zone") in spaceT.header then ZoneBySpaceOf(spaceT.header, spaceT.rows) else map[])
  }

  /** The whole of `buildCobieHierarchy` as a value. */
  function SpatialHierarchy(sheets: Workbook): (r: SpatialResult)
    ensures r.SpatialError? <==> !HasRequiredSheets(sheets)
    ensures r.SpatialError? ==> r.error == MissingSheets
  {
    if !HasRequiredSheets(sheets) then SpatialError(MissingSheets)
    else SpatialTree(FacilityNodes(sheets["Facility"], sheets["Floor"], sheets["Space"], LookupsOf(sheets)))
  }

  method BuildCobieHierarchy(sheets: Workbook) returns (r: SpatialResult)
    ensures r == SpatialHierarchy(sheets)
  {
    if !("Facility" in sheets && "Floor" in sheets && "Space" in sheets) {
      return SpatialError(MissingSheets);
    }
    var spaceT := sheets["Space"];
    var zoneMap := map[];
    if "Zone" in sheets {
      zoneMap := BuildZoneMap(sheets["Zone"].header, sheets["Zone"].rows);
    }
    var componentsBySpace := map[];
    if "Component" in sheets {
      componentsBySpace := BuildComponentsBySpace(sheets["Component"].header, sheets["Component"].rows);
    }
    var zoneBySpace := map[];
    if Some("Zone") in spaceT.header {
      zoneBySpace := BuildZoneBySpace(spaceT.header, spaceT.rows);
    }
    var look := Lookups("Zone" in sheets, zoneMap, componentsBySpace, zoneBySpace);
    r := SpatialTree(FacilityNodes(sheets["Facility"], sheets["Floor"], spaceT, look));
  }

  // ---------------------------------------------------------------------------
  // Properties of the tree
  // ---------------------------------------------------------------------------

  /** One facility per Facility data row, in sheet order; its floors are the
      Floor rows whose FacilityName equals its Name exactly, or every floor when
      the Floor sheet has no FacilityName column. */
  lemma FacilitiesAndFloors(sheets: Workbook, i: nat)
    requires HasRequiredSheets(sheets)
    requires i < |sheets["Facility"].rows|
    ensures var facT, floorT := sheets["Facility"], sheets["Floor"];
      var facs := SpatialHierarchy(sheets).facilities;
      && |facs| == |facT.rows|
      && facs[i].attrs == RecordOf(facT.header, facT.rows[i])
      && |facs[i].floors| == |FloorRows(floorT, facs[i].attrs)|
      && (forall j :: 0 <= j < |facs[i].floors| ==>
            facs[i].floors[j].attrs == RecordOf(floorT.header, FloorRows(floorT, facs[i].attrs)[j]))
      && (Some("FacilityName") !in floorT.header ==> FloorRows(floorT, facs[i].attrs) == floorT.rows)
      && (forall row :: row in FloorRows(floorT, facs[i].attrs) <==>
            row in floorT.rows &&
            (Some("FacilityName") in floorT.header ==> Column(floorT.header, row, "FacilityName") == Get(facs[i].attrs, "Name")))
  {
  }

  /** A floor's spaces are the Space rows whose FloorName equals the floor's Name
      exactly (no trimming, no case folding), in sheet order. */
  lemma SpacesOfFloor(spaceT: Table, look: Lookups, floor: Record, j: nat)
    requires j < |SpaceNodes(spaceT, look, floor)|
    ensures var rs := RowsWhere(spaceT.header, spaceT.rows, "FloorName", Get(floor, "Name"));
      && |SpaceNodes(spaceT, look, floor)| == |rs|
      && SpaceNodes(spaceT, look, floor)[j].attrs == RecordOf(spaceT.header, rs[j])
      && rs[j] in spaceT.rows
      && Column(spaceT.header, rs[j], "FloorName") == Get(floor, "Name")
  {
    var rs := RowsWhere(spaceT.header, spaceT.rows, "FloorName", Get(floor, "Name"));
    assert rs[j] in rs;
  }

  /** Every space gets exactly one kind of child list. It gets one zone exactly
      when a Zone sheet was supplied and zoneBySpace has the space's normalised
      Name as a key; that zone is the Zone sheet's record of that name, or just
      `{Name}` when the Zone sheet has none, and it holds the space's bucket of
      components. Otherwise the space holds the bucket directly (possibly
      empty). */
  lemma {:induction false} SpaceChildrenSpec(sheets: Workbook, space: Record)
    requires "Space" in sheets
    ensures var look := LookupsOf(sheets);
      var key := Normalize(OrEmpty(Get(space, "Name")));
      var comps := if "Component" in sheets then ComponentsOfSpace(sheets["Component"].header, sheets["Component"].rows, key) else [];
      var ch := SpaceChildrenOf(look, space);
      && (ch.Zones? <==> "Zone" in sheets && key in look.zoneBySpace)
      && (ch.Zones? ==>
            var zoneName := look.zoneBySpace[key];
            && |ch.zones| == 1
            && ch.zones[0].components == comps
            && ch.zones[0].attrs == (if zoneName in look.zoneMap then look.zoneMap[zoneName] else map["Name" := Some(zoneName)]))
      && (ch.Components? ==> ch.components == comps)
  {
    var look := LookupsOf(sheets);
    var key := Normalize(OrEmpty(Get(space, "Name")));
    var spaceT := sheets["Space"];
    assert key in look.zoneBySpace ==> look.zoneBySpace[key] != "";
    if "Component" in sheets {
      ComponentsBySpaceBuckets(sheets["Component"].header, sheets["Component"].rows, key);
    }
    assert Lookup(look.componentsBySpace, key)
      == if "Component" in sheets then ComponentsOfSpace(sheets["Component"].header, sheets["Component"].rows, key) else [];
  }

  /** zoneBySpace is keyed by the raw space name but read with the normalised
      one: a space named `" s1 "` with zone `"Z1"` files the zone under `" s1 "`,
      the lookup asks for `"S1"`, and the space therefore gets its components
      directly instead of a zone, even with a Zone sheet present. */
  lemma RawZoneKeyMissesNormalisedLookup(zoneMap: map<string, Record>, bySpace: map<string, seq<Record>>)
    ensures var header: Row := [Some("Name"), Some("FloorName"), Some("Zone")];
      var row: Row := [Some(" s1 "), Some("L1"), Some("Z1")];
      var zoneBySpace := ZoneBySpaceOf(header, [row]);
      && zoneBySpace == map[" s1 " := "Z1"]
      && SpaceChildrenOf(Lookups(true, zoneMap, bySpace, zoneBySpace), RecordOf(header, row)).Components?
  {
    var header: Row := [Some("Name"), Some("FloorName"), Some("Zone")];
    var row: Row := [Some(" s1 "), Some("L1"), Some("Z1")];
    assert [row][..0] == [];
    assert IndexOf(header, "Zone") == 2;
    assert IndexOf(header, "Name") == 0;
    var rec := RecordOf(header, row);
    RecordLookup(header, row, "Name");
    assert LastKeyIndex(header, "Name") == 0;
    assert Get(rec, "Name") == Some(" s1 ");
    assert TrimLead(" s1 ") == 1;
    assert SkipTrailing(" s1 ", 1, 4) == 3;
    assert Trim(" s1 ") == "s1";
    assert Upper("s1") == "S1";
    assert " s1 " != "S1" by { assert " s1 "[0] != "S1"[0]; }
  }
}
