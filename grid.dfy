/**
 * The spreadsheet grid: a decoded sheet (an array of rows, row 0 the header)
 * projected into grid columns and row objects keyed by column position.
 */
module Grid {
  import opened Text
  import opened Sheets

  /** One decoded row: an array of cells, or some other value. */
  datatype RawRow = ArrayRow(cells: seq<Cell>) | NotArray

  /** A grid column: its index key and its display name. */
  datatype GridColumn = GridColumn(key: string, name: string)

  datatype GridResult = GridError(message: string) | Grid(columns: seq<GridColumn>, rows: seq<map<string, string>>)

  const ParseFailure := "Failed to parse sheet: "

  /** A column at position `idx`: named by its header cell, or "Column n"
      (counting from 1) when that cell is blank. */
  function ColumnOf(h: Cell, idx: nat): (c: GridColumn)
    ensures c.name != ""
  {
    GridColumn(NatToString(idx), if Truthy(h) then h.value else "Column " + NatToString(idx + 1))
  }

  function GridColumns(header: seq<Cell>): (cs: seq<GridColumn>)
    ensures |cs| == |header|
  {
    seq(|header|, i requires 0 <= i < |header| => ColumnOf(header[i], i))
  }

  /** A cell's text, or "" when it is undefined. */
  function Nullish(c: Cell): string {
    if c.Some? then c.value else ""
  }

  /** The first `n` header positions of an array row, each under its index
      key, a missing cell as "". */
  function Fill(cells: seq<Cell>, n: nat): map<string, string>
    decreases n
  {
    if n == 0 then map[] else Fill(cells, n - 1)[NatToString(n - 1) := Nullish(CellAt(cells, n - 1))]
  }

  /** `k` is the key of one of the first `n` positions. */
  predicate IndexKey(k: string, n: nat) {
    exists i :: 0 <= i < n && k == NatToString(i)
  }

  /** The row object: `{}` for a row that is not an array. */
  function RowObject(header: seq<Cell>, row: RawRow): (r: map<string, string>)
    ensures row.NotArray? ==> r == map[]
    ensures forall k :: k in r ==> IndexKey(k, |header|)
    ensures row.ArrayRow? ==> forall j :: 0 <= j < |header| ==>
      NatToString(j) in r && r[NatToString(j)] == Nullish(CellAt(row.cells, j))
  {
    match row
    case NotArray => map[]
    case ArrayRow(cells) =>
      var r := Fill(cells, |header|);
      assert forall k :: k in r ==> IndexKey(k, |header|) by {
        forall k | k in r
          ensures IndexKey(k, |header|)
        {
          FillKeys(cells, |header|, k);
        }
      }
      assert forall j :: 0 <= j < |header| ==>
        NatToString(j) in r && r[NatToString(j)] == Nullish(CellAt(cells, j)) by {
        forall j | 0 <= j < |header|
          ensures NatToString(j) in r && r[NatToString(j)] == Nullish(CellAt(cells, j))
        {
          FillSpec(cells, |header|, j);
        }
      }
      r
  }

  /** The grid projection of a decoded sheet. */
  function ProjectSheet(json: seq<RawRow>): (r: GridResult)
    ensures r.GridError? <==> |json| == 0 || json[0].NotArray?
    ensures |json| == 0 ==> r == GridError(ParseFailure + "Sheet is empty")
    ensures |json| > 0 && json[0].NotArray? ==> r == GridError(ParseFailure + "Header row is not an array")
    ensures r.Grid? ==> |r.columns| == |json[0].cells| && |r.rows| == |json| - 1
  {
    if |json| == 0 then GridError(ParseFailure + "Sheet is empty")
    else
      match json[0]
      case NotArray => GridError(ParseFailure + "Header row is not an array")
      case ArrayRow(header) =>
        Grid(GridColumns(header), seq(|json| - 1, i requires 0 <= i < |json| - 1 => RowObject(header, json[i + 1])))
  }

  lemma NatToStringInjective(i: nat, j: nat)
    requires NatToString(i) == NatToString(j)
    ensures i == j
  {
    ParseNatToString(i);
    ParseNatToString(j);
  }

  /** The filled object has exactly the first `n` index keys, each holding
      its cell. */
  lemma {:induction false} FillSpec(cells: seq<Cell>, n: nat, j: nat)
    ensures NatToString(j) in Fill(cells, n) <==> j < n
    ensures j < n ==> Fill(cells, n)[NatToString(j)] == Nullish(CellAt(cells, j))
    decreases n
  {
    if n > 0 {
      FillSpec(cells, n - 1, j);
      if NatToString(n - 1) == NatToString(j) {
        NatToStringInjective(n - 1, j);
      }
    }
  }

  /** The filled object has no key but the first `n` index keys. */
  lemma {:induction false} FillKeys(cells: seq<Cell>, n: nat, k: string)
    requires k in Fill(cells, n)
    ensures exists i :: 0 <= i < n && k == NatToString(i)
    decreases n
  {
    if k == NatToString(n - 1) {
      assert 0 <= n - 1 < n;
    } else {
      FillKeys(cells, n - 1, k);
    }
  }

  /** Each column's key reads back as its position, and a blank header cell
      is named after its one-based position. */
  lemma ColumnKeys(json: seq<RawRow>, i: nat)
    requires ProjectSheet(json).Grid? && i < |ProjectSheet(json).columns|
    ensures ParseNat(ProjectSheet(json).columns[i].key) == i
    ensures !Truthy(json[0].cells[i]) ==> ProjectSheet(json).columns[i].name == "Column " + NatToString(i + 1)
    ensures Truthy(json[0].cells[i]) ==> ProjectSheet(json).columns[i].name == json[0].cells[i].value
  {
    ParseNatToString(i);
  }

  /** A data row shows, under each column's key, its cell in that column
      ("" when missing), and has no other key; a row that is not an array
      shows nothing. */
  lemma RowUnderColumns(json: seq<RawRow>, r: nat, c: nat)
    requires ProjectSheet(json).Grid? && r < |ProjectSheet(json).rows| && c < |ProjectSheet(json).columns|
    ensures var g := ProjectSheet(json);
      && (json[r + 1].NotArray? ==> g.rows[r] == map[])
      && (json[r + 1].ArrayRow? ==>
            && g.columns[c].key in g.rows[r]
            && g.rows[r][g.columns[c].key] == Nullish(CellAt(json[r + 1].cells, c))
            && forall k :: k in g.rows[r] ==> exists i :: 0 <= i < |g.columns| && k == g.columns[i].key)
  {
    var header := json[0].cells;
    var g := ProjectSheet(json);
    var obj := RowObject(header, json[r + 1]);
    assert g.rows[r] == obj;
    forall k | k in obj
      ensures exists i :: 0 <= i < |g.columns| && k == g.columns[i].key
    {
      var i :| 0 <= i < |header| && k == NatToString(i);
      assert g.columns[i].key == NatToString(i);
    }
  }
}
