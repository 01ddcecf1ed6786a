/**
 * In-memory sheets as the COBie builders see them: a sheet is a header row and
 * data rows, cells are looked up with `header.indexOf(col)`, and an entity
 * record is built by `header.forEach((h, i) => obj[h] = row[i])`.
 */
module Sheets {
  import opened Text

  datatype Option<+T> = None | Some(value: T)

  /** A cell as the spreadsheet decoder hands it over: a string, or `undefined`
      for a blank cell. */
  type Cell = Option<string>

  type Row = seq<Cell>

  /** A sheet: `header` is row 0, `rows` are the data rows after it. */
  datatype Table = Table(header: Row, rows: seq<Row>)

  /** The object passed to a builder: sheet name to sheet; a name that is not a
      key is an absent (`undefined`) sheet. */
  type Workbook = map<string, Table>

  /** An entity record: the JavaScript object built from one data row. */
  type Record = map<string, Cell>

  /** `row[i]`: past the end of the row, or at index -1, the cell is `undefined`. */
  function CellAt(row: Row, i: int): (c: Cell)
    ensures !(0 <= i < |row|) ==> c == None
  {
    if 0 <= i < |row| then row[i] else None
  }

  /** The first position of the header holding exactly `col`, or -1. */
  function IndexOf(header: Row, col: string): (i: int)
    ensures -1 <= i < |header|
    ensures i == -1 <==> Some(col) !in header
    ensures 0 <= i ==> header[i] == Some(col) && Some(col) !in header[..i]
    decreases |header|
  {
    if |header| == 0 then -1
    else if header[0] == Some(col) then 0
    else
      var j := IndexOf(header[1..], col);
      assert header[1..] == header[..|header|][1..];
      if j == -1 then -1
      else
        assert header[..j + 1] == [header[0]] + header[1..][..j];
        j + 1
  }

  /** The cell of a row under the first header cell named `col`. */
  function Column(header: Row, row: Row, col: string): Cell {
    CellAt(row, IndexOf(header, col))
  }

  /** JavaScript truthiness of a cell: `undefined` and `""` are falsy. */
  predicate Truthy(c: Cell) {
    c.Some? && c.value != ""
  }

  /** A cell's text, or "" when it is undefined. */
  function OrEmpty(c: Cell): (s: string)
    ensures s != "" <==> Truthy(c)
  {
    if Truthy(c) then c.value else ""
  }

  /** A cell used as a property key or inside a template literal:
      `undefined` becomes the text "undefined". */
  function Str(c: Cell): string {
    match c
    case Some(s) => s
    case None => "undefined"
  }

  /** `rec[k]`: a missing property reads as `undefined`. */
  function Get(rec: Record, k: string): Cell {
    if k in rec then rec[k] else None
  }

  /** The record built by `header.forEach((h, i) => obj[h] = row[i])`: each header
      cell in turn assigns its column's cell, so a repeated column name keeps the
      cell of its last occurrence. */
  function RecordOf(header: Row, row: Row): Record
    decreases |header|
  {
    if |header| == 0 then map[]
    else RecordOf(header[..|header| - 1], row)[Str(header[|header| - 1]) := CellAt(row, |header| - 1)]
  }

  /** The forEach loop that builds an entity record. */
  method ProjectRecord(header: Row, row: Row) returns (rec: Record)
    ensures rec == RecordOf(header, row)
  {
    rec := map[];
    for i := 0 to |header|
      invariant rec == RecordOf(header[..i], row)
    {
      assert header[..i + 1][..i] == header[..i];
      rec := rec[Str(header[i]) := CellAt(row, i)];
    }
    assert header[..|header|] == header;
  }

  /** The position of the last header cell whose key is `k`, or -1. */
  function LastKeyIndex(header: Row, k: string): (i: int)
    ensures -1 <= i < |header|
    ensures 0 <= i ==> Str(header[i]) == k
    ensures forall j :: i < j < |header| ==> Str(header[j]) != k
    decreases |header|
  {
    if |header| == 0 then -1
    else if Str(header[|header| - 1]) == k then |header| - 1
    else LastKeyIndex(header[..|header| - 1], k)
  }

  /** A record has exactly the header's keys, and each holds the cell under the
      last column of that name. */
  lemma {:induction false} RecordLookup(header: Row, row: Row, k: string)
    ensures k in RecordOf(header, row) <==> LastKeyIndex(header, k) >= 0
    ensures k in RecordOf(header, row) ==> RecordOf(header, row)[k] == CellAt(row, LastKeyIndex(header, k))
    decreases |header|
  {
    if |header| > 0 {
      RecordLookup(header[..|header| - 1], row, k);
    }
  }

  /** `col` names at most one column of the header. */
  predicate UniqueColumn(header: Row, col: string) {
    forall i, j :: 0 <= i < j < |header| && header[i] == Some(col) ==> header[j] != Some(col)
  }

  /** When a column name occurs at most once, the record's property and the
      positional lookup `row[header.indexOf(col)]` agree. */
  lemma RecordColumnAgrees(header: Row, row: Row, col: string)
    requires col != "undefined" && UniqueColumn(header, col)
    ensures Get(RecordOf(header, row), col) == Column(header, row, col)
  {
    RecordLookup(header, row, col);
    var i, j := IndexOf(header, col), LastKeyIndex(header, col);
    if i != -1 {
      assert j == i;
    }
  }

  /** The rows whose `col` cell is `v`, in sheet order. */
  function RowsWhere(header: Row, rows: seq<Row>, col: string, v: Cell): (r: seq<Row>)
    ensures |r| <= |rows|
    ensures forall x :: x in r <==> x in rows && Column(header, x, col) == v
    decreases |rows|
  {
    if |rows| == 0 then []
    else
      var rest := RowsWhere(header, rows[1..], col, v);
      assert forall x :: x in rows <==> x == rows[0] || x in rows[1..];
      if Column(header, rows[0], col) == v then [rows[0]] + rest else rest
  }

  /** The first row whose `col` cell is `v`, or None when no row matches. */
  function FindRow(header: Row, rows: seq<Row>, col: string, v: Cell): (r: Option<Row>)
    ensures r.Some? ==> r.value in rows && Column(header, r.value, col) == v
    ensures r.None? <==> forall row :: row in rows ==> Column(header, row, col) != v
    decreases |rows|
  {
    if |rows| == 0 then None
    else if Column(header, rows[0], col) == v then Some(rows[0])
    else FindRow(header, rows[1..], col, v)
  }

  /** `find` is the head of the corresponding `filter`: it finds nothing
      exactly when no row matches. */
  lemma {:induction false} FindIsFirstOfFilter(header: Row, rows: seq<Row>, col: string, v: Cell)
    ensures var rs := RowsWhere(header, rows, col, v);
      FindRow(header, rows, col, v) == if rs == [] then None else Some(rs[0])
    decreases |rows|
  {
    if |rows| > 0 {
      FindIsFirstOfFilter(header, rows[1..], col, v);
    }
  }
}
