/**
 * The row serializer of `sendData`: every data row becomes one
 * parenthesised tuple of the VALUES list, and the row the host numbers 1
 * also yields the parenthesised column-name header. A `$geopoint` cell
 * `[lon,lat]` is written `lat,lon` for a new table and
 * `ST_SetSRID(ST_MakePoint(lon,lat),4326),lat,lon` for an existing one;
 * any other cell is its `qText`, unquoted and unescaped.
 *
 * Fields are separated with the `if (acc) { acc += ","; }` idiom, so a
 * leading fragment that is empty is dropped together with its comma
 * (`AppendAllFromEmpty`); the lemmas that equate a tuple or the header with
 * the plain join of its fields say so in their preconditions.
 */
module InsertRows {
  import opened Strings
  import opened Hypercube
  import opened CreateTable

  /** The header column names one dimension contributes. */
  function NameFields(d: Dimension, newTable: bool): seq<string>
  {
    if IsGeoPoint(d) then
      if newTable then ["latitude", "longitude"] else ["the_geom", "latitude", "longitude"]
    else [d.qFallbackTitle]
  }

  function MakePoint(lon: string, lat: string): string
  {
    "ST_SetSRID(ST_MakePoint(" + lon + "," + lat + "),4326)"
  }

  /** The tuple fields one cell contributes. */
  function ValueFields(d: Dimension, c: Cell, newTable: bool): seq<string>
    requires IsGeoPoint(d) ==> c.LonLat?
  {
    if IsGeoPoint(d) then
      if newTable then [c.lat, c.lon] else [MakePoint(c.lon, c.lat), c.lat, c.lon]
    else [QText(c)]
  }

  function RowNameFields(dims: seq<Dimension>, n: nat, newTable: bool): (fss: seq<seq<string>>)
    requires n <= |dims|
    ensures |fss| == n
  {
    seq(n, i requires 0 <= i < n => NameFields(dims[i], newTable))
  }

  function RowValueFields(dims: seq<Dimension>, cells: seq<Cell>, newTable: bool): (fss: seq<seq<string>>)
    requires CellsFit(dims, cells)
    ensures |fss| == |cells|
  {
    seq(|cells|, i requires 0 <= i < |cells| => ValueFields(dims[i], cells[i], newTable))
  }

  /** `sqlColumns` after one row: the cells' fragments, appended with the comma idiom. */
  function ColumnsText(dims: seq<Dimension>, cells: seq<Cell>, newTable: bool): string
    requires CellsFit(dims, cells)
  {
    AppendAll("", JoinEach(RowValueFields(dims, cells, newTable)))
  }

  function Tuple(dims: seq<Dimension>, row: DataRow, newTable: bool): string
    requires CellsFit(dims, row.cells)
  {
    "(" + ColumnsText(dims, row.cells, newTable) + ")"
  }

  /** `sqlNames` after one row: only a row numbered 1 adds names and parentheses. */
  function NamesAfter(names: string, dims: seq<Dimension>, row: DataRow, newTable: bool): string
    requires CellsFit(dims, row.cells)
  {
    if row.rowNum == 1 then
      "(" + AppendAll(names, JoinEach(RowNameFields(dims, |row.cells|, newTable))) + ")"
    else names
  }

  /** `sqlNames` after all rows. */
  function Header(dims: seq<Dimension>, rows: seq<DataRow>, newTable: bool): string
    requires RowsFit(dims, rows)
  {
    if |rows| == 0 then ""
    else NamesAfter(Header(dims, rows[..|rows| - 1], newTable), dims, rows[|rows| - 1], newTable)
  }

  function Tuples(dims: seq<Dimension>, rows: seq<DataRow>, newTable: bool): (ts: seq<string>)
    requires RowsFit(dims, rows)
    ensures |ts| == |rows|
  {
    seq(|rows|, i requires 0 <= i < |rows| => Tuple(dims, rows[i], newTable))
  }

  /** `sqlValues.slice(0, -1)`: the VALUES list of both INSERT statements. */
  function ValuesList(dims: seq<Dimension>, rows: seq<DataRow>, newTable: bool): string
    requires RowsFit(dims, rows)
  {
    DropLast(Terminated(Tuples(dims, rows, newTable)))
  }

  /**
   * The body of the `eachDataRow` callback: appends each cell's fragment to
   * `sqlColumns` and, for the row numbered 1, each dimension's names to the
   * running `sqlNames`, which it then wraps in parentheses.
   */
  method SerializeRow(dims: seq<Dimension>, row: DataRow, newTable: bool, names: string)
    returns (sqlColumns: string, sqlNames: string)
    requires CellsFit(dims, row.cells)
    ensures sqlColumns == ColumnsText(dims, row.cells, newTable)
    ensures sqlNames == NamesAfter(names, dims, row, newTable)
  {
    sqlColumns, sqlNames := "", names;
    var idx := 0;
    while idx < |row.cells|
      invariant idx <= |row.cells|
      invariant sqlColumns == AppendAll("", JoinEach(RowValueFields(dims, row.cells[..idx], newTable)))
      invariant sqlNames == if row.rowNum == 1 then AppendAll(names, JoinEach(RowNameFields(dims, idx, newTable))) else names
    {
      FieldsSnoc(dims, row.cells, idx, newTable);
      AppendAllSnoc("", JoinEach(RowValueFields(dims, row.cells[..idx], newTable)), Join(ValueFields(dims[idx], row.cells[idx], newTable)));
      AppendAllSnoc(names, JoinEach(RowNameFields(dims, idx, newTable)), Join(NameFields(dims[idx], newTable)));
      sqlColumns, sqlNames := SerializeCell(dims[idx], row.cells[idx], row.rowNum, newTable, sqlColumns, sqlNames);
      idx := idx + 1;
    }
    assert row.cells[..idx] == row.cells;
    if row.rowNum == 1 {
      sqlNames := "(" + sqlNames + ")";
    }
  }

  /**
   * The `$.each` callback for one cell: a comma unless the text so far is
   * empty, then the cell's fragment; for the row numbered 1 the same for the
   * dimension's names.
   */
  method SerializeCell(dimension: Dimension, column: Cell, rowNum: int, newTable: bool, columns: string, names: string)
    returns (sqlColumns: string, sqlNames: string)
    requires IsGeoPoint(dimension) ==> column.LonLat?
    ensures sqlColumns == AppendField(columns, Join(ValueFields(dimension, column, newTable)))
    ensures sqlNames == if rowNum == 1 then AppendField(names, Join(NameFields(dimension, newTable))) else names
  {
    CellText(dimension, column, newTable);
    NameText(dimension, newTable);
    sqlColumns, sqlNames := columns, names;
    if sqlColumns != "" {
      sqlColumns := sqlColumns + ",";
    }
    if rowNum == 1 && sqlNames != "" {
      sqlNames := sqlNames + ",";
    }
    if IsGeoPoint(dimension) {
      if newTable {
        sqlColumns := sqlColumns + (column.lat + "," + column.lon);
        if rowNum == 1 {
          sqlNames := sqlNames + "latitude,longitude";
        }
      } else {
        sqlColumns := sqlColumns + ("ST_SetSRID(ST_MakePoint(" + column.lon + "," + column.lat + "),4326)," + column.lat + "," + column.lon);
        if rowNum == 1 {
          sqlNames := sqlNames + "the_geom,latitude,longitude";
        }
      }
    } else {
      if rowNum == 1 {
        sqlNames := sqlNames + dimension.qFallbackTitle;
      }
      sqlColumns := sqlColumns + QText(column);
    }
  }

  /**
   * The serializer of `sendData`: one `(...)` followed by a comma per row,
   * in row order, and the header collected from the rows numbered 1.
   */
  method SerializeRows(dims: seq<Dimension>, rows: seq<DataRow>, newTable: bool)
    returns (sqlNames: string, sqlValues: string)
    requires RowsFit(dims, rows)
    ensures sqlNames == Header(dims, rows, newTable)
    ensures sqlValues == Terminated(Tuples(dims, rows, newTable))
  {
    sqlNames, sqlValues := "", "";
    var r := 0;
    while r < |rows|
      invariant r <= |rows|
      invariant sqlNames == Header(dims, rows[..r], newTable)
      invariant sqlValues == Terminated(Tuples(dims, rows[..r], newTable))
    {
      var sqlColumns;
      sqlColumns, sqlNames := SerializeRow(dims, rows[r], newTable, sqlNames);
      RowsSnoc(dims, rows, r, newTable);
      assert "(" + sqlColumns + ")" + "," == "(" + sqlColumns + "),";
      sqlValues := sqlValues + ("(" + sqlColumns + "),");
      r := r + 1;
    }
    assert rows[..r] == rows;
  }

  lemma FieldsSnoc(dims: seq<Dimension>, cells: seq<Cell>, idx: nat, newTable: bool)
    requires CellsFit(dims, cells) && idx < |cells|
    ensures CellsFit(dims, cells[..idx]) && CellsFit(dims, cells[..idx + 1])
    ensures JoinEach(RowValueFields(dims, cells[..idx + 1], newTable))
      == JoinEach(RowValueFields(dims, cells[..idx], newTable)) + [Join(ValueFields(dims[idx], cells[idx], newTable))]
    ensures JoinEach(RowNameFields(dims, idx + 1, newTable))
      == JoinEach(RowNameFields(dims, idx, newTable)) + [Join(NameFields(dims[idx], newTable))]
  {
  }

  lemma RowsSnoc(dims: seq<Dimension>, rows: seq<DataRow>, r: nat, newTable: bool)
    requires RowsFit(dims, rows) && r < |rows|
    ensures RowsFit(dims, rows[..r]) && RowsFit(dims, rows[..r + 1])
    ensures Header(dims, rows[..r + 1], newTable) == NamesAfter(Header(dims, rows[..r], newTable), dims, rows[r], newTable)
    ensures Terminated(Tuples(dims, rows[..r + 1], newTable))
      == Terminated(Tuples(dims, rows[..r], newTable)) + Tuple(dims, rows[r], newTable) + ","
  {
    assert rows[..r + 1][..r] == rows[..r];
    assert Tuples(dims, rows[..r + 1], newTable) == Tuples(dims, rows[..r], newTable) + [Tuple(dims, rows[r], newTable)];
    TerminatedSnoc(Tuples(dims, rows[..r], newTable), Tuple(dims, rows[r], newTable));
  }

  /** The text the loop appends for one cell is the join of its fields. */
  lemma CellText(d: Dimension, c: Cell, newTable: bool)
    requires IsGeoPoint(d) ==> c.LonLat?
    ensures Join(ValueFields(d, c, newTable)) ==
      if !IsGeoPoint(d) then QText(c)
      else if newTable then c.lat + "," + c.lon
      else "ST_SetSRID(ST_MakePoint(" + c.lon + "," + c.lat + "),4326)," + c.lat + "," + c.lon
  {
    if IsGeoPoint(d) && !newTable {
      PointText(c.lon, c.lat);
    }
  }

  lemma PointText(lon: string, lat: string)
    ensures Join([MakePoint(lon, lat), lat, lon])
      == "ST_SetSRID(ST_MakePoint(" + lon + "," + lat + "),4326)," + lat + "," + lon
  {
    var point := MakePoint(lon, lat);
    assert [point, lat, lon][1..] == [lat, lon];
    assert [lat, lon][1..] == [lon];
    assert Join([lat, lon]) == lat + "," + Join([lon]) == lat + "," + lon;
    assert Join([point, lat, lon]) == point + "," + Join([lat, lon]);
    assert "),4326)," == "),4326)" + ",";
    var prefix := "ST_SetSRID(ST_MakePoint(" + lon + "," + lat;
    assert point == prefix + "),4326)";
    assert prefix + "),4326)," == point + ",";
  }

  /** The text the loop appends to the header for one dimension. */
  lemma NameText(d: Dimension, newTable: bool)
    ensures Join(NameFields(d, newTable)) ==
      if !IsGeoPoint(d) then d.qFallbackTitle
      else if newTable then "latitude,longitude"
      else "the_geom,latitude,longitude"
  {
    assert "latitude,longitude" == "latitude" + "," + "longitude";
    assert "the_geom,latitude,longitude" == "the_geom" + "," + "latitude,longitude";
    assert ["the_geom", "latitude", "longitude"][1..] == ["latitude", "longitude"];
  }

  /** The header and a tuple built from the same cells list equally many fields. */
  lemma RowArity(dims: seq<Dimension>, cells: seq<Cell>, newTable: bool)
    requires CellsFit(dims, cells)
    ensures |Flatten(RowNameFields(dims, |cells|, newTable))| == |Flatten(RowValueFields(dims, cells, newTable))|
  {
    FlattenLengths(RowNameFields(dims, |cells|, newTable), RowValueFields(dims, cells, newTable));
  }

  /**
   * A row's tuple is its cells' fields comma-joined in parentheses, unless
   * its first cell is a non-geo cell with empty text.
   */
  lemma TupleFields(dims: seq<Dimension>, row: DataRow, newTable: bool)
    requires CellsFit(dims, row.cells)
    requires |row.cells| > 0 ==> IsGeoPoint(dims[0]) || QText(row.cells[0]) != ""
    ensures Tuple(dims, row, newTable) == "(" + Join(Flatten(RowValueFields(dims, row.cells, newTable))) + ")"
  {
    var fields := RowValueFields(dims, row.cells, newTable);
    if |row.cells| > 0 {
      CellText(dims[0], row.cells[0], newTable);
      if IsGeoPoint(dims[0]) && !newTable {
        assert Join(fields[0]) == MakePoint(row.cells[0].lon, row.cells[0].lat) + "," + Join(fields[0][1..]);
      }
      assert JoinEach(fields)[0] == Join(fields[0]) != "";
    }
    AppendAllFromEmptyJoins(JoinEach(fields));
    JoinFlatten(fields);
  }

  /**
   * A row whose leading cells are non-geo cells with empty text loses those
   * fields and their commas: only the fragments from the first non-empty one
   * on are comma-joined.
   */
  lemma LeadingEmptyFieldsDropped(dims: seq<Dimension>, row: DataRow, newTable: bool)
    requires CellsFit(dims, row.cells)
    ensures Tuple(dims, row, newTable)
      == "(" + Join(DropLeadingEmpty(JoinEach(RowValueFields(dims, row.cells, newTable)))) + ")"
  {
    AppendAllFromEmpty(JoinEach(RowValueFields(dims, row.cells, newTable)));
  }

  /** The names a row numbered 1 contributes, before the parentheses. */
  function HeaderNames(dims: seq<Dimension>, row: DataRow, newTable: bool): string
    requires CellsFit(dims, row.cells)
  {
    AppendAll("", JoinEach(RowNameFields(dims, |row.cells|, newTable)))
  }

  /** With exactly one row numbered 1, the header is built from that row alone. */
  lemma {:induction false} HeaderPrefix(dims: seq<Dimension>, rows: seq<DataRow>, newTable: bool, k: nat, j: nat)
    requires RowsFit(dims, rows) && k < |rows| && j <= |rows|
    requires rows[k].rowNum == 1
    requires forall i :: 0 <= i < |rows| && i != k ==> rows[i].rowNum != 1
    ensures RowsFit(dims, rows[..j])
    ensures Header(dims, rows[..j], newTable) == if j <= k then "" else "(" + HeaderNames(dims, rows[k], newTable) + ")"
  {
    if j > 0 {
      HeaderPrefix(dims, rows, newTable, k, j - 1);
      RowsSnoc(dims, rows, j - 1, newTable);
    }
  }

  /** No row numbered 1: the header stays empty. */
  lemma {:induction false} HeaderAbsent(dims: seq<Dimension>, rows: seq<DataRow>, newTable: bool)
    requires RowsFit(dims, rows)
    requires forall i :: 0 <= i < |rows| ==> rows[i].rowNum != 1
    ensures Header(dims, rows, newTable) == ""
  {
    if |rows| > 0 {
      HeaderAbsent(dims, rows[..|rows| - 1], newTable);
    }
  }

  /**
   * When exactly one row is numbered 1 and neither its first name nor its
   * first cell is an empty non-geo text, the header and that row's tuple
   * are both a parenthesised comma-join, and of equally many fields:
   * `latitude,longitude` (new table) or `the_geom,latitude,longitude`
   * (existing table) against the geopoint's fields, a title against a text.
   */
  lemma HeaderMatchesRow(dims: seq<Dimension>, rows: seq<DataRow>, newTable: bool, k: nat)
    requires RowsFit(dims, rows) && k < |rows|
    requires rows[k].rowNum == 1
    requires forall i :: 0 <= i < |rows| && i != k ==> rows[i].rowNum != 1
    requires |rows[k].cells| > 0 ==> IsGeoPoint(dims[0]) || (dims[0].qFallbackTitle != "" && QText(rows[k].cells[0]) != "")
    ensures var names := Flatten(RowNameFields(dims, |rows[k].cells|, newTable));
      var values := Flatten(RowValueFields(dims, rows[k].cells, newTable));
      && Header(dims, rows, newTable) == "(" + Join(names) + ")"
      && Tuple(dims, rows[k], newTable) == "(" + Join(values) + ")"
      && |names| == |values|
  {
    var row := rows[k];
    var fields := RowNameFields(dims, |row.cells|, newTable);
    HeaderPrefix(dims, rows, newTable, k, |rows|);
    assert rows[..|rows|] == rows;
    if |row.cells| > 0 {
      NameText(dims[0], newTable);
      assert JoinEach(fields)[0] == Join(fields[0]) != "";
    }
    AppendAllFromEmptyJoins(JoinEach(fields));
    JoinFlatten(fields);
    TupleFields(dims, row, newTable);
    RowArity(dims, row.cells, newTable);
  }

  /** The VALUES list is the rows' tuples, one per row in row order, comma-joined. */
  lemma ValuesListJoinsTuples(dims: seq<Dimension>, rows: seq<DataRow>, newTable: bool)
    requires RowsFit(dims, rows)
    ensures ValuesList(dims, rows, newTable) == Join(Tuples(dims, rows, newTable))
  {
    DropLastTerminated(Tuples(dims, rows, newTable));
  }

  /**
   * For a new table the INSERT names no columns, so the tuples rely on
   * position: a full row's fields line up one to one with the columns of
   * the CREATE statement, and the names a new-table header would list are
   * exactly those columns' names.
   */
  lemma NewTableMatchesCreate(dims: seq<Dimension>, cells: seq<Cell>)
    requires CellsFit(dims, cells) && |cells| == |dims|
    ensures Flatten(RowNameFields(dims, |dims|, true)) == ColumnNames(TableColumns(dims))
    ensures |Flatten(RowValueFields(dims, cells, true))| == |TableColumns(dims)|
  {
    NamesMatchColumns(dims, |dims|);
    assert dims[..|dims|] == dims;
    RowArity(dims, cells, true);
  }

  lemma {:induction false} NamesMatchColumns(dims: seq<Dimension>, n: nat)
    requires n <= |dims|
    ensures Flatten(RowNameFields(dims, n, true)) == ColumnNames(TableColumns(dims[..n]))
  {
    if n > 0 {
      var d := dims[n - 1];
      NamesMatchColumns(dims, n - 1);
      assert RowNameFields(dims, n, true) == RowNameFields(dims, n - 1, true) + [NameFields(d, true)];
      FlattenAppend(RowNameFields(dims, n - 1, true), [NameFields(d, true)]);
      assert Flatten([NameFields(d, true)]) == NameFields(d, true) + [];
      assert dims[..n][..n - 1] == dims[..n - 1];
      ColumnNamesAppend(TableColumns(dims[..n - 1]), DimensionColumns(d));
      NewTableNames(d);
    }
  }

  /** The names a new-table header lists for a dimension are its CREATE columns' names. */
  lemma NewTableNames(d: Dimension)
    ensures ColumnNames(DimensionColumns(d)) == NameFields(d, true)
  {
  }
}
