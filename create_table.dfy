/**
 * The CREATE statement of `populateTable`: each dimension contributes its
 * column definitions (`$geopoint` two, every other dimension one, typed
 * `numeric` for a `$numeric` first tag and `text` otherwise), written
 * `name type`, comma-joined in dimension order.
 */
module CreateTable {
  import opened Strings
  import opened Hypercube

  datatype Column = Column(name: string, sqlType: string)

  function Render(c: Column): string
  {
    c.name + " " + c.sqlType
  }

  function DimensionColumns(d: Dimension): seq<Column>
  {
    if IsGeoPoint(d) then [Column("latitude", "double precision"), Column("longitude", "double precision")]
    else if IsNumeric(d) then [Column(d.qFallbackTitle, "numeric")]
    else [Column(d.qFallbackTitle, "text")]
  }

  /** The table's columns, dimension by dimension. */
  function TableColumns(dims: seq<Dimension>): seq<Column>
  {
    if |dims| == 0 then [] else TableColumns(dims[..|dims| - 1]) + DimensionColumns(dims[|dims| - 1])
  }

  function Definitions(cols: seq<Column>): (defs: seq<string>)
    ensures |defs| == |cols|
  {
    seq(|cols|, i requires 0 <= i < |cols| => Render(cols[i]))
  }

  function ColumnNames(cols: seq<Column>): (names: seq<string>)
    ensures |names| == |cols|
  {
    seq(|cols|, i requires 0 <= i < |cols| => cols[i].name)
  }

  /** The text between the parentheses of the CREATE statement. */
  function ColumnList(dims: seq<Dimension>): string
  {
    Join(Definitions(TableColumns(dims)))
  }

  function CreateStatement(tableName: string, dims: seq<Dimension>): string
  {
    "CREATE TABLE IF NOT EXISTS " + tableName + " (" + ColumnList(dims) + ")"
  }

  lemma DefinitionsAppend(a: seq<Column>, b: seq<Column>)
    ensures Definitions(a + b) == Definitions(a) + Definitions(b)
  {
  }

  lemma ColumnNamesAppend(a: seq<Column>, b: seq<Column>)
    ensures ColumnNames(a + b) == ColumnNames(a) + ColumnNames(b)
  {
  }

  /**
   * The CREATE builder of `populateTable`: appends each dimension's
   * definitions followed by a comma, strips the last comma and closes the
   * parenthesis. The result is the definitions of all the table's columns,
   * comma-joined in dimension order.
   */
  method BuildCreate(tableName: string, dims: seq<Dimension>) returns (sqlQuery: string)
    ensures sqlQuery == CreateStatement(tableName, dims)
  {
    sqlQuery := "CREATE TABLE IF NOT EXISTS " + tableName + " (";
    var sqlColumns := "";
    var idx := 0;
    while idx < |dims|
      invariant idx <= |dims|
      invariant sqlColumns == Terminated(Definitions(TableColumns(dims[..idx])))
    {
      var dimension := dims[idx];
      ColumnsSnoc(dims, idx);
      DimensionText(dimension);
      if IsGeoPoint(dimension) {
        sqlColumns := sqlColumns + "latitude double precision,longitude double precision,";
      } else if IsNumeric(dimension) {
        sqlColumns := sqlColumns + (dimension.qFallbackTitle + " numeric,");
      } else {
        sqlColumns := sqlColumns + (dimension.qFallbackTitle + " text,");
      }
      idx := idx + 1;
    }
    assert dims[..idx] == dims;
    DropLastTerminated(Definitions(TableColumns(dims)));
    sqlQuery := sqlQuery + (DropLast(sqlColumns) + ")");
  }

  lemma ColumnsSnoc(dims: seq<Dimension>, idx: nat)
    requires idx < |dims|
    ensures Terminated(Definitions(TableColumns(dims[..idx + 1])))
      == Terminated(Definitions(TableColumns(dims[..idx]))) + Terminated(Definitions(DimensionColumns(dims[idx])))
  {
    assert dims[..idx + 1][..idx] == dims[..idx];
    DefinitionsAppend(TableColumns(dims[..idx]), DimensionColumns(dims[idx]));
    TerminatedAppend(Definitions(TableColumns(dims[..idx])), Definitions(DimensionColumns(dims[idx])));
  }

  /** The text the CREATE loop appends for one dimension. */
  lemma DimensionText(d: Dimension)
    ensures Terminated(Definitions(DimensionColumns(d))) ==
      if IsGeoPoint(d) then "latitude double precision,longitude double precision,"
      else if IsNumeric(d) then d.qFallbackTitle + " numeric,"
      else d.qFallbackTitle + " text,"
  {
    DimensionDefinitions(d);
    if IsGeoPoint(d) {
      GeoText();
    } else {
      var def := Definitions(DimensionColumns(d))[0];
      TerminatedSnoc([], def);
      assert [] + [def] == [def];
      assert def + "," == if IsNumeric(d) then d.qFallbackTitle + " numeric," else d.qFallbackTitle + " text,";
    }
  }

  /** A single dimension's entry, by the dimension's first tag. */
  lemma OneDimension(d: Dimension)
    ensures ColumnList([d]) ==
      if IsGeoPoint(d) then "latitude double precision,longitude double precision"
      else if IsNumeric(d) then d.qFallbackTitle + " numeric"
      else d.qFallbackTitle + " text"
  {
    assert [d][..0] == [];
    assert TableColumns([d]) == DimensionColumns(d);
    DimensionDefinitions(d);
    GeoText();
  }

  /** Appending a dimension appends its entry after one comma. */
  lemma ColumnListAppend(dims: seq<Dimension>, d: Dimension)
    requires |dims| > 0
    ensures ColumnList(dims + [d]) == ColumnList(dims) + "," + ColumnList([d])
  {
    assert (dims + [d])[..|dims|] == dims;
    assert [d][..0] == [];
    var a, b := TableColumns(dims), DimensionColumns(d);
    assert TableColumns([d]) == b;
    DefinitionsAppend(a, b);
    JoinAppend(Definitions(a), Definitions(b));
  }

  /**
   * When no title holds a comma, splitting the column list at its commas
   * gives back exactly the column definitions, in order.
   */
  lemma ColumnListSplits(dims: seq<Dimension>)
    requires |dims| > 0
    requires forall i :: 0 <= i < |dims| ==> ',' !in dims[i].qFallbackTitle
    ensures Split(ColumnList(dims)) == Definitions(TableColumns(dims))
  {
    DefinitionsCommaFree(dims);
    SplitJoin(Definitions(TableColumns(dims)));
  }

  lemma {:induction false} DefinitionsCommaFree(dims: seq<Dimension>)
    requires forall i :: 0 <= i < |dims| ==> ',' !in dims[i].qFallbackTitle
    ensures CommaFree(Definitions(TableColumns(dims)))
  {
    if |dims| > 0 {
      var d := dims[|dims| - 1];
      DefinitionsCommaFree(dims[..|dims| - 1]);
      DefinitionsAppend(TableColumns(dims[..|dims| - 1]), DimensionColumns(d));
      DimensionCommaFree(d);
    }
  }

  lemma DimensionCommaFree(d: Dimension)
    requires ',' !in d.qFallbackTitle
    ensures CommaFree(Definitions(DimensionColumns(d)))
  {
    DimensionDefinitions(d);
    if IsGeoPoint(d) {
      GeoCommaFree();
    } else {
      CommaFreeConcat(d.qFallbackTitle, if IsNumeric(d) then " numeric" else " text");
    }
  }

  lemma GeoCommaFree()
    ensures ',' !in "latitude double precision" && ',' !in "longitude double precision"
  {
  }

  lemma CommaFreeConcat(a: string, b: string)
    requires ',' !in a && ',' !in b
    ensures ',' !in a + b
  {
  }

  /** The definitions one dimension contributes, as literal text. */
  lemma DimensionDefinitions(d: Dimension)
    ensures Definitions(DimensionColumns(d)) ==
      if IsGeoPoint(d) then ["latitude double precision", "longitude double precision"]
      else if IsNumeric(d) then [d.qFallbackTitle + " numeric"]
      else [d.qFallbackTitle + " text"]
  {
    GeoRender();
    assert Render(Column(d.qFallbackTitle, "numeric")) == d.qFallbackTitle + " numeric";
    assert Render(Column(d.qFallbackTitle, "text")) == d.qFallbackTitle + " text";
  }

  /** The literal a `$geopoint` dimension adds, in joined and terminated form. */
  lemma GeoText()
    ensures Join(["latitude double precision", "longitude double precision"])
      == "latitude double precision,longitude double precision"
    ensures Terminated(["latitude double precision", "longitude double precision"])
      == "latitude double precision,longitude double precision,"
  {
    var lat, lon := "latitude double precision", "longitude double precision";
    assert [lat, lon][1..] == [lon];
    assert Join([lat, lon]) == lat + "," + lon;
    GeoJoined();
    assert [lat, lon][..1] == [lat];
    assert [lat][..0] == [];
    assert Terminated([lat]) == "" + lat + "," == lat + ",";
    assert Terminated([lat, lon]) == lat + "," + lon + ",";
    GeoTerminated();
  }

  /** The two `$geopoint` columns rendered, as literals. */
  lemma GeoRender()
    ensures Render(Column("latitude", "double precision")) == "latitude double precision"
    ensures Render(Column("longitude", "double precision")) == "longitude double precision"
  {
  }

  /** The `$geopoint` definitions joined, as one literal. */
  lemma GeoJoined()
    ensures "latitude double precision" + "," + "longitude double precision"
      == "latitude double precision,longitude double precision"
  {
  }

  /** The `$geopoint` definitions terminated, as one literal. */
  lemma GeoTerminated()
    ensures "latitude double precision" + "," + "longitude double precision" + ","
      == "latitude double precision,longitude double precision,"
  {
  }
}
