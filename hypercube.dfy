/**
 * The part of the host's hypercube the export reads: the dimension list
 * (`qDimensionInfo`, each with its tags and fallback title) and the data
 * rows handed out by `eachDataRow`.
 */
module Hypercube {

  datatype Dimension = Dimension(qTags: seq<string>, qFallbackTitle: string)

  /**
   * A cell. A `$geopoint` dimension's cell text is a JSON pair `[lon,lat]`;
   * `LonLat` is that pair already parsed, its numbers kept as their text.
   */
  datatype Cell = Plain(text: string) | LonLat(lon: string, lat: string)

  /** A row as `eachDataRow` passes it: the host's row number and the cells. */
  datatype DataRow = DataRow(rowNum: int, cells: seq<Cell>)

  /** `dimension.qTags[0] == tag`; a dimension without tags matches no tag. */
  predicate HasFirstTag(d: Dimension, tag: string)
  {
    |d.qTags| > 0 && d.qTags[0] == tag
  }

  predicate IsGeoPoint(d: Dimension)
  {
    HasFirstTag(d, "$geopoint")
  }

  predicate IsNumeric(d: Dimension)
  {
    HasFirstTag(d, "$numeric")
  }

  /** The cell's `qText`: a parsed pair is shown as the JSON it came from. */
  function QText(c: Cell): string
  {
    match c
    case Plain(t) => t
    case LonLat(lon, lat) => "[" + lon + "," + lat + "]"
  }

  /**
   * What the serializer needs of a row: every cell has a dimension at its
   * index, and the cells of `$geopoint` dimensions parse as a pair.
   */
  predicate CellsFit(dims: seq<Dimension>, cells: seq<Cell>)
  {
    |cells| <= |dims| &&
    forall i :: 0 <= i < |cells| ==> IsGeoPoint(dims[i]) ==> cells[i].LonLat?
  }

  predicate RowsFit(dims: seq<Dimension>, rows: seq<DataRow>)
  {
    forall r :: 0 <= r < |rows| ==> CellsFit(dims, rows[r].cells)
  }
}
