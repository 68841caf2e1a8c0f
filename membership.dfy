/** `get_cell_names`: which rows of an image's coordinate table fall within each
    region's outline. Building a polygon from an outline and the `within` test of
    the spatial join are geometry-library calls and are not modelled: the test is
    a parameter that sees the point's x and y cells and the region's outline. */
module Membership {
  import opened Wrappers
  import opened Errors
  import opened Tables
  import opened Calibration
  import opened Dicts

  /** `Point(x, y).within(Polygon(outline))`, as geopandas' `sjoin(...,
      predicate="within")` evaluates it for one row. */
  type Within = (Value, Value, seq<Coord>) -> bool

  predicate HasCoordinates(t: Table, xName: string, yName: string)
  {
    xName in t.columns && yName in t.columns
  }

  /** The labels of the rows whose point lies within `outline`, in row order: a
      label is reported exactly when some row carrying it passes the test. */
  function MembersOf(index: seq<RowId>, rows: seq<Row>, xName: string, yName: string, outline: seq<Coord>, within: Within): (ids: seq<RowId>)
    requires |index| == |rows|
    requires forall i :: 0 <= i < |rows| ==> xName in rows[i] && yName in rows[i]
    ensures |ids| <= |rows|
    ensures forall id :: id in ids <==>
      exists i :: 0 <= i < |rows| && index[i] == id && within(rows[i][xName], rows[i][yName], outline)
  {
    if rows == [] then []
    else
      var n := |rows| - 1;
      var rest := MembersOf(index[..n], rows[..n], xName, yName, outline, within);
      if within(rows[n][xName], rows[n][yName], outline) then rest + [index[n]] else rest
  }

  /** The positions, in ascending order, of the rows whose point lies within
      `outline`. */
  function InsideAt(rows: seq<Row>, xName: string, yName: string, outline: seq<Coord>, within: Within): (p: seq<nat>)
    requires forall i :: 0 <= i < |rows| ==> xName in rows[i] && yName in rows[i]
    ensures forall k :: 0 <= k < |p| ==> p[k] < |rows| && within(rows[p[k]][xName], rows[p[k]][yName], outline)
    ensures forall i :: 0 <= i < |rows| && within(rows[i][xName], rows[i][yName], outline) ==> i in p
    ensures forall k, l :: 0 <= k < l < |p| ==> p[k] < p[l]
  {
    if rows == [] then []
    else
      var n := |rows| - 1;
      var p := InsideAt(rows[..n], xName, yName, outline, within);
      if within(rows[n][xName], rows[n][yName], outline) then p + [n] else p
  }

  /** One label is reported per row within the outline, in row order. */
  lemma {:induction false} MembersInRowOrder(index: seq<RowId>, rows: seq<Row>, xName: string, yName: string,
                                            outline: seq<Coord>, within: Within)
    requires |index| == |rows|
    requires forall i :: 0 <= i < |rows| ==> xName in rows[i] && yName in rows[i]
    ensures var ids, p := MembersOf(index, rows, xName, yName, outline, within), InsideAt(rows, xName, yName, outline, within);
      |ids| == |p| && forall k :: 0 <= k < |p| ==> ids[k] == index[p[k]]
  {
    if rows != [] {
      var n := |rows| - 1;
      MembersInRowOrder(index[..n], rows[..n], xName, yName, outline, within);
      var p := InsideAt(rows[..n], xName, yName, outline, within);
      forall k | 0 <= k < |p| ensures index[..n][p[k]] == index[p[k]] { }
    }
  }

  /** `sjoin(points, polygon, how="inner", predicate="within").index.tolist()`. */
  function Members(t: Table, xName: string, yName: string, outline: seq<Coord>, within: Within): (ids: seq<RowId>)
    requires WellFormed(t) && HasCoordinates(t, xName, yName)
    ensures |ids| <= |t.rows|
    ensures forall id :: id in ids <==>
      exists i :: 0 <= i < |t.rows| && t.index[i] == id && within(t.rows[i][xName], t.rows[i][yName], outline)
  {
    MembersOf(t.index, t.rows, xName, yName, outline, within)
  }

  /** The dictionary `get_cell_names` returns: for each region, in the outlines'
      order, the labels of the rows within it. */
  function CellNames(t: Table, xName: string, yName: string, outlines: seq<(string, seq<Coord>)>, within: Within): (r: seq<(string, seq<RowId>)>)
    requires WellFormed(t) && HasCoordinates(t, xName, yName)
    ensures |r| == |outlines| && forall g :: 0 <= g < |outlines| ==> r[g].0 == outlines[g].0
    ensures forall g, id :: 0 <= g < |outlines| ==> (id in r[g].1 <==>
      exists i :: 0 <= i < |t.rows| && t.index[i] == id && within(t.rows[i][xName], t.rows[i][yName], outlines[g].1))
  {
    seq(|outlines|, i requires 0 <= i < |outlines| => (outlines[i].0, Members(t, xName, yName, outlines[i].1, within)))
  }

  /** The result has the outlines' keys in their order, and every label reported
      for a region is a label of a row of the table whose point is within it. */
  lemma CellNamesFromTable(t: Table, xName: string, yName: string, outlines: seq<(string, seq<Coord>)>, within: Within)
    requires WellFormed(t) && HasCoordinates(t, xName, yName)
    ensures Keys(CellNames(t, xName, yName, outlines, within)) == Keys(outlines)
    ensures forall g, id :: 0 <= g < |outlines| && id in CellNames(t, xName, yName, outlines, within)[g].1 ==>
      id in t.index
  {
    var names := CellNames(t, xName, yName, outlines, within);
    forall g, id | 0 <= g < |outlines| && id in names[g].1 ensures id in t.index {
      var i :| 0 <= i < |t.rows| && t.index[i] == id && within(t.rows[i][xName], t.rows[i][yName], outlines[g].1);
    }
  }

  /** A table without rows puts no row in any region, whatever the outlines. */
  lemma EmptyTableNoMembers(t: Table, xName: string, yName: string, outlines: seq<(string, seq<Coord>)>, within: Within)
    requires WellFormed(t) && HasCoordinates(t, xName, yName) && t.rows == []
    ensures forall g :: 0 <= g < |outlines| ==> CellNames(t, xName, yName, outlines, within)[g].1 == []
  {
  }

  /** `get_cell_names(image_coords, x_name, y_name, mask_coords_dict)`. */
  method GetCellNames(imageCoords: Table, xName: string, yName: string, maskCoordsDict: seq<(string, seq<Coord>)>, within: Within)
    returns (r: Result<seq<(string, seq<RowId>)>, Error>)
    requires WellFormed(imageCoords) && DistinctKeys(maskCoordsDict)
    ensures !HasCoordinates(imageCoords, xName, yName) ==> r == Err(MissingCoordinateColumns(xName, yName))
    ensures HasCoordinates(imageCoords, xName, yName) ==> r == Ok(CellNames(imageCoords, xName, yName, maskCoordsDict, within))
  {
    if !(xName in imageCoords.columns && yName in imageCoords.columns) {
      return Err(MissingCoordinateColumns(xName, yName));
    }
    var insidePointsDict: seq<(string, seq<RowId>)> := [];
    for k := 0 to |maskCoordsDict|
      invariant insidePointsDict == CellNames(imageCoords, xName, yName, maskCoordsDict[..k], within)
    {
      var (maskName, polygon) := maskCoordsDict[k];
      var pointsInside := Members(imageCoords, xName, yName, polygon, within);
      CellNamesFromTable(imageCoords, xName, yName, maskCoordsDict[..k], within);
      assert maskName !in Keys(maskCoordsDict[..k]);
      insidePointsDict := Put(insidePointsDict, maskName, pointsInside);
    }
    assert maskCoordsDict[..|maskCoordsDict|] == maskCoordsDict;
    return Ok(insidePointsDict);
  }
}
