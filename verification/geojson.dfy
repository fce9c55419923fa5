/**
  The table-processing core of `to_geojson`: filter the records, then, when
  an identifier column is named, color the regions with five colors and
  overlay the colors on the records. Reading the archive, reprojecting and
  writing the output file are outside the model.
 */
module GeoJson {
  import opened Wrappers
  import opened Adjacency
  import opened Coloring
  import opened Frame
  import opened Overlay

  /** The palette size `to_geojson` passes to `color_regions`. */
  const NumColors: nat := 5

  /** The identifier column as a sequence, `df[col].to_numpy()`. */
  function Nodes(rows: seq<Row>, col: string): (ns: seq<Value>)
    requires forall r :: r in rows ==> col in r
    ensures |ns| == |rows|
    ensures forall i :: 0 <= i < |rows| ==> ns[i] == rows[i][col]
  {
    if |rows| == 0 then [] else [rows[0][col]] + Nodes(rows[1..], col)
  }

  /** The touch matrix of the records: row `i` holds, for every record `j`,
      whether the geometry of `j` touches that of `i`. */
  function TouchMatrix(rows: seq<Row>, touches: (Row, Row) -> bool): (m: Matrix)
    ensures IsSquare(m, |rows|)
    ensures forall i, j :: 0 <= i < |rows| && 0 <= j < |rows| ==> m[i][j] == touches(rows[j], rows[i])
  {
    seq(|rows|, i requires 0 <= i < |rows| =>
      seq(|rows|, j requires 0 <= j < |rows| => touches(rows[j], rows[i])))
  }

  /** The identifier column of a record followed by others. */
  lemma NodesCons(x: Row, rest: seq<Row>, col: string)
    requires col in x && forall r :: r in rest ==> col in r
    ensures Nodes([x] + rest, col) == [x[col]] + Nodes(rest, col)
  {
    assert ([x] + rest)[1..] == rest;
  }

  /** Every record's identifier appears in the identifier column. */
  lemma NodesOfMember(rows: seq<Row>, col: string, r: Row)
    requires forall r :: r in rows ==> col in r
    requires r in rows
    ensures r[col] in Nodes(rows, col)
  {
    var k :| 0 <= k < |rows| && rows[k] == r;
    assert Nodes(rows, col)[k] == r[col];
  }

  /** Filtering keeps the identifiers unique: ids that are unique in the whole
      table are unique among the records kept. */
  lemma {:induction false} KeepKeepsDistinct(rows: seq<Row>, fs: seq<Filter>, col: string)
    requires forall r :: r in rows ==> col in r
    requires Distinct(Nodes(rows, col))
    ensures Distinct(Nodes(Keep(rows, fs), col))
  {
    if |rows| > 0 {
      var x, rest := rows[0], rows[1..];
      assert rows == [x] + rest;
      NodesCons(x, rest, col);
      DistinctCons(x[col], Nodes(rest, col));
      KeepKeepsDistinct(rest, fs, col);
      var kr := Keep(rest, fs);
      if MatchesAll(x, fs) {
        assert Keep(rows, fs) == [x] + kr;
        NodesCons(x, kr, col);
        forall i | 0 <= i < |kr|
          ensures Nodes(kr, col)[i] != x[col]
        {
          assert kr[i] in kr;
          NodesOfMember(rest, col, kr[i]);
        }
        DistinctCons(x[col], Nodes(kr, col));
      } else {
        assert Keep(rows, fs) == kr;
      }
    }
  }

  /** Lines 40-44 once `color_col` is known to be a column: color the regions
      with `NumColors` colors and overlay the result. */
  function ColorRecords(t: Table, col: string, touches: (Row, Row) -> bool): Result<Table, FrameError>
    requires WellFormed(t)
    requires col in t.columns
    requires Distinct(Nodes(t.rows, col))
  {
    var nodes := Nodes(t.rows, col);
    match ColorRegions(nodes, TouchMatrix(t.rows, touches), NumColors)
    case Failure(_) => Failure(ValueError)
    case Success(None) => Failure(Uncolorable)
    case Success(Some(cm)) =>
      assert forall v :: v in nodes ==> v in cm;
      Success(ApplyColoring(t, col, cm, nodes))
  }

  /** Overlaying a proper coloring of the records' identifiers colors every
      record from the palette, keeps its other cells, and separates records
      the matrix marks as adjacent. */
  lemma OverlayOfProperColoring(t: Table, col: string, nodes: seq<Value>, m: Matrix, cm: map<Value, int>)
    requires WellFormed(t)
    requires col in t.columns && col != ColorColumn
    requires |nodes| == |t.rows| && forall i :: 0 <= i < |t.rows| ==> nodes[i] == t.rows[i][col]
    requires IsSquare(m, |nodes|)
    requires ProperColoring(nodes, m, NumColors, cm)
    ensures forall v :: v in nodes ==> v in cm
    ensures var out := ApplyColoring(t, col, cm, nodes);
      && out.columns == t.columns + {ColorColumn}
      && |out.rows| == |t.rows|
      && (forall i :: 0 <= i < |t.rows| ==>
            && ColorColumn in out.rows[i]
            && out.rows[i] == t.rows[i][ColorColumn := out.rows[i][ColorColumn]]
            && out.rows[i][ColorColumn].Int?
            && 0 <= out.rows[i][ColorColumn].i < NumColors)
      && (forall i, j :: 0 <= i < |t.rows| && 0 <= j < |t.rows| && i != j && m[i][j] ==>
            out.rows[i][ColorColumn] != out.rows[j][ColorColumn])
  {
    assert forall v :: v in cm ==> v in nodes;
    ApplyColoringColors(t, col, cm, nodes);
    var out := ApplyColoring(t, col, cm, nodes);
    forall i | 0 <= i < |t.rows|
      ensures out.rows[i][ColorColumn] == Int(cm[nodes[i]])
    {
      assert t.rows[i] in t.rows;
      assert nodes[i] in nodes;
    }
  }

  /** Every record gains a `COLOR` cell from the palette and keeps every other
      cell, and records whose geometries touch get different colors. */
  lemma ColorRecordsColors(t: Table, col: string, touches: (Row, Row) -> bool)
    requires WellFormed(t)
    requires col in t.columns && col != ColorColumn
    requires Distinct(Nodes(t.rows, col))
    ensures ColorRecords(t, col, touches).Success? ==>
      var out := ColorRecords(t, col, touches).value;
      && out.columns == t.columns + {ColorColumn}
      && |out.rows| == |t.rows|
      && (forall i :: 0 <= i < |t.rows| ==>
            && ColorColumn in out.rows[i]
            && out.rows[i] == t.rows[i][ColorColumn := out.rows[i][ColorColumn]]
            && out.rows[i][ColorColumn].Int?
            && 0 <= out.rows[i][ColorColumn].i < NumColors)
      && (forall i, j :: 0 <= i < |t.rows| && 0 <= j < |t.rows| && i != j && touches(t.rows[j], t.rows[i]) ==>
            out.rows[i][ColorColumn] != out.rows[j][ColorColumn])
  {
    var nodes := Nodes(t.rows, col);
    var m := TouchMatrix(t.rows, touches);
    if ColorRegions(nodes, m, NumColors).Success? && ColorRegions(nodes, m, NumColors).value.Some? {
      var cm := ColorRegions(nodes, m, NumColors).value.value;
      OverlayOfProperColoring(t, col, nodes, m, cm);
      assert ColorRecords(t, col, touches) == Success(ApplyColoring(t, col, cm, nodes));
    }
  }

  /** `color_regions` raises `ValueError` exactly when there are no records to color. */
  lemma ColorRecordsEmpty(t: Table, col: string, touches: (Row, Row) -> bool)
    requires WellFormed(t)
    requires col in t.columns
    requires Distinct(Nodes(t.rows, col))
    ensures ColorRecords(t, col, touches) == Failure(ValueError) <==> |t.rows| == 0
  {
    var nodes := Nodes(t.rows, col);
    var r := ColorRegions(nodes, TouchMatrix(t.rows, touches), NumColors);
    if |t.rows| == 0 {
      assert r == Failure(NotTwoDimensional);
    } else {
      assert r.Success?;
    }
  }

  /** With at least one record, coloring fails exactly when the regions have
      no proper coloring with `NumColors` colors, and then with `Uncolorable`. */
  lemma ColorRecordsUncolorable(t: Table, col: string, touches: (Row, Row) -> bool)
    requires WellFormed(t)
    requires col in t.columns
    requires Distinct(Nodes(t.rows, col))
    ensures |t.rows| > 0 ==>
      (ColorRecords(t, col, touches).Failure? <==>
       forall a :: !ProperColoring(Nodes(t.rows, col), TouchMatrix(t.rows, touches), NumColors, a))
    ensures |t.rows| > 0 && ColorRecords(t, col, touches).Failure? ==>
      ColorRecords(t, col, touches).error == Uncolorable
  {
    var nodes := Nodes(t.rows, col);
    var m := TouchMatrix(t.rows, touches);
    var r := ColorRegions(nodes, m, NumColors);
    if |t.rows| > 0 {
      if r.value.None? {
        ColorRegionsDecides(nodes, m, NumColors);
        assert ColorRecords(t, col, touches) == Failure(Uncolorable);
      } else {
        assert ProperColoring(nodes, m, NumColors, r.value.value);
        assert ColorRecords(t, col, touches).Success?;
      }
    }
  }

  /** `to_geojson` between reading the archive and reprojecting it. `colorCol`
      is `color_col`; `None` and the empty string both mean "no coloring".
      A key missing from the frame raises `KeyError`; a filtered frame with no
      records makes `color_regions` raise `ValueError`; a map that could not be
      colored leaves nothing to iterate over. */
  function ToGeoJson(t: Table, fs: seq<Filter>, colorCol: Option<string>, touches: (Row, Row) -> bool): Result<Table, FrameError>
    requires WellFormed(t)
    requires colorCol.Some? && colorCol.value != "" && colorCol.value in t.columns ==>
      Distinct(Nodes(Keep(t.rows, fs), colorCol.value))
  {
    var filtered :- ApplyFilters(t, fs);
    if colorCol.None? || colorCol.value == "" then Success(filtered)
    else
      var col := colorCol.value;
      if col !in filtered.columns then Failure(KeyError(col))
      else
        FiltersKeepMatching(t, fs);
        ColorRecords(filtered, col, touches)
  }

  /** Without an identifier column the result is the filtered frame. */
  lemma ToGeoJsonUncolored(t: Table, fs: seq<Filter>, colorCol: Option<string>, touches: (Row, Row) -> bool)
    requires WellFormed(t)
    requires colorCol.None? || colorCol.value == ""
    ensures ToGeoJson(t, fs, colorCol, touches).Success? <==> forall f :: f in fs ==> f.0 in t.columns
    ensures ToGeoJson(t, fs, colorCol, touches).Success? ==>
      ToGeoJson(t, fs, colorCol, touches).value == Table(t.columns, Keep(t.rows, fs))
  {
    FiltersKeepMatching(t, fs);
  }

  /** A colored result keeps exactly the filtered records, in order; each gains a
      `COLOR` cell from the five-color palette and keeps every other cell, and
      records whose geometries touch get different colors. */
  lemma ToGeoJsonColored(t: Table, fs: seq<Filter>, col: string, touches: (Row, Row) -> bool)
    requires WellFormed(t)
    requires col != "" && col != ColorColumn
    requires col in t.columns ==> Distinct(Nodes(Keep(t.rows, fs), col))
    ensures ToGeoJson(t, fs, Some(col), touches).Success? ==>
      var out := ToGeoJson(t, fs, Some(col), touches).value;
      var kept := Keep(t.rows, fs);
      && out.columns == t.columns + {ColorColumn}
      && |out.rows| == |kept|
      && (forall i :: 0 <= i < |kept| ==>
            && ColorColumn in out.rows[i]
            && out.rows[i] == kept[i][ColorColumn := out.rows[i][ColorColumn]]
            && out.rows[i][ColorColumn].Int?
            && 0 <= out.rows[i][ColorColumn].i < NumColors)
      && (forall i, j :: 0 <= i < |kept| && 0 <= j < |kept| && i != j && touches(kept[j], kept[i]) ==>
            out.rows[i][ColorColumn] != out.rows[j][ColorColumn])
  {
    FiltersKeepMatching(t, fs);
    if ApplyFilters(t, fs).Success? && col in t.columns {
      var filtered := Table(t.columns, Keep(t.rows, fs));
      assert ApplyFilters(t, fs) == Success(filtered);
      assert ToGeoJson(t, fs, Some(col), touches) == ColorRecords(filtered, col, touches);
      ColorRecordsColors(filtered, col, touches);
    }
  }

  /** A failure is a key missing from the frame, a filtered frame with no records
      to color, or a map that five colors cannot color. */
  lemma ToGeoJsonFailures(t: Table, fs: seq<Filter>, colorCol: Option<string>, touches: (Row, Row) -> bool)
    requires WellFormed(t)
    requires colorCol.Some? && colorCol.value != "" && colorCol.value in t.columns ==>
      Distinct(Nodes(Keep(t.rows, fs), colorCol.value))
    requires ToGeoJson(t, fs, colorCol, touches).Failure?
    ensures var e := ToGeoJson(t, fs, colorCol, touches).error;
      || (e.KeyError? && e.column !in t.columns)
      || (e == ValueError && colorCol.Some? && colorCol.value in t.columns && |Keep(t.rows, fs)| == 0)
      || (e == Uncolorable && colorCol.Some? && colorCol.value in t.columns && |Keep(t.rows, fs)| > 0
          && forall a :: !ProperColoring(Nodes(Keep(t.rows, fs), colorCol.value),
                                        TouchMatrix(Keep(t.rows, fs), touches), NumColors, a))
  {
    FiltersKeepMatching(t, fs);
    if ApplyFilters(t, fs).Success? && colorCol.Some? && colorCol.value != "" && colorCol.value in t.columns {
      var filtered := Table(t.columns, Keep(t.rows, fs));
      ColorRecordsEmpty(filtered, colorCol.value, touches);
      ColorRecordsUncolorable(filtered, colorCol.value, touches);
    }
  }
}
