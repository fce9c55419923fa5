/**
  The coloring overlay of `to_geojson`: every record gets a `COLOR` cell of
  -1, then, for each region in the color map, the records whose identifier
  equals that region take its color.
 */
module Overlay {
  import opened Frame

  const ColorColumn: string := "COLOR"

  /** The color of a record the map does not color. */
  const NoColor: int := -1

  /** `df["COLOR"] = -1`. */
  function InitColor(t: Table): Table {
    Table(t.columns + {ColorColumn},
      seq(|t.rows|, i requires 0 <= i < |t.rows| => t.rows[i][ColorColumn := Int(NoColor)]))
  }

  /** `df.loc[df[col] == node, "COLOR"] = color`. */
  function Paint(t: Table, col: string, node: Value, color: int): Table {
    Table(t.columns,
      seq(|t.rows|, i requires 0 <= i < |t.rows| =>
        if col in t.rows[i] && t.rows[i][col] == node then t.rows[i][ColorColumn := Int(color)] else t.rows[i]))
  }

  /** The loop over the color map, visiting its regions in `order`. */
  function PaintAll(t: Table, col: string, cm: map<Value, int>, order: seq<Value>): Table
    requires forall v :: v in order ==> v in cm
    decreases |order|
  {
    if |order| == 0 then t
    else PaintAll(Paint(t, col, order[0], cm[order[0]]), col, cm, order[1..])
  }

  /** Lines 42-44 as a whole. */
  function ApplyColoring(t: Table, col: string, cm: map<Value, int>, order: seq<Value>): Table
    requires forall v :: v in order ==> v in cm
  {
    PaintAll(InitColor(t), col, cm, order)
  }

  /** The color a record should carry once the regions in `done` are painted. */
  function ColorWithin(r: Row, col: string, cm: map<Value, int>, done: set<Value>): int {
    if col in r && r[col] in done && r[col] in cm then cm[r[col]] else NoColor
  }

  /** The color a record should carry: its region's color, or -1 when its
      identifier is not a key of the map. */
  function ColorOf(r: Row, col: string, cm: map<Value, int>): int {
    ColorWithin(r, col, cm, cm.Keys)
  }

  /** Painting the regions of `order` on top of `done` colors exactly the records
      of `done + order` and changes nothing else. */
  lemma {:induction false} PaintAllColors(base: seq<Row>, t: Table, col: string, cm: map<Value, int>, order: seq<Value>, done: set<Value>)
    requires col != ColorColumn
    requires forall v :: v in order ==> v in cm
    requires |t.rows| == |base|
    requires forall i :: 0 <= i < |base| ==> t.rows[i] == base[i][ColorColumn := Int(ColorWithin(base[i], col, cm, done))]
    ensures PaintAll(t, col, cm, order).columns == t.columns
    ensures |PaintAll(t, col, cm, order).rows| == |base|
    ensures forall i :: 0 <= i < |base| ==>
      PaintAll(t, col, cm, order).rows[i] == base[i][ColorColumn := Int(ColorWithin(base[i], col, cm, done + set v | v in order))]
    decreases |order|
  {
    if |order| > 0 {
      var t' := Paint(t, col, order[0], cm[order[0]]);
      var done' := done + {order[0]};
      forall i | 0 <= i < |base|
        ensures t'.rows[i] == base[i][ColorColumn := Int(ColorWithin(base[i], col, cm, done'))]
      {
        assert col in t.rows[i] <==> col in base[i];
        assert col in base[i] ==> t.rows[i][col] == base[i][col];
      }
      PaintAllColors(base, t', col, cm, order[1..], done');
      assert forall v :: v in order <==> v == order[0] || v in order[1..];
      assert done' + (set v | v in order[1..]) == done + (set v | v in order);
    } else {
      assert done + (set v | v in order) == done;
    }
  }

  /** After the overlay, records whose identifier is a key of the map carry that
      key's color, every other record carries -1, and no other cell changes. */
  lemma ApplyColoringColors(t: Table, col: string, cm: map<Value, int>, order: seq<Value>)
    requires col != ColorColumn
    requires forall v :: v in order ==> v in cm
    requires forall v :: v in cm ==> v in order
    ensures ApplyColoring(t, col, cm, order).columns == t.columns + {ColorColumn}
    ensures |ApplyColoring(t, col, cm, order).rows| == |t.rows|
    ensures forall i :: 0 <= i < |t.rows| ==>
      ApplyColoring(t, col, cm, order).rows[i] == t.rows[i][ColorColumn := Int(ColorOf(t.rows[i], col, cm))]
  {
    var t0 := InitColor(t);
    forall i | 0 <= i < |t.rows|
      ensures t0.rows[i] == t.rows[i][ColorColumn := Int(ColorWithin(t.rows[i], col, cm, {}))]
    {
    }
    PaintAllColors(t.rows, t0, col, cm, order, {});
    assert {} + (set v | v in order) == cm.Keys;
  }

  /** The order in which the map's regions are visited does not matter. */
  lemma ColoringOrderIrrelevant(t: Table, col: string, cm: map<Value, int>, order: seq<Value>, order': seq<Value>)
    requires col != ColorColumn
    requires forall v :: v in order ==> v in cm
    requires forall v :: v in cm ==> v in order
    requires forall v :: v in order' ==> v in cm
    requires forall v :: v in cm ==> v in order'
    ensures ApplyColoring(t, col, cm, order) == ApplyColoring(t, col, cm, order')
  {
    ApplyColoringColors(t, col, cm, order);
    ApplyColoringColors(t, col, cm, order');
    assert ApplyColoring(t, col, cm, order).rows == ApplyColoring(t, col, cm, order').rows;
  }
}
