/**
 * The ocean pass of the circle generator: a Water cell farther than
 * `oceanDistance` from every land cell becomes Ocean. Land is read from a
 * per-row snapshot taken before the pass, and the search for the nearest
 * land stops early in two places.
 */
module Circle {
  import opened Util
  import opened HexGrid
  import opened HexMaps

  /** `u32::max_value()`, the starting distance to land. */
  const MaxU32: nat := 0xFFFF_FFFF

  /** Every terrain other than Water, Ice and Ocean is land. */
  predicate IsLand(t: HexType)
  {
    !(t.Water? || t.Ice? || t.Ocean?)
  }

  /**
   * The pass's local distance closure on coordinate pairs; it is the
   * formula of `Hex::distance`, so the model uses `Distance` itself.
   */
  function DistTo(hx: int, hy: int, p: (int, int)): nat
  {
    Distance(hx, hy, p.0, p.1)
  }

  /** The coordinates of the land cells among `cells`, in order. */
  function LandOf(cells: seq<Hex>): (r: seq<(int, int)>)
    ensures |r| <= |cells|
    ensures forall p :: p in r <==>
      exists k :: 0 <= k < |cells| && IsLand(cells[k].terrain) && p == (cells[k].x, cells[k].y)
  {
    if cells == [] then []
    else
      var front := cells[..|cells| - 1];
      var last := cells[|cells| - 1];
      assert forall k :: 0 <= k < |front| ==> front[k] == cells[k];
      LandOf(front) + (if IsLand(last.terrain) then [(last.x, last.y)] else [])
  }

  /** Cells of one row y, in increasing x. */
  predicate RowOfCells(cells: seq<Hex>, y: int)
  {
    (forall k :: 0 <= k < |cells| ==> cells[k].y == y)
    && forall i, j :: 0 <= i < j < |cells| ==> cells[i].x < cells[j].x
  }

  /** Coordinate pairs of one row y, in increasing x. */
  predicate RowList(line: seq<(int, int)>, y: int)
  {
    (forall k :: 0 <= k < |line| ==> line[k].1 == y)
    && forall i, j :: 0 <= i < j < |line| ==> line[i].0 < line[j].0
  }

  lemma {:induction false} LandOfRow(cells: seq<Hex>, y: int)
    requires RowOfCells(cells, y)
    ensures RowList(LandOf(cells), y)
    decreases |cells|
  {
    if cells != [] {
      var front := cells[..|cells| - 1];
      LandOfRow(front, y);
      var f := LandOf(front);
      forall i | 0 <= i < |f|
        ensures f[i].0 < cells[|cells| - 1].x
      {
        assert f[i] in f;
      }
    }
  }

  /** Row y of a field stored row by row (`chunks_exact(size_x)`). */
  function RowCells(field: seq<Hex>, sizeX: nat, y: nat): (r: seq<Hex>)
    requires y * sizeX + sizeX <= |field|
    ensures |r| == sizeX
  {
    field[y * sizeX..y * sizeX + sizeX]
  }

  /** Row y of a laid-out field holds the cells of row y in increasing x. */
  lemma LayoutRow(field: seq<Hex>, sizeX: nat, sizeY: nat, y: nat)
    requires Layout(field, sizeX, sizeY) && y < sizeY
    ensures y * sizeX + sizeX <= |field|
    ensures RowOfCells(RowCells(field, sizeX, y), y)
  {
    MulMonotone(y + 1, sizeY, sizeX);
    var cells := RowCells(field, sizeX, y);
    forall k | 0 <= k < sizeX
      ensures cells[k].y == y && cells[k].x == k - Half(y)
    {
      DivModRing(y, k, sizeX);
      assert cells[k] == field[y * sizeX + k];
    }
  }

  /**
   * The snapshot of the land: for every row, the coordinates of its land
   * cells in storage order.
   */
  method LandRows(m: HexMap) returns (rows: seq<seq<(int, int)>>)
    requires m.Valid()
    ensures |rows| == m.sizeY
    ensures forall y :: 0 <= y < m.sizeY ==>
      y * m.sizeX + m.sizeX <= |m.field| && rows[y] == LandOf(RowCells(m.field, m.sizeX, y))
  {
    rows := [];
    for y := 0 to m.sizeY
      invariant |rows| == y
      invariant forall r :: 0 <= r < y ==>
        r * m.sizeX + m.sizeX <= |m.field| && rows[r] == LandOf(RowCells(m.field, m.sizeX, r))
    {
      LayoutRow(m.field, m.sizeX, m.sizeY, y);
      var line := RowCells(m.field, m.sizeX, y);
      var land: seq<(int, int)> := [];
      for k := 0 to |line|
        invariant land == LandOf(line[..k])
      {
        assert line[..k + 1][..k] == line[..k];
        if IsLand(line[k].terrain) {
          land := land + [(line[k].x, line[k].y)];
        }
      }
      assert line[..|line|] == line;
      rows := rows + [land];
    }
  }

  /**
   * Along one row the distance from a fixed cell is convex in x: once it
   * has grown between two land cells it does not drop further on.
   */
  lemma DistanceConvex(hx: int, hy: int, y: int, a: int, b: int, c: int)
    requires a < b <= c
    requires Distance(hx, hy, a, y) < Distance(hx, hy, b, y)
    ensures Distance(hx, hy, b, y) <= Distance(hx, hy, c, y)
  {
    DistanceExact(hx, hy, a, y);
    DistanceExact(hx, hy, b, y);
    DistanceExact(hx, hy, c, y);
  }

  /**
   * The scan of one row of land for the cell (hx, hy). It returns the new
   * distance to land: never more than before, above d when the old one
   * and every cell of the row were above d, and, when it is at least d,
   * no cell of the row is closer. The `break` on a growing distance skips
   * only cells that are no closer; the `break` once the distance is below
   * d ends the scan when the answer is already settled.
   */
  method ScanRow(hx: int, hy: int, line: seq<(int, int)>, y: int, dstToLand: nat, d: nat) returns (dst: nat)
    requires RowList(line, y)
    ensures dst <= dstToLand
    ensures dstToLand > d && (forall k :: 0 <= k < |line| ==> DistTo(hx, hy, line[k]) > d) ==> dst > d
    ensures dst >= d ==> forall k :: 0 <= k < |line| ==> DistTo(hx, hy, line[k]) >= dst
  {
    dst := dstToLand;
    var inLine: Option<nat> := None;
    for k := 0 to |line|
      invariant dst <= dstToLand
      invariant dstToLand > d && (forall j :: 0 <= j < k ==> DistTo(hx, hy, line[j]) > d) ==> dst > d
      invariant dst >= d ==> forall j :: 0 <= j < k ==> DistTo(hx, hy, line[j]) >= dst
      invariant inLine == if k == 0 then None else Some(DistTo(hx, hy, line[k - 1]))
      invariant inLine.Some? ==> dst <= inLine.value
    {
      var here := DistTo(hx, hy, line[k]);
      if inLine.Some? && here > inLine.value {
        forall j | k <= j < |line|
          ensures DistTo(hx, hy, line[j]) >= here
        {
          DistanceConvex(hx, hy, y, line[k - 1].0, line[k].0, line[j].0);
        }
        return;
      }
      inLine := Some(here);
      if here < dst {
        dst := here;
        if dst < d {
          return;
        }
      }
    }
  }

  /**
   * The search for land around one Water cell (hx, hy) of row hy: the
   * rows hy-d .. hy+d that exist are scanned, starting from u32::MAX. The
   * result is above d exactly when d is below u32::MAX and every land
   * cell of the snapshot, in any row, is farther than d.
   */
  method NearestLand(rows: seq<seq<(int, int)>>, hx: int, hy: int, d: nat) returns (dst: nat)
    requires 0 <= hy < |rows|
    requires forall r :: 0 <= r < |rows| ==> RowList(rows[r], r)
    ensures dst > d <==>
      d < MaxU32 && forall r, k :: 0 <= r < |rows| && 0 <= k < |rows[r]| ==> DistTo(hx, hy, rows[r][k]) > d
  {
    dst := MaxU32;
    var minY: int := if hy - d > 0 then hy - d else 0;
    var maxY: int := if hy + d < |rows| - 1 then hy + d else |rows| - 1;
    for r := minY to maxY + 1
      invariant d < MaxU32 && (forall q, k :: minY <= q < r && 0 <= k < |rows[q]| ==> DistTo(hx, hy, rows[q][k]) > d) ==> dst > d
      invariant dst <= MaxU32
      invariant dst >= d ==> forall q, k :: minY <= q < r && 0 <= k < |rows[q]| ==> DistTo(hx, hy, rows[q][k]) >= dst
    {
      dst := ScanRow(hx, hy, rows[r], r, dst, d);
    }
    forall r, k | 0 <= r < |rows| && 0 <= k < |rows[r]| && (r < minY || r > maxY)
      ensures DistTo(hx, hy, rows[r][k]) > d
    {
      DistanceRowBound(hx, hy, rows[r][k].0, rows[r][k].1);
    }
  }

  /** Every land cell of the field is farther than d from (x, y), and d is below u32::MAX. */
  predicate FarFromLand(field: seq<Hex>, x: int, y: int, d: nat)
  {
    d < MaxU32 && forall j :: 0 <= j < |field| && IsLand(field[j].terrain) ==> Distance(x, y, field[j].x, field[j].y) > d
  }

  /**
   * The field after the ocean pass: a Water cell far from all land of the
   * field before the pass becomes Ocean. Only Water cells change, only to
   * Ocean, and coordinates and decorations stay.
   */
  function Oceanised(field: seq<Hex>, d: nat): (r: seq<Hex>)
    ensures |r| == |field|
    ensures forall i :: 0 <= i < |r| ==>
      r[i].x == field[i].x && r[i].y == field[i].y && r[i].decor == field[i].decor
    ensures forall i :: 0 <= i < |r| && r[i].terrain != field[i].terrain ==>
      field[i].terrain == Water && r[i].terrain == Ocean
  {
    seq(|field|, i requires 0 <= i < |field| =>
      if field[i].terrain == Water && FarFromLand(field, field[i].x, field[i].y, d)
      then field[i].(terrain := Ocean) else field[i])
  }

  /** The pass keeps the land, so a second pass changes nothing. */
  lemma OceanIdempotent(field: seq<Hex>, d: nat)
    ensures Oceanised(Oceanised(field, d), d) == Oceanised(field, d)
  {
    var once := Oceanised(field, d);
    forall j | 0 <= j < |field|
      ensures IsLand(once[j].terrain) <==> IsLand(field[j].terrain)
    {
    }
    forall i | 0 <= i < |field|
      ensures FarFromLand(once, once[i].x, once[i].y, d) <==> FarFromLand(field, field[i].x, field[i].y, d)
    {
    }
  }

  /** The rows of a snapshot of the field, as `LandRows` builds them. */
  ghost predicate Snapshot(field: seq<Hex>, sizeX: nat, sizeY: nat, rows: seq<seq<(int, int)>>)
  {
    Layout(field, sizeX, sizeY) && |rows| == sizeY
    && forall y :: 0 <= y < sizeY ==> y * sizeX + sizeX <= |field| && rows[y] == LandOf(RowCells(field, sizeX, y))
  }

  /** The row snapshot sees exactly the land of the field. */
  lemma RowsSeeLand(field: seq<Hex>, sizeX: nat, sizeY: nat, rows: seq<seq<(int, int)>>, hx: int, hy: int, d: nat)
    requires Snapshot(field, sizeX, sizeY, rows)
    ensures (forall r, k :: 0 <= r < |rows| && 0 <= k < |rows[r]| ==> DistTo(hx, hy, rows[r][k]) > d)
      <==> (forall j :: 0 <= j < |field| && IsLand(field[j].terrain) ==> Distance(hx, hy, field[j].x, field[j].y) > d)
  {
    if forall r, k :: 0 <= r < |rows| && 0 <= k < |rows[r]| ==> DistTo(hx, hy, rows[r][k]) > d {
      RowsToField(field, sizeX, sizeY, rows, hx, hy, d);
    }
    if forall j :: 0 <= j < |field| && IsLand(field[j].terrain) ==> Distance(hx, hy, field[j].x, field[j].y) > d {
      FieldToRows(field, sizeX, sizeY, rows, hx, hy, d);
    }
  }

  lemma RowsToField(field: seq<Hex>, sizeX: nat, sizeY: nat, rows: seq<seq<(int, int)>>, hx: int, hy: int, d: nat)
    requires Snapshot(field, sizeX, sizeY, rows)
    requires forall r, k :: 0 <= r < |rows| && 0 <= k < |rows[r]| ==> DistTo(hx, hy, rows[r][k]) > d
    ensures forall j :: 0 <= j < |field| && IsLand(field[j].terrain) ==> Distance(hx, hy, field[j].x, field[j].y) > d
  {
    forall j | 0 <= j < |field| && IsLand(field[j].terrain)
      ensures Distance(hx, hy, field[j].x, field[j].y) > d
    {
      LandInRows(field, sizeX, sizeY, rows, j);
      var y := field[j].y;
      var i :| 0 <= i < |rows[y]| && rows[y][i] == (field[j].x, field[j].y);
      assert DistTo(hx, hy, rows[y][i]) > d;
    }
  }

  lemma FieldToRows(field: seq<Hex>, sizeX: nat, sizeY: nat, rows: seq<seq<(int, int)>>, hx: int, hy: int, d: nat)
    requires Snapshot(field, sizeX, sizeY, rows)
    requires forall j :: 0 <= j < |field| && IsLand(field[j].terrain) ==> Distance(hx, hy, field[j].x, field[j].y) > d
    ensures forall r, k :: 0 <= r < |rows| && 0 <= k < |rows[r]| ==> DistTo(hx, hy, rows[r][k]) > d
  {
    forall r, k | 0 <= r < |rows| && 0 <= k < |rows[r]|
      ensures DistTo(hx, hy, rows[r][k]) > d
    {
      RowsFromLand(field, sizeX, sizeY, rows, r, k);
    }
  }

  /** Every land cell of the field appears in its row of the snapshot. */
  lemma LandInRows(field: seq<Hex>, sizeX: nat, sizeY: nat, rows: seq<seq<(int, int)>>, j: nat)
    requires Snapshot(field, sizeX, sizeY, rows) && j < |field| && IsLand(field[j].terrain)
    ensures 0 <= field[j].y < sizeY
    ensures (field[j].x, field[j].y) in rows[field[j].y]
  {
    IndexRoundTrip(j, sizeX, sizeY);
    var y := j / sizeX;
    var k := j - y * sizeX;
    assert RowCells(field, sizeX, y)[k] == field[j];
  }

  /** Every entry of the snapshot is a land cell of the field. */
  lemma RowsFromLand(field: seq<Hex>, sizeX: nat, sizeY: nat, rows: seq<seq<(int, int)>>, r: nat, k: nat)
    requires Snapshot(field, sizeX, sizeY, rows) && r < |rows| && k < |rows[r]|
    ensures exists j :: 0 <= j < |field| && IsLand(field[j].terrain) && rows[r][k] == (field[j].x, field[j].y)
  {
    assert rows[r][k] in rows[r];
    var cells := RowCells(field, sizeX, r);
    var i :| 0 <= i < |cells| && IsLand(cells[i].terrain) && rows[r][k] == (cells[i].x, cells[i].y);
    assert cells[i] == field[r * sizeX + i];
  }

  /**
   * `Circle::ocean_pass`: the land snapshot is taken, then every Water
   * cell whose search finds no land within d becomes Ocean.
   */
  method OceanPass(m: HexMap, d: nat)
    requires m.Valid()
    modifies m
    ensures m.Valid()
    ensures m.field == Oceanised(old(m.field), d)
  {
    var rows := LandRows(m);
    forall y | 0 <= y < m.sizeY
      ensures RowList(rows[y], y)
    {
      LayoutRow(m.field, m.sizeX, m.sizeY, y);
      LandOfRow(RowCells(m.field, m.sizeX, y), y);
    }
    ghost var before := m.field;
    ghost var after := Oceanised(before, d);
    for i := 0 to |m.field|
      invariant |m.field| == |before|
      invariant forall j :: 0 <= j < i ==> m.field[j] == after[j]
      invariant forall j :: i <= j < |before| ==> m.field[j] == before[j]
    {
      var hex := m.field[i];
      if hex.terrain == Water {
        IndexRoundTrip(i, m.sizeX, m.sizeY);
        var dst := NearestLand(rows, hex.x, hex.y, d);
        RowsSeeLand(before, m.sizeX, m.sizeY, rows, hex.x, hex.y, d);
        if dst > d {
          m.field := m.field[i := hex.(terrain := Ocean)];
        }
      }
    }
    assert m.field == after;
    SameShapeLayout(before, m.field, m.sizeX, m.sizeY);
  }
}
