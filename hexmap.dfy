/**
 * The storage layout of a map: `sizeY` rows of `sizeX` cells each, stored
 * row-major, where row y holds the x values -(y/2) .. sizeX - y/2 - 1.
 * The map type itself lives outside the modelled files; this module fixes
 * the layout the generators and renderers rely on.
 */
module HexMaps {
  import opened Util
  import opened HexGrid

  /** A coordinate pair that names a cell of a sizeX by sizeY map. */
  predicate ValidCoords(x: int, y: int, sizeX: nat, sizeY: nat)
  {
    0 <= y < sizeY && InRow(x, y, sizeX)
  }

  /** Storage index of a cell: row offset plus the position inside the row. */
  function CoordsToIndex(x: int, y: int, sizeX: nat): int
  {
    y * sizeX + x + Half(y)
  }

  /** Coordinates stored at index i. */
  function IndexToCoords(i: nat, sizeX: nat): (c: (int, int))
    requires sizeX >= 1
    ensures c.1 == i / sizeX
  {
    (i % sizeX - Half(i / sizeX), i / sizeX)
  }

  /** Every valid cell has an index inside the field, and the index leads back to the cell. */
  lemma CoordsRoundTrip(x: int, y: int, sizeX: nat, sizeY: nat)
    requires ValidCoords(x, y, sizeX, sizeY)
    ensures 0 <= CoordsToIndex(x, y, sizeX) < sizeX * sizeY
    ensures IndexToCoords(CoordsToIndex(x, y, sizeX), sizeX) == (x, y)
  {
    var col := x + Half(y);
    assert 0 <= col < sizeX;
    DivModUnique(y, col, sizeX);
    assert y * sizeX + col < sizeX * sizeY by {
      assert y * sizeX + col < (y + 1) * sizeX;
      assert (y + 1) * sizeX <= sizeY * sizeX by { MulMonotone(y + 1, sizeY, sizeX); }
    }
  }

  /** Every index of the field names a valid cell, which is stored at that index. */
  lemma IndexRoundTrip(i: nat, sizeX: nat, sizeY: nat)
    requires sizeX >= 1 && i < sizeX * sizeY
    ensures var c := IndexToCoords(i, sizeX);
      ValidCoords(c.0, c.1, sizeX, sizeY) && CoordsToIndex(c.0, c.1, sizeX) == i
  {
    var y := i / sizeX;
    assert i == y * sizeX + i % sizeX;
    if y >= sizeY {
      MulMonotone(sizeY, y, sizeX);
      assert false;
    }
  }

  lemma MulMonotone(a: nat, b: nat, c: nat)
    requires a <= b
    ensures a * c <= b * c
  {
  }

  /** The field holds, at every index, the cell whose coordinates map to it. */
  ghost predicate Layout(field: seq<Hex>, sizeX: nat, sizeY: nat)
  {
    sizeX >= 1 && |field| == sizeX * sizeY
    && forall i :: 0 <= i < |field| ==> (field[i].x, field[i].y) == IndexToCoords(i, sizeX)
  }

  /** Two fields with the same coordinates in every slot have the same layout. */
  predicate SameShape(a: seq<Hex>, b: seq<Hex>)
  {
    |a| == |b| && forall i :: 0 <= i < |a| ==> a[i].x == b[i].x && a[i].y == b[i].y
  }

  lemma SameShapeLayout(a: seq<Hex>, b: seq<Hex>, sizeX: nat, sizeY: nat)
    requires Layout(a, sizeX, sizeY) && SameShape(a, b)
    ensures Layout(b, sizeX, sizeY)
  {
  }

  /** A map: its dimensions and the field of cells, updated in place by the generators. */
  class HexMap {
    const sizeX: nat
    const sizeY: nat
    var field: seq<Hex>

    ghost predicate Valid()
      reads this
    {
      Layout(field, sizeX, sizeY)
    }

    /** A map of Water cells without decorations, laid out row by row. */
    constructor (sx: nat, sy: nat)
      requires sx >= 1
      ensures sizeX == sx && sizeY == sy && Valid()
      ensures forall i :: 0 <= i < |field| ==> field[i].terrain == Water && field[i].decor == 0
    {
      sizeX, sizeY := sx, sy;
      var cells: seq<Hex> := [];
      var i := 0;
      while i < sx * sy
        invariant 0 <= i <= sx * sy && |cells| == i
        invariant forall k :: 0 <= k < i ==> (cells[k].x, cells[k].y) == IndexToCoords(k, sx)
        invariant forall k :: 0 <= k < i ==> cells[k].terrain == Water && cells[k].decor == 0
      {
        var c := IndexToCoords(i, sx);
        cells := cells + [FromCoords(c.0, c.1)];
        i := i + 1;
      }
      field := cells;
    }
  }

  /** Storage indices of a list of valid cells, in order. */
  function CellIndices(cs: seq<(int, int)>, sizeX: nat, sizeY: nat): (r: seq<nat>)
    requires sizeX >= 1
    requires forall c :: c in cs ==> ValidCoords(c.0, c.1, sizeX, sizeY)
    ensures |r| == |cs|
    ensures forall k :: 0 <= k < |r| ==> r[k] < sizeX * sizeY
    ensures forall k :: 0 <= k < |r| ==> IndexToCoords(r[k], sizeX) == cs[k]
  {
    if cs == [] then []
    else
      assert cs[0] in cs;
      CoordsRoundTrip(cs[0].0, cs[0].1, sizeX, sizeY);
      [CoordsToIndex(cs[0].0, cs[0].1, sizeX) as nat] + CellIndices(cs[1..], sizeX, sizeY)
  }

  /**
   * Storage indices of the bounds-checked neighbours of a valid cell, in
   * the order `get_neighbours` lists them.
   */
  function NeighbourIndices(x: int, y: int, sizeX: nat, sizeY: nat): (r: seq<nat>)
    requires ValidCoords(x, y, sizeX, sizeY) && sizeX >= 1
    ensures |r| == |GetNeighbours(x, y, sizeX, sizeY)| <= 6
    ensures forall k :: 0 <= k < |r| ==> r[k] < sizeX * sizeY
    ensures forall k :: 0 <= k < |r| ==> IndexToCoords(r[k], sizeX) == GetNeighbours(x, y, sizeX, sizeY)[k]
  {
    NeighboursInMap(x, y, sizeX, sizeY);
    CellIndices(GetNeighbours(x, y, sizeX, sizeY), sizeX, sizeY)
  }

  /** Neighbour indices of the cell stored at index i. */
  function NeighboursOf(i: nat, sizeX: nat, sizeY: nat): (r: seq<nat>)
    requires sizeX >= 1 && i < sizeX * sizeY
    ensures |r| <= 6
    ensures forall k :: 0 <= k < |r| ==> r[k] < sizeX * sizeY
  {
    IndexRoundTrip(i, sizeX, sizeY);
    var c := IndexToCoords(i, sizeX);
    NeighbourIndices(c.0, c.1, sizeX, sizeY)
  }
}
