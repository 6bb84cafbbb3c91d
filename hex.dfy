/**
 * The hex-grid kernel: axial offset coordinates on a map that wraps
 * horizontally, hex distance, neighbour enumeration, rings and spirals,
 * terrain types and decoration flags.
 *
 * A cell (x, y) lives in row y; row y holds the x values
 * -(y/2) .. sizeX - y/2 - 1, where `/` truncates toward zero as in Rust.
 */
module HexGrid {
  import opened Util

  // ---------------------------------------------------------------------
  // Terrain types and decorations
  // ---------------------------------------------------------------------

  /** Terrain of one cell; `Debug` carries an RGB colour. */
  datatype HexType =
    | Field | Forest | Desert | Tundra | Water | Ocean | Mountain
    | Impassable | Ice | Jungle | Swamp | Grassland
    | Debug(r: Byte, g: Byte, b: Byte)

  /** `HexType::get_num_variants` */
  const NumVariants: nat := 13

  /** `From<HexType> for i32`: the variant's position; every Debug colour maps to 12. */
  function TypeToIndex(t: HexType): (i: int)
    ensures 0 <= i < NumVariants
    ensures i == 12 <==> t.Debug?
  {
    match t
    case Field => 0
    case Forest => 1
    case Desert => 2
    case Tundra => 3
    case Water => 4
    case Ocean => 5
    case Mountain => 6
    case Impassable => 7
    case Ice => 8
    case Jungle => 9
    case Swamp => 10
    case Grassland => 11
    case Debug(_, _, _) => 12
  }

  /** `From<i32> for HexType`: panics (None) outside 0..12; 12 gives black Debug. */
  function TypeFromIndex(i: int): (r: Option<HexType>)
    ensures r.Some? <==> 0 <= i < NumVariants
    ensures r.Some? ==> TypeToIndex(r.value) == i
  {
    match i
    case 0 => Some(Field)
    case 1 => Some(Forest)
    case 2 => Some(Desert)
    case 3 => Some(Tundra)
    case 4 => Some(Water)
    case 5 => Some(Ocean)
    case 6 => Some(Mountain)
    case 7 => Some(Impassable)
    case 8 => Some(Ice)
    case 9 => Some(Jungle)
    case 10 => Some(Swamp)
    case 11 => Some(Grassland)
    case 12 => Some(Debug(0, 0, 0))
    case _ => None
  }

  /** Converting a non-Debug type to its index and back gives the type itself. */
  lemma TypeIndexRoundTrip(t: HexType)
    ensures !t.Debug? ==> TypeFromIndex(TypeToIndex(t)) == Some(t)
    ensures t.Debug? ==> TypeFromIndex(TypeToIndex(t)) == Some(Debug(0, 0, 0))
  {
  }

  /** Decimal rendering of a byte, as `format!("{}", b)` prints it. */
  function DecimalByte(b: Byte): (s: string)
    ensures 1 <= |s| <= 3
    ensures forall k :: 0 <= k < |s| ==> '0' <= s[k] <= '9'
  {
    if b < 10 then [Digit(b)]
    else if b < 100 then [Digit(b / 10), Digit(b % 10)]
    else [Digit(b / 100), Digit(b / 10 % 10), Digit(b % 10)]
  }

  function Digit(d: nat): (c: char)
    requires d < 10
    ensures '0' <= c <= '9'
  {
    ['0', '1', '2', '3', '4', '5', '6', '7', '8', '9'][d]
  }

  /** `From<HexType> for String`: the variant name, or "Debug: r, g, b". */
  function TypeName(t: HexType): (s: string)
    ensures !t.Debug? ==> 3 <= |s| <= 10
    ensures t.Debug? ==> |s| >= 14 && s[..7] == "Debug: "
  {
    match t
    case Field => "Field"
    case Forest => "Forest"
    case Desert => "Desert"
    case Tundra => "Tundra"
    case Water => "Water"
    case Ocean => "Ocean"
    case Mountain => "Mountain"
    case Impassable => "Impassable"
    case Ice => "Ice"
    case Jungle => "Jungle"
    case Swamp => "Swamp"
    case Grassland => "Grassland"
    case Debug(r, g, b) =>
      "Debug: " + DecimalByte(r) + ", " + DecimalByte(g) + ", " + DecimalByte(b)
  }

  /** `HEX_TYPE_STRINGS`: name of every non-Debug type to the type. */
  const TypeStrings: map<string, HexType> := map[
    "Field" := Field, "Forest" := Forest, "Desert" := Desert, "Tundra" := Tundra,
    "Water" := Water, "Ocean" := Ocean, "Mountain" := Mountain,
    "Impassable" := Impassable, "Ice" := Ice, "Jungle" := Jungle,
    "Swamp" := Swamp, "Grassland" := Grassland]

  /**
   * The name table and `TypeName` are inverse: every key names its own
   * type, every non-Debug type is found under its name, and no Debug
   * colour's name is a key.
   */
  lemma TypeStringsInverse(t: HexType, s: string)
    ensures s in TypeStrings ==> !TypeStrings[s].Debug? && TypeName(TypeStrings[s]) == s
    ensures !t.Debug? ==> TypeName(t) in TypeStrings && TypeStrings[TypeName(t)] == t
    ensures t.Debug? ==> TypeName(t) !in TypeStrings
  {
    if t.Debug? {
      var n := TypeName(t);
      assert |n| >= 14;
    }
  }

  /** `Decor`: decoration bit flags of a cell. */
  type Decor = bv8
  const RIVER: Decor := 0x01
  const VILLAGE: Decor := 0x02
  const CITY: Decor := 0x04
  const ROAD: Decor := 0x08
  const RUIN: Decor := 0x10
  const HILL: Decor := 0x20
  const AllDecor: seq<Decor> := [RIVER, VILLAGE, CITY, ROAD, RUIN, HILL]

  predicate HasDecor(d: Decor, flag: Decor)
  {
    d & flag == flag
  }

  /**
   * The six flags are distinct single bits, so setting one flag never
   * sets or clears another, and the empty set holds none.
   */
  lemma DecorIndependent(d: Decor, i: nat, j: nat)
    requires i < 6 && j < 6
    ensures !HasDecor(0, AllDecor[i])
    ensures HasDecor(d | AllDecor[i], AllDecor[i])
    ensures i != j ==> (HasDecor(d | AllDecor[i], AllDecor[j]) <==> HasDecor(d, AllDecor[j]))
  {
  }

  /** One map cell. */
  datatype Hex = Hex(x: int, y: int, terrain: HexType, decor: Decor)

  /** `Hex::from_coords`: a Water cell without decorations. */
  function FromCoords(x: int, y: int): (h: Hex)
    ensures h.x == x && h.y == y && h.terrain == Water && h.decor == 0
  {
    Hex(x, y, Water, 0)
  }

  // ---------------------------------------------------------------------
  // Coordinates
  // ---------------------------------------------------------------------

  /** Rust's `y / 2` on i32, which truncates toward zero. */
  function Half(y: int): (h: int)
    ensures y >= 0 ==> 0 <= y - 2 * h <= 1
    ensures y < 0 ==> 0 <= 2 * h - y <= 1
  {
    if y >= 0 then y / 2 else -((-y) / 2)
  }

  /** x lies in the stored range of row y. */
  predicate InRow(x: int, y: int, sizeX: nat)
  {
    -Half(y) <= x < sizeX - Half(y)
  }

  /** `Hex::unwrap_coords`: brings an x that overshoots its row back by one map width. */
  function UnwrapCoords(x: int, y: int, sizeX: nat): (r: (int, int))
    ensures r.1 == y
    ensures r.0 == x || r.0 == x + sizeX || r.0 == x - sizeX
    ensures InRow(x, y, sizeX) ==> r.0 == x
    ensures -Half(y) - sizeX <= x < 2 * sizeX - Half(y) ==> InRow(r.0, y, sizeX)
  {
    if x < -Half(y) then (x + sizeX, y)
    else if x >= sizeX - Half(y) then (x - sizeX, y)
    else (x, y)
  }

  /** An overshoot of at most one width is fixed in one step; a second unwrap changes nothing. */
  lemma UnwrapIdempotent(x: int, y: int, sizeX: nat)
    requires -Half(y) - sizeX <= x < 2 * sizeX - Half(y)
    ensures var r := UnwrapCoords(x, y, sizeX); UnwrapCoords(r.0, r.1, sizeX) == r
  {
  }

  /** The unit tests of `unwrap_coords`, truncating division included. */
  lemma UnwrapExamples()
    ensures UnwrapCoords(-1, 1, 10) == (9, 1)
    ensures UnwrapCoords(-1, 2, 10) == (-1, 2)
    ensures UnwrapCoords(0, 1, 10) == (0, 1)
    ensures UnwrapCoords(10, 1, 10) == (0, 1)
  {
  }

  // ---------------------------------------------------------------------
  // Distance
  // ---------------------------------------------------------------------

  /** `Hex::distance` (and `distance_to`, `distance_between`): axial hex distance. */
  function Distance(x1: int, y1: int, x2: int, y2: int): nat
  {
    (Abs(x1 - x2) + Abs(x1 + y1 - x2 - y2) + Abs(y1 - y2)) / 2
  }

  /** The three absolute values always sum to an even number, so the halving is exact. */
  lemma DistanceExact(x1: int, y1: int, x2: int, y2: int)
    ensures 2 * Distance(x1, y1, x2, y2) == Abs(x1 - x2) + Abs(x1 + y1 - x2 - y2) + Abs(y1 - y2)
  {
  }

  /** Distance is a metric on coordinates. */
  lemma DistanceMetric(x1: int, y1: int, x2: int, y2: int, x3: int, y3: int)
    ensures Distance(x1, y1, x2, y2) == Distance(x2, y2, x1, y1)
    ensures Distance(x1, y1, x2, y2) == 0 <==> x1 == x2 && y1 == y2
    ensures Distance(x1, y1, x3, y3) <= Distance(x1, y1, x2, y2) + Distance(x2, y2, x3, y3)
  {
    DistanceExact(x1, y1, x2, y2);
    DistanceExact(x2, y2, x3, y3);
    DistanceExact(x1, y1, x3, y3);
  }

  /** Two cells are at least as far apart as their rows. */
  lemma DistanceRowBound(x1: int, y1: int, x2: int, y2: int)
    ensures Distance(x1, y1, x2, y2) >= Abs(y1 - y2)
  {
  }

  /** The unit tests of `distance_between`. */
  lemma DistanceExamples()
    ensures Distance(5, 4, 6, 4) == 1 && Distance(5, 4, 4, 4) == 1
    ensures Distance(5, 4, 5, 3) == 1 && Distance(5, 4, 6, 3) == 1
    ensures Distance(5, 4, 4, 5) == 1 && Distance(5, 4, 5, 5) == 1
    ensures Distance(-5, 4, -7, 4) == 2
    ensures Distance(-5, 4, -5, 1) == 3
  {
  }

  // ---------------------------------------------------------------------
  // Neighbours
  // ---------------------------------------------------------------------

  /** Neighbour offsets: bottom right, bottom left, left, top left, top right, right. */
  const Offsets: seq<(int, int)> := [(0, 1), (-1, 1), (-1, 0), (0, -1), (1, -1), (1, 0)]

  /** Each offset leads to a cell at distance one. */
  lemma OffsetsAdjacent(x: int, y: int, k: nat)
    requires k < 6
    ensures Distance(x, y, x + Offsets[k].0, y + Offsets[k].1) == 1
  {
  }

  /** `Hex::get_neighbours_unchecked`: all six neighbours, unwrapped, in the fixed order. */
  function NeighboursUnchecked(x: int, y: int, sizeX: nat): (r: seq<(int, int)>)
    ensures |r| == 6
    ensures forall k :: 0 <= k < 6 ==> r[k].1 == y + Offsets[k].1
  {
    seq(6, k requires 0 <= k < 6 => UnwrapCoords(x + Offsets[k].0, y + Offsets[k].1, sizeX))
  }

  /**
   * A neighbour lies in the row the offset names, one step away once the
   * wrap (zero or one map width) is undone.
   */
  lemma NeighbourAdjacent(x: int, y: int, sizeX: nat, k: nat)
    requires k < 6
    ensures var n := NeighboursUnchecked(x, y, sizeX)[k];
      var w := n.0 - (x + Offsets[k].0);
      (w == 0 || w == sizeX || w + sizeX == 0) && n.1 == y + Offsets[k].1
      && Distance(x, y, n.0 - w, n.1) == 1
  {
    OffsetsAdjacent(x, y, k);
  }

  /**
   * `Hex::get_neighbours`: the unchecked neighbours minus the two below on
   * the last row and the two above on row 0.
   */
  function GetNeighbours(x: int, y: int, sizeX: nat, sizeY: nat): (r: seq<(int, int)>)
    ensures |r| == 2 + (if y != sizeY - 1 then 2 else 0) + (if y != 0 then 2 else 0)
    ensures forall k :: 0 <= k < |r| ==> y - 1 <= r[k].1 <= y + 1
    ensures forall k :: 0 <= k < |r| ==> r[k] in NeighboursUnchecked(x, y, sizeX)
    ensures forall k :: 0 <= k < |r| ==> (r[k].1 == y + 1 ==> y != sizeY - 1) && (r[k].1 == y - 1 ==> y != 0)
  {
    var u := NeighboursUnchecked(x, y, sizeX);
    (if y != sizeY - 1 then [u[0], u[1]] else [])
    + [u[2]]
    + (if y != 0 then [u[3], u[4]] else [])
    + [u[5]]
  }

  /** Which of the six unchecked neighbours survive the bounds check. */
  lemma GetNeighboursRows(x: int, y: int, sizeX: nat, sizeY: nat)
    requires 0 <= y < sizeY
    ensures forall k :: 0 <= k < 6 ==>
      (NeighboursUnchecked(x, y, sizeX)[k] in GetNeighbours(x, y, sizeX, sizeY)
       <== 0 <= y + Offsets[k].1 < sizeY)
  {
    var u := NeighboursUnchecked(x, y, sizeX);
    var r := GetNeighbours(x, y, sizeX, sizeY);
    forall k | 0 <= k < 6 && 0 <= y + Offsets[k].1 < sizeY
      ensures u[k] in r
    {
      if k == 0 || k == 1 {
        assert r[k] == u[k];
      } else if k == 2 {
        assert r[if y != sizeY - 1 then 2 else 0] == u[2];
      } else if k == 3 || k == 4 {
        assert r[(if y != sizeY - 1 then 2 else 0) + k - 2] == u[k];
      } else {
        assert r[|r| - 1] == u[5];
      }
    }
  }

  /** The unwrapped neighbour of a cell inside its row is inside its own row. */
  lemma NeighbourInRow(x: int, y: int, sizeX: nat, k: nat)
    requires k < 6 && sizeX >= 1 && InRow(x, y, sizeX)
    ensures var n := NeighboursUnchecked(x, y, sizeX)[k]; InRow(n.0, n.1, sizeX)
  {
    assert -1 <= Half(y + Offsets[k].1) - Half(y) <= 1;
  }

  /** Every bounds-checked neighbour of a cell inside the map is itself inside the map. */
  lemma NeighboursInMap(x: int, y: int, sizeX: nat, sizeY: nat)
    requires sizeX >= 1 && 0 <= y < sizeY && InRow(x, y, sizeX)
    ensures forall n :: n in GetNeighbours(x, y, sizeX, sizeY) ==>
      0 <= n.1 < sizeY && InRow(n.0, n.1, sizeX)
  {
    var u := NeighboursUnchecked(x, y, sizeX);
    forall k | 0 <= k < 6
      ensures InRow(u[k].0, u[k].1, sizeX)
    {
      NeighbourInRow(x, y, sizeX, k);
    }
  }

  // ---------------------------------------------------------------------
  // Rings and spirals
  // ---------------------------------------------------------------------

  /**
   * Step j of side i of the radius-r ring around (cx, cy) on an unbounded
   * grid: the walk starts at (cx + r, cy - r) and follows the six offsets
   * in order, r steps each.
   */
  function RingAt(cx: int, cy: int, r: nat, i: nat, j: int): (int, int)
  {
    match i
    case 0 => (cx + r, cy - r + j)
    case 1 => (cx + r - j, cy + j)
    case 2 => (cx - j, cy + r)
    case 3 => (cx - r, cy + r - j)
    case 4 => (cx - r + j, cy - j)
    case _ => (cx + j, cy - r)
  }

  /** Every step of the unbounded ring lies at distance r from the centre. */
  lemma RingAtDistance(cx: int, cy: int, r: nat, i: nat, j: nat)
    requires i < 6 && j <= r
    ensures var p := RingAt(cx, cy, r, i, j); Distance(cx, cy, p.0, p.1) == r
  {
  }

  /** One step along side i; the last step of a side is the first of the next. */
  lemma RingStep(cx: int, cy: int, r: nat, i: nat, j: nat)
    requires i < 6 && j < r
    ensures var p := RingAt(cx, cy, r, i, j);
      var q := if j + 1 < r then RingAt(cx, cy, r, i, j + 1)
               else if i < 5 then RingAt(cx, cy, r, i + 1, 0)
               else RingAt(cx, cy, r, 0, 0);
      q == (p.0 + Offsets[i].0, p.1 + Offsets[i].1)
  {
  }

  /** No cell of the unbounded ring overshoots its row, so no wrap fires. */
  predicate RingFits(cx: int, cy: int, r: nat, sizeX: nat)
  {
    forall i, j :: 0 <= i < 6 && 0 <= j < r ==>
      var p := RingAt(cx, cy, r, i, j); InRow(p.0, p.1, sizeX)
  }

  /** Same row, and x equal up to a whole number of map widths. */
  predicate SameUpToWrap(a: (int, int), b: (int, int), sizeX: nat)
    requires sizeX >= 1
  {
    a.1 == b.1 && (a.0 - b.0) % sizeX == 0
  }

  lemma ShiftByWidth(d: int, w: int, delta: int)
    requires w >= 1 && d % w == 0
    requires delta == 0 || delta == w || delta == -w
    ensures (d + delta) % w == 0
  {
    var q := d / w;
    assert d == q * w;
    if delta == w {
      assert d + delta == (q + 1) * w;
      DivModUnique(q + 1, 0, w);
    } else if delta == -w {
      assert d + delta == (q - 1) * w;
      DivModUnique(q - 1, 0, w);
    }
  }

  /**
   * The first i sides of the radius-r ring on an unbounded grid, side by
   * side, r steps each.
   */
  function RingSides(cx: int, cy: int, r: nat, i: nat): (s: seq<(int, int)>)
    ensures |s| == i * r
  {
    if i == 0 then [] else RingSides(cx, cy, r, i - 1) + seq(r, j => RingAt(cx, cy, r, i - 1, j))
  }

  /** The whole unbounded ring. */
  function Ring(cx: int, cy: int, r: nat): seq<(int, int)>
  {
    RingSides(cx, cy, r, 6)
  }

  /** Every cell of the unbounded ring lies at distance r from the centre. */
  lemma {:induction false} RingSidesDistance(cx: int, cy: int, r: nat, i: nat)
    requires i <= 6
    ensures forall k :: 0 <= k < |RingSides(cx, cy, r, i)| ==>
      Distance(cx, cy, RingSides(cx, cy, r, i)[k].0, RingSides(cx, cy, r, i)[k].1) == r
  {
    if i > 0 {
      RingSidesDistance(cx, cy, r, i - 1);
      var s := RingSides(cx, cy, r, i);
      var prev := RingSides(cx, cy, r, i - 1);
      forall k | |prev| <= k < |s|
        ensures Distance(cx, cy, s[k].0, s[k].1) == r
      {
        RingAtDistance(cx, cy, r, i - 1, k - |prev|);
      }
    }
  }

  /** A walk cell agrees with its unbounded counterpart up to wrapping, and exactly when nothing wraps. */
  predicate RingMatch(sizeX: nat, fits: bool, hex: (int, int), p: (int, int))
    requires sizeX >= 1
  {
    SameUpToWrap(hex, p, sizeX) && (fits ==> hex == p)
  }

  /**
   * Moving a tracked cell and its unbounded counterpart by the same offset
   * keeps them matched, provided the counterpart's target needs no wrap
   * whenever no wrap is allowed.
   */
  lemma RingMatchMove(sizeX: nat, fits: bool, hex: (int, int), p: (int, int), d: (int, int))
    requires sizeX >= 1 && -1 <= d.0 <= 1
    requires RingMatch(sizeX, fits, hex, p)
    requires fits ==> InRow(p.0 + d.0, p.1 + d.1, sizeX)
    ensures RingMatch(sizeX, fits, UnwrapCoords(hex.0 + d.0, hex.1 + d.1, sizeX), (p.0 + d.0, p.1 + d.1))
  {
    var next := UnwrapCoords(hex.0 + d.0, hex.1 + d.1, sizeX);
    var delta := next.0 - (hex.0 + d.0);
    ShiftByWidth(hex.0 - p.0, sizeX, delta);
    assert next.0 - (p.0 + d.0) == (hex.0 - p.0) + delta;
  }

  /** Stepping from a tracked cell in side i's direction tracks the next step of the walk. */
  lemma RingMatchStep(cx: int, cy: int, radius: nat, sizeX: nat, fits: bool, hex: (int, int), i: nat, j: nat)
    requires sizeX >= 1 && i < 6 && j < radius && (j + 1 < radius || i < 5)
    requires fits ==> RingFits(cx, cy, radius, sizeX)
    requires RingMatch(sizeX, fits, hex, RingAt(cx, cy, radius, i, j))
    ensures var next := NeighboursUnchecked(hex.0, hex.1, sizeX)[i];
      if j + 1 < radius then RingMatch(sizeX, fits, next, RingAt(cx, cy, radius, i, j + 1))
      else RingMatch(sizeX, fits, next, RingAt(cx, cy, radius, i + 1, 0))
  {
    var p := RingAt(cx, cy, radius, i, j);
    RingStep(cx, cy, radius, i, j);
    var ni, nj := if j + 1 < radius then i else i + 1, if j + 1 < radius then j + 1 else 0;
    var q := RingAt(cx, cy, radius, ni, nj);
    var d := Offsets[i];
    assert q == (p.0 + d.0, p.1 + d.1);
    assert fits ==> InRow(q.0, q.1, sizeX);
    var next := NeighboursUnchecked(hex.0, hex.1, sizeX)[i];
    assert next == UnwrapCoords(hex.0 + d.0, hex.1 + d.1, sizeX);
    RingMatchMove(sizeX, fits, hex, p, d);
    assert RingMatch(sizeX, fits, next, q);
  }

  /** A completed side extends the first i sides by side i. */
  lemma RingSideDone(cx: int, cy: int, radius: nat, exp: seq<(int, int)>, i: nat)
    requires |exp| == |RingSides(cx, cy, radius, i)| + radius
    requires exp[..|RingSides(cx, cy, radius, i)|] == RingSides(cx, cy, radius, i)
    requires forall k :: |RingSides(cx, cy, radius, i)| <= k < |exp| ==>
      exp[k] == RingAt(cx, cy, radius, i, k - |RingSides(cx, cy, radius, i)|)
    ensures exp == RingSides(cx, cy, radius, i + 1)
  {
    var done := RingSides(cx, cy, radius, i);
    assert forall k :: 0 <= k < |done| ==> exp[k] == exp[..|done|][k];
  }

  /** Matching the whole unbounded ring gives the ring's contract. */
  lemma RingDone(cx: int, cy: int, radius: nat, sizeX: nat, fits: bool, results: seq<(int, int)>)
    requires sizeX >= 1 && fits == RingFits(cx, cy, radius, sizeX) && |results| == 6 * radius
    requires forall k :: 0 <= k < |results| ==>
      RingMatch(sizeX, fits, results[k], Ring(cx, cy, radius)[k])
    ensures forall k :: 0 <= k < |results| ==> SameUpToWrap(results[k], Ring(cx, cy, radius)[k], sizeX)
    ensures fits ==> results == Ring(cx, cy, radius)
    ensures fits ==> forall k :: 0 <= k < |results| ==>
      Distance(cx, cy, results[k].0, results[k].1) == radius
  {
    RingSidesDistance(cx, cy, radius, 6);
    if fits {
      assert results == Ring(cx, cy, radius);
    }
  }

  /**
   * `Hex::get_ring`: walks the six sides from the far corner, recording
   * each cell before stepping to its neighbour in the side's direction.
   */
  method GetRing(cx: int, cy: int, sizeX: nat, radius: nat) returns (results: seq<(int, int)>)
    requires sizeX >= 1
    ensures |results| == 6 * radius
    ensures forall k :: 0 <= k < |results| ==> SameUpToWrap(results[k], Ring(cx, cy, radius)[k], sizeX)
    ensures RingFits(cx, cy, radius, sizeX) ==> results == Ring(cx, cy, radius)
    ensures RingFits(cx, cy, radius, sizeX) ==> forall k :: 0 <= k < |results| ==>
      Distance(cx, cy, results[k].0, results[k].1) == radius
  {
    results := [];
    ghost var fits := RingFits(cx, cy, radius, sizeX);
    if radius == 0 {
      RingDone(cx, cy, radius, sizeX, fits, results);
      return;
    }
    var hex := UnwrapCoords(cx + radius, cy - radius, sizeX);
    assert RingAt(cx, cy, radius, 0, 0) == (cx + radius, cy - radius);
    ShiftByWidth(0, sizeX, hex.0 - (cx + radius));
    assert fits ==> InRow(cx + radius, cy - radius, sizeX);
    ghost var exp: seq<(int, int)> := [];
    for i := 0 to 6
      invariant exp == RingSides(cx, cy, radius, i) && |results| == |exp|
      invariant i < 6 ==> RingMatch(sizeX, fits, hex, RingAt(cx, cy, radius, i, 0))
      invariant forall k :: 0 <= k < |results| ==> RingMatch(sizeX, fits, results[k], exp[k])
    {
      ghost var done := exp;
      for j := 0 to radius
        invariant |results| == |exp| == |done| + j
        invariant exp[..|done|] == done
        invariant forall k :: |done| <= k < |exp| ==> exp[k] == RingAt(cx, cy, radius, i, k - |done|)
        invariant j < radius ==> RingMatch(sizeX, fits, hex, RingAt(cx, cy, radius, i, j))
        invariant j == radius && i < 5 ==> RingMatch(sizeX, fits, hex, RingAt(cx, cy, radius, i + 1, 0))
        invariant forall k :: 0 <= k < |results| ==> RingMatch(sizeX, fits, results[k], exp[k])
      {
        results := results + [hex];
        exp := exp + [RingAt(cx, cy, radius, i, j)];
        if j + 1 < radius || i < 5 {
          RingMatchStep(cx, cy, radius, sizeX, fits, hex, i, j);
        }
        hex := NeighboursUnchecked(hex.0, hex.1, sizeX)[i];
      }
      RingSideDone(cx, cy, radius, exp, i);
    }
    RingDone(cx, cy, radius, sizeX, fits, results);
  }

  lemma DivModRing(i: nat, j: nat, r: nat)
    requires j < r
    ensures (i * r + j) / r == i && (i * r + j) % r == j
  {
    DivModUnique(i, j, r);
  }

  /** Division and remainder are determined by any quotient/remainder pair. */
  lemma DivModUnique(q: int, rem: int, d: int)
    requires d > 0 && 0 <= rem < d
    ensures (q * d + rem) / d == q && (q * d + rem) % d == rem
  {
    var a := q * d + rem;
    var q2 := a / d;
    var r2 := a % d;
    assert a == q2 * d + r2;
    assert (q - q2) * d == r2 - rem;
    if q > q2 {
      assert (q - q2) * d >= d by { MulAtLeast(q - q2, d); }
    } else if q < q2 {
      assert (q2 - q) * d >= d by { MulAtLeast(q2 - q, d); }
    }
  }

  lemma MulAtLeast(a: int, d: int)
    requires a >= 1 && d > 0
    ensures a * d >= d
  {
  }

  /** Every ring of a spiral lies in the map without wrapping. */
  predicate SpiralFits(cx: int, cy: int, r: nat, sizeX: nat)
  {
    forall i :: 1 <= i <= r ==> RingFits(cx, cy, i, sizeX)
  }

  /** The centre followed by the unbounded rings 1..r. */
  function Disk(cx: int, cy: int, r: nat): (s: seq<(int, int)>)
    ensures |s| == 1 + 3 * r * (r + 1)
    ensures s[0] == (cx, cy)
  {
    if r == 0 then [(cx, cy)]
    else
      var prev := Disk(cx, cy, r - 1);
      assert |prev| + 6 * r == 1 + 3 * r * (r + 1) by {
        assert 3 * (r - 1) * r + 6 * r == 3 * r * (r + 1);
      }
      prev + Ring(cx, cy, r)
  }

  /** Every cell of the unbounded disk lies within distance r of the centre. */
  lemma {:induction false} DiskDistance(cx: int, cy: int, r: nat)
    ensures forall k :: 0 <= k < |Disk(cx, cy, r)| ==>
      Distance(cx, cy, Disk(cx, cy, r)[k].0, Disk(cx, cy, r)[k].1) <= r
  {
    if r > 0 {
      DiskDistance(cx, cy, r - 1);
      RingSidesDistance(cx, cy, r, 6);
      var prev := Disk(cx, cy, r - 1);
      var d := Disk(cx, cy, r);
      forall k | 0 <= k < |d|
        ensures Distance(cx, cy, d[k].0, d[k].1) <= r
      {
        if k < |prev| {
          assert d[k] == prev[k];
        } else {
          assert d[k] == Ring(cx, cy, r)[k - |prev|];
        }
      }
    }
  }

  /**
   * `Hex::get_spiral`: the centre followed by rings 1..radius, each as
   * `get_ring` produces it; radius 0 gives the empty sequence, not the
   * centre alone.
   */
  method GetSpiral(cx: int, cy: int, sizeX: nat, radius: nat) returns (results: seq<(int, int)>)
    requires sizeX >= 1
    ensures radius == 0 ==> results == []
    ensures radius > 0 ==> |results| == |Disk(cx, cy, radius)| == 1 + 3 * radius * (radius + 1)
    ensures radius > 0 ==> forall k :: 0 <= k < |results| ==>
      SameUpToWrap(results[k], Disk(cx, cy, radius)[k], sizeX)
    ensures radius > 0 ==> results[0] == (cx, cy)
    ensures radius > 0 && SpiralFits(cx, cy, radius, sizeX) ==> results == Disk(cx, cy, radius)
    ensures SpiralFits(cx, cy, radius, sizeX) ==> forall k :: 0 <= k < |results| ==>
      Distance(cx, cy, results[k].0, results[k].1) <= radius
  {
    if radius == 0 {
      return [];
    }
    ghost var fits := SpiralFits(cx, cy, radius, sizeX);
    results := [(cx, cy)];
    ghost var exp := Disk(cx, cy, 0);
    for i := 1 to radius + 1
      invariant exp == Disk(cx, cy, i - 1) && |results| == |exp|
      invariant results[0] == (cx, cy)
      invariant forall k :: 0 <= k < |results| ==> RingMatch(sizeX, fits, results[k], exp[k])
    {
      var ring := GetRing(cx, cy, sizeX, i);
      assert fits ==> RingFits(cx, cy, i, sizeX);
      assert forall k :: 0 <= k < |ring| ==> RingMatch(sizeX, fits, ring[k], Ring(cx, cy, i)[k]);
      results := results + ring;
      exp := exp + Ring(cx, cy, i);
    }
    DiskDistance(cx, cy, radius);
    if fits {
      assert results == Disk(cx, cy, radius);
    }
  }
}
