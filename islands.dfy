/**
 * The clearing pass of the islands generator: a cell of terrain `from`
 * with more than `strength` neighbours of another terrain becomes `to`.
 * Neighbours are read from a copy of the map taken before the pass.
 */
module Islands {
  import opened Util
  import opened HexGrid
  import opened HexMaps

  /** How many of the cells at `nbs` have a terrain other than t. */
  function DiffCount(field: seq<Hex>, nbs: seq<nat>, t: HexType): (n: nat)
    requires forall k :: 0 <= k < |nbs| ==> nbs[k] < |field|
    ensures n <= |nbs|
  {
    if nbs == [] then 0
    else
      var front := nbs[..|nbs| - 1];
      DiffCount(field, front, t) + (if field[nbs[|nbs| - 1]].terrain != t then 1 else 0)
  }

  /** Neighbours of cell i, in the snapshot, whose terrain differs from cell i's. */
  function DiffNeighbours(field: seq<Hex>, sizeX: nat, sizeY: nat, i: nat): (n: nat)
    requires sizeX >= 1 && |field| == sizeX * sizeY && i < |field|
    ensures n <= 6
  {
    DiffCount(field, NeighboursOf(i, sizeX, sizeY), field[i].terrain)
  }

  /** The cell i after the pass, decided on the snapshot alone. */
  function ClearedCell(field: seq<Hex>, sizeX: nat, sizeY: nat, i: nat, from: HexType, to: HexType, strength: nat): (h: Hex)
    requires sizeX >= 1 && |field| == sizeX * sizeY && i < |field|
    ensures h.x == field[i].x && h.y == field[i].y && h.decor == field[i].decor
    ensures h.terrain != field[i].terrain ==> field[i].terrain == from && h.terrain == to
    ensures field[i].terrain == from && from != to ==>
      (h.terrain == to <==> DiffNeighbours(field, sizeX, sizeY, i) > strength)
  {
    if DiffNeighbours(field, sizeX, sizeY, i) > strength && field[i].terrain == from
    then field[i].(terrain := to)
    else field[i]
  }

  /** The field after the pass: every cell decided on the same snapshot. */
  function Cleared(field: seq<Hex>, sizeX: nat, sizeY: nat, from: HexType, to: HexType, strength: nat): (r: seq<Hex>)
    requires sizeX >= 1 && |field| == sizeX * sizeY
    ensures |r| == |field| && SameShape(field, r)
  {
    seq(|field|, i requires 0 <= i < |field| => ClearedCell(field, sizeX, sizeY, i, from, to, strength))
  }

  /** A cell has at most six neighbours, so a strength of six or more changes nothing. */
  lemma StrongPassKeeps(field: seq<Hex>, sizeX: nat, sizeY: nat, from: HexType, to: HexType, strength: nat)
    requires sizeX >= 1 && |field| == sizeX * sizeY && strength >= 6
    ensures Cleared(field, sizeX, sizeY, from, to, strength) == field
  {
    var r := Cleared(field, sizeX, sizeY, from, to, strength);
    forall i | 0 <= i < |field|
      ensures r[i] == field[i]
    {
      assert DiffNeighbours(field, sizeX, sizeY, i) <= 6;
    }
  }

  /** With `from` equal to `to`, the pass changes nothing either. */
  lemma SelfPassKeeps(field: seq<Hex>, sizeX: nat, sizeY: nat, t: HexType, strength: nat)
    requires sizeX >= 1 && |field| == sizeX * sizeY
    ensures Cleared(field, sizeX, sizeY, t, t, strength) == field
  {
    var r := Cleared(field, sizeX, sizeY, t, t, strength);
    forall i | 0 <= i < |field|
      ensures r[i] == field[i]
    {
      assert r[i] == ClearedCell(field, sizeX, sizeY, i, t, t, strength);
    }
  }

  /** The neighbour loop of one cell: counts the snapshot neighbours of another terrain. */
  method CountDiffNeighbours(snapshot: seq<Hex>, nbs: seq<nat>, t: HexType) returns (diff: nat)
    requires forall k :: 0 <= k < |nbs| ==> nbs[k] < |snapshot|
    ensures diff == DiffCount(snapshot, nbs, t)
  {
    diff := 0;
    for k := 0 to |nbs|
      invariant diff == DiffCount(snapshot, nbs[..k], t)
    {
      assert nbs[..k + 1][..k] == nbs[..k];
      if t != snapshot[nbs[k]].terrain {
        diff := diff + 1;
      }
    }
    assert nbs[..|nbs|] == nbs;
  }

  /** The body of the pass for cell i: its count on the snapshot, then the relabelling. */
  method ClearCell(snapshot: seq<Hex>, sizeX: nat, sizeY: nat, i: nat, from: HexType, to: HexType, strength: nat)
    returns (hex: Hex)
    requires sizeX >= 1 && |snapshot| == sizeX * sizeY && i < |snapshot|
    ensures hex == ClearedCell(snapshot, sizeX, sizeY, i, from, to, strength)
  {
    hex := snapshot[i];
    var nbs := NeighboursOf(i, sizeX, sizeY);
    var diff := CountDiffNeighbours(snapshot, nbs, hex.terrain);
    if diff > strength {
      if from == hex.terrain {
        hex := hex.(terrain := to);
      }
    }
  }

  /**
   * `Islands::clear_pass`: the map is cloned, then each cell counts its
   * neighbours of another terrain in the clone and, above `strength`,
   * turns from `from` to `to`.
   */
  method ClearPass(m: HexMap, from: HexType, to: HexType, strength: nat)
    requires m.Valid()
    modifies m
    ensures m.Valid()
    ensures m.field == Cleared(old(m.field), m.sizeX, m.sizeY, from, to, strength)
  {
    var snapshot := m.field;
    for i := 0 to |m.field|
      invariant |m.field| == |snapshot|
      invariant forall j :: 0 <= j < i ==> m.field[j] == ClearedCell(snapshot, m.sizeX, m.sizeY, j, from, to, strength)
      invariant forall j :: i <= j < |snapshot| ==> m.field[j] == snapshot[j]
    {
      var hex := ClearCell(snapshot, m.sizeX, m.sizeY, i, from, to, strength);
      m.field := m.field[i := hex];
    }
    assert m.field == Cleared(snapshot, m.sizeX, m.sizeY, from, to, strength);
    SameShapeLayout(snapshot, m.field, m.sizeX, m.sizeY);
  }
}
