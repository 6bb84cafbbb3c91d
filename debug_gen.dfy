/**
 * The debug generator: terrain in bands of two rows cycling through all
 * thirteen types, and every Debug cell coloured by its column (red) and
 * row (green).
 */
module DebugGen {
  import opened Util
  import opened HexGrid
  import opened HexMaps

  /** The type the first loop gives cell i: `HexType::from((i / size_x / 2) % 13)`, which cannot panic. */
  function BandType(i: nat, sizeX: nat): (t: HexType)
    requires sizeX >= 1
    ensures TypeToIndex(t) == i / sizeX / 2 % NumVariants
  {
    TypeFromIndex(i / sizeX / 2 % NumVariants).value
  }

  /** `x as u8`: the low byte. */
  function AsByte(x: nat): (b: Byte)
    ensures x < 256 ==> b == x
  {
    x % 256
  }

  /** The red channel of cell i: its column scaled to 0..255. */
  function Red(i: nat, sizeX: nat): (r: Byte)
    requires sizeX >= 1
  {
    AsByte(i % sizeX * 255 / sizeX)
  }

  /** The green channel of cell i: its row scaled to 0..255. */
  function Green(i: nat, sizeX: nat, sizeY: nat): (g: Byte)
    requires sizeX >= 1 && sizeY >= 1
  {
    AsByte(i / sizeX * 255 / sizeY)
  }

  /** The terrain of cell i after both loops. */
  function DebugTerrain(i: nat, sizeX: nat, sizeY: nat): (t: HexType)
    requires sizeX >= 1 && sizeY >= 1
    ensures t.Debug? <==> i / sizeX / 2 % NumVariants == 12
    ensures !t.Debug? ==> t == BandType(i, sizeX)
    ensures t.Debug? ==> t == Debug(Red(i, sizeX), Green(i, sizeX, sizeY), 0)
  {
    var t := BandType(i, sizeX);
    if t.Debug? then Debug(Red(i, sizeX), Green(i, sizeX, sizeY), 0) else t
  }

  lemma DivBelow(a: nat, b: nat, c: nat)
    requires b >= 1 && a < b * c
    ensures a / b < c
  {
  }

  /** The scaled column never reaches 255, so the byte cast never wraps. */
  lemma RedBound(i: nat, sizeX: nat)
    requires sizeX >= 1
    ensures i % sizeX * 255 / sizeX <= 254 && Red(i, sizeX) <= 254
  {
    DivBelow(i % sizeX * 255, sizeX, 255);
  }

  /** For a cell of the map the scaled row stays below 255. */
  lemma GreenBound(i: nat, sizeX: nat, sizeY: nat)
    requires sizeX >= 1 && sizeY >= 1 && i < sizeX * sizeY
    ensures i / sizeX * 255 / sizeY <= 254 && Green(i, sizeX, sizeY) <= 254
  {
    DivBelow(i, sizeX, sizeY);
    DivBelow(i / sizeX * 255, sizeY, 255);
  }

  /** Rows 2k and 2k+1 share a band type, whatever the columns. */
  lemma RowPairsShareType(k: nat, sizeX: nat, a: nat, b: nat)
    requires sizeX >= 1 && a < sizeX && b < sizeX
    ensures BandType(2 * k * sizeX + a, sizeX) == BandType((2 * k + 1) * sizeX + b, sizeX)
  {
    DivModRing(2 * k, a, sizeX);
    DivModRing(2 * k + 1, b, sizeX);
    TypeIndexInjective(BandType(2 * k * sizeX + a, sizeX), BandType((2 * k + 1) * sizeX + b, sizeX));
  }

  /** Types with the same index are the same, except that Debug colours share index 12. */
  lemma TypeIndexInjective(s: HexType, t: HexType)
    requires TypeToIndex(s) == TypeToIndex(t)
    requires s.Debug? ==> s == Debug(0, 0, 0)
    requires t.Debug? ==> t == Debug(0, 0, 0)
    ensures s == t
  {
  }

  /**
   * `Debug::generate`: the first loop sets every cell's band type, the
   * second recolours the Debug cells; coordinates and decorations stay.
   */
  method Generate(m: HexMap)
    requires m.Valid()
    modifies m
    ensures m.Valid()
    ensures forall i :: 0 <= i < |m.field| ==>
      m.field[i] == old(m.field[i]).(terrain := DebugTerrain(i, m.sizeX, m.sizeY))
  {
    ghost var before := m.field;
    assert |m.field| > 0 ==> m.sizeY >= 1;
    BandLoop(m);
    ColourLoop(m);
    SameShapeLayout(before, m.field, m.sizeX, m.sizeY);
  }

  /** The first loop: every cell gets its band type. */
  method BandLoop(m: HexMap)
    requires m.sizeX >= 1
    modifies m
    ensures |m.field| == |old(m.field)|
    ensures forall j :: 0 <= j < |m.field| ==> m.field[j] == old(m.field[j]).(terrain := BandType(j, m.sizeX))
  {
    ghost var before := m.field;
    for i := 0 to |m.field|
      invariant |m.field| == |before|
      invariant forall j :: 0 <= j < i ==> m.field[j] == before[j].(terrain := BandType(j, m.sizeX))
      invariant forall j :: i <= j < |before| ==> m.field[j] == before[j]
    {
      m.field := m.field[i := m.field[i].(terrain := BandType(i, m.sizeX))];
    }
  }

  /** The second loop: every Debug cell gets its column and row colour. */
  method ColourLoop(m: HexMap)
    requires m.sizeX >= 1 && (|m.field| > 0 ==> m.sizeY >= 1)
    modifies m
    ensures |m.field| == |old(m.field)|
    ensures forall j :: 0 <= j < |m.field| ==> m.field[j] == old(m.field[j]).(terrain :=
      if old(m.field[j]).terrain.Debug? then Debug(Red(j, m.sizeX), Green(j, m.sizeX, m.sizeY), 0)
      else old(m.field[j]).terrain)
  {
    ghost var before := m.field;
    for i := 0 to |m.field|
      invariant |m.field| == |before|
      invariant forall j :: 0 <= j < i ==> m.field[j] == before[j].(terrain :=
        if before[j].terrain.Debug? then Debug(Red(j, m.sizeX), Green(j, m.sizeX, m.sizeY), 0) else before[j].terrain)
      invariant forall j :: i <= j < |before| ==> m.field[j] == before[j]
    {
      if m.field[i].terrain.Debug? {
        var red := Red(i, m.sizeX);
        var green := Green(i, m.sizeX, m.sizeY);
        m.field := m.field[i := m.field[i].(terrain := Debug(red, green, 0))];
      }
    }
  }
}
