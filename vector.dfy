/**
 * The integer decisions of the SVG renderer: which cells get a wrapped
 * copy on which side, the `#RRGGBB` fill string of a cell, and the
 * colours of Debug cells, which are never tinted.
 */
module VectorRenderer {
  import opened Util
  import opened Images
  import opened HexGrid
  import BasicRenderer

  /** `Wrapping`: the side of the map a wrapped copy is drawn on. */
  datatype Wrapping = Left | Right

  /**
   * The wrap of cell `index` when the map wraps: the first cell of an
   * even row is copied to the Right, the last cell of an odd row to the
   * Left, and every other cell is skipped (None).
   */
  function VectorWrap(index: nat, sizeX: nat): (w: Option<Wrapping>)
    requires sizeX >= 1
    ensures w == Some(Right) <==> index % sizeX == 0 && index / sizeX % 2 == 0
    ensures w == Some(Left) <==> index % sizeX == sizeX - 1 && index / sizeX % 2 == 1
  {
    if index % sizeX == 0 && index / sizeX % 2 == 0 then Some(Right)
    else if index % sizeX == sizeX - 1 && index / sizeX % 2 == 1 then Some(Left)
    else None
  }

  /** In terms of a cell's row and column. */
  lemma WrapByCell(row: nat, column: nat, sizeX: nat)
    requires column < sizeX
    ensures VectorWrap(row * sizeX + column, sizeX) ==
      if column == 0 && row % 2 == 0 then Some(Right)
      else if column == sizeX - 1 && row % 2 == 1 then Some(Left)
      else None
  {
    DivModRing(row, column, sizeX);
  }

  /**
   * The SVG copies agree with the software renderer's classification on
   * the cells they copy, except in a one-column map, where the software
   * renderer wraps every cell Right and this renderer copies odd rows Left.
   */
  lemma AgreesWithBasic(index: nat, sizeX: nat)
    requires sizeX >= 1
    ensures VectorWrap(index, sizeX) == Some(Right) ==> BasicRenderer.RenderWrap(index, sizeX, true) == BasicRenderer.Right
    ensures VectorWrap(index, sizeX) == Some(Left) && sizeX >= 2 ==>
      BasicRenderer.RenderWrap(index, sizeX, true) == BasicRenderer.Left
    ensures VectorWrap(index, sizeX) == Some(Left) && sizeX == 1 ==>
      BasicRenderer.RenderWrap(index, sizeX, true) == BasicRenderer.Right
  {
  }

  /**
   * The wrapped copies the second loop of `render` appends, in cell
   * order, for the first `area` cells.
   */
  function WrapsBelow(area: nat, sizeX: nat): (r: seq<(nat, Wrapping)>)
    requires sizeX >= 1
    ensures forall p :: p in r <==> p.0 < area && VectorWrap(p.0, sizeX) == Some(p.1)
    ensures forall k, l :: 0 <= k < l < |r| ==> r[k].0 < r[l].0
  {
    if area == 0 then []
    else
      var front := WrapsBelow(area - 1, sizeX);
      match VectorWrap(area - 1, sizeX)
      case Some(w) => front + [(area - 1, w)]
      case None => front
  }

  /** Everything the wrap loop emits: nothing unless the map wraps. */
  function WrapCopies(area: nat, sizeX: nat, wrapMap: bool): (r: seq<(nat, Wrapping)>)
    requires wrapMap ==> sizeX >= 1
    ensures !wrapMap ==> r == []
    ensures wrapMap ==> forall p :: p in r <==> p.0 < area && VectorWrap(p.0, sizeX) == Some(p.1)
  {
    if wrapMap then WrapsBelow(area, sizeX) else []
  }

  /** An upper-case hexadecimal digit. */
  predicate IsUpperHex(c: char)
  {
    '0' <= c <= '9' || 'A' <= c <= 'F'
  }

  /** The digit `{:X}` prints for a value below sixteen. */
  function HexDigit(d: nat): (c: char)
    requires d < 16
    ensures IsUpperHex(c)
  {
    if d < 10 then ('0' as int + d) as char else ('A' as int + d - 10) as char
  }

  /** The value of an upper-case hexadecimal digit. */
  function HexValue(c: char): (d: nat)
    requires IsUpperHex(c)
    ensures d < 16 && HexDigit(d) == c
  {
    if c <= '9' then c as int - '0' as int else c as int - 'A' as int + 10
  }

  /** `{:02X}`: a byte as two upper-case hexadecimal digits. */
  function HexByte(b: Byte): (s: string)
    ensures |s| == 2 && IsUpperHex(s[0]) && IsUpperHex(s[1])
  {
    [HexDigit(b / 16), HexDigit(b % 16)]
  }

  /** `format!("#{:02X}{:02X}{:02X}", ...)`: the fill string of a colour. */
  function FillString(c: Color3): (s: string)
    ensures |s| == 7 && s[0] == '#'
    ensures forall k :: 1 <= k < 7 ==> IsUpperHex(s[k])
  {
    "#" + HexByte(c.0) + HexByte(c.1) + HexByte(c.2)
  }

  /** Reads a fill string back: '#' and six upper-case digits, or nothing. */
  function ParseFill(s: string): (r: Option<Color3>)
    ensures r.Some? <==> |s| == 7 && s[0] == '#' && forall k :: 1 <= k < 7 ==> IsUpperHex(s[k])
  {
    if |s| == 7 && s[0] == '#' && forall k :: 1 <= k < 7 ==> IsUpperHex(s[k]) then
      Some((HexValue(s[1]) * 16 + HexValue(s[2]),
            HexValue(s[3]) * 16 + HexValue(s[4]),
            HexValue(s[5]) * 16 + HexValue(s[6])))
    else None
  }

  /** Each channel's pair of digits encodes that byte: the fill string reads back as the colour. */
  lemma FillRoundTrip(c: Color3)
    ensures ParseFill(FillString(c)) == Some(c)
  {
    var s := FillString(c);
    assert s[1..3] == HexByte(c.0) && s[3..5] == HexByte(c.1) && s[5..7] == HexByte(c.2);
  }

  /** Two digits read as a byte print back as the same two digits. */
  lemma DigitPair(a: char, b: char)
    requires IsUpperHex(a) && IsUpperHex(b)
    ensures HexValue(a) * 16 + HexValue(b) < 256
    ensures HexByte(HexValue(a) * 16 + HexValue(b)) == [a, b]
  {
    DivModUnique(HexValue(a), HexValue(b), 16);
  }

  /** And the other way: a string that reads as a colour is that colour's fill string. */
  lemma ParseRoundTrip(s: string)
    requires ParseFill(s).Some?
    ensures FillString(ParseFill(s).value) == s
  {
    DigitPair(s[1], s[2]);
    DigitPair(s[3], s[4]);
    DigitPair(s[5], s[6]);
    assert s == [s[0]] + [s[1], s[2]] + [s[3], s[4]] + [s[5], s[6]];
  }

  /** Different colours get different fill strings. */
  lemma FillInjective(c: Color3, d: Color3)
    requires FillString(c) == FillString(d)
    ensures c == d
  {
    FillRoundTrip(c);
    FillRoundTrip(d);
  }

  /**
   * The colour of one cell in `generate_colors`: a Debug cell keeps its
   * own three bytes; any other cell takes its palette colour, tinted by
   * that cell's random factor when randomisation is on. The float tint
   * and clamp are the `tint` parameter.
   */
  function CellColour(t: HexType, palette: HexType -> Color3, randomize: bool, tint: Color3 -> Color3): Color3
  {
    match t
    case Debug(r, g, b) => (r, g, b)
    case _ => if randomize then tint(palette(t)) else palette(t)
  }

  /** `generate_colors`: one colour per cell, in cell order; `tints[i]` is cell i's random factor. */
  function GenerateColors(field: seq<Hex>, palette: HexType -> Color3, randomize: bool, tints: seq<Color3 -> Color3>): (r: seq<Color3>)
    requires |tints| == |field|
    ensures |r| == |field|
  {
    seq(|field|, i requires 0 <= i < |field| => CellColour(field[i].terrain, palette, randomize, tints[i]))
  }

  /**
   * A Debug cell's colour is its own [r, g, b], whatever the palette,
   * the randomisation setting and the random draws.
   */
  lemma DebugPassthrough(field: seq<Hex>, i: nat,
                         palette1: HexType -> Color3, randomize1: bool, tints1: seq<Color3 -> Color3>,
                         palette2: HexType -> Color3, randomize2: bool, tints2: seq<Color3 -> Color3>)
    requires |tints1| == |field| && |tints2| == |field| && i < |field| && field[i].terrain.Debug?
    ensures GenerateColors(field, palette1, randomize1, tints1)[i] == GenerateColors(field, palette2, randomize2, tints2)[i]
    ensures GenerateColors(field, palette1, randomize1, tints1)[i] ==
      (field[i].terrain.r, field[i].terrain.g, field[i].terrain.b)
  {
  }

  /** Without randomisation every non-Debug cell has exactly its palette colour. */
  lemma PlainPalette(field: seq<Hex>, i: nat, palette: HexType -> Color3, tints: seq<Color3 -> Color3>)
    requires |tints| == |field| && i < |field| && !field[i].terrain.Debug?
    ensures GenerateColors(field, palette, false, tints)[i] == palette(field[i].terrain)
  {
  }
}
