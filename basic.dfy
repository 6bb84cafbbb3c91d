/**
 * The integer parts of the software renderer: the per-scanline state
 * machine, the wrap classification of cells and the averaging of the
 * four sub-pixel images of the anti-aliased render.
 */
module BasicRenderer {
  import opened Util
  import opened Images
  import opened HexGrid

  /** Where a scan line is relative to a hex: not reached yet, inside, past it. */
  datatype LineState = Before | In | After

  /** Position in the order Before < In < After. */
  function Rank(s: LineState): (n: nat)
    ensures n <= 2
    ensures n == 0 <==> s == Before
    ensures n == 2 <==> s == After
  {
    match s
    case Before => 0
    case In => 1
    case After => 2
  }

  /**
   * One `update(in_hex)`: the state moves only from Before on a sample
   * inside the hex and from In on a sample outside it, one step forward.
   */
  function Step(s: LineState, inHex: bool): (r: LineState)
    ensures r != s <==> (s == Before && inHex) || (s == In && !inHex)
    ensures r != s ==> Rank(r) == Rank(s) + 1
  {
    match s
    case Before => if inHex then In else Before
    case In => if inHex then In else After
    case After => After
  }

  /** The state in place, as `LineState::reset` and `LineState::update` mutate it. */
  class LineCursor {
    var state: LineState

    constructor ()
      ensures state == Before
    {
      state := Before;
    }

    /** `reset`: always back to Before. */
    method Reset()
      modifies this
      ensures state == Before
    {
      state := Before;
    }

    /** `update`: one step of the machine. */
    method Update(inHex: bool)
      modifies this
      ensures state == Step(old(state), inHex)
    {
      match state
      case Before =>
        if inHex {
          state := In;
        }
      case In =>
        if !inHex {
          state := After;
        }
      case After =>
    }
  }

  /** The state after a sequence of updates. */
  function Run(s: LineState, samples: seq<bool>): LineState
    decreases samples
  {
    if samples == [] then s else Run(Step(s, samples[0]), samples[1..])
  }

  /** Updates never move the state backwards. */
  lemma {:induction false} RunMonotone(s: LineState, samples: seq<bool>)
    ensures Rank(Run(s, samples)) >= Rank(s)
    decreases samples
  {
    if samples != [] {
      RunMonotone(Step(s, samples[0]), samples[1..]);
    }
  }

  /** After is absorbing: no sequence of updates leaves it. */
  lemma {:induction false} AfterAbsorbing(samples: seq<bool>)
    ensures Run(After, samples) == After
  {
    RunMonotone(After, samples);
  }

  /** Running two sequences one after the other is running their concatenation. */
  lemma {:induction false} RunAppend(s: LineState, a: seq<bool>, b: seq<bool>)
    ensures Run(s, a + b) == Run(Run(s, a), b)
    decreases a
  {
    if a == [] {
      assert a + b == b;
    } else {
      assert (a + b)[1..] == a[1..] + b;
      RunAppend(Step(s, a[0]), a[1..], b);
    }
  }

  /** From In, the state stays In exactly while every sample is inside, and is After otherwise. */
  lemma {:induction false} RunFromIn(samples: seq<bool>)
    ensures Run(In, samples) == In <==> forall k :: 0 <= k < |samples| ==> samples[k]
    ensures Run(In, samples) != In ==> Run(In, samples) == After
  {
    if samples != [] {
      if samples[0] {
        RunFromIn(samples[1..]);
        assert forall k :: 1 <= k < |samples| ==> samples[k] == samples[1..][k - 1];
      } else {
        AfterAbsorbing(samples[1..]);
      }
    }
  }

  /** From Before, the state stays Before exactly while no sample is inside. */
  lemma {:induction false} RunFromBefore(samples: seq<bool>)
    ensures Run(Before, samples) == Before <==> forall k :: 0 <= k < |samples| ==> !samples[k]
  {
    if samples != [] {
      if samples[0] {
        RunMonotone(In, samples[1..]);
      } else {
        RunFromBefore(samples[1..]);
        assert forall k :: 1 <= k < |samples| ==> samples[k] == samples[1..][k - 1];
      }
    }
  }

  /**
   * A scan line starting Before ends After exactly when some sample
   * inside the hex is followed, later on, by one outside it.
   */
  lemma {:induction false} RunLeaves(samples: seq<bool>)
    ensures Run(Before, samples) == After <==>
      exists i, j :: 0 <= i < j < |samples| && samples[i] && !samples[j]
  {
    if samples != [] {
      var rest := samples[1..];
      assert forall k :: 1 <= k < |samples| ==> samples[k] == rest[k - 1];
      if samples[0] {
        RunFromIn(rest);
        if Run(In, rest) == After {
          var j :| 0 <= j < |rest| && !rest[j];
          assert samples[0] && !samples[j + 1];
        }
      } else {
        RunLeaves(rest);
        if exists i, j :: 0 <= i < j < |samples| && samples[i] && !samples[j] {
          var i, j :| 0 <= i < j < |samples| && samples[i] && !samples[j];
          assert rest[i - 1] && !rest[j - 1];
        }
        if exists i, j :: 0 <= i < j < |rest| && rest[i] && !rest[j] {
          var i, j :| 0 <= i < j < |rest| && rest[i] && !rest[j];
          assert samples[i + 1] && !samples[j + 1];
        }
      }
    }
  }

  /** `RenderWrapped`: which side a wrapped copy of a cell is drawn on. */
  datatype RenderWrapped = Left | Right | NotWrapped

  /**
   * The wrap of cell `index`: with wrapping on, the first column wraps
   * Right, otherwise the last column wraps Left. The remainder by size_x
   * is only taken when wrapping is on, so only then must size_x be nonzero.
   */
  function RenderWrap(index: nat, sizeX: nat, wrap: bool): (w: RenderWrapped)
    requires wrap ==> sizeX >= 1
    ensures !wrap ==> w == NotWrapped
    ensures w == Right <==> wrap && index % sizeX == 0
    ensures w == Left <==> wrap && index % sizeX == sizeX - 1 && sizeX >= 2
  {
    if wrap && index % sizeX == 0 then Right
    else if wrap && index % sizeX == sizeX - 1 then Left
    else NotWrapped
  }

  /**
   * In terms of a cell's column: column 0 wraps Right, the last column of
   * a map at least two wide wraps Left, every other column does not wrap;
   * a one-column map wraps every cell Right.
   */
  lemma WrapByColumn(row: nat, column: nat, sizeX: nat, wrap: bool)
    requires column < sizeX && wrap
    ensures RenderWrap(row * sizeX + column, sizeX, wrap) ==
      if column == 0 then Right else if column == sizeX - 1 then Left else NotWrapped
  {
    DivModRing(row, column, sizeX);
  }

  /**
   * The `wrappings` table of `render_aa_image`: filled in place from a
   * table of NotWrapped. Each entry is what `render` computes for the
   * same cell, so the two call sites agree.
   */
  method WrapTable(area: nat, sizeX: nat, wrap: bool) returns (wrappings: seq<RenderWrapped>)
    requires wrap ==> sizeX >= 1
    ensures |wrappings| == area
    ensures forall i :: 0 <= i < area ==> wrappings[i] == RenderWrap(i, sizeX, wrap)
  {
    var table := new RenderWrapped[area](_ => NotWrapped);
    for index := 0 to area
      invariant forall i :: 0 <= i < index ==> table[i] == RenderWrap(i, sizeX, wrap)
      invariant forall i :: index <= i < area ==> table[i] == NotWrapped
    {
      if wrap && index % sizeX == 0 {
        table[index] := Right;
      } else if wrap && index % sizeX == sizeX - 1 {
        table[index] := Left;
      }
    }
    wrappings := table[..];
  }

  /** One byte of the reconstructed image: the four samples summed in u32 and divided by four. */
  function Average4(a: Byte, b: Byte, c: Byte, d: Byte): (r: Byte)
    ensures 4 * r <= a + b + c + d < 4 * r + 4
    ensures r >= a || r >= b || r >= c || r >= d
    ensures r <= a || r <= b || r <= c || r <= d
  {
    (a + b + c + d) / 4
  }

  /** The average lies between the least and the greatest of the four samples. */
  lemma AverageBetween(a: Byte, b: Byte, c: Byte, d: Byte, lo: Byte, hi: Byte)
    requires lo <= a && lo <= b && lo <= c && lo <= d
    requires a <= hi && b <= hi && c <= hi && d <= hi
    ensures lo <= Average4(a, b, c, d) <= hi
  {
  }

  /** Four equal samples average to the sample itself. */
  lemma AverageSame(a: Byte)
    ensures Average4(a, a, a, a) == a
  {
  }

  /**
   * `reconstruct_image`: the first image's buffer is overwritten, byte
   * by byte, with the average of that byte in all four images, and the
   * first image is returned. The split into per-thread chunks does not
   * change any byte's value and is not modelled.
   */
  method ReconstructImage(images: seq<Image>) returns (base: Image)
    requires |images| >= 4
    requires forall k :: 1 <= k < 4 ==>
      images[k].buffer != images[0].buffer && images[k].buffer.Length >= images[0].buffer.Length
    modifies images[0].buffer
    ensures base == images[0]
    ensures forall i :: 0 <= i < base.buffer.Length ==>
      base.buffer[i] == Average4(old(base.buffer[i]), images[1].buffer[i], images[2].buffer[i], images[3].buffer[i])
  {
    base := images[0];
    var buffer := base.buffer;
    for i := 0 to buffer.Length
      invariant forall k :: 0 <= k < i ==>
        buffer[k] == Average4(old(buffer[k]), images[1].buffer[k], images[2].buffer[k], images[3].buffer[k])
      invariant forall k :: i <= k < buffer.Length ==> buffer[k] == old(buffer[k])
    {
      buffer[i] := Average4(buffer[i], images[1].buffer[i], images[2].buffer[i], images[3].buffer[i]);
    }
  }
}
