/**
 * Assignment of cells to plates: every cell joins the plate that reaches
 * it most cheaply, and each plate's tally counts its cells.
 */
module GeoAssign {
  import opened Util
  import opened GeoFlood
  import opened GeoLabels

  /** The cost table, plate by plate: `table[p][c]` is plate p's cost for cell c. */
  type Table = seq<Costs>

  predicate Rectangular(table: Table, n: nat)
  {
    forall p :: 0 <= p < |table| ==> |table[p]| == n
  }

  /** Every plate has reached every one of the n cells. */
  predicate AllReached(table: Table, n: nat)
    requires Rectangular(table, n)
  {
    forall p, c :: 0 <= p < |table| && 0 <= c < n ==> table[p][c].Some?
  }

  /** Every plate has reached cell c. */
  predicate ColumnReached(table: Table, c: nat)
  {
    forall r :: 0 <= r < |table| ==> c < |table[r]| && table[r][c].Some?
  }

  /**
   * Plate q is the one a strict less-than scan over the plates picks for
   * cell c: no plate is cheaper, and every plate before q is dearer.
   */
  predicate Cheapest(table: Table, c: nat, q: nat)
    requires ColumnReached(table, c)
  {
    q < |table|
    && (forall r :: 0 <= r < |table| ==> table[q][c].value <= table[r][c].value)
    && (forall r :: 0 <= r < q ==> table[q][c].value < table[r][c].value)
  }

  /**
   * The inner scan of the assignment loop for cell c: the first plate of
   * least cost, or None (the source panics on `unwrap`) when some plate
   * never reached the cell.
   */
  method CheapestPlate(table: Table, c: nat) returns (res: Option<nat>)
    requires |table| > 0 && forall r :: 0 <= r < |table| ==> c < |table[r]|
    ensures res.None? <==> !ColumnReached(table, c)
    ensures res.Some? ==> ColumnReached(table, c) && Cheapest(table, c, res.value)
  {
    // `best` is the running minimum; None stands for the initial f32::MAX
    var best: Option<nat> := None;
    var bestIdx: nat := 0;
    for q := 0 to |table|
      invariant forall r :: 0 <= r < q ==> table[r][c].Some?
      invariant best.None? <==> q == 0
      invariant best.Some? ==> bestIdx < q && best == table[bestIdx][c]
      invariant best.Some? ==> forall r :: 0 <= r < q ==> best.value <= table[r][c].value
      invariant best.Some? ==> forall r :: 0 <= r < bestIdx ==> best.value < table[r][c].value
    {
      var cost := table[q][c];
      if cost.None? {
        return None;
      }
      if best.None? || cost.value < best.value {
        best := cost;
        bestIdx := q;
      }
    }
    return Some(bestIdx);
  }

  /** Labelling one more cell with plate q keeps the tallies exact and adds one to their sum. */
  lemma TallyAppend(labels: seq<Label>, stats: seq<nat>, q: nat)
    requires Tallied(labels, stats) && q < |stats|
    ensures Tallied(labels + [Plate(q)], stats[q := stats[q] + 1])
    ensures Sum(stats[q := stats[q] + 1]) == Sum(stats) + 1
  {
    forall r | 0 <= r < |stats|
      ensures Count(labels + [Plate(q)], Plate(r)) == Count(labels, Plate(r)) + (if r == q then 1 else 0)
    {
      CountAppend(labels, Plate(q), Plate(r));
    }
    SumUpdate(stats, q, stats[q] + 1);
  }

  /**
   * The assignment loop of `generate_plates`. It fails (the source panics)
   * when a cell exists but there is no plate, or when some plate never
   * reached some cell. Otherwise every cell is labelled with its cheapest
   * plate, the tallies are exact and they add up to the number of cells.
   */
  method AssignPlates(table: Table, n: nat) returns (res: Option<(seq<Label>, seq<nat>)>)
    requires Rectangular(table, n)
    ensures res.None? <==> n > 0 && (|table| == 0 || !AllReached(table, n))
    ensures res.Some? ==>
      |res.value.0| == n && |res.value.1| == |table| && Tallied(res.value.0, res.value.1)
      && Sum(res.value.1) == n
      && forall c :: 0 <= c < n ==> ColumnReached(table, c) && res.value.0[c].Plate? && Cheapest(table, c, res.value.0[c].p)
  {
    var P := |table|;
    var labels: seq<Label> := [];
    var stats: seq<nat> := seq(P, _ => 0);
    SumZeros(P);
    for c := 0 to n
      invariant |labels| == c && |stats| == P
      invariant Tallied(labels, stats) && Sum(stats) == c
      invariant forall d :: 0 <= d < c ==> ColumnReached(table, d) && labels[d].Plate? && Cheapest(table, d, labels[d].p)
    {
      if P == 0 {
        return None;
      }
      var q := CheapestPlate(table, c);
      if q.None? {
        return None;
      }
      TallyAppend(labels, stats, q.value);
      labels := labels + [Plate(q.value)];
      stats := stats[q.value := stats[q.value] + 1];
    }
    assert AllReached(table, n) by {
      forall p, c | 0 <= p < P && 0 <= c < n
        ensures table[p][c].Some?
      {
        assert ColumnReached(table, c);
      }
    }
    return Some((labels, stats));
  }
}
