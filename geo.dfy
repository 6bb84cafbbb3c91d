/**
 * `generate_plates` of the geological generator, stage by stage: one
 * flood per plate, assignment to the cheapest plate, removal of small
 * plates and of orphan islands, hole filling, and the final list of
 * direction indices.
 */
module Geo {
  import opened Util
  import opened GeoFlood
  import opened GeoLabels
  import opened GeoAssign
  import opened GeoSmall
  import opened GeoOrphans
  import opened GeoFill
  import opened GeoIndices

  /**
   * How plate generation ends: a panic (no plate while cells exist, or a
   * cell some plate never reached), a hole-filling loop that never ends,
   * or the plate labels written into the map together with the returned
   * per-cell direction indices and the number of directions.
   */
  datatype PlatesOutcome =
    | Panics
    | Hangs
    | Plates(labels: seq<Label>, indices: seq<(nat, nat)>, directions: nat)

  /** Every cell carries one of the P plates, and entry c names cell c and a valid direction. */
  predicate CellsTagged(labels: seq<Label>, indices: seq<(nat, nat)>, directions: nat, P: nat)
  {
    |indices| == |labels| && forall c :: 0 <= c < |labels| ==>
      labels[c].Plate? && labels[c].p < P && indices[c].0 == c && indices[c].1 < directions
  }

  /** Two cells share a direction exactly when they share a plate, and directions follow plate order. */
  predicate DirectionPerPlate(labels: seq<Label>, indices: seq<(nat, nat)>)
    requires |indices| == |labels| && forall c :: 0 <= c < |labels| ==> labels[c].Plate?
  {
    forall c, d :: 0 <= c < |labels| && 0 <= d < |labels| ==>
      (indices[c].1 == indices[d].1 <==> labels[c] == labels[d])
      && (labels[c].p < labels[d].p ==> indices[c].1 < indices[d].1)
  }

  /** Some cell has direction k. */
  predicate DirectionUsed(indices: seq<(nat, nat)>, k: nat)
  {
    exists c :: 0 <= c < |indices| && indices[c].1 == k
  }

  /**
   * The shape of a finished result for P plates: every cell carries a
   * plate, entry c of `indices` is (c, the direction of c's plate), two
   * cells share a direction exactly when they share a plate, directions
   * follow plate order, and each of the at most P directions is used.
   */
  predicate PlatesResult(labels: seq<Label>, indices: seq<(nat, nat)>, directions: nat, P: nat)
  {
    CellsTagged(labels, indices, directions, P) && DirectionPerPlate(labels, indices)
    && directions <= P && forall k :: 0 <= k < directions ==> DirectionUsed(indices, k)
  }

  /** The cell-order list of a fully filled map with live tallies has the shape of a finished result. */
  lemma FilledResult(filled: seq<Label>, stats: seq<nat>, directions: nat)
    requires Live(filled, stats) && Occupied(filled, stats) && Count(filled, Placeholder) == 0
    requires directions + Count(stats, 0) == |stats|
    ensures PlatesResult(filled, CellOrder(filled, stats), directions, |stats|)
  {
    assert stats[..|stats|] == stats;
    FilledTagged(filled, stats, directions);
    FilledSharing(filled, stats);
    FilledUsed(filled, stats, directions);
  }

  lemma FilledTagged(filled: seq<Label>, stats: seq<nat>, directions: nat)
    requires Live(filled, stats) && Count(filled, Placeholder) == 0
    requires directions == Rank(stats, |stats|)
    ensures CellsTagged(filled, CellOrder(filled, stats), directions, |stats|)
  {
    var indices := CellOrder(filled, stats);
    FullCellOrder(filled, stats);
    forall c | 0 <= c < |filled|
      ensures indices[c].1 < directions
    {
      RankMonotone(stats, filled[c].p, |stats|);
    }
  }

  lemma FilledSharing(filled: seq<Label>, stats: seq<nat>)
    requires Live(filled, stats) && Count(filled, Placeholder) == 0
    ensures |CellOrder(filled, stats)| == |filled| && forall c :: 0 <= c < |filled| ==> filled[c].Plate?
    ensures DirectionPerPlate(filled, CellOrder(filled, stats))
  {
    var indices := CellOrder(filled, stats);
    FullCellOrder(filled, stats);
    forall c, d | 0 <= c < |filled| && 0 <= d < |filled|
      ensures (indices[c].1 == indices[d].1 <==> filled[c] == filled[d])
      ensures filled[c].p < filled[d].p ==> indices[c].1 < indices[d].1
    {
      DirectionsFollowPlates(filled, stats, c, d);
    }
  }

  lemma FilledUsed(filled: seq<Label>, stats: seq<nat>, directions: nat)
    requires Live(filled, stats) && Occupied(filled, stats) && Count(filled, Placeholder) == 0
    requires directions == Rank(stats, |stats|)
    ensures directions <= |stats|
    ensures forall k :: 0 <= k < directions ==> DirectionUsed(CellOrder(filled, stats), k)
  {
    var indices := CellOrder(filled, stats);
    FullCellOrder(filled, stats);
    forall k | 0 <= k < directions
      ensures DirectionUsed(indices, k)
    {
      RankOnto(stats, |stats|, k);
      var q :| 0 <= q < |stats| && stats[q] != 0 && Rank(stats, q) == k;
      var c :| 0 <= c < |filled| && filled[c] == Plate(q);
      assert indices[c].1 == k;
    }
  }

  /**
   * Entry e for cell c is the cost of the cheapest walk from `seed` to c:
   * some walk costs exactly e, and every walk is reached and costs at
   * least e.
   */
  ghost predicate ShortestEntry(adj: Adj, edge: EdgeCost, seed: nat, e: Option<nat>, c: nat)
    requires WellFormed(adj)
  {
    (e.Some? ==> exists w :: IsWalk(adj, w) && w[0] == seed && w[|w| - 1] == c && WalkCost(edge, w) == e.value)
    && forall w :: IsWalk(adj, w) && w[0] == seed && w[|w| - 1] == c ==> e.Some? && e.value <= WalkCost(edge, w)
  }

  /** Every entry of `col` is the cheapest walk cost from `seed`. */
  ghost predicate ShortestRow(adj: Adj, edge: EdgeCost, seed: nat, col: Costs)
    requires WellFormed(adj)
  {
    |col| == |adj| && forall c :: 0 <= c < |adj| ==> ShortestEntry(adj, edge, seed, col[c], c)
  }

  /** Row p of the table holds the cheapest walk costs from plate p's centre. */
  ghost predicate ShortestTable(adj: Adj, edge: EdgeCost, seeds: seq<nat>, table: Table)
    requires WellFormed(adj)
  {
    |table| == |seeds| && Rectangular(table, |adj|)
    && forall p :: 0 <= p < |seeds| ==> ShortestRow(adj, edge, seeds[p], table[p])
  }

  /** A finished flood holds the cheapest walk costs from its seed. */
  lemma FloodShortest(adj: Adj, edge: EdgeCost, col: Costs, seed: nat)
    requires WellFormed(adj) && |col| == |adj| && seed < |col| && col[seed] == Some(0)
    requires forall d :: 0 <= d < |col| ==> Relaxed(adj, edge, col, d)
    requires forall d :: 0 <= d < |col| && d != seed ==> Supported(adj, edge, col, d)
    ensures ShortestRow(adj, edge, seed, col)
  {
    forall c | 0 <= c < |adj|
      ensures ShortestEntry(adj, edge, seed, col[c], c)
    {
      ShortestCosts(adj, edge, col, seed, c);
    }
  }

  /** One flood per plate, in plate order: row p of the table is plate p's costs. */
  method BuildTable(adj: Adj, edge: EdgeCost, seeds: seq<nat>) returns (table: Table)
    requires WellFormed(adj) && forall i :: 0 <= i < |seeds| ==> seeds[i] < |adj|
    ensures |table| == |seeds| && Rectangular(table, |adj|)
    ensures forall p :: 0 <= p < |seeds| ==>
      table[p][seeds[p]] == Some(0) && forall c :: 0 <= c < |adj| ==> Relaxed(adj, edge, table[p], c)
    ensures ShortestTable(adj, edge, seeds, table)
  {
    table := [];
    for p := 0 to |seeds|
      invariant |table| == p && Rectangular(table, |adj|)
      invariant forall r :: 0 <= r < p ==>
        table[r][seeds[r]] == Some(0) && forall c :: 0 <= c < |adj| ==> Relaxed(adj, edge, table[r], c)
      invariant forall r :: 0 <= r < p ==> ShortestRow(adj, edge, seeds[r], table[r])
    {
      var col := RelaxPlate(adj, edge, seeds[p]);
      FloodShortest(adj, edge, col, seeds[p]);
      table := table + [col];
    }
  }

  /**
   * The labels and tallies the hole-filling loop starts from: the
   * assignment with small plates cleared, then the orphan loop over every
   * plate.
   */
  ghost function PreFill(adj: Adj, claimed: seq<Label>, tallies: seq<nat>, seeds: seq<nat>, area: nat): (r: (seq<Label>, seq<nat>))
    requires Frame(adj, claimed) && Tallied(claimed, tallies) && |seeds| == |tallies|
    ensures |r.0| == |claimed| && |r.1| == |tallies| && Bounded(r.0, |seeds|)
  {
    var small := seq(|claimed|, c requires 0 <= c < |claimed| => Cleared(claimed[c], tallies, area));
    var smallStats := seq(|tallies|, q requires 0 <= q < |tallies| => if Small(tallies[q], area) then 0 else tallies[q]);
    OrphanLoop(adj, small, smallStats, seeds, |seeds|)
  }

  /**
   * How the hole-filling loop ends when started from `start`: `steps`
   * passes ran, each on labels that still had holes and that the pass then
   * changed; after them the loop either sits at a fixpoint with holes left
   * (Hangs) or has filled every hole (Plates).
   */
  ghost predicate FillRun(adj: Adj, start: seq<Label>, P: nat, steps: nat, res: PlatesOutcome)
    requires WellFormed(adj) && |start| == |adj| && Bounded(start, P)
  {
    (forall j :: 0 <= j < steps ==>
      Count(FillIter(adj, start, P, j), Placeholder) > 0 && FillIter(adj, start, P, j + 1) != FillIter(adj, start, P, j))
    && (res.Hangs? ==>
      var last := FillIter(adj, start, P, steps);
      Count(last, Placeholder) > 0 && FillStep(adj, last, P) == last)
    && (res.Plates? ==> res.labels == FillIter(adj, start, P, steps) && Count(res.labels, Placeholder) == 0)
  }

  /**
   * The stages after the assignment: small plates and orphans removed,
   * the holes filled, and the direction list built from what is left.
   * The source builds that list plate by plate (`PlateMajor`) and then
   * sorts it by cell; `GeoIndices.SortedIsCellOrder` shows that any
   * sorted permutation of the plate-major list is `CellOrder`, so the
   * sort is modelled by returning `CellOrder` directly.
   */
  method FinishPlates(adj: Adj, claimed: seq<Label>, tallies: seq<nat>, seeds: seq<nat>, area: nat)
    returns (res: PlatesOutcome, ghost steps: nat)
    requires Frame(adj, claimed) && Tallied(claimed, tallies) && |tallies| == |seeds|
    requires forall i :: 0 <= i < |seeds| ==> seeds[i] < |adj|
    requires forall c :: 0 <= c < |claimed| ==> claimed[c].Plate?
    ensures !res.Panics?
    ensures res.Plates? ==> |res.labels| == |claimed| && PlatesResult(res.labels, res.indices, res.directions, |seeds|)
    ensures var pre := PreFill(adj, claimed, tallies, seeds, area);
      FillRun(adj, pre.0, |seeds|, steps, res) && (res.Plates? ==> res.indices == CellOrder(res.labels, pre.1))
  {
    var labels, stats := claimed, tallies;
    CountZero(labels, Placeholder);
    var fill, added;
    labels, stats, fill := RemoveSmallPlates(labels, stats, area);
    assert labels == seq(|claimed|, c requires 0 <= c < |claimed| => Cleared(claimed[c], tallies, area));
    assert stats == seq(|tallies|, q requires 0 <= q < |tallies| => if Small(tallies[q], area) then 0 else tallies[q]);
    labels, stats, added := RemoveOrphans(adj, labels, stats, seeds);
    assert (labels, stats) == PreFill(adj, claimed, tallies, seeds, area);
    fill := fill + added;
    var outcome, filled;
    outcome, filled, steps := FillHoles(adj, labels, |seeds|, fill);
    if outcome == Diverges {
      return Hangs, steps;
    }
    TalliedLive(labels, stats);
    assert Live(filled, stats) by {
      forall c | 0 <= c < |filled| && filled[c].Plate?
        ensures stats[filled[c].p] != 0
      {
        var d :| 0 <= d < |labels| && labels[d] == filled[c];
      }
    }
    assert Occupied(filled, stats) by {
      forall q | 0 <= q < |stats| && stats[q] != 0
        ensures exists c :: 0 <= c < |filled| && filled[c] == Plate(q)
      {
        var c :| 0 <= c < |labels| && labels[c] == Plate(q);
        assert filled[c] == Plate(q);
      }
    }
    var pm, directions := PlateMajor(filled, stats);
    // the plate list sorted by cell (`sort_unstable_by`); SortedIsCellOrder shows it is the only possible order
    var indices := CellOrder(filled, stats);
    FilledResult(filled, stats, directions);
    return Plates(filled, indices, directions), steps;
  }

  /**
   * The whole of `generate_plates` once the random plate centres (here
   * `seeds`, storage indices of the centre cells) and the edge costs
   * (here `edge`) are fixed. The ghost results name the stages: `table`
   * is the cheapest-walk table, `claimed` and `tallies` the assignment to
   * the cheapest plate, and `steps` the number of fill passes run on what
   * the small-plate and orphan removals left. On an empty map every
   * centre search leaves index 0, which the first flood indexes, so any
   * plate makes it panic; without plates the empty map comes back empty.
   */
  method GeneratePlates(sizeX: nat, sizeY: nat, edge: EdgeCost, seeds: seq<nat>)
    returns (res: PlatesOutcome, ghost table: Table, ghost claimed: seq<Label>, ghost tallies: seq<nat>, ghost steps: nat)
    requires sizeX * sizeY > 0 ==> forall i :: 0 <= i < |seeds| ==> seeds[i] < sizeX * sizeY
    ensures |seeds| == 0 && sizeX * sizeY > 0 ==> res.Panics?
    ensures res.Plates? ==>
      |res.labels| == sizeX * sizeY && PlatesResult(res.labels, res.indices, res.directions, |seeds|)
    ensures ShortestTable(MapAdjacency(sizeX, sizeY), edge, seeds, table)
    ensures res.Panics? <==>
      if sizeX * sizeY == 0 then |seeds| > 0 else |seeds| == 0 || !AllReached(table, sizeX * sizeY)
    ensures !res.Panics? ==>
      |claimed| == sizeX * sizeY && |tallies| == |seeds| && Tallied(claimed, tallies)
      && forall c :: 0 <= c < |claimed| ==> ColumnReached(table, c) && claimed[c].Plate? && Cheapest(table, c, claimed[c].p)
    ensures !res.Panics? ==>
      var adj := MapAdjacency(sizeX, sizeY);
      var pre := PreFill(adj, claimed, tallies, seeds, sizeX * sizeY);
      FillRun(adj, pre.0, |seeds|, steps, res) && (res.Plates? ==> res.indices == CellOrder(res.labels, pre.1))
  {
    var n := sizeX * sizeY;
    var adj := MapAdjacency(sizeX, sizeY);
    if n == 0 && |seeds| > 0 {
      // every centre search leaves index 0, and `costs[0]` indexes an empty table
      table, claimed, tallies, steps := seq(|seeds|, _ => []), [], [], 0;
      return Panics, table, claimed, tallies, steps;
    }
    var costs := BuildTable(adj, edge, seeds);
    table, claimed, tallies, steps := costs, [], [], 0;
    var assignment := AssignPlates(costs, n);
    if assignment.None? {
      return Panics, table, claimed, tallies, steps;
    }
    var labels, stats := assignment.value.0, assignment.value.1;
    claimed, tallies := labels, stats;
    res, steps := FinishPlates(adj, labels, stats, seeds, n);
  }
}
