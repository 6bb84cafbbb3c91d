/**
 * Plate growth of the geological generator: for one plate, a FIFO
 * relaxation (Bellman-Ford with a work queue) of the cost of reaching
 * every cell from the plate's seed cell.
 *
 * The float edge cost of the source becomes an arbitrary function into
 * the positive naturals, and the cost table is a sequence of
 * `Option<nat>` per plate (None is "not reached yet").
 */
module GeoFlood {
  import opened Util
  import opened HexMaps

  /** A strictly positive edge cost. */
  type Pos = x: nat | x >= 1 witness 1

  /** The cost of stepping from one cell to a neighbour, by storage index. */
  type EdgeCost = (nat, nat) -> Pos

  /**
   * The neighbour relation on storage indices: `adj[c]` lists the indices
   * of the neighbours of cell c, in the order `get_neighbours` yields them.
   */
  type Adj = seq<seq<nat>>

  predicate WellFormed(adj: Adj)
  {
    forall c, k :: 0 <= c < |adj| && 0 <= k < |adj[c]| ==> adj[c][k] < |adj|
  }

  /** The neighbour table of a sizeX by sizeY map. */
  function MapAdjacency(sizeX: nat, sizeY: nat): (adj: Adj)
    ensures |adj| == sizeX * sizeY && WellFormed(adj)
    ensures forall c :: 0 <= c < |adj| ==> sizeX >= 1 && adj[c] == NeighboursOf(c, sizeX, sizeY) && |adj[c]| <= 6
  {
    if sizeX == 0 then []
    else seq(sizeX * sizeY, c requires 0 <= c < sizeX * sizeY => NeighboursOf(c, sizeX, sizeY))
  }

  /** One plate's column of the cost table. */
  type Costs = seq<Option<nat>>

  /** Sum of the reached costs. */
  function SomeSum(col: Costs): nat
  {
    if col == [] then 0
    else SomeSum(col[..|col| - 1]) + (if col[|col| - 1].Some? then col[|col| - 1].value else 0)
  }

  lemma {:induction false} SomeSumUpdate(col: Costs, i: nat, v: nat)
    requires i < |col|
    ensures SomeSum(col[i := Some(v)]) ==
      SomeSum(col) - (if col[i].Some? then col[i].value else 0) + v
  {
    var t := col[i := Some(v)];
    if i == |col| - 1 {
      assert t[..|t| - 1] == col[..|col| - 1];
    } else {
      assert t[..|t| - 1] == col[..|col| - 1][i := Some(v)];
      SomeSumUpdate(col[..|col| - 1], i, v);
    }
  }

  /** Every neighbour of a reached cell c is reached at no more than c's cost plus the edge. */
  predicate Relaxed(adj: Adj, edge: EdgeCost, col: Costs, c: nat)
    requires WellFormed(adj) && |col| == |adj| && c < |col|
  {
    col[c].Some? ==>
      forall k :: 0 <= k < |adj[c]| ==>
        col[adj[c][k]].Some? && col[adj[c][k]].value <= col[c].value + edge(c, adj[c][k])
  }

  /** A reached cell's cost is paid for by some reached cell it neighbours. */
  ghost predicate Supported(adj: Adj, edge: EdgeCost, col: Costs, c: nat)
    requires WellFormed(adj) && |col| == |adj| && c < |col|
  {
    col[c].Some? ==>
      exists d :: 0 <= d < |col| && c in adj[d] && col[d].Some? && col[d].value + edge(d, c) <= col[c].value
  }

  /** Lowering one entry keeps every other cell relaxed. */
  lemma RelaxedLower(adj: Adj, edge: EdgeCost, col: Costs, i: nat, v: nat, c: nat)
    requires WellFormed(adj) && |col| == |adj| && i < |col| && c < |col| && c != i
    requires col[i].None? || v < col[i].value
    requires Relaxed(adj, edge, col, c)
    ensures Relaxed(adj, edge, col[i := Some(v)], c)
  {
  }

  /** Lowering one entry keeps every other cell supported. */
  lemma SupportedLower(adj: Adj, edge: EdgeCost, col: Costs, i: nat, v: nat, c: nat)
    requires WellFormed(adj) && |col| == |adj| && i < |col| && c < |col| && c != i
    requires col[i].None? || v < col[i].value
    requires Supported(adj, edge, col, c)
    ensures Supported(adj, edge, col[i := Some(v)], c)
  {
    var t := col[i := Some(v)];
    if col[c].Some? {
      var d :| 0 <= d < |col| && c in adj[d] && col[d].Some? && col[d].value + edge(d, c) <= col[c].value;
      assert t[d].Some? && t[d].value + edge(d, c) <= t[c].value;
    }
  }

  /**
   * The per-plate flood of `generate_plates`: the seed starts at cost 0; a
   * popped cell offers each neighbour its own cost plus the edge cost, and
   * a neighbour that is unreached or strictly improved takes the offer and
   * is queued again. When the queue drains, every reached cell is relaxed
   * and every reached cell other than the seed is supported.
   */
  method RelaxPlate(adj: Adj, edge: EdgeCost, seed: nat) returns (col: Costs)
    requires WellFormed(adj) && seed < |adj|
    ensures |col| == |adj| && col[seed] == Some(0)
    ensures forall c :: 0 <= c < |col| ==> Relaxed(adj, edge, col, c)
    ensures forall c :: 0 <= c < |col| && c != seed ==> Supported(adj, edge, col, c)
  {
    var n := |adj|;
    col := seq(n, _ => None);
    var frontier: seq<nat> := [seed];
    col := col[seed := Some(0)];
    while frontier != []
      invariant |col| == n && col[seed] == Some(0)
      invariant forall i :: 0 <= i < |frontier| ==> frontier[i] < n && col[frontier[i]].Some?
      invariant forall c :: 0 <= c < n && c !in frontier ==> Relaxed(adj, edge, col, c)
      invariant forall c :: 0 <= c < n && c != seed ==> Supported(adj, edge, col, c)
      decreases Count(col, None), SomeSum(col), |frontier|
    {
      ghost var c0, s0, f0 := Count(col, None), SomeSum(col), |frontier|;
      var current := frontier[0];
      frontier := frontier[1..];
      var nbs := adj[current];
      var base := col[current].value;
      for k := 0 to |nbs|
        invariant |col| == n && col[seed] == Some(0) && col[current] == Some(base)
        invariant forall i :: 0 <= i < |frontier| ==> frontier[i] < n && col[frontier[i]].Some?
        invariant forall j :: 0 <= j < k ==> col[nbs[j]].Some? && col[nbs[j]].value <= base + edge(current, nbs[j])
        invariant forall c :: 0 <= c < n && c !in frontier && c != current ==> Relaxed(adj, edge, col, c)
        invariant forall c :: 0 <= c < n && c != seed ==> Supported(adj, edge, col, c)
        invariant Count(col, None) < c0
          || (Count(col, None) == c0 && (SomeSum(col) < s0 || (SomeSum(col) == s0 && |frontier| < f0)))
      {
        var idx := nbs[k];
        var cost := base + edge(current, idx);
        if col[idx].None? || cost < col[idx].value {
          LowerEntry(adj, edge, col, idx, cost, current, seed);
          frontier := frontier + [idx];
          col := col[idx := Some(cost)];
        }
      }
      assert Relaxed(adj, edge, col, current);
    }
  }

  /** The bookkeeping of one improvement: relaxed and supported cells stay so, and the measure drops. */
  lemma LowerEntry(adj: Adj, edge: EdgeCost, col: Costs, idx: nat, cost: nat, current: nat, seed: nat)
    requires WellFormed(adj) && |col| == |adj| && idx < |col| && current < |col| && seed < |col|
    requires col[current].Some? && idx in adj[current] && cost == col[current].value + edge(current, idx)
    requires col[idx].None? || cost < col[idx].value
    requires forall c :: 0 <= c < |col| && c != seed ==> Supported(adj, edge, col, c)
    ensures idx != current
    ensures var t := col[idx := Some(cost)];
      forall c :: 0 <= c < |col| && c != seed ==> Supported(adj, edge, t, c)
    ensures forall c :: 0 <= c < |col| && c != idx && Relaxed(adj, edge, col, c) ==>
      Relaxed(adj, edge, col[idx := Some(cost)], c)
    ensures col[idx].None? ==> Count(col[idx := Some(cost)], None) == Count(col, None) - 1
    ensures col[idx].Some? ==>
      Count(col[idx := Some(cost)], None) == Count(col, None) && SomeSum(col[idx := Some(cost)]) < SomeSum(col)
  {
    var t := col[idx := Some(cost)];
    CountUpdate(col, idx, Some(cost), None);
    SomeSumUpdate(col, idx, cost);
    forall c | 0 <= c < |col| && c != seed
      ensures Supported(adj, edge, t, c)
    {
      if c == idx {
        assert t[current].Some? && t[current].value + edge(current, idx) <= t[idx].value;
      } else {
        SupportedLower(adj, edge, col, idx, cost, c);
      }
    }
    forall c | 0 <= c < |col| && c != idx && Relaxed(adj, edge, col, c)
      ensures Relaxed(adj, edge, t, c)
    {
      RelaxedLower(adj, edge, col, idx, cost, c);
    }
  }

  // ---------------------------------------------------------------------
  // What the fixpoint means: shortest walk costs
  // ---------------------------------------------------------------------

  /** A walk: a non-empty sequence of cells, each a neighbour of the one before. */
  ghost predicate IsWalk(adj: Adj, w: seq<nat>)
    requires WellFormed(adj)
    decreases |w|
  {
    |w| >= 1 && w[|w| - 1] < |adj|
    && (|w| > 1 ==> IsWalk(adj, w[..|w| - 1]) && w[|w| - 2] < |adj| && w[|w| - 1] in adj[w[|w| - 2]])
  }

  /** Sum of the edge costs along a walk. */
  ghost function WalkCost(edge: EdgeCost, w: seq<nat>): nat
    decreases |w|
  {
    if |w| <= 1 then 0 else WalkCost(edge, w[..|w| - 1]) + edge(w[|w| - 2], w[|w| - 1])
  }

  /** At a relaxation fixpoint rooted at the seed, every walk from the seed costs at least its end's entry. */
  lemma {:induction false} WalkBound(adj: Adj, edge: EdgeCost, col: Costs, seed: nat, w: seq<nat>)
    requires WellFormed(adj) && |col| == |adj| && seed < |col| && col[seed] == Some(0)
    requires forall c :: 0 <= c < |col| ==> Relaxed(adj, edge, col, c)
    requires IsWalk(adj, w) && w[0] == seed
    ensures col[w[|w| - 1]].Some? && col[w[|w| - 1]].value <= WalkCost(edge, w)
    decreases |w|
  {
    if |w| > 1 {
      var p := w[..|w| - 1];
      WalkBound(adj, edge, col, seed, p);
      var a, b := w[|w| - 2], w[|w| - 1];
      assert p[|p| - 1] == a;
      var k :| 0 <= k < |adj[a]| && adj[a][k] == b;
      assert Relaxed(adj, edge, col, a);
    }
  }

  /** If every reached cell but the seed is supported, each reached cell is the end of a walk no dearer than its entry. */
  lemma {:induction false} WalkExists(adj: Adj, edge: EdgeCost, col: Costs, seed: nat, c: nat)
    requires WellFormed(adj) && |col| == |adj| && seed < |col| && col[seed] == Some(0)
    requires forall d :: 0 <= d < |col| && d != seed ==> Supported(adj, edge, col, d)
    requires c < |col| && col[c].Some?
    ensures exists w :: IsWalk(adj, w) && w[0] == seed && w[|w| - 1] == c && WalkCost(edge, w) <= col[c].value
    decreases col[c].value
  {
    if c == seed {
      assert IsWalk(adj, [seed]) && WalkCost(edge, [seed]) == 0;
    } else {
      assert Supported(adj, edge, col, c);
      var d :| 0 <= d < |col| && c in adj[d] && col[d].Some? && col[d].value + edge(d, c) <= col[c].value;
      WalkExists(adj, edge, col, seed, d);
      var wd :| IsWalk(adj, wd) && wd[0] == seed && wd[|wd| - 1] == d && WalkCost(edge, wd) <= col[d].value;
      var w := wd + [c];
      assert w[..|w| - 1] == wd;
      assert IsWalk(adj, w);
      assert WalkCost(edge, w) == WalkCost(edge, wd) + edge(d, c);
    }
  }

  /**
   * The flood computes shortest walk costs: a cell is reached exactly when
   * some walk from the seed ends there, its entry is the cost of some such
   * walk, and no walk from the seed is cheaper.
   */
  lemma ShortestCosts(adj: Adj, edge: EdgeCost, col: Costs, seed: nat, c: nat)
    requires WellFormed(adj) && |col| == |adj| && seed < |col| && col[seed] == Some(0)
    requires forall d :: 0 <= d < |col| ==> Relaxed(adj, edge, col, d)
    requires forall d :: 0 <= d < |col| && d != seed ==> Supported(adj, edge, col, d)
    requires c < |col|
    ensures col[c].Some? ==>
      exists w :: IsWalk(adj, w) && w[0] == seed && w[|w| - 1] == c && WalkCost(edge, w) == col[c].value
    ensures forall w :: IsWalk(adj, w) && w[0] == seed && w[|w| - 1] == c ==>
      col[c].Some? && col[c].value <= WalkCost(edge, w)
  {
    forall w | IsWalk(adj, w) && w[0] == seed && w[|w| - 1] == c
      ensures col[c].Some? && col[c].value <= WalkCost(edge, w)
    {
      WalkBound(adj, edge, col, seed, w);
    }
    if col[c].Some? {
      WalkExists(adj, edge, col, seed, c);
    }
  }
}
