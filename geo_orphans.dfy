/**
 * Removal of orphan islands: a plate whose seed's connected region
 * borders exactly one other label is absorbed, that is, all its cells
 * become placeholders.
 */
module GeoOrphans {
  import opened Util
  import opened GeoFlood
  import opened GeoLabels

  /** The labels cover the cells of the neighbour table. */
  predicate Frame(adj: Adj, labels: seq<Label>)
  {
    WellFormed(adj) && |labels| == |adj|
  }

  /** Every plate-p neighbour of cell c is marked in W. */
  predicate ClosedAt(adj: Adj, labels: seq<Label>, p: nat, W: seq<bool>, c: nat)
    requires Frame(adj, labels) && |W| == |adj| && c < |adj|
  {
    forall k :: 0 <= k < |adj[c]| && labels[adj[c][k]] == Plate(p) ==> W[adj[c][k]]
  }

  /** W holds the seed and is closed under stepping from a marked cell to a plate-p neighbour. */
  predicate Closed(adj: Adj, labels: seq<Label>, p: nat, seed: nat, W: seq<bool>)
    requires Frame(adj, labels)
  {
    |W| == |adj| && seed < |W| && W[seed]
    && forall c :: 0 <= c < |W| && W[c] ==> ClosedAt(adj, labels, p, W, c)
  }

  /** Every cell marked in V is marked in W. */
  predicate Within(V: seq<bool>, W: seq<bool>)
  {
    |V| == |W| && forall c :: 0 <= c < |V| && V[c] ==> W[c]
  }

  /** V lies inside every closed set: it holds only cells the search must reach. */
  ghost predicate Least(adj: Adj, labels: seq<Label>, p: nat, seed: nat, V: seq<bool>)
    requires Frame(adj, labels)
  {
    forall W :: Closed(adj, labels, p, seed, W) ==> Within(V, W)
  }

  /** Some cell of V has a neighbour outside plate p whose plate index is q. */
  ghost predicate Touches(adj: Adj, labels: seq<Label>, p: nat, V: seq<bool>, q: nat)
    requires Frame(adj, labels) && |V| == |adj|
  {
    exists c, k :: 0 <= c < |V| && V[c] && 0 <= k < |adj[c]|
      && labels[adj[c][k]] != Plate(p) && PlateOf(labels[adj[c][k]]) == q
  }

  /** Every flag set so far stands for a plate touched from V. */
  ghost predicate Sound(adj: Adj, labels: seq<Label>, p: nat, V: seq<bool>, flags: seq<bool>)
    requires Frame(adj, labels) && |V| == |adj|
  {
    forall q :: 0 <= q < |flags| && flags[q] ==> Touches(adj, labels, p, V, q)
  }

  /** Every neighbour of c outside plate p has its plate flagged. */
  predicate FlaggedAt(adj: Adj, labels: seq<Label>, p: nat, flags: seq<bool>, c: nat)
    requires Frame(adj, labels) && c < |adj|
  {
    forall k :: 0 <= k < |adj[c]| && labels[adj[c][k]] != Plate(p) ==>
      PlateOf(labels[adj[c][k]]) < |flags| && flags[PlateOf(labels[adj[c][k]])]
  }

  /** Plate labels name one of the P plates, and P > 0 so the placeholder's default index 0 exists. */
  predicate PlatesBelow(labels: seq<Label>, P: nat)
  {
    P > 0 && forall c :: 0 <= c < |labels| && labels[c].Plate? ==> labels[c].p < P
  }

  lemma TouchesGrow(adj: Adj, labels: seq<Label>, p: nat, V: seq<bool>, V2: seq<bool>, flags: seq<bool>)
    requires Frame(adj, labels) && |V| == |adj| && Within(V, V2)
    requires Sound(adj, labels, p, V, flags)
    ensures Sound(adj, labels, p, V2, flags)
  {
    forall q | 0 <= q < |flags| && flags[q]
      ensures Touches(adj, labels, p, V2, q)
    {
      var c, k :| 0 <= c < |V| && V[c] && 0 <= k < |adj[c]|
        && labels[adj[c][k]] != Plate(p) && PlateOf(labels[adj[c][k]]) == q;
      assert V2[c];
    }
  }

  /**
   * One pass of the search's inner loop: the popped cell `current` looks
   * at each neighbour; a plate-p neighbour not yet visited is visited and
   * queued, any other neighbour has its plate flagged and counted the
   * first time it is seen.
   */
  method ExpandCell(adj: Adj, labels: seq<Label>, P: nat, p: nat, seed: nat, current: nat,
                    vis: seq<bool>, flags: seq<bool>, num: nat)
    returns (vis2: seq<bool>, flags2: seq<bool>, num2: nat, pushed: seq<nat>)
    requires Frame(adj, labels) && PlatesBelow(labels, P)
    requires |vis| == |adj| && current < |adj| && vis[current] && |flags| == P
    requires num == Count(flags, true)
    requires Sound(adj, labels, p, vis, flags) && Least(adj, labels, p, seed, vis)
    ensures |vis2| == |adj| && Within(vis, vis2) && |flags2| == P && Within(flags, flags2)
    ensures forall i :: 0 <= i < |pushed| ==> pushed[i] < |adj| && vis2[pushed[i]]
    ensures forall c :: 0 <= c < |adj| && vis2[c] && !vis[c] ==> c in pushed
    ensures Count(vis2, false) + |pushed| == Count(vis, false)
    ensures ClosedAt(adj, labels, p, vis2, current) && FlaggedAt(adj, labels, p, flags2, current)
    ensures num2 == Count(flags2, true)
    ensures Sound(adj, labels, p, vis2, flags2) && Least(adj, labels, p, seed, vis2)
  {
    vis2, flags2, num2, pushed := vis, flags, num, [];
    var nbs := adj[current];
    for k := 0 to |nbs|
      invariant |vis2| == |adj| && Within(vis, vis2) && |flags2| == P && Within(flags, flags2)
      invariant forall i :: 0 <= i < |pushed| ==> pushed[i] < |adj| && vis2[pushed[i]]
      invariant forall c :: 0 <= c < |adj| && vis2[c] && !vis[c] ==> c in pushed
      invariant Count(vis2, false) + |pushed| == Count(vis, false)
      invariant forall j :: 0 <= j < k && labels[nbs[j]] == Plate(p) ==> vis2[nbs[j]]
      invariant forall j :: 0 <= j < k && labels[nbs[j]] != Plate(p) ==> flags2[PlateOf(labels[nbs[j]])]
      invariant num2 == Count(flags2, true)
      invariant Sound(adj, labels, p, vis2, flags2) && Least(adj, labels, p, seed, vis2)
    {
      var idx := nbs[k];
      if labels[idx] == Plate(p) {
        if !vis2[idx] {
          VisitStep(adj, labels, p, seed, current, k, vis2, flags2);
          CountUpdate(vis2, idx, true, false);
          pushed := pushed + [idx];
          vis2 := vis2[idx := true];
        }
      } else {
        var q := FindPlate(labels[idx], P);
        if !flags2[q] {
          FlagStep(adj, labels, p, current, k, vis2, flags2);
          CountUpdate(flags2, q, true, true);
          flags2 := flags2[q := true];
          num2 := num2 + 1;
        }
      }
    }
  }

  /** Flagging the plate of a neighbour of a visited cell keeps the flags sound. */
  lemma FlagStep(adj: Adj, labels: seq<Label>, p: nat, current: nat, k: nat, vis: seq<bool>, flags: seq<bool>)
    requires Frame(adj, labels) && |vis| == |adj| && current < |adj| && vis[current]
    requires k < |adj[current]| && labels[adj[current][k]] != Plate(p)
    requires PlateOf(labels[adj[current][k]]) < |flags|
    requires Sound(adj, labels, p, vis, flags)
    ensures Sound(adj, labels, p, vis, flags[PlateOf(labels[adj[current][k]]) := true])
  {
    var q := PlateOf(labels[adj[current][k]]);
    assert Touches(adj, labels, p, vis, q);
  }

  /** Visiting a plate-p neighbour of a visited cell keeps the visited set least and the flags sound. */
  lemma VisitStep(adj: Adj, labels: seq<Label>, p: nat, seed: nat, current: nat, k: nat,
                  vis: seq<bool>, flags: seq<bool>)
    requires Frame(adj, labels) && |vis| == |adj| && current < |adj| && vis[current]
    requires k < |adj[current]| && labels[adj[current][k]] == Plate(p)
    requires Sound(adj, labels, p, vis, flags) && Least(adj, labels, p, seed, vis)
    ensures Within(vis, vis[adj[current][k] := true])
    ensures Sound(adj, labels, p, vis[adj[current][k] := true], flags)
    ensures Least(adj, labels, p, seed, vis[adj[current][k] := true])
  {
    var idx := adj[current][k];
    var v2 := vis[idx := true];
    TouchesGrow(adj, labels, p, vis, v2, flags);
    forall W | Closed(adj, labels, p, seed, W)
      ensures Within(v2, W)
    {
      assert Within(vis, W);
      assert ClosedAt(adj, labels, p, W, current);
    }
  }

  /** The search's region is determined: two least closed sets are the same set. */
  lemma ComponentUnique(adj: Adj, labels: seq<Label>, p: nat, seed: nat, V: seq<bool>, W: seq<bool>)
    requires Frame(adj, labels)
    requires Closed(adj, labels, p, seed, V) && Least(adj, labels, p, seed, V)
    requires Closed(adj, labels, p, seed, W) && Least(adj, labels, p, seed, W)
    ensures V == W
  {
    assert Within(V, W) && Within(W, V);
  }

  /**
   * The breadth-first search of the orphan pass for plate p: starting at
   * the plate's seed, it visits exactly the least set that holds the seed
   * and is closed under plate-p neighbours, and it flags exactly the plates
   * (a placeholder counting as plate 0) of the neighbours of that set that
   * lie outside plate p. `num` is the number of flagged plates.
   */
  method TouchedPlates(adj: Adj, labels: seq<Label>, P: nat, p: nat, seed: nat)
    returns (vis: seq<bool>, flags: seq<bool>, num: nat)
    requires Frame(adj, labels) && PlatesBelow(labels, P) && seed < |adj|
    ensures Closed(adj, labels, p, seed, vis) && Least(adj, labels, p, seed, vis)
    ensures |flags| == P && forall q :: 0 <= q < P ==> (flags[q] <==> Touches(adj, labels, p, vis, q))
    ensures num == Count(flags, true)
  {
    var n := |adj|;
    vis := seq(n, c => c == seed);
    flags := seq(P, _ => false);
    num := 0;
    CountZero(flags, true);
    var frontier: seq<nat> := [seed];
    assert Least(adj, labels, p, seed, vis) by {
      forall W | Closed(adj, labels, p, seed, W)
        ensures Within(vis, W)
      {
      }
    }
    while frontier != []
      invariant |vis| == n && vis[seed] && |flags| == P
      invariant forall i :: 0 <= i < |frontier| ==> frontier[i] < n && vis[frontier[i]]
      invariant forall c :: 0 <= c < n && vis[c] && c !in frontier ==>
        ClosedAt(adj, labels, p, vis, c) && FlaggedAt(adj, labels, p, flags, c)
      invariant num == Count(flags, true)
      invariant Sound(adj, labels, p, vis, flags) && Least(adj, labels, p, seed, vis)
      decreases Count(vis, false), |frontier|
    {
      var current := frontier[0];
      frontier := frontier[1..];
      var vis2, flags2, num2, pushed := ExpandCell(adj, labels, P, p, seed, current, vis, flags, num);
      forall c | 0 <= c < n && vis2[c] && c !in frontier + pushed
        ensures ClosedAt(adj, labels, p, vis2, c) && FlaggedAt(adj, labels, p, flags2, c)
      {
        if c != current {
          assert vis[c] && c !in [current] + frontier;
        }
      }
      vis, flags, num, frontier := vis2, flags2, num2, frontier + pushed;
    }
    forall q | 0 <= q < P && Touches(adj, labels, p, vis, q)
      ensures flags[q]
    {
      var c, k :| 0 <= c < |vis| && vis[c] && 0 <= k < |adj[c]|
        && labels[adj[c][k]] != Plate(p) && PlateOf(labels[adj[c][k]]) == q;
      assert FlaggedAt(adj, labels, p, flags, c);
    }
  }

  /** The labels with every cell of plate p turned into a placeholder. */
  function Dissolved(labels: seq<Label>, p: nat): (r: seq<Label>)
    ensures |r| == |labels| && Count(r, Plate(p)) == 0
    ensures forall c :: 0 <= c < |labels| ==> r[c] == if labels[c] == Plate(p) then Placeholder else labels[c]
  {
    var r := seq(|labels|, c requires 0 <= c < |labels| => if labels[c] == Plate(p) then Placeholder else labels[c]);
    CountZero(r, Plate(p));
    r
  }

  /**
   * The absorption loop: every cell of plate p becomes a placeholder,
   * counted in `added`, and the plate's tally drops to zero.
   */
  method DissolvePlate(labels: seq<Label>, stats: seq<nat>, p: nat)
    returns (cur: seq<Label>, st: seq<nat>, added: nat)
    requires Tallied(labels, stats) && p < |stats|
    ensures cur == Dissolved(labels, p) && st == stats[p := 0] && Tallied(cur, st)
    ensures added == stats[p] && Count(cur, Placeholder) == Count(labels, Placeholder) + added
  {
    cur, st, added := labels, stats, 0;
    for c := 0 to |labels|
      invariant |cur| == |labels| && Tallied(cur, st) && |st| == |stats|
      invariant forall d :: 0 <= d < c ==> cur[d] == if labels[d] == Plate(p) then Placeholder else labels[d]
      invariant forall d :: c <= d < |labels| ==> cur[d] == labels[d]
      invariant st == stats[p := st[p]] && added + st[p] == stats[p]
      invariant Count(cur, Placeholder) == Count(labels, Placeholder) + added
    {
      if cur[c] == Plate(p) {
        TallyRemove(cur, st, c);
        cur := cur[c := Placeholder];
        added := added + 1;
        st := st[p := st[p] - 1];
      }
    }
    assert cur == Dissolved(labels, p);
  }

  /** For each plate, whether the region V touches it. */
  ghost function TouchFlags(adj: Adj, labels: seq<Label>, p: nat, V: seq<bool>, P: nat): (r: seq<bool>)
    requires Frame(adj, labels) && |V| == |adj|
    ensures |r| == P && forall q :: 0 <= q < P ==> (r[q] <==> Touches(adj, labels, p, V, q))
  {
    seq(P, q requires 0 <= q < P => Touches(adj, labels, p, V, q))
  }

  /**
   * The island test of the orphan loop: the region searched from `seed`
   * (the least closed set, unique by ComponentUnique) borders exactly one
   * of the P plates, the placeholder counting as plate 0.
   */
  ghost predicate IsOrphan(adj: Adj, labels: seq<Label>, P: nat, p: nat, seed: nat)
    requires Frame(adj, labels)
  {
    exists V :: Closed(adj, labels, p, seed, V) && Least(adj, labels, p, seed, V)
      && Count(TouchFlags(adj, labels, p, V, P), true) == 1
  }

  /**
   * What one iteration of the orphan loop does to the labels and tallies:
   * a plate with a zero tally is skipped, an orphan plate is dissolved and
   * its tally dropped to zero, any other plate is left alone.
   */
  ghost function OrphanPass(adj: Adj, labels: seq<Label>, stats: seq<nat>, seed: nat, p: nat): (r: (seq<Label>, seq<nat>))
    requires Frame(adj, labels) && p < |stats|
    ensures |r.0| == |labels| && |r.1| == |stats|
    ensures forall c :: 0 <= c < |labels| ==> r.0[c] == labels[c] || r.0[c] == Placeholder
  {
    if stats[p] != 0 && IsOrphan(adj, labels, |stats|, p, seed) then (Dissolved(labels, p), stats[p := 0])
    else (labels, stats)
  }

  /** The orphan loop over plates 0 .. k-1, each plate tested on the labels the plates before it left. */
  ghost function OrphanLoop(adj: Adj, labels: seq<Label>, stats: seq<nat>, seeds: seq<nat>, k: nat): (r: (seq<Label>, seq<nat>))
    requires Frame(adj, labels) && |seeds| == |stats| && k <= |stats|
    ensures |r.0| == |labels| && |r.1| == |stats|
    ensures forall c :: 0 <= c < |labels| ==> r.0[c] == labels[c] || r.0[c] == Placeholder
    decreases k
  {
    if k == 0 then (labels, stats)
    else
      var prev := OrphanLoop(adj, labels, stats, seeds, k - 1);
      OrphanPass(adj, prev.0, prev.1, seeds[k - 1], k - 1)
  }

  /**
   * One iteration of the orphan loop for plate p: a plate with a zero
   * tally is skipped; otherwise the region around its seed is searched,
   * and when it borders exactly one plate (the placeholder counting as
   * plate 0) the whole plate is dissolved. `vis` is the searched region.
   */
  method OrphanStep(adj: Adj, labels: seq<Label>, stats: seq<nat>, seed: nat, p: nat)
    returns (cur: seq<Label>, st: seq<nat>, added: nat, ghost vis: seq<bool>)
    requires Frame(adj, labels) && Tallied(labels, stats) && p < |stats| && seed < |adj|
    ensures stats[p] != 0 ==> Closed(adj, labels, p, seed, vis) && Least(adj, labels, p, seed, vis)
    ensures stats[p] != 0 && Count(TouchFlags(adj, labels, p, vis, |stats|), true) == 1 ==>
      cur == Dissolved(labels, p) && st == stats[p := 0] && added == stats[p]
    ensures stats[p] == 0 || Count(TouchFlags(adj, labels, p, vis, |stats|), true) != 1 ==>
      cur == labels && st == stats && added == 0
    ensures Tallied(cur, st) && Count(cur, Placeholder) == Count(labels, Placeholder) + added
    ensures (cur, st) == OrphanPass(adj, labels, stats, seed, p)
  {
    cur, st, added, vis := labels, stats, 0, seq(|adj|, _ => false);
    if stats[p] == 0 {
      return;
    }
    var flags, num;
    vis, flags, num := TouchedPlates(adj, labels, |stats|, p, seed);
    assert flags == TouchFlags(adj, labels, p, vis, |stats|);
    if num == 1 {
      assert IsOrphan(adj, labels, |stats|, p, seed);
      cur, st, added := DissolvePlate(labels, stats, p);
    } else {
      forall V | Closed(adj, labels, p, seed, V) && Least(adj, labels, p, seed, V)
        ensures Count(TouchFlags(adj, labels, p, V, |stats|), true) != 1
      {
        ComponentUnique(adj, labels, p, seed, V, vis);
      }
    }
  }

  /**
   * The orphan loop of `generate_plates`, plate by plate in index order,
   * each plate searched on the labels left by the plates before it. Each
   * plate is either kept whole or dissolved whole (tally zero, every cell
   * a placeholder), and `added` counts the new placeholders. The result is
   * the orphan loop's specification, applied plate after plate.
   */
  method RemoveOrphans(adj: Adj, labels: seq<Label>, stats: seq<nat>, seeds: seq<nat>)
    returns (cur: seq<Label>, st: seq<nat>, added: nat)
    requires Frame(adj, labels) && Tallied(labels, stats)
    requires |seeds| == |stats| && forall i :: 0 <= i < |seeds| ==> seeds[i] < |adj|
    ensures |cur| == |labels| && |st| == |stats| && Tallied(cur, st)
    ensures forall q :: 0 <= q < |stats| ==> st[q] == stats[q] || st[q] == 0
    ensures forall c :: 0 <= c < |labels| ==>
      cur[c] == if labels[c].Plate? && st[labels[c].p] == 0 then Placeholder else labels[c]
    ensures Count(cur, Placeholder) == Count(labels, Placeholder) + added
    ensures (cur, st) == OrphanLoop(adj, labels, stats, seeds, |stats|)
  {
    cur, st, added := labels, stats, 0;
    TalliedLive(labels, stats);
    for p := 0 to |stats|
      invariant |cur| == |labels| && |st| == |stats| && Tallied(cur, st)
      invariant forall q :: 0 <= q < |stats| ==> st[q] == stats[q] || st[q] == 0
      invariant forall c :: 0 <= c < |labels| ==>
        cur[c] == if labels[c].Plate? && st[labels[c].p] == 0 then Placeholder else labels[c]
      invariant Count(cur, Placeholder) == Count(labels, Placeholder) + added
      invariant (cur, st) == OrphanLoop(adj, labels, stats, seeds, p)
    {
      var more;
      ghost var vis;
      cur, st, more, vis := OrphanStep(adj, cur, st, seeds[p], p);
      added := added + more;
    }
  }
}
