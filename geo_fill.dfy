/**
 * Hole filling: passes over the map in which every placeholder cell takes
 * the plate most of its neighbours carry, reading the neighbours from a
 * snapshot taken before the pass.
 */
module GeoFill {
  import opened Util
  import opened GeoFlood
  import opened GeoLabels

  /** The labels of cell c's neighbours, in neighbour order. */
  function NbLabels(adj: Adj, labels: seq<Label>, c: nat): (r: seq<Label>)
    requires WellFormed(adj) && |labels| == |adj| && c < |adj|
    ensures |r| == |adj[c]| && forall k :: 0 <= k < |r| ==> r[k] in labels
  {
    seq(|adj[c]|, k requires 0 <= k < |adj[c]| => labels[adj[c][k]])
  }

  /** For each of the P plates, how many neighbours of c carry it. */
  function Votes(adj: Adj, labels: seq<Label>, c: nat, P: nat): (v: seq<nat>)
    requires WellFormed(adj) && |labels| == |adj| && c < |adj|
    ensures |v| == P && forall q :: 0 <= q < P ==> v[q] <= |adj[c]|
  {
    seq(P, q requires 0 <= q < P => Count(NbLabels(adj, labels, c), Plate(q)))
  }

  /**
   * The scan for the most voted plate: it starts from (index 0, count 0)
   * and moves only on a strictly larger count, so it yields the first
   * index of the largest count, or (0, 0) when every count is zero.
   */
  function Strongest(v: seq<nat>): (r: (nat, nat))
    ensures forall q :: 0 <= q < |v| ==> v[q] <= r.1
    ensures r.1 == 0 ==> r.0 == 0
    ensures r.1 > 0 ==> r.0 < |v| && v[r.0] == r.1
    ensures forall q :: 0 <= q < r.0 ==> v[q] < r.1
    decreases |v|
  {
    if v == [] then (0, 0)
    else
      var r := Strongest(v[..|v| - 1]);
      if r.1 < v[|v| - 1] then (|v| - 1, v[|v| - 1]) else r
  }

  /** The label cell c has after one pass over the snapshot `labels`. */
  function Refill(adj: Adj, labels: seq<Label>, c: nat, P: nat): (l: Label)
    requires WellFormed(adj) && |labels| == |adj| && Bounded(labels, P) && c < |adj|
    ensures labels[c].Plate? ==> l == labels[c]
    ensures l.Plate? ==> l in labels && l.p < P
  {
    if labels[c].Plate? then labels[c]
    else
      var r := Strongest(Votes(adj, labels, c, P));
      if r.1 > 1 then
        CountZero(NbLabels(adj, labels, c), Plate(r.0));
        Plate(r.0)
      else Placeholder
  }

  /** The labels after one full pass: each cell refilled from the same snapshot. */
  function FillStep(adj: Adj, labels: seq<Label>, P: nat): (r: seq<Label>)
    requires WellFormed(adj) && |labels| == |adj| && Bounded(labels, P)
    ensures |r| == |labels| && Bounded(r, P)
  {
    seq(|labels|, c requires 0 <= c < |labels| => Refill(adj, labels, c, P))
  }

  /** The labels after k passes of the fill loop. */
  function FillIter(adj: Adj, labels: seq<Label>, P: nat, k: nat): (r: seq<Label>)
    requires WellFormed(adj) && |labels| == |adj| && Bounded(labels, P)
    ensures |r| == |labels| && Bounded(r, P)
    decreases k
  {
    if k == 0 then labels else FillStep(adj, FillIter(adj, labels, P, k - 1), P)
  }

  /**
   * The vote count for one placeholder: every non-placeholder neighbour
   * in the snapshot adds one to its plate's count.
   */
  method CountVotes(adj: Adj, snapshot: seq<Label>, c: nat, P: nat) returns (votes: seq<nat>)
    requires WellFormed(adj) && |snapshot| == |adj| && c < |adj|
    requires Bounded(snapshot, P)
    ensures votes == Votes(adj, snapshot, c, P)
  {
    var nbs := NbLabels(adj, snapshot, c);
    votes := seq(P, _ => 0);
    for k := 0 to |nbs|
      invariant |votes| == P
      invariant forall q :: 0 <= q < P ==> votes[q] == Count(nbs[..k], Plate(q))
    {
      assert nbs[..k + 1] == nbs[..k] + [nbs[k]];
      forall q | 0 <= q < P
        ensures Count(nbs[..k + 1], Plate(q)) == Count(nbs[..k], Plate(q)) + (if nbs[k] == Plate(q) then 1 else 0)
      {
        CountAppend(nbs[..k], nbs[k], Plate(q));
      }
      if nbs[k].Plate? {
        var q := FindPlate(nbs[k], P);
        votes := votes[q := votes[q] + 1];
      }
    }
    assert nbs[..|nbs|] == nbs;
  }

  /** The running-maximum loop over the vote counts. */
  method MostVoted(votes: seq<nat>) returns (idx: nat, max: nat)
    ensures (idx, max) == Strongest(votes)
  {
    idx, max := 0, 0;
    for q := 0 to |votes|
      invariant (idx, max) == Strongest(votes[..q])
    {
      assert votes[..q + 1][..q] == votes[..q];
      if max < votes[q] {
        idx, max := q, votes[q];
      }
    }
    assert votes[..|votes|] == votes;
  }

  /**
   * One pass of the fill loop: the map is cloned, and each placeholder
   * cell whose most voted plate has more than one neighbour takes that
   * plate, counted in `changed`. The result is the pass function on the
   * snapshot, so the order in which cells are visited does not matter.
   */
  method FillPass(adj: Adj, labels: seq<Label>, P: nat) returns (cur: seq<Label>, changed: nat)
    requires WellFormed(adj) && |labels| == |adj|
    requires Bounded(labels, P)
    ensures cur == FillStep(adj, labels, P)
    ensures Count(cur, Placeholder) + changed == Count(labels, Placeholder)
  {
    cur, changed := labels, 0;
    for c := 0 to |labels|
      invariant |cur| == |labels|
      invariant forall d :: 0 <= d < c ==> cur[d] == Refill(adj, labels, d, P)
      invariant forall d :: c <= d < |labels| ==> cur[d] == labels[d]
      invariant Count(cur, Placeholder) + changed == Count(labels, Placeholder)
    {
      if cur[c] == Placeholder {
        var votes := CountVotes(adj, labels, c, P);
        var idx, max := MostVoted(votes);
        if max > 1 {
          CountUpdate(cur, c, Plate(idx), Placeholder);
          cur := cur[c := Plate(idx)];
          changed := changed + 1;
        }
      }
    }
  }

  /** Where the fill loop ends: every hole filled, or a pass that changes nothing, after which it repeats forever. */
  datatype FillOutcome = Filled | Diverges

  /**
   * The `while hexes_to_fill != 0` loop. It ends `Filled` with no
   * placeholder left, or `Diverges` at a non-empty fixpoint of the pass,
   * where the source would spin forever. Plate cells never change, and
   * every plate label in the result was already present before. The
   * result is the pass iterated `steps` times, and every earlier iterate
   * still had holes and was not yet a fixpoint, so the loop ran on.
   */
  method FillHoles(adj: Adj, labels: seq<Label>, P: nat, fill: nat) returns (outcome: FillOutcome, cur: seq<Label>, ghost steps: nat)
    requires WellFormed(adj) && |labels| == |adj|
    requires Bounded(labels, P)
    requires fill == Count(labels, Placeholder)
    ensures |cur| == |labels| && Bounded(cur, P)
    ensures outcome == Filled ==> Count(cur, Placeholder) == 0
    ensures outcome == Diverges ==> Count(cur, Placeholder) > 0 && FillStep(adj, cur, P) == cur
    ensures forall c :: 0 <= c < |labels| && labels[c].Plate? ==> cur[c] == labels[c]
    ensures forall c :: 0 <= c < |cur| && cur[c].Plate? ==> cur[c] in labels
    ensures cur == FillIter(adj, labels, P, steps)
    ensures forall j :: 0 <= j < steps ==>
      Count(FillIter(adj, labels, P, j), Placeholder) > 0 && FillIter(adj, labels, P, j + 1) != FillIter(adj, labels, P, j)
  {
    cur, steps := labels, 0;
    var left := fill;
    while left != 0
      invariant |cur| == |labels| && left == Count(cur, Placeholder)
      invariant cur == FillIter(adj, labels, P, steps)
      invariant forall j :: 0 <= j < steps ==>
        Count(FillIter(adj, labels, P, j), Placeholder) > 0 && FillIter(adj, labels, P, j + 1) != FillIter(adj, labels, P, j)
      invariant forall d :: 0 <= d < |cur| && cur[d].Plate? ==> cur[d].p < P && cur[d] in labels
      invariant forall c :: 0 <= c < |labels| && labels[c].Plate? ==> cur[c] == labels[c]
      decreases left
    {
      var next, changed := FillPass(adj, cur, P);
      if changed == 0 {
        assert next == cur by {
          PassOnlyFills(adj, cur, P);
        }
        return Diverges, cur, steps;
      }
      forall d | 0 <= d < |next| && next[d].Plate?
        ensures next[d].p < P && next[d] in labels
      {
        assert Refill(adj, cur, d, P) == next[d];
      }
      assert next != cur by {
        assert Count(next, Placeholder) < Count(cur, Placeholder);
      }
      cur, left, steps := next, left - changed, steps + 1;
    }
    return Filled, cur, steps;
  }

  /** A pass only turns placeholders into plates, so a pass that fills nothing changes nothing. */
  lemma PassOnlyFills(adj: Adj, labels: seq<Label>, P: nat)
    requires WellFormed(adj) && |labels| == |adj| && Bounded(labels, P)
    requires Count(FillStep(adj, labels, P), Placeholder) == Count(labels, Placeholder)
    ensures FillStep(adj, labels, P) == labels
  {
    var next := FillStep(adj, labels, P);
    if next != labels {
      var c :| 0 <= c < |labels| && next[c] != labels[c];
      assert labels[c] == Placeholder && next[c].Plate?;
      FillCountDrop(labels, next, c);
      assert false;
    }
  }

  /** Replacing placeholders by plates, at least at position c, lowers the placeholder count. */
  lemma {:induction false} FillCountDrop(s: seq<Label>, t: seq<Label>, c: nat)
    requires |s| == |t| && c < |s| && s[c] == Placeholder && t[c].Plate?
    requires forall d :: 0 <= d < |s| ==> t[d] == s[d] || (s[d] == Placeholder && t[d].Plate?)
    ensures Count(t, Placeholder) < Count(s, Placeholder)
    decreases |s|
  {
    var n := |s| - 1;
    if c == n {
      FillCountMono(s[..n], t[..n]);
    } else {
      FillCountDrop(s[..n], t[..n], c);
    }
  }

  lemma {:induction false} FillCountMono(s: seq<Label>, t: seq<Label>)
    requires |s| == |t|
    requires forall d :: 0 <= d < |s| ==> t[d] == s[d] || (s[d] == Placeholder && t[d].Plate?)
    ensures Count(t, Placeholder) <= Count(s, Placeholder)
    decreases |s|
  {
    if s != [] {
      FillCountMono(s[..|s| - 1], t[..|t| - 1]);
    }
  }
}
