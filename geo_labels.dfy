/**
 * The plate tags that the geological generator writes into the cells'
 * terrain while it builds plates. Plate p is tagged with its own Debug
 * colour and a removed cell with the Water placeholder; here the tags are
 * a separate label per cell.
 */
module GeoLabels {
  import opened Util

  /** A cell of plate p, or a placeholder cell waiting to be refilled. */
  datatype Label = Plate(p: nat) | Placeholder

  /**
   * The plate index found by scanning the plate list for a label's terrain
   * type: the plate itself, or 0 (the scan's default) for the placeholder,
   * which no plate carries.
   */
  function PlateOf(l: Label): (q: nat)
    ensures l.Plate? ==> q == l.p
    ensures l.Placeholder? ==> q == 0
  {
    match l
    case Plate(p) => p
    case Placeholder => 0
  }

  /** Every plate label names one of the plates, and each plate's tally is its number of cells. */
  predicate Tallied(labels: seq<Label>, stats: seq<nat>)
  {
    (forall c :: 0 <= c < |labels| && labels[c].Plate? ==> labels[c].p < |stats|)
    && forall q :: 0 <= q < |stats| ==> stats[q] == Count(labels, Plate(q))
  }

  /** Every plate label names one of the first P plates. */
  predicate Bounded(labels: seq<Label>, P: nat)
  {
    forall c :: 0 <= c < |labels| && labels[c].Plate? ==> labels[c].p < P
  }

  /** Every plate that labels some cell still has a nonzero tally. */
  predicate Live(labels: seq<Label>, stats: seq<nat>)
  {
    forall c :: 0 <= c < |labels| && labels[c].Plate? ==> labels[c].p < |stats| && stats[labels[c].p] != 0
  }

  /** Every plate with a nonzero tally labels some cell. */
  predicate Occupied(labels: seq<Label>, stats: seq<nat>)
  {
    forall q :: 0 <= q < |stats| && stats[q] != 0 ==> exists c :: 0 <= c < |labels| && labels[c] == Plate(q)
  }

  /** With exact tallies, the tallies and the placeholders together account for every cell. */
  lemma {:induction false} StatsAccount(labels: seq<Label>, stats: seq<nat>)
    requires Tallied(labels, stats)
    ensures Sum(stats) + Count(labels, Placeholder) == |labels|
    decreases |labels|
  {
    if labels != [] {
      var s := labels[..|labels| - 1];
      var l := labels[|labels| - 1];
      if l.Plate? {
        var q := l.p;
        assert q < |stats|;
        assert stats[q] >= 1;
        var st := stats[q := stats[q] - 1];
        forall r | 0 <= r < |st|
          ensures st[r] == Count(s, Plate(r))
        {
        }
        assert Tallied(s, st);
        StatsAccount(s, st);
        SumUpdate(stats, q, stats[q] - 1);
      } else {
        forall r | 0 <= r < |stats|
          ensures stats[r] == Count(s, Plate(r))
        {
        }
        StatsAccount(s, stats);
      }
    } else {
      assert stats == seq(|stats|, _ => 0);
      SumZeros(|stats|);
    }
  }

  /** Exact tallies make a plate live exactly when it labels some cell. */
  lemma TalliedLive(labels: seq<Label>, stats: seq<nat>)
    requires Tallied(labels, stats)
    ensures Live(labels, stats) && Occupied(labels, stats)
  {
    forall c | 0 <= c < |labels| && labels[c].Plate?
      ensures stats[labels[c].p] != 0
    {
      CountZero(labels, labels[c]);
    }
    forall q | 0 <= q < |stats| && stats[q] != 0
      ensures exists c :: 0 <= c < |labels| && labels[c] == Plate(q)
    {
      CountZero(labels, Plate(q));
    }
  }

  /** Turning one plate cell into a placeholder keeps the tallies exact once that plate's tally drops by one. */
  lemma TallyRemove(labels: seq<Label>, stats: seq<nat>, c: nat)
    requires Tallied(labels, stats) && c < |labels| && labels[c].Plate?
    ensures var q := labels[c].p;
      stats[q] >= 1 && Tallied(labels[c := Placeholder], stats[q := stats[q] - 1])
    ensures Count(labels[c := Placeholder], Placeholder) == Count(labels, Placeholder) + 1
  {
    var q := labels[c].p;
    CountZero(labels, Plate(q));
    forall r | 0 <= r < |stats|
      ensures Count(labels[c := Placeholder], Plate(r)) == Count(labels, Plate(r)) - (if r == q then 1 else 0)
    {
      CountUpdate(labels, c, Placeholder, Plate(r));
    }
    CountUpdate(labels, c, Placeholder, Placeholder);
  }

  /**
   * The scan over the plate list that finds the plate index of a terrain
   * type: the first plate carrying it, 0 when none does.
   */
  method FindPlate(l: Label, plates: nat) returns (q: nat)
    requires l.Plate? ==> l.p < plates
    ensures q == PlateOf(l)
  {
    q := 0;
    for i := 0 to plates
      invariant q == if l.Plate? && l.p < i then l.p else 0
    {
      if l == Plate(i) {
        q := i;
        break;
      }
    }
  }
}
