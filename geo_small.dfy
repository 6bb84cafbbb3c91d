/**
 * Removal of small plates: a plate whose tally is under half a percent
 * of the map's area loses all its cells to the placeholder.
 */
module GeoSmall {
  import opened Util
  import opened GeoLabels

  /** A tally under 0.5% of the area (the source compares in f32). */
  predicate Small(tally: nat, area: nat)
  {
    200 * tally < area
  }

  /** A cell's label after the small-plate pass. */
  function Cleared(l: Label, stats: seq<nat>, area: nat): (r: Label)
    ensures r == l || r == Placeholder
    ensures r.Placeholder? <==> l.Placeholder? || (l.p < |stats| && Small(stats[l.p], area))
  {
    if l.Plate? && l.p < |stats| && Small(stats[l.p], area) then Placeholder else l
  }

  /**
   * The inner loop over the plates for cell c: the plate the cell belongs
   * to, if small, gives the cell up to the placeholder and drops its tally.
   */
  method ClearCell(cur: seq<Label>, st: seq<nat>, c: nat, area: nat)
    returns (next: seq<Label>, nst: seq<nat>, added: nat)
    requires Tallied(cur, st) && c < |cur|
    ensures next == cur[c := Cleared(cur[c], st, area)] && Tallied(next, nst)
    ensures |nst| == |st| && forall q :: 0 <= q < |st| ==> nst[q] + (if next[c] != cur[c] && q == cur[c].p then 1 else 0) == st[q]
    ensures added == (if next[c] != cur[c] then 1 else 0)
    ensures Count(next, Placeholder) == Count(cur, Placeholder) + added
  {
    next, nst, added := cur, st, 0;
    for q := 0 to |st|
      invariant Tallied(next, nst) && |nst| == |st|
      invariant next == cur[c := if cur[c].Plate? && cur[c].p < q then Cleared(cur[c], st, area) else cur[c]]
      invariant forall r :: 0 <= r < |st| ==> nst[r] + (if next[c] != cur[c] && r == cur[c].p then 1 else 0) == st[r]
      invariant added == (if next[c] != cur[c] then 1 else 0)
      invariant Count(next, Placeholder) == Count(cur, Placeholder) + added
    {
      if next[c] == Plate(q) && Small(nst[q], area) {
        TallyRemove(next, nst, c);
        next := next[c := Placeholder];
        added := added + 1;
        nst := nst[q := nst[q] - 1];
      }
    }
  }

  /**
   * The small-plate loop of `generate_plates`: for every cell, every plate
   * whose label the cell carries and whose tally is small turns the cell
   * into the placeholder, counts it in `fill` and drops its own tally.
   * Small plates end with no cells and a zero tally, other plates keep
   * their cells and tally, and `fill` counts the new placeholders.
   */
  method RemoveSmallPlates(labels: seq<Label>, stats: seq<nat>, area: nat)
    returns (cur: seq<Label>, st: seq<nat>, fill: nat)
    requires Tallied(labels, stats)
    ensures |cur| == |labels| && |st| == |stats| && Tallied(cur, st)
    ensures forall c :: 0 <= c < |labels| ==> cur[c] == Cleared(labels[c], stats, area)
    ensures forall q :: 0 <= q < |stats| ==> st[q] == if Small(stats[q], area) then 0 else stats[q]
    ensures fill + Count(labels, Placeholder) == Count(cur, Placeholder)
  {
    var n, P := |labels|, |stats|;
    cur, st, fill := labels, stats, 0;
    for c := 0 to n
      invariant |cur| == n && |st| == P && Tallied(cur, st)
      invariant forall d :: 0 <= d < c ==> cur[d] == Cleared(labels[d], stats, area)
      invariant forall d :: c <= d < n ==> cur[d] == labels[d]
      invariant forall q :: 0 <= q < P ==> st[q] <= stats[q] && (st[q] != stats[q] ==> Small(stats[q], area))
      invariant fill + Count(labels, Placeholder) == Count(cur, Placeholder)
    {
      var added;
      assert Cleared(cur[c], st, area) == Cleared(labels[c], stats, area);
      cur, st, added := ClearCell(cur, st, c, area);
      fill := fill + added;
    }
    forall q | 0 <= q < P && Small(stats[q], area)
      ensures st[q] == 0
    {
      if st[q] != 0 {
        CountZero(cur, Plate(q));
        assert false;
      }
    }
  }
}
