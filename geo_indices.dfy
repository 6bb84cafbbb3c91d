/**
 * The result of the plate generator: one direction per surviving plate
 * and, for every cell, the index of its plate's direction, sorted by cell.
 */
module GeoIndices {
  import opened Util
  import opened GeoLabels

  /** Direction index of plate q: the number of surviving plates before it. */
  function Rank(stats: seq<nat>, q: nat): (r: nat)
    requires q <= |stats|
    ensures r + Count(stats[..q], 0) == q
  {
    q - Count(stats[..q], 0)
  }

  lemma RankStep(stats: seq<nat>, q: nat)
    requires q < |stats|
    ensures Rank(stats, q + 1) == Rank(stats, q) + (if stats[q] != 0 then 1 else 0)
  {
    assert stats[..q + 1] == stats[..q] + [stats[q]];
    CountAppend(stats[..q], stats[q], 0);
  }

  /** Surviving plates get increasing direction indices. */
  lemma {:induction false} RankMonotone(stats: seq<nat>, q: nat, r: nat)
    requires q < r <= |stats| && stats[q] != 0
    ensures Rank(stats, q) < Rank(stats, r)
    decreases r - q
  {
    RankStep(stats, q);
    if q + 1 < r {
      RankMonotone2(stats, q + 1, r);
    }
  }

  lemma {:induction false} RankMonotone2(stats: seq<nat>, q: nat, r: nat)
    requires q <= r <= |stats|
    ensures Rank(stats, q) <= Rank(stats, r)
    decreases r - q
  {
    if q < r {
      RankStep(stats, q);
      RankMonotone2(stats, q + 1, r);
    }
  }

  /** The entry a cell contributes when its plate survives. */
  predicate Entry(labels: seq<Label>, stats: seq<nat>, x: (nat, nat))
  {
    x.0 < |labels| && labels[x.0].Plate? && labels[x.0].p < |stats|
    && stats[labels[x.0].p] != 0 && x.1 == Rank(stats, labels[x.0].p)
  }

  /** No two entries name the same cell. */
  predicate DistinctCells(s: seq<(nat, nat)>)
  {
    forall i, j :: 0 <= i < j < |s| ==> s[i].0 != s[j].0
  }

  /** Entries in strictly increasing cell order. */
  predicate ByCell(s: seq<(nat, nat)>)
  {
    forall i, j :: 0 <= i < j < |s| ==> s[i].0 < s[j].0
  }

  /**
   * The loop that builds the plate list: each plate with a nonzero tally
   * gets the next direction, then every cell carrying that plate, in cell
   * order, is listed with that direction's index. The list holds exactly
   * the entries of surviving cells, each cell once, and `directions` is
   * the number of surviving plates.
   */
  method PlateMajor(labels: seq<Label>, stats: seq<nat>) returns (pm: seq<(nat, nat)>, directions: nat)
    ensures directions + Count(stats, 0) == |stats|
    ensures forall x: (nat, nat) :: x in pm <==> Entry(labels, stats, x)
    ensures DistinctCells(pm)
    ensures forall i :: 0 <= i < |pm| ==> pm[i].1 < directions
  {
    pm, directions := [], 0;
    for q := 0 to |stats|
      invariant directions == Rank(stats, q)
      invariant forall x: (nat, nat) :: x in pm <==> Entry(labels, stats, x) && labels[x.0].p < q
      invariant DistinctCells(pm)
      invariant forall i :: 0 <= i < |pm| ==> pm[i].1 < directions
    {
      RankStep(stats, q);
      if stats[q] != 0 {
        directions := directions + 1;
        pm := AppendPlate(labels, stats, q, pm, directions - 1);
      }
    }
    assert stats[..|stats|] == stats;
  }

  /** The inner loop: list every cell of plate q with direction index d. */
  method AppendPlate(labels: seq<Label>, stats: seq<nat>, q: nat, pm: seq<(nat, nat)>, d: nat)
    returns (out: seq<(nat, nat)>)
    requires q < |stats| && stats[q] != 0 && d == Rank(stats, q)
    requires forall x: (nat, nat) :: x in pm <==> Entry(labels, stats, x) && labels[x.0].p < q
    requires DistinctCells(pm) && forall i :: 0 <= i < |pm| ==> pm[i].1 < d + 1
    ensures forall x: (nat, nat) :: x in out <==> Entry(labels, stats, x) && labels[x.0].p < q + 1
    ensures DistinctCells(out) && forall i :: 0 <= i < |out| ==> out[i].1 < d + 1
  {
    out := pm;
    for c := 0 to |labels|
      invariant forall x: (nat, nat) :: x in out <==>
        (Entry(labels, stats, x) && labels[x.0].p < q) || (Entry(labels, stats, x) && labels[x.0].p == q && x.0 < c)
      invariant DistinctCells(out) && forall i :: 0 <= i < |out| ==> out[i].1 < d + 1
    {
      if labels[c] == Plate(q) {
        forall i | 0 <= i < |out|
          ensures out[i].0 != c
        {
          assert out[i] in out;
        }
        out := out + [(c, d)];
      }
    }
  }

  /**
   * The list sorted by cell: the surviving cells' entries in cell order.
   * When every cell survives, entry c is (c, direction of c's plate).
   */
  function CellOrder(labels: seq<Label>, stats: seq<nat>): (r: seq<(nat, nat)>)
    ensures ByCell(r) && forall i :: 0 <= i < |r| ==> r[i].0 < |labels|
    ensures forall x: (nat, nat) :: x in r <==> Entry(labels, stats, x)
    decreases |labels|
  {
    if labels == [] then []
    else
      var n := |labels| - 1;
      var front := CellOrder(labels[..n], stats);
      EntryPrefix(labels, stats);
      var l := labels[n];
      if l.Plate? && l.p < |stats| && stats[l.p] != 0 then front + [(n, Rank(stats, l.p))] else front
  }

  lemma EntryPrefix(labels: seq<Label>, stats: seq<nat>)
    requires labels != []
    ensures forall x: (nat, nat) :: Entry(labels[..|labels| - 1], stats, x) <==> Entry(labels, stats, x) && x.0 < |labels| - 1
  {
  }

  /** Two lists in strictly increasing cell order with the same entries are the same list. */
  lemma {:induction false} ByCellUnique(s: seq<(nat, nat)>, t: seq<(nat, nat)>)
    requires ByCell(s) && ByCell(t)
    requires forall x :: x in s <==> x in t
    ensures s == t
    decreases |s| + |t|
  {
    assert |s| > 0 ==> s[0] in t;
    assert |t| > 0 ==> t[0] in s;
    if s != [] && t != [] {
      var a, b := s[|s| - 1], t[|t| - 1];
      assert a in t && b in s;
      assert a == b by {
        var j :| 0 <= j < |t| && t[j] == a;
        var i :| 0 <= i < |s| && s[i] == b;
        assert j == |t| - 1 || i == |s| - 1;
      }
      var fs, ft := s[..|s| - 1], t[..|t| - 1];
      forall x | x in fs
        ensures x in ft
      {
        assert x in t;
        assert x != b;
      }
      forall x | x in ft
        ensures x in fs
      {
        assert x in s;
        assert x != a;
      }
      ByCellUnique(fs, ft);
      assert s == fs + [a] && t == ft + [b];
    }
  }

  /** A list holds an entry twice when two positions carry it. */
  lemma Twice(s: seq<(nat, nat)>, i: nat, j: nat)
    requires i < j < |s| && s[i] == s[j]
    ensures multiset(s)[s[i]] >= 2
  {
    assert s == s[..j] + [s[j]] + s[j + 1..];
    assert s[i] in s[..j];
  }

  /** Without repeated cells, every entry occurs at most once. */
  lemma {:induction false} OnceEach(s: seq<(nat, nat)>, x: (nat, nat))
    requires DistinctCells(s)
    ensures multiset(s)[x] <= 1
    decreases |s|
  {
    if s != [] {
      var f := s[..|s| - 1];
      assert s == f + [s[|s| - 1]];
      OnceEach(f, x);
      if s[|s| - 1] == x {
        assert x !in f;
      }
    }
  }

  /**
   * What sorting the plate list by cell produces: any rearrangement of it
   * in non-decreasing cell order is exactly the cell-order list, so the
   * unstable sort has only one possible result.
   */
  lemma SortedIsCellOrder(labels: seq<Label>, stats: seq<nat>, pm: seq<(nat, nat)>, s: seq<(nat, nat)>)
    requires DistinctCells(pm) && forall x: (nat, nat) :: x in pm <==> Entry(labels, stats, x)
    requires multiset(s) == multiset(pm)
    requires forall i, j :: 0 <= i < j < |s| ==> s[i].0 <= s[j].0
    ensures s == CellOrder(labels, stats)
  {
    forall x
      ensures x in s <==> x in pm
    {
      assert x in s <==> x in multiset(s);
      assert x in pm <==> x in multiset(pm);
    }
    forall i, j | 0 <= i < j < |s|
      ensures s[i].0 < s[j].0
    {
      if s[i].0 == s[j].0 {
        var a, b := s[i], s[j];
        assert a in pm && b in pm;
        var ia :| 0 <= ia < |pm| && pm[ia] == a;
        var ib :| 0 <= ib < |pm| && pm[ib] == b;
        assert ia == ib;
        Twice(s, i, j);
        OnceEach(pm, a);
        assert false;
      }
    }
    ByCellUnique(s, CellOrder(labels, stats));
  }

  /**
   * When every cell carries a surviving plate, the sorted list has one
   * entry per cell, entry c names cell c, and two cells share a direction
   * exactly when they share a plate; a lower plate has a lower direction.
   */
  lemma FullCellOrder(labels: seq<Label>, stats: seq<nat>)
    requires Live(labels, stats)
    requires Count(labels, Placeholder) == 0
    ensures var r := CellOrder(labels, stats);
      |r| == |labels| && forall c :: 0 <= c < |r| ==> labels[c].Plate? && r[c] == (c, Rank(stats, labels[c].p))
  {
    CountZero(labels, Placeholder);
    var r := CellOrder(labels, stats);
    var t := seq(|labels|, c requires 0 <= c < |labels| => (c, Rank(stats, labels[c].p)));
    forall x | x in t
      ensures x in r
    {
      assert Entry(labels, stats, x);
    }
    forall x | x in r
      ensures x in t
    {
      assert Entry(labels, stats, x);
      assert t[x.0] == x;
    }
    ByCellUnique(r, t);
  }

  /** Directions of cells agree exactly when their plates do, and follow plate order. */
  lemma DirectionsFollowPlates(labels: seq<Label>, stats: seq<nat>, c: nat, d: nat)
    requires Live(labels, stats) && c < |labels| && d < |labels|
    requires labels[c].Plate? && labels[d].Plate?
    ensures Rank(stats, labels[c].p) == Rank(stats, labels[d].p) <==> labels[c] == labels[d]
    ensures labels[c].p < labels[d].p ==> Rank(stats, labels[c].p) < Rank(stats, labels[d].p)
  {
    var q, r := labels[c].p, labels[d].p;
    if q < r {
      RankMonotone(stats, q, r);
    } else if r < q {
      RankMonotone(stats, r, q);
    }
  }

  /** Every direction index below the number of surviving plates belongs to some surviving plate. */
  lemma {:induction false} RankOnto(stats: seq<nat>, m: nat, k: nat)
    requires m <= |stats| && k < Rank(stats, m)
    ensures exists q :: 0 <= q < m && stats[q] != 0 && Rank(stats, q) == k
    decreases m
  {
    RankStep(stats, m - 1);
    if k < Rank(stats, m - 1) {
      RankOnto(stats, m - 1, k);
    } else {
      assert stats[m - 1] != 0 && Rank(stats, m - 1) == k;
    }
  }
}
