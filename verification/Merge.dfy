/** The order in which the walk advances: it is the merge of the tails of the two rows by x, where on a
    tie the upper row goes first. */
module Merge {
  import opened Geometry
  import opened Strip
  import opened Walk

  /** The vertices the path advances to, in order. */
  ghost function Advanced(path: seq<Diagonal>): seq<nat> {
    if |path| < 2 then []
    else [if path[0].lower < path[1].lower then path[1].lower else path[1].upper] + Advanced(path[1..])
  }

  ghost function Count(order: seq<nat>, v: nat): nat {
    if order == [] then 0 else (if order[0] == v then 1 else 0) + Count(order[1..], v)
  }

  /** v may come before w in the merge; vertices below `split` are of the lower row. */
  ghost predicate MayPrecede(points: seq<Point>, split: nat, v: nat, w: nat) {
    && v < |points| && w < |points|
    && (if v < split <= w then points[v].x < points[w].x else points[v].x <= points[w].x)
  }

  ghost predicate Merged(points: seq<Point>, split: nat, order: seq<nat>) {
    forall i, j :: 0 <= i < j < |order| ==> MayPrecede(points, split, order[i], order[j])
  }

  ghost predicate Ascending(points: seq<Point>, from: nat, end: nat)
    requires end <= |points|
  {
    forall k, l :: from <= k < l < end ==> points[k].x < points[l].x
  }

  ghost function IfIn(from: nat, v: nat, end: nat): nat {
    if from < v < end then 1 else 0
  }

  /** The walk from d advances to every remaining vertex of both rows exactly once, and to no other. */
  lemma {:induction false} AdvancesToAll(points: seq<Point>, d: Diagonal, lowerEnd: nat, upperEnd: nat, v: nat)
    requires d.lower < lowerEnd <= |points| && d.upper < upperEnd <= |points|
    ensures Count(Advanced(Walked(points, d, lowerEnd, upperEnd)), v)
         == IfIn(d.lower, v, lowerEnd) + IfIn(d.upper, v, upperEnd)
    decreases lowerEnd - d.lower + upperEnd - d.upper
  {
    if d.lower + 1 < lowerEnd || d.upper + 1 < upperEnd {
      var e := NextDiagonal(points, d, lowerEnd, upperEnd);
      AdvancesToAll(points, e, lowerEnd, upperEnd, v);
      var path := Walked(points, d, lowerEnd, upperEnd);
      assert path[1..] == Walked(points, e, lowerEnd, upperEnd) && path[1] == e;
      CountFirst(if d.lower < e.lower then e.lower else e.upper, Advanced(path[1..]), v);
    }
  }

  lemma CountFirst(first: nat, later: seq<nat>, v: nat)
    ensures Count([first] + later, v) == (if first == v then 1 else 0) + Count(later, v)
  {
    assert ([first] + later)[1..] == later;
  }

  lemma {:induction false} MemberCounts(order: seq<nat>, v: nat)
    requires v in order
    ensures Count(order, v) > 0
  {
    if order[0] != v {
      MemberCounts(order[1..], v);
    }
  }

  /** What the walk advances to first may precede every vertex still to come. */
  lemma FirstMayPrecede(points: seq<Point>, d: Diagonal, lowerEnd: nat, upperEnd: nat, w: nat)
    requires d.lower < lowerEnd <= d.upper < upperEnd <= |points|
    requires d.lower + 1 < lowerEnd || d.upper + 1 < upperEnd
    requires Ascending(points, d.lower, lowerEnd) && Ascending(points, d.upper, upperEnd)
    requires var e := NextDiagonal(points, d, lowerEnd, upperEnd); e.lower < w < lowerEnd || e.upper < w < upperEnd
    ensures var e := NextDiagonal(points, d, lowerEnd, upperEnd);
            MayPrecede(points, lowerEnd, if d.lower < e.lower then e.lower else e.upper, w)
  {
  }

  lemma {:induction false} WalkedMerges(points: seq<Point>, d: Diagonal, lowerEnd: nat, upperEnd: nat)
    requires d.lower < lowerEnd <= d.upper < upperEnd <= |points|
    requires Ascending(points, d.lower, lowerEnd) && Ascending(points, d.upper, upperEnd)
    ensures Merged(points, lowerEnd, Advanced(Walked(points, d, lowerEnd, upperEnd)))
    decreases lowerEnd - d.lower + upperEnd - d.upper
  {
    if d.lower + 1 < lowerEnd || d.upper + 1 < upperEnd {
      var e := NextDiagonal(points, d, lowerEnd, upperEnd);
      WalkedMerges(points, e, lowerEnd, upperEnd);
      var path := Walked(points, d, lowerEnd, upperEnd);
      assert path[1..] == Walked(points, e, lowerEnd, upperEnd) && path[1] == e;
      var first := if d.lower < e.lower then e.lower else e.upper;
      var later := Advanced(Walked(points, e, lowerEnd, upperEnd));
      forall w | w in later
        ensures MayPrecede(points, lowerEnd, first, w)
      {
        MemberCounts(later, w);
        AdvancesToAll(points, e, lowerEnd, upperEnd, w);
        FirstMayPrecede(points, d, lowerEnd, upperEnd, w);
      }
      PrependMerged(points, lowerEnd, first, later);
    }
  }

  lemma PrependMerged(points: seq<Point>, split: nat, first: nat, later: seq<nat>)
    requires Merged(points, split, later)
    requires forall w :: w in later ==> MayPrecede(points, split, first, w)
    ensures Merged(points, split, [first] + later)
  {
    var order := [first] + later;
    forall i, j | 0 <= i < j < |order|
      ensures MayPrecede(points, split, order[i], order[j])
    {
      if i > 0 {
        assert MayPrecede(points, split, later[i - 1], later[j - 1]);
      }
    }
  }

  /** The strip walk is a sorted merge of the two row tails. */
  lemma StripWalkIsMerge(points: seq<Point>, lower: Row, upper: Row)
    requires ValidRow(points, lower) && ValidRow(points, upper) && lower.end <= upper.begin
    requires Ascending(points, lower.begin, lower.end) && Ascending(points, upper.begin, upper.end)
    ensures Merged(points, lower.end, Advanced(StripPath(points, lower, upper)))
    ensures forall v :: Count(Advanced(StripPath(points, lower, upper)), v)
                     == IfIn(lower.begin, v, lower.end) + IfIn(upper.begin, v, upper.end)
  {
    WalkedMerges(points, Diagonal(lower.begin, upper.begin), lower.end, upper.end);
    forall v
      ensures Count(Advanced(StripPath(points, lower, upper)), v)
           == IfIn(lower.begin, v, lower.end) + IfIn(upper.begin, v, upper.end)
    {
      AdvancesToAll(points, Diagonal(lower.begin, upper.begin), lower.end, upper.end, v);
    }
  }
}
