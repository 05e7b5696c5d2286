/**
 * The sweep that plans how a packed variable is cut into pieces
 * (PackedVarRef::splitPlan in V3SplitVar.cpp).  Every write reference adds a
 * start point at its lsb and an end point one past its msb; optional extra
 * regions add theirs; the points are sorted, and a sweep emits one piece for
 * every gap between consecutive points that some region covers.
 *
 * Regions are half-open here: Region(start, end) holds the bits
 * start <= b < end, i.e. [lsb, msb] of the source is Region(lsb, msb + 1).
 */
module SplitPlan {

  /** A bit position and whether it ends a region (false: it starts one). */
  datatype Point = Point(pos: int, isEnd: bool)

  datatype Region = Region(start: int, end: int)

  /** One planned piece; SplitNewVar in the source. */
  datatype SplitNewVar = SplitNewVar(lsb: int, bitwidth: int)

  function Msb(p: SplitNewVar): int
  {
    p.lsb + p.bitwidth - 1
  }

  predicate Contains(p: SplitNewVar, b: int)
  {
    p.lsb <= b < p.lsb + p.bitwidth
  }

  predicate WellFormed(rs: seq<Region>)
  {
    forall k | 0 <= k < |rs| :: rs[k].start <= rs[k].end
  }

  /** Some region holds bit b. */
  predicate Covered(rs: seq<Region>, b: int)
  {
    exists k | 0 <= k < |rs| :: rs[k].start <= b < rs[k].end
  }

  /** Some piece holds bit b. */
  predicate InPlan(plan: seq<SplitNewVar>, b: int)
  {
    exists m | 0 <= m < |plan| :: Contains(plan[m], b)
  }

  /** The points the source pushes: a start and an end per region, in order. */
  function Points(rs: seq<Region>): (ps: seq<Point>)
    ensures |ps| == 2 * |rs|
    ensures forall k | 0 <= k < |rs| ::
      ps[2 * k] == Point(rs[k].start, false) && ps[2 * k + 1] == Point(rs[k].end, true)
  {
    if rs == [] then []
    else [Point(rs[0].start, false), Point(rs[0].end, true)] + Points(rs[1..])
  }

  // ---------------------------------------------------------------------
  // Sorting (std::sort with SortByFirst)

  /** SortByFirst: by position, and at one position a start before an end. */
  predicate PointLe(a: Point, b: Point)
  {
    a.pos < b.pos || (a.pos == b.pos && (!a.isEnd || b.isEnd))
  }

  predicate SortedPoints(ps: seq<Point>)
  {
    forall i, j | 0 <= i < j < |ps| :: PointLe(ps[i], ps[j])
  }

  function InsertPoint(x: Point, ps: seq<Point>): (r: seq<Point>)
    ensures multiset(r) == multiset(ps) + multiset{x}
  {
    if ps == [] then [x]
    else if PointLe(x, ps[0]) then [x] + ps
    else
      assert ps == [ps[0]] + ps[1..];
      [ps[0]] + InsertPoint(x, ps[1..])
  }

  lemma SortedCons(x: Point, t: seq<Point>)
    requires SortedPoints(t)
    requires forall k | 0 <= k < |t| :: PointLe(x, t[k])
    ensures SortedPoints([x] + t)
  {
    var r := [x] + t;
    forall i, j | 0 <= i < j < |r|
      ensures PointLe(r[i], r[j])
    {
      assert r[j] == t[j - 1];
      if i > 0 {
        assert r[i] == t[i - 1];
      }
    }
  }

  lemma {:induction false} InsertSorted(x: Point, ps: seq<Point>)
    requires SortedPoints(ps)
    ensures SortedPoints(InsertPoint(x, ps))
  {
    if ps == [] {
    } else if PointLe(x, ps[0]) {
      SortedCons(x, ps);
    } else {
      var u := ps[1..];
      var t := InsertPoint(x, u);
      assert SortedPoints(u) by {
        forall i, j | 0 <= i < j < |u| ensures PointLe(u[i], u[j]) {
          assert u[i] == ps[i + 1] && u[j] == ps[j + 1];
        }
      }
      InsertSorted(x, u);
      forall k | 0 <= k < |t|
        ensures PointLe(ps[0], t[k])
      {
        assert t[k] in multiset(u) + multiset{x};
        if t[k] != x {
          assert t[k] in u;
          var j :| 0 <= j < |u| && u[j] == t[k];
          assert u[j] == ps[j + 1];
        }
      }
      SortedCons(ps[0], t);
    }
  }

  /**
   * An insertion sort standing for std::sort.  Points with equal keys are
   * equal values, so every sort of the same points yields this sequence
   * (SortedUnique).
   */
  function SortPoints(ps: seq<Point>): (r: seq<Point>)
    ensures SortedPoints(r)
    ensures multiset(r) == multiset(ps)
  {
    if ps == [] then []
    else
      assert ps == [ps[0]] + ps[1..];
      var t := SortPoints(ps[1..]);
      InsertSorted(ps[0], t);
      InsertPoint(ps[0], t)
  }

  lemma {:induction false} SortedUnique(a: seq<Point>, b: seq<Point>)
    requires SortedPoints(a) && SortedPoints(b) && multiset(a) == multiset(b)
    ensures a == b
    decreases |a|
  {
    if a != [] {
      assert a[0] in multiset(b);
      assert b[0] in multiset(a);
      assert a[0] == b[0] by {
        var i :| 0 <= i < |b| && b[i] == a[0];
        var j :| 0 <= j < |a| && a[j] == b[0];
        assert i > 0 ==> PointLe(b[0], b[i]);
        assert j > 0 ==> PointLe(a[0], a[j]);
      }
      var a1, b1 := a[1..], b[1..];
      assert a == [a[0]] + a1;
      assert b == [b[0]] + b1;
      assert multiset(a) == multiset{a[0]} + multiset(a1);
      assert multiset(b) == multiset{a[0]} + multiset(b1);
      assert multiset(a1) == multiset(a) - multiset{a[0]};
      assert multiset(b1) == multiset(b) - multiset{a[0]};
      assert SortedPoints(a1) by {
        forall i, j | 0 <= i < j < |a1| ensures PointLe(a1[i], a1[j]) {
          assert a1[i] == a[i + 1] && a1[j] == a[j + 1];
        }
      }
      assert SortedPoints(b1) by {
        forall i, j | 0 <= i < j < |b1| ensures PointLe(b1[i], b1[j]) {
          assert b1[i] == b[i + 1] && b1[j] == b[j + 1];
        }
      }
      SortedUnique(a1, b1);
    }
  }

  // ---------------------------------------------------------------------
  // Reference counts

  function Sign(p: Point): int
  {
    if p.isEnd then -1 else 1
  }

  /** The refcount after passing the given points: starts minus ends. */
  function Count(ps: seq<Point>): int
  {
    if ps == [] then 0 else Sign(ps[0]) + Count(ps[1..])
  }

  /** Starts minus ends among the points at or below bit b. */
  function Weight(ps: seq<Point>, b: int): int
  {
    if ps == [] then 0
    else (if ps[0].pos <= b then Sign(ps[0]) else 0) + Weight(ps[1..], b)
  }

  /** The number of regions that hold bit b. */
  function Cover(rs: seq<Region>, b: int): nat
  {
    if rs == [] then 0
    else (if rs[0].start <= b < rs[0].end then 1 else 0) + Cover(rs[1..], b)
  }

  lemma {:induction false} CountSnoc(s: seq<Point>, x: Point)
    ensures Count(s + [x]) == Count(s) + Sign(x)
  {
    if s != [] {
      assert (s + [x])[0] == s[0];
      assert (s + [x])[1..] == s[1..] + [x];
      CountSnoc(s[1..], x);
    }
  }

  lemma {:induction false} WeightAppend(s: seq<Point>, t: seq<Point>, b: int)
    ensures Weight(s + t, b) == Weight(s, b) + Weight(t, b)
  {
    if s != [] {
      assert (s + t)[0] == s[0];
      assert (s + t)[1..] == s[1..] + t;
      WeightAppend(s[1..], t, b);
    } else {
      assert s + t == t;
    }
  }

  lemma {:induction false} WeightBelow(s: seq<Point>, b: int)
    requires forall k | 0 <= k < |s| :: s[k].pos <= b
    ensures Weight(s, b) == Count(s)
  {
    if s != [] {
      WeightBelow(s[1..], b);
    }
  }

  lemma {:induction false} WeightAbove(s: seq<Point>, b: int)
    requires forall k | 0 <= k < |s| :: s[k].pos > b
    ensures Weight(s, b) == 0
  {
    if s != [] {
      WeightAbove(s[1..], b);
    }
  }

  lemma {:induction false} WeightInsert(x: Point, ps: seq<Point>, b: int)
    ensures Weight(InsertPoint(x, ps), b) == Weight([x], b) + Weight(ps, b)
  {
    if ps != [] && !PointLe(x, ps[0]) {
      WeightInsert(x, ps[1..], b);
    }
  }

  /** Sorting does not change how many regions are open at any bit. */
  lemma {:induction false} WeightSort(ps: seq<Point>, b: int)
    ensures Weight(SortPoints(ps), b) == Weight(ps, b)
  {
    if ps != [] {
      WeightSort(ps[1..], b);
      WeightInsert(ps[0], SortPoints(ps[1..]), b);
    }
  }

  /** Counting the points at or below b counts the regions that hold b. */
  lemma {:induction false} WeightPoints(rs: seq<Region>, b: int)
    requires WellFormed(rs)
    ensures Weight(Points(rs), b) == Cover(rs, b)
  {
    if rs != [] {
      var p0, p1 := Point(rs[0].start, false), Point(rs[0].end, true);
      assert Points(rs) == [p0] + ([p1] + Points(rs[1..]));
      WeightAppend([p0], [p1] + Points(rs[1..]), b);
      WeightAppend([p1], Points(rs[1..]), b);
      WeightPoints(rs[1..], b);
    }
  }

  lemma {:induction false} CoverPositive(rs: seq<Region>, b: int)
    ensures Cover(rs, b) > 0 <==> Covered(rs, b)
  {
    if rs != [] {
      CoverPositive(rs[1..], b);
      if Covered(rs[1..], b) {
        var k :| 0 <= k < |rs[1..]| && rs[1..][k].start <= b < rs[1..][k].end;
        assert rs[k + 1] == rs[1..][k];
      }
      if Covered(rs, b) && !(rs[0].start <= b < rs[0].end) {
        var k :| 0 <= k < |rs| && rs[k].start <= b < rs[k].end;
        assert rs[1..][k - 1] == rs[k];
      }
    }
  }

  /**
   * Between two consecutive sorted points the refcount equals the number
   * of regions holding any bit of that gap.
   */
  /** On sorted points, the weight at a bit inside a gap is the refcount there. */
  lemma GapWeight(ps: seq<Point>, i: nat, b: int)
    requires SortedPoints(ps) && i + 1 < |ps|
    requires ps[i].pos <= b < ps[i + 1].pos
    ensures Weight(ps, b) == Count(ps[..i + 1])
  {
    var lo, hi := ps[..i + 1], ps[i + 1..];
    assert ps == lo + hi;
    WeightAppend(lo, hi, b);
    forall k | 0 <= k < |lo| ensures lo[k].pos <= b {
      assert lo[k] == ps[k];
      assert k < i ==> PointLe(ps[k], ps[i]);
    }
    WeightBelow(lo, b);
    forall k | 0 <= k < |hi| ensures hi[k].pos > b {
      assert hi[k] == ps[i + 1 + k];
      assert k > 0 ==> PointLe(ps[i + 1], ps[i + 1 + k]);
    }
    WeightAbove(hi, b);
  }

  /**
   * Between two consecutive sorted points the refcount equals the number
   * of regions holding any bit of that gap.
   */
  lemma RefcountIsCover(rs: seq<Region>, i: nat, b: int)
    requires WellFormed(rs)
    requires i + 1 < |SortPoints(Points(rs))|
    requires SortPoints(Points(rs))[i].pos <= b < SortPoints(Points(rs))[i + 1].pos
    ensures Count(SortPoints(Points(rs))[..i + 1]) == Cover(rs, b)
  {
    GapWeight(SortPoints(Points(rs)), i, b);
    WeightSort(Points(rs), b);
    WeightPoints(rs, b);
  }

  // ---------------------------------------------------------------------
  // The sweep

  /** What the sweep emits for the gap after the point at index i. */
  function PieceAt(ps: seq<Point>, i: nat): seq<SplitNewVar>
    requires i + 1 < |ps|
  {
    var bitwidth := ps[i + 1].pos - ps[i].pos;
    if bitwidth == 0 || Count(ps[..i + 1]) == 0 then [] else [SplitNewVar(ps[i].pos, bitwidth)]
  }

  /** The pieces emitted for the gaps after the first n points. */
  function Sweep(ps: seq<Point>, n: nat): seq<SplitNewVar>
    requires n < |ps| || n == 0
  {
    if n == 0 then [] else Sweep(ps, n - 1) + PieceAt(ps, n - 1)
  }

  function SweepAll(ps: seq<Point>): seq<SplitNewVar>
  {
    if ps == [] then [] else Sweep(ps, |ps| - 1)
  }

  /** The plan for a list of regions. */
  function PlanOf(rs: seq<Region>): seq<SplitNewVar>
  {
    SweepAll(SortPoints(Points(rs)))
  }

  /** Piece j ends at or before piece k starts whenever j < k. */
  predicate Ascending(plan: seq<SplitNewVar>)
  {
    forall j, k | 0 <= j < k < |plan| :: plan[j].lsb + plan[j].bitwidth <= plan[k].lsb
  }

  /** The piece is the gap after sorted point i, with a nonzero refcount. */
  predicate FromGap(ps: seq<Point>, p: SplitNewVar, i: nat)
  {
    i + 1 < |ps| && p == SplitNewVar(ps[i].pos, ps[i + 1].pos - ps[i].pos) && Count(ps[..i + 1]) != 0
  }

  predicate IsGap(ps: seq<Point>, p: SplitNewVar)
  {
    exists i: nat | i + 1 < |ps| :: FromGap(ps, p, i)
  }

  lemma SweepStep(ps: seq<Point>, n: nat)
    requires 0 < n < |ps|
    ensures PieceAt(ps, n - 1) == [] ==> Sweep(ps, n) == Sweep(ps, n - 1)
    ensures PieceAt(ps, n - 1) != [] ==>
      Sweep(ps, n) == Sweep(ps, n - 1) + [SplitNewVar(ps[n - 1].pos, ps[n].pos - ps[n - 1].pos)]
      && FromGap(ps, SplitNewVar(ps[n - 1].pos, ps[n].pos - ps[n - 1].pos), n - 1)
  {
  }

  /** Every piece is nonempty and ends at or before the n-th point. */
  lemma {:induction false} SweepBounds(ps: seq<Point>, n: nat)
    requires SortedPoints(ps) && n < |ps|
    ensures forall m | 0 <= m < |Sweep(ps, n)| ::
      Sweep(ps, n)[m].bitwidth > 0 && Sweep(ps, n)[m].lsb + Sweep(ps, n)[m].bitwidth <= ps[n].pos
  {
    if n > 0 {
      SweepBounds(ps, n - 1);
      SweepStep(ps, n);
      assert PointLe(ps[n - 1], ps[n]);
      var prev, plan := Sweep(ps, n - 1), Sweep(ps, n);
      forall m | 0 <= m < |plan|
        ensures plan[m].bitwidth > 0 && plan[m].lsb + plan[m].bitwidth <= ps[n].pos
      {
        if m < |prev| {
          assert plan[m] == prev[m];
        }
      }
    }
  }

  lemma {:induction false} SweepAscending(ps: seq<Point>, n: nat)
    requires SortedPoints(ps) && n < |ps|
    ensures Ascending(Sweep(ps, n))
  {
    if n > 0 {
      SweepAscending(ps, n - 1);
      SweepBounds(ps, n - 1);
      SweepStep(ps, n);
      var prev, plan := Sweep(ps, n - 1), Sweep(ps, n);
      if PieceAt(ps, n - 1) != [] {
        forall j, k | 0 <= j < k < |plan|
          ensures plan[j].lsb + plan[j].bitwidth <= plan[k].lsb
        {
          assert plan[j] == prev[j];
          if k < |prev| {
            assert plan[k] == prev[k];
          }
        }
      }
    }
  }

  lemma {:induction false} SweepFromGap(ps: seq<Point>, n: nat)
    requires n < |ps|
    ensures forall m | 0 <= m < |Sweep(ps, n)| :: IsGap(ps, Sweep(ps, n)[m])
  {
    if n > 0 {
      SweepFromGap(ps, n - 1);
      SweepStep(ps, n);
      var prev, plan := Sweep(ps, n - 1), Sweep(ps, n);
      forall m | 0 <= m < |plan|
        ensures IsGap(ps, plan[m])
      {
        if m < |prev| {
          assert plan[m] == prev[m];
        } else {
          assert FromGap(ps, plan[m], n - 1);
        }
      }
    }
  }

  lemma SweepShape(ps: seq<Point>, n: nat)
    requires SortedPoints(ps) && n < |ps|
    ensures Ascending(Sweep(ps, n))
    ensures forall m | 0 <= m < |Sweep(ps, n)| ::
      Sweep(ps, n)[m].bitwidth > 0 && Sweep(ps, n)[m].lsb + Sweep(ps, n)[m].bitwidth <= ps[n].pos
    ensures forall m | 0 <= m < |Sweep(ps, n)| :: IsGap(ps, Sweep(ps, n)[m])
  {
    SweepBounds(ps, n);
    SweepAscending(ps, n);
    SweepFromGap(ps, n);
  }

  lemma {:induction false} SweepComplete(ps: seq<Point>, n: nat, i: nat)
    requires n < |ps| && i < n
    requires ps[i + 1].pos != ps[i].pos && Count(ps[..i + 1]) != 0
    ensures SplitNewVar(ps[i].pos, ps[i + 1].pos - ps[i].pos) in Sweep(ps, n)
  {
    if i < n - 1 {
      SweepComplete(ps, n - 1, i);
    }
  }

  /** The pieces of any plan are ascending, disjoint and nonempty. */
  lemma PlanShape(rs: seq<Region>)
    ensures Ascending(PlanOf(rs))
    ensures forall m | 0 <= m < |PlanOf(rs)| :: PlanOf(rs)[m].bitwidth > 0
  {
    var ps := SortPoints(Points(rs));
    if ps != [] {
      SweepShape(ps, |ps| - 1);
    }
  }

  lemma PlanPieceFromGap(rs: seq<Region>, m: nat) returns (i: nat)
    requires m < |PlanOf(rs)|
    ensures FromGap(SortPoints(Points(rs)), PlanOf(rs)[m], i)
  {
    var ps := SortPoints(Points(rs));
    SweepShape(ps, |ps| - 1);
    i :| FromGap(ps, PlanOf(rs)[m], i);
  }

  lemma PointsOfRegion(rs: seq<Region>, k: nat)
    requires k < |rs|
    ensures Point(rs[k].start, false) in SortPoints(Points(rs))
    ensures Point(rs[k].end, true) in SortPoints(Points(rs))
  {
    var ps := Points(rs);
    assert ps[2 * k] in multiset(ps) && ps[2 * k + 1] in multiset(ps);
  }

  /** A point lies at or before a gap, or at or after its end. */
  lemma OutsideGap(ps: seq<Point>, i: nat, x: Point)
    requires SortedPoints(ps) && i + 1 < |ps| && x in ps
    ensures x.pos <= ps[i].pos || ps[i + 1].pos <= x.pos
  {
    var j :| 0 <= j < |ps| && ps[j] == x;
    if j <= i {
      if j < i { assert PointLe(ps[j], ps[i]); }
    } else {
      if j > i + 1 { assert PointLe(ps[i + 1], ps[j]); }
    }
  }

  lemma FindGap(ps: seq<Point>, b: int, j0: nat, j1: nat) returns (i: nat)
    requires SortedPoints(ps) && j0 < |ps| && j1 < |ps|
    requires ps[j0].pos <= b < ps[j1].pos
    ensures i + 1 < |ps| && ps[i].pos <= b < ps[i + 1].pos
    decreases j1 - j0
  {
    if j1 <= j0 {
      assert false;
    }
    if ps[j0 + 1].pos > b {
      i := j0;
    } else {
      i := FindGap(ps, b, j0 + 1, j1);
    }
  }

  lemma IndexOf<T>(s: seq<T>, x: T) returns (m: nat)
    requires x in s
    ensures m < |s| && s[m] == x
  {
    m :| 0 <= m < |s| && s[m] == x;
  }

  lemma PlanSound(rs: seq<Region>, b: int)
    requires WellFormed(rs) && InPlan(PlanOf(rs), b)
    ensures Covered(rs, b)
  {
    var plan := PlanOf(rs);
    var m :| 0 <= m < |plan| && Contains(plan[m], b);
    var i := PlanPieceFromGap(rs, m);
    RefcountIsCover(rs, i, b);
    CoverPositive(rs, b);
  }

  lemma GapInSweep(ps: seq<Point>, i: nat, b: int)
    requires i + 1 < |ps| && ps[i].pos <= b < ps[i + 1].pos && Count(ps[..i + 1]) != 0
    ensures InPlan(SweepAll(ps), b)
  {
    SweepComplete(ps, |ps| - 1, i);
    var m := IndexOf(SweepAll(ps), SplitNewVar(ps[i].pos, ps[i + 1].pos - ps[i].pos));
    assert Contains(SweepAll(ps)[m], b);
  }

  lemma PlanComplete(rs: seq<Region>, b: int)
    requires WellFormed(rs) && Covered(rs, b)
    ensures InPlan(PlanOf(rs), b)
  {
    var ps := SortPoints(Points(rs));
    var k :| 0 <= k < |rs| && rs[k].start <= b < rs[k].end;
    PointsOfRegion(rs, k);
    var j0 := IndexOf(ps, Point(rs[k].start, false));
    var j1 := IndexOf(ps, Point(rs[k].end, true));
    var i := FindGap(ps, b, j0, j1);
    RefcountIsCover(rs, i, b);
    CoverPositive(rs, b);
    GapInSweep(ps, i, b);
  }

  /**
   * The central property: a bit is in some piece exactly when some region
   * holds it.
   */
  lemma PlanCoversExactly(rs: seq<Region>, b: int)
    requires WellFormed(rs)
    ensures InPlan(PlanOf(rs), b) <==> Covered(rs, b)
  {
    if InPlan(PlanOf(rs), b) {
      PlanSound(rs, b);
    }
    if Covered(rs, b) {
      PlanComplete(rs, b);
    }
  }

  /**
   * No piece boundary falls strictly inside a region: each piece lies wholly
   * inside it or wholly outside it.
   */
  lemma PieceInsideOrOutside(rs: seq<Region>, k: nat, m: nat)
    requires WellFormed(rs) && k < |rs| && m < |PlanOf(rs)|
    ensures var p := PlanOf(rs)[m];
      (rs[k].start <= p.lsb && p.lsb + p.bitwidth <= rs[k].end)
      || p.lsb + p.bitwidth <= rs[k].start || rs[k].end <= p.lsb
  {
    var ps := SortPoints(Points(rs));
    var i := PlanPieceFromGap(rs, m);
    PointsOfRegion(rs, k);
    OutsideGap(ps, i, Point(rs[k].start, false));
    OutsideGap(ps, i, Point(rs[k].end, true));
  }

  /** Every region is the union of the pieces inside it. */
  lemma RegionIsUnionOfPieces(rs: seq<Region>, k: nat, b: int)
    requires WellFormed(rs) && k < |rs| && rs[k].start <= b < rs[k].end
    ensures exists m | 0 <= m < |PlanOf(rs)| ::
      Contains(PlanOf(rs)[m], b)
      && rs[k].start <= PlanOf(rs)[m].lsb
      && PlanOf(rs)[m].lsb + PlanOf(rs)[m].bitwidth <= rs[k].end
  {
    PlanCoversExactly(rs, b);
    var m :| 0 <= m < |PlanOf(rs)| && Contains(PlanOf(rs)[m], b);
    PieceInsideOrOutside(rs, k, m);
  }

  /** The pieces inside a region are consecutive in the plan. */
  lemma InsidePiecesConsecutive(plan: seq<SplitNewVar>, r: Region, j: nat, k: nat, l: nat)
    requires Ascending(plan) && j < k < l < |plan|
    requires forall m | 0 <= m < |plan| :: plan[m].bitwidth > 0
    requires r.start <= plan[j].lsb && plan[j].lsb + plan[j].bitwidth <= r.end
    requires r.start <= plan[l].lsb && plan[l].lsb + plan[l].bitwidth <= r.end
    ensures r.start <= plan[k].lsb && plan[k].lsb + plan[k].bitwidth <= r.end
  {
  }

  /** A plan is empty exactly when every region is empty. */
  lemma PlanEmptyIff(rs: seq<Region>)
    requires WellFormed(rs)
    ensures PlanOf(rs) == [] <==> forall k | 0 <= k < |rs| :: rs[k].start == rs[k].end
  {
    var plan := PlanOf(rs);
    if exists k | 0 <= k < |rs| :: rs[k].start != rs[k].end {
      var k :| 0 <= k < |rs| && rs[k].start != rs[k].end;
      PlanCoversExactly(rs, rs[k].start);
    }
    if plan != [] {
      PlanShape(rs);
      PlanCoversExactly(rs, plan[0].lsb);
      assert Contains(plan[0], plan[0].lsb);
    }
  }

  lemma PieceCovered(rs: seq<Region>, m: nat, b: int)
    requires WellFormed(rs) && m < |PlanOf(rs)| && Contains(PlanOf(rs)[m], b)
    ensures Covered(rs, b)
  {
    PlanSound(rs, b);
  }

  /** Consecutive pieces of a plan that holds an unbroken range meet. */
  lemma TileAdjacent(rs: seq<Region>, lo: int, width: nat, k: nat)
    requires WellFormed(rs)
    requires forall b :: Covered(rs, b) <==> lo <= b < lo + width
    requires k + 1 < |PlanOf(rs)|
    ensures PlanOf(rs)[k].lsb + PlanOf(rs)[k].bitwidth == PlanOf(rs)[k + 1].lsb
  {
    var plan := PlanOf(rs);
    PlanShape(rs);
    var ek := plan[k].lsb + plan[k].bitwidth;
    PieceCovered(rs, k, plan[k].lsb);
    PieceCovered(rs, k + 1, plan[k + 1].lsb);
    PlanComplete(rs, ek);
    var m :| 0 <= m < |plan| && Contains(plan[m], ek);
  }

  /**
   * When the regions hold exactly the bits lo .. lo+width-1, the pieces tile
   * that range: the first starts at lo, each ends where the next begins,
   * and the last ends at lo + width.
   */
  lemma PlanTiles(rs: seq<Region>, lo: int, width: nat)
    requires WellFormed(rs) && width > 0
    requires forall b :: Covered(rs, b) <==> lo <= b < lo + width
    ensures PlanOf(rs) != []
    ensures PlanOf(rs)[0].lsb == lo
    ensures PlanOf(rs)[|PlanOf(rs)| - 1].lsb + PlanOf(rs)[|PlanOf(rs)| - 1].bitwidth == lo + width
    ensures forall k | 0 <= k < |PlanOf(rs)| - 1 ::
      PlanOf(rs)[k].lsb + PlanOf(rs)[k].bitwidth == PlanOf(rs)[k + 1].lsb
  {
    var plan := PlanOf(rs);
    PlanShape(rs);
    PlanComplete(rs, lo);
    var m0 :| 0 <= m0 < |plan| && Contains(plan[m0], lo);
    PieceCovered(rs, 0, plan[0].lsb);
    var n := |plan| - 1;
    var e := plan[n].lsb + plan[n].bitwidth;
    PlanComplete(rs, lo + width - 1);
    var m1 :| 0 <= m1 < |plan| && Contains(plan[m1], lo + width - 1);
    PieceCovered(rs, n, e - 1);
    forall k | 0 <= k < n
      ensures plan[k].lsb + plan[k].bitwidth == plan[k + 1].lsb
    {
      TileAdjacent(rs, lo, width, k);
    }
  }

  // ---------------------------------------------------------------------
  // Lookup of a bit (std::upper_bound with SplitNewVar::Match)

  /** SplitNewVar::Match: the piece ends at or above the bit. */
  predicate Match(bit: int, p: SplitNewVar)
  {
    bit < p.lsb + p.bitwidth
  }

  /** The index upper_bound returns: the first piece whose msb is at least bit. */
  function UpperBound(plan: seq<SplitNewVar>, bit: int): (k: nat)
    ensures k <= |plan|
    ensures forall j | 0 <= j < k :: !Match(bit, plan[j])
    ensures k < |plan| ==> Match(bit, plan[k])
  {
    if plan == [] then 0
    else if Match(bit, plan[0]) then 0
    else 1 + UpperBound(plan[1..], bit)
  }

  /** On an ascending plan the lookup lands on the piece holding the bit. */
  lemma UpperBoundFindsPiece(plan: seq<SplitNewVar>, bit: int, m: nat)
    requires Ascending(plan) && m < |plan| && Contains(plan[m], bit)
    ensures UpperBound(plan, bit) == m
  {
    var k := UpperBound(plan, bit);
  }

  /**
   * The lookup for the lsb of a nonempty region finds a piece, and that
   * piece lies inside the region (the two internal checks after the lookup
   * cannot fail).
   */
  lemma UpperBoundOfRegion(rs: seq<Region>, k: nat)
    requires WellFormed(rs) && k < |rs| && rs[k].start < rs[k].end
    ensures UpperBound(PlanOf(rs), rs[k].start) < |PlanOf(rs)|
    ensures var p := PlanOf(rs)[UpperBound(PlanOf(rs), rs[k].start)];
      p.lsb == rs[k].start && p.lsb + p.bitwidth <= rs[k].end
  {
    var plan := PlanOf(rs);
    PlanShape(rs);
    PlanCoversExactly(rs, rs[k].start);
    var m :| 0 <= m < |plan| && Contains(plan[m], rs[k].start);
    UpperBoundFindsPiece(plan, rs[k].start, m);
    PieceInsideOrOutside(rs, k, m);
  }
}
