/**
 * Test ranking of verilator_coverage: tests are ordered by computrons, then
 * picked greedily, each pick being the unranked test that covers the most
 * points no earlier pick covers.  A test's buckets are modelled as the set of
 * point numbers it covers sufficiently.
 */
module VlcRank {

  datatype Test = Test(computrons: nat, buckets: set<nat>)

  /** CmpComputrons: fewer computrons first; on a tie, more covered points first. */
  predicate Before(a: Test, b: Test)
  {
    if a.computrons != b.computrons then a.computrons < b.computrons
    else |a.buckets| > |b.buckets|
  }

  /** CmpComputrons is a strict weak order, as std::sort requires. */
  lemma BeforeStrictWeakOrder(a: Test, b: Test, c: Test)
    ensures !Before(a, a)
    ensures Before(a, b) ==> !Before(b, a)
    ensures Before(a, b) && Before(b, c) ==> Before(a, c)
    ensures !Before(a, b) && !Before(b, a) && !Before(b, c) && !Before(c, b) ==> !Before(a, c) && !Before(c, a)
  {
  }

  /** Two tests are unordered exactly when they tie on both keys. */
  lemma BeforeTies(a: Test, b: Test)
    ensures !Before(a, b) && !Before(b, a) <==> a.computrons == b.computrons && |a.buckets| == |b.buckets|
  {
  }

  predicate Indices(tests: seq<Test>, s: seq<nat>)
  {
    forall k | 0 <= k < |s| :: s[k] < |tests|
  }

  /** No test of s is ordered before an earlier one. */
  predicate SortedByTime(tests: seq<Test>, s: seq<nat>)
    requires Indices(tests, s)
  {
    forall i, j | 0 <= i < j < |s| :: !Before(tests[s[j]], tests[s[i]])
  }

  function InsertByTime(tests: seq<Test>, x: nat, s: seq<nat>): (r: seq<nat>)
    requires x < |tests| && Indices(tests, s)
    ensures Indices(tests, r) && multiset(r) == multiset(s) + multiset{x}
  {
    if s == [] || Before(tests[x], tests[s[0]]) then [x] + s
    else
      assert s == [s[0]] + s[1..];
      [s[0]] + InsertByTime(tests, x, s[1..])
  }

  lemma {:induction false} InsertSortedByTime(tests: seq<Test>, x: nat, s: seq<nat>)
    requires x < |tests| && Indices(tests, s) && SortedByTime(tests, s)
    ensures SortedByTime(tests, InsertByTime(tests, x, s))
  {
    if s != [] && !Before(tests[x], tests[s[0]]) {
      var u := s[1..];
      assert SortedByTime(tests, u) by {
        forall i, j | 0 <= i < j < |u| ensures !Before(tests[u[j]], tests[u[i]]) {
          assert u[i] == s[i + 1] && u[j] == s[j + 1];
        }
      }
      InsertSortedByTime(tests, x, u);
      var t := InsertByTime(tests, x, u);
      forall k | 0 <= k < |t|
        ensures !Before(tests[t[k]], tests[s[0]])
      {
        assert t[k] in multiset(u) + multiset{x};
        if t[k] != x {
          assert t[k] in u;
          var j :| 0 <= j < |u| && u[j] == t[k];
          assert u[j] == s[j + 1];
        }
      }
    }
  }

  /** The vector of tests sorted with CmpComputrons (an insertion sort standing for std::sort). */
  function SortByTime(tests: seq<Test>, s: seq<nat>): (r: seq<nat>)
    requires Indices(tests, s)
    ensures Indices(tests, r) && SortedByTime(tests, r)
    ensures multiset(r) == multiset(s)
  {
    if s == [] then []
    else
      assert s == [s[0]] + s[1..];
      var t := SortByTime(tests, s[1..]);
      InsertSortedByTime(tests, s[0], t);
      InsertByTime(tests, s[0], t)
  }

  /** The tests covering at least one point, in increasing order of index. */
  method CollectByTime(tests: seq<Test>) returns (bytime: seq<nat>)
    ensures Indices(tests, bytime)
    ensures forall i, j | 0 <= i < j < |bytime| :: bytime[i] < bytime[j]
    ensures forall i: nat :: i in bytime <==> i < |tests| && |tests[i].buckets| > 0
  {
    bytime := [];
    var i := 0;
    while i < |tests|
      invariant 0 <= i <= |tests|
      invariant Indices(tests, bytime)
      invariant forall a, b | 0 <= a < b < |bytime| :: bytime[a] < bytime[b]
      invariant forall k | 0 <= k < |bytime| :: bytime[k] < i
      invariant forall j: nat :: j in bytime <==> j < i && |tests[j].buckets| > 0
    {
      if |tests[i].buckets| > 0 {
        bytime := bytime + [i];
      }
      i := i + 1;
    }
  }

  /** The points every test together covers: those "remaining" before the first pick. */
  function AllPoints(tests: seq<Test>): set<nat>
  {
    if tests == [] then {} else AllPoints(tests[..|tests| - 1]) + tests[|tests| - 1].buckets
  }

  lemma {:induction false} AllPointsMeaning(tests: seq<Test>, x: nat)
    ensures x in AllPoints(tests) <==> exists k | 0 <= k < |tests| :: x in tests[k].buckets
  {
    if tests != [] {
      var init := tests[..|tests| - 1];
      AllPointsMeaning(init, x);
      assert forall k | 0 <= k < |init| :: init[k] == tests[k];
    }
  }

  /** The points covered by the picked tests. */
  function Covered(tests: seq<Test>, picks: seq<nat>): set<nat>
    requires Indices(tests, picks)
  {
    if picks == [] then {} else Covered(tests, picks[..|picks| - 1]) + tests[picks[|picks| - 1]].buckets
  }

  lemma {:induction false} CoveredMeaning(tests: seq<Test>, picks: seq<nat>, x: nat)
    requires Indices(tests, picks)
    ensures x in Covered(tests, picks) <==> exists k | 0 <= k < |picks| :: x in tests[picks[k]].buckets
  {
    if picks != [] {
      var init := picks[..|picks| - 1];
      CoveredMeaning(tests, init, x);
      assert forall k | 0 <= k < |init| :: init[k] == picks[k];
    }
  }

  /** The points that no pick covers: the remaining buckets after those picks. */
  function Left(tests: seq<Test>, picks: seq<nat>): set<nat>
    requires Indices(tests, picks)
  {
    AllPoints(tests) - Covered(tests, picks)
  }

  /** dataPopCount: how many of the remaining points a test covers. */
  function Pop(t: Test, remaining: set<nat>): nat
  {
    |t.buckets * remaining|
  }

  /**
   * Position p of bytime is the pick the inner loop makes: an unranked test
   * covering some remaining point, covering no fewer than any other unranked
   * test, and strictly more than every unranked test before it.
   */
  predicate IsBest(tests: seq<Test>, bytime: seq<nat>, picks: seq<nat>, remaining: set<nat>, p: nat)
    requires Indices(tests, bytime)
  {
    p < |bytime| && bytime[p] !in picks && Pop(tests[bytime[p]], remaining) > 0 &&
    (forall k | 0 <= k < |bytime| && bytime[k] !in picks ::
      Pop(tests[bytime[k]], remaining) <= Pop(tests[bytime[p]], remaining)) &&
    (forall k | 0 <= k < p && bytime[k] !in picks ::
      Pop(tests[bytime[k]], remaining) < Pop(tests[bytime[p]], remaining))
  }

  /** No unranked test covers a remaining point. */
  predicate NoneLeft(tests: seq<Test>, bytime: seq<nat>, picks: seq<nat>, remaining: set<nat>)
    requires Indices(tests, bytime)
  {
    forall k | 0 <= k < |bytime| && bytime[k] !in picks :: Pop(tests[bytime[k]], remaining) == 0
  }

  /**
   * Every pick of order was the best pick given the picks before it;
   * positions[k] is where order[k] stands in bytime.
   */
  predicate Greedy(tests: seq<Test>, bytime: seq<nat>, order: seq<nat>, positions: seq<nat>)
    requires Indices(tests, bytime) && Indices(tests, order)
  {
    |positions| == |order| && forall k | 0 <= k < |order| :: GreedyAt(tests, bytime, order, positions, k)
  }

  predicate GreedyAt(tests: seq<Test>, bytime: seq<nat>, order: seq<nat>, positions: seq<nat>, k: nat)
    requires Indices(tests, bytime) && Indices(tests, order) && k < |order| && k < |positions|
  {
    positions[k] < |bytime| && bytime[positions[k]] == order[k] &&
    IsBest(tests, bytime, order[..k], Left(tests, order[..k]), positions[k])
  }

  /** The inner loop of rank: the first unranked test of bytime with the greatest count. */
  method FindBest(tests: seq<Test>, bytime: seq<nat>, ranks: seq<nat>, remaining: set<nat>, ghost picks: seq<nat>)
    returns (found: bool, pos: nat, bestRemain: nat)
    requires Indices(tests, bytime) && |ranks| == |tests|
    requires forall i | 0 <= i < |tests| :: ranks[i] == 0 <==> i !in picks
    ensures found ==> IsBest(tests, bytime, picks, remaining, pos)
    ensures found ==> bestRemain == Pop(tests[bytime[pos]], remaining)
    ensures !found ==> NoneLeft(tests, bytime, picks, remaining)
  {
    found, pos, bestRemain := false, 0, 0;
    var k := 0;
    while k < |bytime|
      invariant 0 <= k <= |bytime|
      invariant found ==> pos < k && bytime[pos] !in picks && bestRemain == Pop(tests[bytime[pos]], remaining) > 0
      invariant !found ==> bestRemain == 0
      invariant forall j | 0 <= j < k && bytime[j] !in picks :: Pop(tests[bytime[j]], remaining) <= bestRemain
      invariant found ==> forall j | 0 <= j < pos && bytime[j] !in picks ::
        Pop(tests[bytime[j]], remaining) < bestRemain
    {
      var t := bytime[k];
      if ranks[t] == 0 {
        var remain := Pop(tests[t], remaining);
        if remain > bestRemain {
          found, pos, bestRemain := true, k, remain;
        }
      }
      k := k + 1;
    }
  }

  lemma PopShrinks(b: set<nat>, remaining: set<nat>)
    requires |b * remaining| > 0
    ensures |remaining - b| < |remaining|
  {
    var x :| x in b * remaining;
    assert remaining - b <= remaining - {x};
  }

  /** Appending the best pick keeps the record of picks greedy. */
  lemma GreedySnoc(tests: seq<Test>, bytime: seq<nat>, order: seq<nat>, positions: seq<nat>, p: nat)
    requires Indices(tests, bytime) && Indices(tests, order)
    requires Greedy(tests, bytime, order, positions)
    requires IsBest(tests, bytime, order, Left(tests, order), p)
    ensures Indices(tests, order + [bytime[p]])
    ensures Greedy(tests, bytime, order + [bytime[p]], positions + [p])
  {
    var order', positions' := order + [bytime[p]], positions + [p];
    forall k | 0 <= k < |order'|
      ensures GreedyAt(tests, bytime, order', positions', k)
    {
      if k < |order| {
        assert GreedyAt(tests, bytime, order, positions, k);
        assert order'[..k] == order[..k];
      } else {
        assert order'[..k] == order;
      }
    }
  }

  /** ranks[i] is the place of test i in order, counting from 1, and 0 when it is unranked. */
  predicate RanksOk(tests: seq<Test>, order: seq<nat>, ranks: seq<nat>)
    requires Indices(tests, order)
  {
    |ranks| == |tests| &&
    (forall i | 0 <= i < |tests| :: ranks[i] == 0 <==> i !in order) &&
    (forall k | 0 <= k < |order| :: ranks[order[k]] == k + 1)
  }

  /** rankPoints[i] is the number of points test i covered that its predecessors in order did not. */
  predicate PointsOk(tests: seq<Test>, order: seq<nat>, rankPoints: seq<nat>)
    requires Indices(tests, order)
  {
    |rankPoints| == |tests| &&
    (forall k | 0 <= k < |order| ::
      rankPoints[order[k]] == Pop(tests[order[k]], Left(tests, order[..k]))) &&
    (forall i | 0 <= i < |tests| && i !in order :: rankPoints[i] == 0)
  }

  lemma RanksSnoc(tests: seq<Test>, order: seq<nat>, ranks: seq<nat>, b: nat)
    requires Indices(tests, order) && RanksOk(tests, order, ranks) && b < |tests| && b !in order
    ensures Indices(tests, order + [b]) && RanksOk(tests, order + [b], ranks[b := |order| + 1])
  {
    var order', ranks' := order + [b], ranks[b := |order| + 1];
    forall k | 0 <= k < |order'|
      ensures ranks'[order'[k]] == k + 1
    {
      if k < |order| {
        assert order'[k] == order[k] != b;
      }
    }
  }

  lemma PointsSnoc(tests: seq<Test>, order: seq<nat>, rankPoints: seq<nat>, b: nat)
    requires Indices(tests, order) && PointsOk(tests, order, rankPoints) && b < |tests| && b !in order
    ensures Indices(tests, order + [b])
    ensures PointsOk(tests, order + [b], rankPoints[b := Pop(tests[b], Left(tests, order))])
  {
    var order' := order + [b];
    var rankPoints' := rankPoints[b := Pop(tests[b], Left(tests, order))];
    assert Indices(tests, order');
    forall k | 0 <= k < |order'|
      ensures rankPoints'[order'[k]] == Pop(tests[order'[k]], Left(tests, order'[..k]))
    {
      if k < |order| {
        assert order'[k] == order[k] != b;
        assert order'[..k] == order[..k];
      } else {
        assert order'[..k] == order;
      }
    }
  }

  /**
   * rank: assigns ranks 1, 2, ... greedily.  ranks[i] is test i's rank (0 for
   * unranked) and rankPoints[i] the number of new points it contributed;
   * order lists the ranked tests by rank and positions their places in bytime.
   */
  method Rank(tests: seq<Test>) returns (bytime: seq<nat>, order: seq<nat>, positions: seq<nat>, ranks: seq<nat>, rankPoints: seq<nat>)
    ensures Indices(tests, bytime) && SortedByTime(tests, bytime)
    ensures forall i: nat :: i in multiset(bytime) <==> i < |tests| && |tests[i].buckets| > 0
    ensures forall i | i in multiset(bytime) :: multiset(bytime)[i] == 1
    ensures Indices(tests, order) && Greedy(tests, bytime, order, positions)
    ensures NoneLeft(tests, bytime, order, Left(tests, order))
    ensures RanksOk(tests, order, ranks) && PointsOk(tests, order, rankPoints)
    ensures Covered(tests, order) == AllPoints(tests)
    ensures forall k | 0 <= k < |order| :: |tests[order[k]].buckets| > 0
  {
    bytime := SortedCovering(tests);
    order, positions, ranks, rankPoints := RankLoop(tests, bytime);
    RankCoversAll(tests, bytime, order);
    forall k | 0 <= k < |order|
      ensures |tests[order[k]].buckets| > 0
    {
      RankedCover(tests, bytime, order, positions, k);
    }
  }

  /** The greedy loop of rank over the sorted bytime vector. */
  method RankLoop(tests: seq<Test>, bytime: seq<nat>) returns (order: seq<nat>, positions: seq<nat>, ranks: seq<nat>, rankPoints: seq<nat>)
    requires Indices(tests, bytime)
    ensures Indices(tests, order) && Greedy(tests, bytime, order, positions)
    ensures NoneLeft(tests, bytime, order, Left(tests, order))
    ensures RanksOk(tests, order, ranks) && PointsOk(tests, order, rankPoints)
  {
    var remaining := AllPoints(tests);
    ranks := seq(|tests|, _ => 0);
    rankPoints := seq(|tests|, _ => 0);
    order, positions := [], [];
    var nextrank := 1;
    while true
      invariant nextrank == |order| + 1
      invariant Indices(tests, order)
      invariant RanksOk(tests, order, ranks) && PointsOk(tests, order, rankPoints)
      invariant remaining == Left(tests, order)
      invariant Greedy(tests, bytime, order, positions)
      decreases |remaining|
    {
      var found, pos, bestRemain := FindBest(tests, bytime, ranks, remaining, order);
      if !found {
        break;
      }
      order, positions, ranks, rankPoints, remaining :=
        Pick(tests, bytime, order, positions, ranks, rankPoints, remaining, pos, bestRemain);
      nextrank := nextrank + 1;
    }
  }

  /** One pick: rank the test at position pos of bytime and drop its points from remaining. */
  method Pick(tests: seq<Test>, bytime: seq<nat>, order: seq<nat>, positions: seq<nat>, ranks: seq<nat>,
              rankPoints: seq<nat>, remaining: set<nat>, pos: nat, bestRemain: nat)
    returns (order': seq<nat>, positions': seq<nat>, ranks': seq<nat>, rankPoints': seq<nat>, remaining': set<nat>)
    requires Indices(tests, bytime) && Indices(tests, order)
    requires RanksOk(tests, order, ranks) && PointsOk(tests, order, rankPoints)
    requires remaining == Left(tests, order) && Greedy(tests, bytime, order, positions)
    requires IsBest(tests, bytime, order, remaining, pos) && bestRemain == Pop(tests[bytime[pos]], remaining)
    ensures order' == order + [bytime[pos]] && positions' == positions + [pos]
    ensures Indices(tests, order') && RanksOk(tests, order', ranks') && PointsOk(tests, order', rankPoints')
    ensures remaining' == Left(tests, order') && Greedy(tests, bytime, order', positions')
    ensures |remaining'| < |remaining|
  {
    var b := bytime[pos];
    GreedySnoc(tests, bytime, order, positions, pos);
    RanksSnoc(tests, order, ranks, b);
    PointsSnoc(tests, order, rankPoints, b);
    PopShrinks(tests[b].buckets, remaining);
    RankStep(tests, order, b);
    ranks' := ranks[b := |order| + 1];
    rankPoints' := rankPoints[b := bestRemain];
    order', positions' := order + [b], positions + [pos];
    remaining' := remaining - tests[b].buckets;
  }

  /** The bytime vector: the tests covering some point, each once, sorted with CmpComputrons. */
  method SortedCovering(tests: seq<Test>) returns (bytime: seq<nat>)
    ensures Indices(tests, bytime) && SortedByTime(tests, bytime)
    ensures forall i: nat :: i in multiset(bytime) <==> i < |tests| && |tests[i].buckets| > 0
    ensures forall i | i in multiset(bytime) :: multiset(bytime)[i] == 1
  {
    var covering := CollectByTime(tests);
    bytime := SortByTime(tests, covering);
    assert forall i :: i in multiset(bytime) <==> i in covering;
    forall i | i in multiset(bytime)
      ensures multiset(bytime)[i] == 1
    {
      DistinctOnce(covering, i);
    }
  }

  /** What a pick does to the picks' prefixes and to the covered points. */
  lemma RankStep(tests: seq<Test>, order: seq<nat>, b: nat)
    requires Indices(tests, order) && b < |tests|
    ensures Indices(tests, order + [b])
    ensures Covered(tests, order + [b]) == Covered(tests, order) + tests[b].buckets
    ensures Left(tests, order + [b]) == Left(tests, order) - tests[b].buckets
  {
    assert (order + [b])[..|order|] == order;
  }

  lemma DistinctOnce(s: seq<nat>, i: nat)
    requires forall a, b | 0 <= a < b < |s| :: s[a] < s[b]
    requires i in s
    ensures multiset(s)[i] == 1
  {
    if s != [] {
      assert s == [s[0]] + s[1..];
      if s[0] == i {
        assert i !in s[1..];
      } else {
        DistinctOnce(s[1..], i);
      }
    }
  }

  /** The ranked tests together cover every point that any test covers. */
  lemma {:induction false} RankCoversAll(tests: seq<Test>, bytime: seq<nat>, order: seq<nat>)
    requires Indices(tests, bytime) && Indices(tests, order)
    requires forall i: nat :: i in multiset(bytime) <==> i < |tests| && |tests[i].buckets| > 0
    requires NoneLeft(tests, bytime, order, Left(tests, order))
    ensures Covered(tests, order) == AllPoints(tests)
  {
    forall x | x in Covered(tests, order)
      ensures x in AllPoints(tests)
    {
      CoveredMeaning(tests, order, x);
      var k :| 0 <= k < |order| && x in tests[order[k]].buckets;
      AllPointsMeaning(tests, x);
    }
    forall x | x in AllPoints(tests)
      ensures x in Covered(tests, order)
    {
      UncoveredIsLeft(tests, bytime, order, x);
    }
  }

  lemma UncoveredIsLeft(tests: seq<Test>, bytime: seq<nat>, order: seq<nat>, x: nat)
    requires Indices(tests, bytime) && Indices(tests, order)
    requires forall i: nat :: i in multiset(bytime) <==> i < |tests| && |tests[i].buckets| > 0
    requires NoneLeft(tests, bytime, order, Left(tests, order))
    requires x in AllPoints(tests)
    ensures x in Covered(tests, order)
  {
    if x !in Covered(tests, order) {
      AllPointsMeaning(tests, x);
      var i :| 0 <= i < |tests| && x in tests[i].buckets;
      assert i in multiset(bytime);
      var p :| 0 <= p < |bytime| && bytime[p] == i;
      if i in order {
        var k :| 0 <= k < |order| && order[k] == i;
        CoveredMeaning(tests, order, x);
      }
    }
  }

  /** Every ranked test covered a new point, and no test is ranked twice. */
  lemma RankedCover(tests: seq<Test>, bytime: seq<nat>, order: seq<nat>, positions: seq<nat>, k: nat)
    requires Indices(tests, bytime) && Indices(tests, order) && k < |order|
    requires Greedy(tests, bytime, order, positions)
    ensures |tests[order[k]].buckets| > 0
    ensures order[k] !in order[..k]
  {
    assert GreedyAt(tests, bytime, order, positions, k);
    var remaining := Left(tests, order[..k]);
    var b := tests[order[k]].buckets;
    assert |b * remaining| > 0;
    var x :| x in b * remaining;
    assert x in b;
  }

  /** The points each pick contributes, summed over the first n picks. */
  function Contributed(tests: seq<Test>, order: seq<nat>, n: nat): nat
    requires Indices(tests, order) && n <= |order|
  {
    if n == 0 then 0 else Contributed(tests, order, n - 1) + Pop(tests[order[n - 1]], Left(tests, order[..n - 1]))
  }

  /** The contributions of the picks add up to the points they cover together. */
  lemma {:induction false} ContributedTotal(tests: seq<Test>, order: seq<nat>, n: nat)
    requires Indices(tests, order) && n <= |order|
    ensures Contributed(tests, order, n) + |Left(tests, order[..n])| == |AllPoints(tests)|
  {
    if n == 0 {
      assert order[..0] == [];
    } else {
      ContributedTotal(tests, order, n - 1);
      var o := order[..n - 1];
      assert order[..n] == o + [order[n - 1]];
      RankStep(tests, o, order[n - 1]);
      var b, l := tests[order[n - 1]].buckets, Left(tests, o);
      assert l == (l - b) + (b * l) && (l - b) !! (b * l);
    }
  }

  /** The rankPoints of the first n ranked tests, summed. */
  function RankPointsSum(order: seq<nat>, rankPoints: seq<nat>, n: nat): nat
    requires n <= |order| && forall k | 0 <= k < |order| :: order[k] < |rankPoints|
  {
    if n == 0 then 0 else RankPointsSum(order, rankPoints, n - 1) + rankPoints[order[n - 1]]
  }

  lemma {:induction false} RankPointsContributed(tests: seq<Test>, order: seq<nat>, rankPoints: seq<nat>, n: nat)
    requires Indices(tests, order) && PointsOk(tests, order, rankPoints) && n <= |order|
    ensures RankPointsSum(order, rankPoints, n) == Contributed(tests, order, n)
  {
    if n > 0 {
      RankPointsContributed(tests, order, rankPoints, n - 1);
    }
  }

  /**
   * The rankPoints of the ranked tests add up to the number of points any
   * test covers: every such point is credited to exactly one ranked test.
   */
  lemma RankPointsTotal(tests: seq<Test>, order: seq<nat>, rankPoints: seq<nat>)
    requires Indices(tests, order) && PointsOk(tests, order, rankPoints)
    requires Covered(tests, order) == AllPoints(tests)
    ensures RankPointsSum(order, rankPoints, |order|) == |AllPoints(tests)|
  {
    RankPointsContributed(tests, order, rankPoints, |order|);
    ContributedTotal(tests, order, |order|);
    assert order[..|order|] == order;
  }
}
