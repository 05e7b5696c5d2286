/**
 * Packed variable splitting (V3SplitVar.cpp): the references collected for
 * one variable, the plan built from them, the test that decides whether to
 * split at all, the automatic candidate test, and the reasons a variable
 * cannot be split.
 */
module SplitVar {
  import opened Wrappers
  import opened SplitPlan

  // ---------------------------------------------------------------------
  // References (PackedVarRefEntry, PackedVarRef)

  /** A bit count of a select or of a whole variable reference; never zero. */
  type Width = x: int | x >= 1 witness 1

  /**
   * One reference.  `node` stands for the AstSel/AstVarRef; the integers are
   * ordered as AstNodeComparator orders the nodes.
   */
  datatype Entry = Entry(node: nat, lsb: int, bitwidth: Width)

  function EntryMsb(e: Entry): int
  {
    e.lsb + e.bitwidth - 1
  }

  function RegionOf(e: Entry): Region
  {
    Region(e.lsb, EntryMsb(e) + 1)
  }

  datatype Access = Read | Write | ReadWrite

  predicate IsWriteOrRW(a: Access)
  {
    a == Write || a == ReadWrite
  }

  predicate IsReadOrRW(a: Access)
  {
    a == Read || a == ReadWrite
  }

  function NodesOf(s: seq<Entry>): set<nat>
  {
    set e | e in s :: e.node
  }

  /** The entry at index i is the first one for its node. */
  predicate FirstOf(refs: seq<Entry>, i: nat)
    requires i < |refs|
  {
    forall j | 0 <= j < i :: refs[j].node != refs[i].node
  }

  /**
   * What dedupRefs leaves: one entry per node, ordered by node, each the
   * first entry the input held for that node.
   */
  predicate IsDedup(refs: seq<Entry>, out: seq<Entry>)
  {
    && (forall j, k | 0 <= j < k < |out| :: out[j].node < out[k].node)
    && NodesOf(out) == NodesOf(refs)
    && (forall j | 0 <= j < |out| :: IsFirstEntry(refs, out[j]))
  }

  /** e is the first entry refs holds for its node. */
  predicate IsFirstEntry(refs: seq<Entry>, e: Entry)
  {
    exists i | 0 <= i < |refs| :: refs[i] == e && FirstOf(refs, i)
  }

  lemma MinExists(s: set<nat>) returns (m: nat)
    requires s != {}
    ensures m in s && forall y | y in s :: m <= y
  {
    var x :| x in s;
    if s == {x} {
      m := x;
    } else {
      var m' := MinExists(s - {x});
      m := if x < m' then x else m';
      assert forall y | y in s :: y == x || y in s - {x};
    }
  }

  /** The map dedupRefs builds: each node to the index of its first entry. */
  predicate IsFirstIndexMap(refs: seq<Entry>, nodes: map<nat, nat>)
  {
    && nodes.Keys == NodesOf(refs)
    && forall n | n in nodes :: nodes[n] < |refs| && refs[nodes[n]].node == n && FirstOf(refs, nodes[n])
  }

  /** The first loop of dedupRefs; emplace does not overwrite an existing key. */
  method FirstIndexMap(refs: seq<Entry>) returns (nodes: map<nat, nat>)
    ensures IsFirstIndexMap(refs, nodes)
  {
    nodes := map[];
    var i := 0;
    while i < |refs|
      invariant 0 <= i <= |refs|
      invariant nodes.Keys == NodesOf(refs[..i])
      invariant forall n | n in nodes ::
        nodes[n] < i && refs[nodes[n]].node == n && FirstOf(refs, nodes[n])
    {
      assert refs[..i + 1] == refs[..i] + [refs[i]];
      assert NodesOf(refs[..i + 1]) == NodesOf(refs[..i]) + {refs[i].node};
      if refs[i].node !in nodes {
        assert FirstOf(refs, i) by {
          forall j | 0 <= j < i ensures refs[j].node != refs[i].node {
            assert refs[..i][j] == refs[j];
            assert refs[j].node in NodesOf(refs[..i]);
          }
        }
        nodes := nodes[refs[i].node := i];
      }
      i := i + 1;
    }
    assert refs[..i] == refs;
  }

  /** The keys of the map in the order iterating a std::map visits them. */
  method KeysInOrder(ks: set<nat>) returns (out: seq<nat>)
    ensures forall j, k | 0 <= j < k < |out| :: out[j] < out[k]
    ensures forall x :: x in ks <==> x in out
  {
    out := [];
    var rest := ks;
    while rest != {}
      invariant rest <= ks
      invariant forall x :: x in ks <==> x in out || x in rest
      invariant forall j, k | 0 <= j < k < |out| :: out[j] < out[k]
      invariant forall j, y | 0 <= j < |out| && y in rest :: out[j] < y
      decreases |rest|
    {
      ghost var least := MinExists(rest);  // the witness that the pick below succeeds
      var n :| n in rest && forall y | y in rest :: n <= y;
      out := out + [n];
      rest := rest - {n};
    }
  }

  /** The second loop of dedupRefs: the map's entries in ascending node order. */
  method EmitInNodeOrder(refs: seq<Entry>, nodes: map<nat, nat>) returns (vect: seq<Entry>)
    requires IsFirstIndexMap(refs, nodes)
    ensures IsDedup(refs, vect)
  {
    var keys := KeysInOrder(nodes.Keys);
    vect := [];
    var j := 0;
    while j < |keys|
      invariant 0 <= j <= |keys|
      invariant |vect| == j
      invariant forall k | 0 <= k < j :: vect[k] == refs[nodes[keys[k]]]
    {
      vect := vect + [refs[nodes[keys[j]]]];
      j := j + 1;
    }
    DedupOfKeys(refs, nodes, keys, vect);
  }

  lemma DedupOfKeys(refs: seq<Entry>, nodes: map<nat, nat>, keys: seq<nat>, vect: seq<Entry>)
    requires IsFirstIndexMap(refs, nodes)
    requires forall j, k | 0 <= j < k < |keys| :: keys[j] < keys[k]
    requires forall x :: x in nodes.Keys <==> x in keys
    requires |vect| == |keys| && forall k | 0 <= k < |keys| :: keys[k] in nodes && vect[k] == refs[nodes[keys[k]]]
    ensures IsDedup(refs, vect)
  {
    forall j | 0 <= j < |vect| ensures vect[j].node == keys[j] {
    }
    forall x | x in NodesOf(vect) ensures x in NodesOf(refs) {
      var e :| e in vect && e.node == x;
      var j :| 0 <= j < |vect| && vect[j] == e;
    }
    forall x | x in NodesOf(refs) ensures x in NodesOf(vect) {
      var j :| 0 <= j < |keys| && keys[j] == x;
      assert vect[j] in vect;
    }
    forall j | 0 <= j < |vect|
      ensures IsFirstEntry(refs, vect[j])
    {
      assert keys[j] in nodes;
      var i := nodes[keys[j]];
      assert i < |refs| && refs[i] == vect[j];
      assert FirstOf(refs, i);
    }
  }

  /** dedupRefs: keep the first entry of every node, in node order. */
  method DedupRefs(refs: seq<Entry>) returns (vect: seq<Entry>)
    ensures IsDedup(refs, vect)
  {
    var nodes := FirstIndexMap(refs);
    vect := EmitInNodeOrder(refs, nodes);
  }

  class PackedVarRef {
    var lhs: seq<Entry>
    var rhs: seq<Entry>
    var dedupDone: bool
    /** basicp()->lo() of the variable. */
    const bitLo: int

    constructor(bitLo: int)
      ensures lhs == [] && rhs == [] && !dedupDone && this.bitLo == bitLo
    {
      lhs := [];
      rhs := [];
      dedupDone := false;
      this.bitLo := bitLo;
    }

    /** Writes go to lhs, reads to rhs, read-writes to both; only before dedup. */
    method Append(e: Entry, access: Access)
      requires !dedupDone
      modifies this
      ensures lhs == old(lhs) + (if IsWriteOrRW(access) then [e] else [])
      ensures rhs == old(rhs) + (if IsReadOrRW(access) then [e] else [])
      ensures !dedupDone
    {
      if IsWriteOrRW(access) {
        lhs := lhs + [e];
      }
      if IsReadOrRW(access) {
        rhs := rhs + [e];
      }
    }

    /** Deduplicates both lists; may run only once. */
    method Dedup()
      requires !dedupDone
      modifies this
      ensures dedupDone
      ensures IsDedup(old(lhs), lhs) && IsDedup(old(rhs), rhs)
    {
      lhs := DedupRefs(lhs);
      rhs := DedupRefs(rhs);
      dedupDone := true;
    }

    /** lhs(); reading requires dedup to have run. */
    function Lhs(): (r: seq<Entry>)
      requires dedupDone
      reads this
      ensures r == lhs
    {
      lhs
    }

    /** rhs(); reading requires dedup to have run. */
    function Rhs(): (r: seq<Entry>)
      requires dedupDone
      reads this
      ensures r == rhs
    {
      rhs
    }

    /**
     * splitPlan: pushes the points of the write references, then those of
     * the read envelope (when unread bits may be dropped and there are
     * reads) or of the whole variable (when they may not), sorts them and
     * sweeps.
     */
    method SplitPlan(varWidth: nat, skipUnused: bool) returns (plan: seq<SplitNewVar>)
      requires dedupDone
      ensures plan == PlanOf(Regions(lhs, rhs, bitLo, varWidth, skipUnused))
    {
      var points := PlanPoints(lhs, rhs, bitLo, varWidth, skipUnused);
      plan := ScanPoints(SortPoints(points));
    }
  }

  /** All points splitPlan pushes before sorting. */
  method PlanPoints(lhs: seq<Entry>, rhs: seq<Entry>, bitLo: int, varWidth: nat, skipUnused: bool)
    returns (points: seq<Point>)
    ensures points == Points(Regions(lhs, rhs, bitLo, varWidth, skipUnused))
  {
    points := WritePoints(lhs);
    var bitHi := bitLo + varWidth - 1;
    if skipUnused && |rhs| > 0 {
      var lsb, msb := ReadBounds(rhs, bitLo, varWidth);
      EnvelopeNonEmpty(rhs, bitLo, varWidth);
      assert lsb <= msb;
      PointsAppend(WriteRegions(lhs), [Region(lsb, msb + 1)]);
      assert Regions(lhs, rhs, bitLo, varWidth, skipUnused) == WriteRegions(lhs) + [Region(lsb, msb + 1)];
      points := points + [Point(lsb, false), Point(msb + 1, true)];
    } else if !skipUnused {
      PointsAppend(WriteRegions(lhs), [Region(bitLo, bitHi + 1)]);
      assert Regions(lhs, rhs, bitLo, varWidth, skipUnused) == WriteRegions(lhs) + [Region(bitLo, bitHi + 1)];
      points := points + [Point(bitLo, false), Point(bitHi + 1, true)];
    } else {
      assert Regions(lhs, rhs, bitLo, varWidth, skipUnused) == WriteRegions(lhs);
    }
  }

  /** The start and end points splitPlan pushes for the write references. */
  method WritePoints(lhs: seq<Entry>) returns (points: seq<Point>)
    ensures points == Points(WriteRegions(lhs))
  {
    points := [];
    var i := 0;
    while i < |lhs|
      invariant 0 <= i <= |lhs|
      invariant points == Points(WriteRegions(lhs[..i]))
    {
      assert lhs[..i + 1][..i] == lhs[..i];
      PointsAppend(WriteRegions(lhs[..i]), [RegionOf(lhs[i])]);
      points := points + [Point(lhs[i].lsb, false), Point(EntryMsb(lhs[i]) + 1, true)];
      i := i + 1;
    }
    assert lhs[..i] == lhs;
  }

  /** The min/max loop over the read references. */
  method ReadBounds(rhs: seq<Entry>, bitLo: int, varWidth: nat) returns (lsb: int, msb: int)
    ensures Region(lsb, msb + 1) == ReadEnvelope(rhs, bitLo, varWidth)
  {
    lsb := bitLo + varWidth - 1 + 1;
    msb := bitLo - 1;
    var j := 0;
    while j < |rhs|
      invariant 0 <= j <= |rhs|
      invariant lsb == MinLsb(rhs[..j], bitLo + varWidth) && msb == MaxMsb(rhs[..j], bitLo - 1)
    {
      assert rhs[..j + 1][..j] == rhs[..j];
      lsb := if lsb < rhs[j].lsb then lsb else rhs[j].lsb;
      msb := if msb > EntryMsb(rhs[j]) then msb else EntryMsb(rhs[j]);
      j := j + 1;
    }
    assert rhs[..j] == rhs;
  }

  /** The sweep over the sorted points, keeping the refcount. */
  method ScanPoints(sorted: seq<Point>) returns (plan: seq<SplitNewVar>)
    ensures plan == SweepAll(sorted)
  {
    var refcount := 0;
    plan := [];
    var k := 0;
    while k + 1 < |sorted|
      invariant k == 0 || k < |sorted|
      invariant refcount == Count(sorted[..k])
      invariant plan == Sweep(sorted, k)
    {
      var bitwidth := sorted[k + 1].pos - sorted[k].pos;
      if sorted[k].isEnd {
        refcount := refcount - 1;
      } else {
        refcount := refcount + 1;
      }
      assert sorted[..k + 1] == sorted[..k] + [sorted[k]];
      CountSnoc(sorted[..k], sorted[k]);
      if bitwidth != 0 && refcount != 0 {
        plan := plan + [SplitNewVar(sorted[k].pos, bitwidth)];
      }
      k := k + 1;
    }
  }

  // ---------------------------------------------------------------------
  // The regions a plan is built from

  function WriteRegions(s: seq<Entry>): (r: seq<Region>)
    ensures |r| == |s| && forall k | 0 <= k < |s| :: r[k] == RegionOf(s[k])
  {
    if s == [] then [] else WriteRegions(s[..|s| - 1]) + [RegionOf(s[|s| - 1])]
  }

  /** The running minimum of the read lsbs, starting from init. */
  function MinLsb(s: seq<Entry>, init: int): (r: int)
    ensures r <= init && forall k | 0 <= k < |s| :: r <= s[k].lsb
    ensures r == init || exists k | 0 <= k < |s| :: r == s[k].lsb
  {
    if s == [] then init
    else
      var m := MinLsb(s[..|s| - 1], init);
      if m < s[|s| - 1].lsb then m else s[|s| - 1].lsb
  }

  /** The running maximum of the read msbs, starting from init. */
  function MaxMsb(s: seq<Entry>, init: int): (r: int)
    ensures r >= init && forall k | 0 <= k < |s| :: r >= EntryMsb(s[k])
    ensures r == init || exists k | 0 <= k < |s| :: r == EntryMsb(s[k])
  {
    if s == [] then init
    else
      var m := MaxMsb(s[..|s| - 1], init);
      if m > EntryMsb(s[|s| - 1]) then m else EntryMsb(s[|s| - 1])
  }

  /** [lsb, msb] of the bits read, as splitPlan computes it. */
  function ReadEnvelope(rhs: seq<Entry>, bitLo: int, varWidth: nat): Region
  {
    Region(MinLsb(rhs, bitLo + varWidth), MaxMsb(rhs, bitLo - 1) + 1)
  }

  /** The envelope of a nonempty read list is nonempty (the internal check holds). */
  lemma EnvelopeNonEmpty(rhs: seq<Entry>, bitLo: int, varWidth: nat)
    requires |rhs| > 0
    ensures MinLsb(rhs, bitLo + varWidth - 1 + 1) <= MaxMsb(rhs, bitLo - 1)
    ensures ReadEnvelope(rhs, bitLo, varWidth).start < ReadEnvelope(rhs, bitLo, varWidth).end
  {
    assert MinLsb(rhs, bitLo + varWidth) <= rhs[0].lsb <= EntryMsb(rhs[0]);
  }

  /**
   * The envelope holds every read, and when the reads lie inside the
   * variable it starts at the lowest read lsb and ends after the highest
   * read msb.
   */
  lemma EnvelopeExact(rhs: seq<Entry>, bitLo: int, varWidth: nat)
    requires |rhs| > 0
    ensures forall k | 0 <= k < |rhs| ::
      ReadEnvelope(rhs, bitLo, varWidth).start <= rhs[k].lsb
      && EntryMsb(rhs[k]) + 1 <= ReadEnvelope(rhs, bitLo, varWidth).end
    ensures (forall k | 0 <= k < |rhs| :: bitLo <= rhs[k].lsb && EntryMsb(rhs[k]) < bitLo + varWidth) ==>
      (exists k | 0 <= k < |rhs| :: ReadEnvelope(rhs, bitLo, varWidth).start == rhs[k].lsb)
      && (exists k | 0 <= k < |rhs| :: ReadEnvelope(rhs, bitLo, varWidth).end == EntryMsb(rhs[k]) + 1)
  {
    if forall k | 0 <= k < |rhs| :: bitLo <= rhs[k].lsb && EntryMsb(rhs[k]) < bitLo + varWidth {
      var lo := MinLsb(rhs, bitLo + varWidth);
      var hi := MaxMsb(rhs, bitLo - 1);
      assert lo <= rhs[0].lsb < bitLo + varWidth;
      assert hi >= EntryMsb(rhs[0]) >= bitLo;
    }
  }

  /** The regions splitPlan pushes points for, in the order it pushes them. */
  function Regions(lhs: seq<Entry>, rhs: seq<Entry>, bitLo: int, varWidth: nat, skipUnused: bool)
    : seq<Region>
  {
    WriteRegions(lhs)
    + (if skipUnused && |rhs| > 0 then [ReadEnvelope(rhs, bitLo, varWidth)] else [])
    + (if !skipUnused then [Region(bitLo, bitLo + varWidth)] else [])
  }

  lemma {:induction false} PointsAppend(a: seq<Region>, b: seq<Region>)
    ensures Points(a + b) == Points(a) + Points(b)
  {
    if a != [] {
      assert (a + b)[0] == a[0];
      assert (a + b)[1..] == a[1..] + b;
      PointsAppend(a[1..], b);
    } else {
      assert a + b == b;
    }
  }

  lemma RegionsWellFormed(lhs: seq<Entry>, rhs: seq<Entry>, bitLo: int, varWidth: nat, skipUnused: bool)
    ensures WellFormed(Regions(lhs, rhs, bitLo, varWidth, skipUnused))
  {
    if skipUnused && |rhs| > 0 {
      EnvelopeNonEmpty(rhs, bitLo, varWidth);
    }
  }

  /** The bit is inside some write reference. */
  predicate Written(lhs: seq<Entry>, b: int)
  {
    exists k | 0 <= k < |lhs| :: lhs[k].lsb <= b <= EntryMsb(lhs[k])
  }

  lemma CoveredRegions(lhs: seq<Entry>, rhs: seq<Entry>, bitLo: int, varWidth: nat, skipUnused: bool, b: int)
    ensures Covered(Regions(lhs, rhs, bitLo, varWidth, skipUnused), b) <==>
      Written(lhs, b)
      || (skipUnused && |rhs| > 0
          && ReadEnvelope(rhs, bitLo, varWidth).start <= b < ReadEnvelope(rhs, bitLo, varWidth).end)
      || (!skipUnused && bitLo <= b < bitLo + varWidth)
  {
    var rs := Regions(lhs, rhs, bitLo, varWidth, skipUnused);
    var w := WriteRegions(lhs);
    if Covered(rs, b) {
      var k :| 0 <= k < |rs| && rs[k].start <= b < rs[k].end;
      if k < |w| {
        assert rs[k] == RegionOf(lhs[k]);
      }
    }
    if Written(lhs, b) {
      var k :| 0 <= k < |lhs| && lhs[k].lsb <= b <= EntryMsb(lhs[k]);
      assert rs[k] == RegionOf(lhs[k]);
    }
    if skipUnused && |rhs| > 0 && ReadEnvelope(rhs, bitLo, varWidth).start <= b < ReadEnvelope(rhs, bitLo, varWidth).end {
      assert rs[|w|] == ReadEnvelope(rhs, bitLo, varWidth);
    }
    if !skipUnused && bitLo <= b < bitLo + varWidth {
      assert rs[|w|] == Region(bitLo, bitLo + varWidth);
    }
  }

  // ---------------------------------------------------------------------
  // What the plan promises

  /**
   * The pieces hold exactly the written bits, plus the read envelope when
   * unread bits are dropped and there are reads, plus the whole variable
   * when they are not.
   */
  lemma PlanUnion(lhs: seq<Entry>, rhs: seq<Entry>, bitLo: int, varWidth: nat, skipUnused: bool, b: int)
    ensures InPlan(PlanOf(Regions(lhs, rhs, bitLo, varWidth, skipUnused)), b) <==>
      Written(lhs, b)
      || (skipUnused && |rhs| > 0
          && ReadEnvelope(rhs, bitLo, varWidth).start <= b < ReadEnvelope(rhs, bitLo, varWidth).end)
      || (!skipUnused && bitLo <= b < bitLo + varWidth)
  {
    RegionsWellFormed(lhs, rhs, bitLo, varWidth, skipUnused);
    PlanCoversExactly(Regions(lhs, rhs, bitLo, varWidth, skipUnused), b);
    CoveredRegions(lhs, rhs, bitLo, varWidth, skipUnused, b);
  }

  /** Pieces are ascending, disjoint and have a positive bitwidth. */
  lemma PlanPieces(lhs: seq<Entry>, rhs: seq<Entry>, bitLo: int, varWidth: nat, skipUnused: bool)
    ensures var plan := PlanOf(Regions(lhs, rhs, bitLo, varWidth, skipUnused));
      Ascending(plan) && forall m | 0 <= m < |plan| :: plan[m].bitwidth > 0
  {
    PlanShape(Regions(lhs, rhs, bitLo, varWidth, skipUnused));
  }

  /**
   * Keeping every bit, with the writes inside the variable, the pieces tile
   * [bitLo, bitLo + varWidth - 1] with no gap.
   */
  lemma PlanTilesVariable(lhs: seq<Entry>, rhs: seq<Entry>, bitLo: int, varWidth: nat)
    requires varWidth > 0
    requires forall k | 0 <= k < |lhs| :: bitLo <= lhs[k].lsb && EntryMsb(lhs[k]) < bitLo + varWidth
    ensures var plan := PlanOf(Regions(lhs, rhs, bitLo, varWidth, false));
      && plan != []
      && plan[0].lsb == bitLo
      && Msb(plan[|plan| - 1]) == bitLo + varWidth - 1
      && forall k | 0 <= k < |plan| - 1 :: Msb(plan[k]) + 1 == plan[k + 1].lsb
  {
    var rs := Regions(lhs, rhs, bitLo, varWidth, false);
    RegionsWellFormed(lhs, rhs, bitLo, varWidth, false);
    forall b
      ensures Covered(rs, b) <==> bitLo <= b < bitLo + varWidth
    {
      CoveredRegions(lhs, rhs, bitLo, varWidth, false, b);
    }
    PlanTiles(rs, bitLo, varWidth);
  }

  /** No piece sticks out of a write reference: it lies inside or outside it. */
  lemma WritePieceInsideOrOutside(lhs: seq<Entry>, rhs: seq<Entry>, bitLo: int, varWidth: nat,
                                  skipUnused: bool, k: nat, m: nat)
    requires k < |lhs| && m < |PlanOf(Regions(lhs, rhs, bitLo, varWidth, skipUnused))|
    ensures var p := PlanOf(Regions(lhs, rhs, bitLo, varWidth, skipUnused))[m];
      (lhs[k].lsb <= p.lsb && Msb(p) <= EntryMsb(lhs[k])) || Msb(p) < lhs[k].lsb || EntryMsb(lhs[k]) < p.lsb
  {
    var rs := Regions(lhs, rhs, bitLo, varWidth, skipUnused);
    RegionsWellFormed(lhs, rhs, bitLo, varWidth, skipUnused);
    assert rs[k] == RegionOf(lhs[k]);
    PieceInsideOrOutside(rs, k, m);
  }

  /**
   * Every bit of a write reference lies in a piece inside the reference, so
   * the reference is the union of the pieces inside it.
   */
  lemma WriteBitInInsidePiece(lhs: seq<Entry>, rhs: seq<Entry>, bitLo: int, varWidth: nat,
                              skipUnused: bool, k: nat, b: int)
    requires k < |lhs| && lhs[k].lsb <= b <= EntryMsb(lhs[k])
    ensures exists q | 0 <= q < |PlanOf(Regions(lhs, rhs, bitLo, varWidth, skipUnused))| ::
      var p := PlanOf(Regions(lhs, rhs, bitLo, varWidth, skipUnused))[q];
      Contains(p, b) && lhs[k].lsb <= p.lsb && Msb(p) <= EntryMsb(lhs[k])
  {
    var rs := Regions(lhs, rhs, bitLo, varWidth, skipUnused);
    RegionsWellFormed(lhs, rhs, bitLo, varWidth, skipUnused);
    assert rs[k] == RegionOf(lhs[k]);
    RegionIsUnionOfPieces(rs, k, b);
  }

  /**
   * Looking up a write reference's lsb in the plan finds a piece that starts
   * there and lies inside the reference, so the "Not found" and "wrong
   * search result" checks of updateReferences cannot fire for writes.
   */
  lemma LookupOfWrite(lhs: seq<Entry>, rhs: seq<Entry>, bitLo: int, varWidth: nat, skipUnused: bool, k: nat)
    requires k < |lhs|
    ensures var plan := PlanOf(Regions(lhs, rhs, bitLo, varWidth, skipUnused));
      var u := UpperBound(plan, lhs[k].lsb);
      u < |plan| && plan[u].lsb == lhs[k].lsb && Msb(plan[u]) <= EntryMsb(lhs[k])
  {
    var rs := Regions(lhs, rhs, bitLo, varWidth, skipUnused);
    RegionsWellFormed(lhs, rhs, bitLo, varWidth, skipUnused);
    assert rs[k] == RegionOf(lhs[k]);
    UpperBoundOfRegion(rs, k);
  }

  // ---------------------------------------------------------------------
  // The skip test in split()

  /** No split: the plan is empty, or it is one piece as wide as the variable. */
  predicate SkipSplit(plan: seq<SplitNewVar>, varWidth: int)
  {
    |plan| == 0 || (|plan| == 1 && plan[0].bitwidth == varWidth)
  }

  /** For a traced variable (every bit kept) the split is skipped iff the plan is one piece. */
  lemma SkipIffOnePiece(lhs: seq<Entry>, rhs: seq<Entry>, bitLo: int, varWidth: nat)
    requires varWidth > 0
    requires forall k | 0 <= k < |lhs| :: bitLo <= lhs[k].lsb && EntryMsb(lhs[k]) < bitLo + varWidth
    ensures SkipSplit(PlanOf(Regions(lhs, rhs, bitLo, varWidth, false)), varWidth) <==>
      |PlanOf(Regions(lhs, rhs, bitLo, varWidth, false))| == 1
  {
    PlanTilesVariable(lhs, rhs, bitLo, varWidth);
  }

  /** The plan is empty exactly when nothing is written and no extra region is added. */
  lemma PlanEmptyWhenUnused(lhs: seq<Entry>, rhs: seq<Entry>, bitLo: int, varWidth: nat, skipUnused: bool)
    ensures PlanOf(Regions(lhs, rhs, bitLo, varWidth, skipUnused)) == [] <==>
      |lhs| == 0 && (skipUnused ==> |rhs| == 0) && (!skipUnused ==> varWidth == 0)
  {
    var rs := Regions(lhs, rhs, bitLo, varWidth, skipUnused);
    RegionsWellFormed(lhs, rhs, bitLo, varWidth, skipUnused);
    PlanEmptyIff(rs);
    if |lhs| > 0 {
      assert rs[0] == RegionOf(lhs[0]);
    } else if skipUnused && |rhs| > 0 {
      EnvelopeNonEmpty(rhs, bitLo, varWidth);
      assert rs[0] == ReadEnvelope(rhs, bitLo, varWidth);
    } else if !skipUnused {
      assert rs[0] == Region(bitLo, bitLo + varWidth);
    }
  }

  // ---------------------------------------------------------------------
  // Automatic candidates (findCandidates)

  /** How one reference uses the variable. */
  datatype RefUse =
    | NotSel              // not the "from" operand of an AstSel
    | SelNonConstLsb      // selected with a non-constant lsb
    | SelConst(lsb: int, width: Width)

  datatype CandidateVar = CandidateVar(isFuncReturn: bool, isIO: bool, hasXref: bool)

  /** An inclusive [lo, hi] select range. */
  datatype SelRange = SelRange(lo: int, hi: int)

  predicate AllConstSels(uses: seq<RefUse>)
  {
    forall k | 0 <= k < |uses| :: uses[k].SelConst?
  }

  /** The variable cannot be considered automatically (set on any of its references). */
  predicate Ineligible(v: CandidateVar, uses: seq<RefUse>)
  {
    |uses| > 0 && (v.isFuncReturn || v.isIO || v.hasXref || !AllConstSels(uses))
  }

  function RangesOf(uses: seq<RefUse>): (r: seq<SelRange>)
    requires AllConstSels(uses)
    ensures |r| == |uses|
    ensures forall k | 0 <= k < |uses| ::
      r[k] == SelRange(uses[k].lsb, uses[k].lsb + uses[k].width - 1) && r[k].lo <= r[k].hi
  {
    if uses == [] then []
    else
      var last := uses[|uses| - 1];
      RangesOf(uses[..|uses| - 1]) + [SelRange(last.lsb, last.lsb + last.width - 1)]
  }

  /** The gathering loop for one variable's references. */
  method GatherRanges(v: CandidateVar, uses: seq<RefUse>) returns (ineligible: bool, ranges: seq<SelRange>)
    ensures ineligible <==> Ineligible(v, uses)
    ensures !ineligible ==> AllConstSels(uses) && ranges == RangesOf(uses)
  {
    ineligible := false;
    ranges := [];
    var i := 0;
    while i < |uses|
      invariant 0 <= i <= |uses|
      invariant ineligible <==> Ineligible(v, uses[..i])
      invariant !ineligible ==> AllConstSels(uses[..i]) && ranges == RangesOf(uses[..i])
    {
      assert uses[..i + 1][..i] == uses[..i];
      assert forall k | 0 <= k < i :: uses[..i + 1][k] == uses[..i][k];
      if ineligible {
      } else if v.isFuncReturn || v.isIO || v.hasXref {
        ineligible := true;
      } else if !uses[i].SelConst? {
        ineligible := true;
      } else {
        ranges := ranges + [SelRange(uses[i].lsb, uses[i].lsb + uses[i].width - 1)];
      }
      i := i + 1;
    }
    assert uses[..i] == uses;
  }

  /** The order of the sort in findCandidates: by lo, then by hi. */
  predicate RangeLe(a: SelRange, b: SelRange)
  {
    a.lo < b.lo || (a.lo == b.lo && a.hi <= b.hi)
  }

  predicate SortedRanges(rs: seq<SelRange>)
  {
    forall i, j | 0 <= i < j < |rs| :: RangeLe(rs[i], rs[j])
  }

  function InsertRange(x: SelRange, rs: seq<SelRange>): (r: seq<SelRange>)
    ensures multiset(r) == multiset(rs) + multiset{x}
  {
    if rs == [] then [x]
    else if RangeLe(x, rs[0]) then [x] + rs
    else
      assert rs == [rs[0]] + rs[1..];
      [rs[0]] + InsertRange(x, rs[1..])
  }

  lemma SortedRangesCons(x: SelRange, t: seq<SelRange>)
    requires SortedRanges(t)
    requires forall k | 0 <= k < |t| :: RangeLe(x, t[k])
    ensures SortedRanges([x] + t)
  {
    var r := [x] + t;
    forall i, j | 0 <= i < j < |r|
      ensures RangeLe(r[i], r[j])
    {
      assert r[j] == t[j - 1];
      if i > 0 {
        assert r[i] == t[i - 1];
      }
    }
  }

  lemma {:induction false} InsertRangeSorted(x: SelRange, rs: seq<SelRange>)
    requires SortedRanges(rs)
    ensures SortedRanges(InsertRange(x, rs))
  {
    if rs == [] {
    } else if RangeLe(x, rs[0]) {
      SortedRangesCons(x, rs);
    } else {
      var u := rs[1..];
      var t := InsertRange(x, u);
      assert SortedRanges(u) by {
        forall i, j | 0 <= i < j < |u| ensures RangeLe(u[i], u[j]) {
          assert u[i] == rs[i + 1] && u[j] == rs[j + 1];
        }
      }
      InsertRangeSorted(x, u);
      forall k | 0 <= k < |t|
        ensures RangeLe(rs[0], t[k])
      {
        assert t[k] in multiset(u) + multiset{x};
        if t[k] != x {
          assert t[k] in u;
          var j :| 0 <= j < |u| && u[j] == t[k];
          assert u[j] == rs[j + 1];
        }
      }
      SortedRangesCons(rs[0], t);
    }
  }

  /** An insertion sort standing for std::sort; equal keys are equal ranges. */
  function SortRanges(rs: seq<SelRange>): (r: seq<SelRange>)
    ensures SortedRanges(r)
    ensures multiset(r) == multiset(rs)
  {
    if rs == [] then []
    else
      assert rs == [rs[0]] + rs[1..];
      var t := SortRanges(rs[1..]);
      InsertRangeSorted(rs[0], t);
      InsertRange(rs[0], t)
  }

  /** Two selects may coexist: the same range, or ranges that do not meet. */
  predicate Compatible(a: SelRange, b: SelRange)
  {
    a == b || a.hi < b.lo || b.hi < a.lo
  }

  /** No two selects overlap without being equal. */
  predicate AllCompatible(rs: seq<SelRange>)
  {
    forall a, b | a in rs && b in rs :: Compatible(a, b)
  }

  /** What the loop over neighbours tests. */
  predicate AdjacentCompatible(rs: seq<SelRange>)
  {
    forall i | 0 <= i < |rs| - 1 :: rs[i] == rs[i + 1] || rs[i].hi < rs[i + 1].lo
  }

  lemma {:induction false} AdjacentPair(rs: seq<SelRange>, i: nat, j: nat)
    requires SortedRanges(rs) && AdjacentCompatible(rs) && i < j < |rs|
    ensures rs[i] == rs[j] || rs[i].hi < rs[j].lo
    decreases j - i
  {
    if j > i + 1 {
      AdjacentPair(rs, i, j - 1);
      assert RangeLe(rs[j - 1], rs[j]);
    }
  }

  /**
   * On sorted ranges with lo <= hi, checking neighbours decides whether
   * every pair is compatible.
   */
  lemma AdjacentSuffices(rs: seq<SelRange>)
    requires SortedRanges(rs)
    requires forall k | 0 <= k < |rs| :: rs[k].lo <= rs[k].hi
    ensures AdjacentCompatible(rs) <==> AllCompatible(rs)
  {
    if AdjacentCompatible(rs) {
      forall a, b | a in rs && b in rs
        ensures Compatible(a, b)
      {
        var i :| 0 <= i < |rs| && rs[i] == a;
        var j :| 0 <= j < |rs| && rs[j] == b;
        if i < j {
          AdjacentPair(rs, i, j);
        } else if j < i {
          AdjacentPair(rs, j, i);
        }
      }
    }
    if AllCompatible(rs) {
      forall i | 0 <= i < |rs| - 1
        ensures rs[i] == rs[i + 1] || rs[i].hi < rs[i + 1].lo
      {
        assert Compatible(rs[i], rs[i + 1]);
        assert RangeLe(rs[i], rs[i + 1]);
      }
    }
  }

  lemma SameMembersCompatible(a: seq<SelRange>, b: seq<SelRange>)
    requires multiset(a) == multiset(b)
    ensures AllCompatible(a) <==> AllCompatible(b)
  {
    forall x ensures x in a <==> x in b {
      assert x in a <==> x in multiset(a);
      assert x in b <==> x in multiset(b);
    }
  }

  /** The overlap loop over the sorted ranges. */
  method HasOverlap(ranges: seq<SelRange>) returns (overlap: bool)
    ensures (forall k | 0 <= k < |ranges| :: ranges[k].lo <= ranges[k].hi) ==>
      (overlap <==> !AllCompatible(ranges))
  {
    var sorted := SortRanges(ranges);
    overlap := false;
    var i := 0;
    while i + 1 < |sorted|
      invariant 0 <= i && (i < |sorted| || i == 0)
      invariant forall k | 0 <= k < i :: sorted[k] == sorted[k + 1] || sorted[k].hi < sorted[k + 1].lo
    {
      var a, b := sorted[i], sorted[i + 1];
      if a == b {
      } else if a.hi < b.lo {
      } else {
        overlap := true;
        break;
      }
      i := i + 1;
    }
    assert !overlap ==> AdjacentCompatible(sorted);
    assert overlap ==> !AdjacentCompatible(sorted);
    if forall k | 0 <= k < |ranges| :: ranges[k].lo <= ranges[k].hi {
      forall k | 0 <= k < |sorted| ensures sorted[k].lo <= sorted[k].hi {
        assert sorted[k] in multiset(ranges);
      }
      AdjacentSuffices(sorted);
      SameMembersCompatible(sorted, ranges);
    }
  }

  /**
   * The candidate flag (user2) findCandidates leaves for one variable: None
   * when it is not set (no references, or ineligible), otherwise whether no
   * two select ranges overlap without being equal.
   */
  method FindCandidate(v: CandidateVar, uses: seq<RefUse>) returns (user2: Option<bool>)
    ensures user2.None? <==> |uses| == 0 || Ineligible(v, uses)
    ensures user2.Some? ==> AllConstSels(uses) && (user2.value <==> AllCompatible(RangesOf(uses)))
  {
    if |uses| == 0 {
      return None;
    }
    var ineligible, ranges := GatherRanges(v, uses);
    if ineligible {
      return None;
    }
    var overlap := HasOverlap(ranges);
    user2 := Some(!overlap);
  }

  // ---------------------------------------------------------------------
  // Why a variable cannot be split

  datatype VarType = Variable | Wire | Port | WReal | OtherVarType

  datatype Direction = NoDirection | Input | Output | Inout | Ref | ConstRef

  datatype FTask = FTask(prototype: bool, dpiImport: bool, dpiOpenChild: bool)

  /** What the checks read from an AstVar. */
  datatype VarFacts = VarFacts(
    ownerTask: Option<FTask>,      // backp() when it is an AstNodeFTask
    varType: VarType,
    direction: Direction,
    sigPublic: bool,
    usedLoopIdx: bool,
    forceable: bool,
    basicIsBitLogic: Option<bool>, // None when the dtype has no basic type
    unpackedDims: nat,             // dimensions(false).second
    isUnpackArray: bool,           // skipRefp() is an AstUnpackArrayDType
    widthMin: nat)

  datatype Reason =
    | TaskPrototype | TaskDpiImport | TaskDpiOpenArray
    | NotVarNetPort | RefArgument | InoutPort
    | IsPublic | LoopVariable | IsForceable
    | NotUnpackedArray | BitwidthOne | NotBitLogic | TypeUnknown | NotConnected

  function ReasonText(r: Reason): string
  {
    match r
    case TaskPrototype => "the task is prototype declaration"
    case TaskDpiImport => "the task is imported from DPI-C"
    case TaskDpiOpenArray => "the task takes DPI-C open array"
    case NotVarNetPort => "it is not one of variable, net, port, nor wreal"
    case RefArgument => "it is a ref argument"
    case InoutPort => "it is an inout port"
    case IsPublic => "it is public"
    case LoopVariable => "it is used as a loop variable"
    case IsForceable => "it is forceable"
    case NotUnpackedArray => "it is not an unpacked array"
    case BitwidthOne => "its bitwidth is 1"
    case NotBitLogic => "it is not an aggregate type of bit nor logic"
    case TypeUnknown => "its type is unknown"
    case NotConnected => "it is not connected"
  }

  function TaskReason(t: FTask): (r: Option<Reason>)
    ensures r.None? <==> !t.prototype && !t.dpiImport && !t.dpiOpenChild
    ensures r == Some(TaskPrototype) <==> t.prototype
    ensures r == Some(TaskDpiImport) <==> !t.prototype && t.dpiImport
    ensures r == Some(TaskDpiOpenArray) <==> !t.prototype && !t.dpiImport && t.dpiOpenChild
  {
    if t.prototype then Some(TaskPrototype)
    else if t.dpiImport then Some(TaskDpiImport)
    else if t.dpiOpenChild then Some(TaskDpiOpenArray)
    else None
  }

  function VarTypeReason(t: VarType): (r: Option<Reason>)
    ensures r.None? <==> t in {Variable, Wire, Port, WReal}
    ensures r.Some? ==> r.value == NotVarNetPort
  {
    if t == Variable || t == Wire || t == Port || t == WReal then None else Some(NotVarNetPort)
  }

  function DirectionReason(d: Direction): (r: Option<Reason>)
    ensures r.None? <==> d != Ref && d != Inout
    ensures r == Some(RefArgument) <==> d == Ref
  {
    if d == Ref then Some(RefArgument)
    else if d == Inout then Some(InoutPort)
    else None
  }

  /** A port pin: None when it has no module variable, else that variable's direction. */
  function ConnectedPortReason(modVarDirection: Option<Direction>): (r: Option<Reason>)
    ensures modVarDirection.None? ==> r == Some(NotConnected)
    ensures modVarDirection.Some? ==> r == DirectionReason(modVarDirection.value)
  {
    match modVarDirection
    case None => Some(NotConnected)
    case Some(d) => DirectionReason(d)
  }

  /** The condition behind each of the common reasons, independent of order. */
  predicate CommonFails(v: VarFacts, q: Reason)
  {
    match q
    case TaskPrototype => v.ownerTask.Some? && v.ownerTask.value.prototype
    case TaskDpiImport => v.ownerTask.Some? && v.ownerTask.value.dpiImport
    case TaskDpiOpenArray => v.ownerTask.Some? && v.ownerTask.value.dpiOpenChild
    case NotVarNetPort => v.varType !in {Variable, Wire, Port, WReal}
    case RefArgument => v.direction == Ref
    case InoutPort => v.direction == Inout
    case IsPublic => v.sigPublic
    case LoopVariable => v.usedLoopIdx
    case IsForceable => v.forceable
    case _ => false
  }

  /** The position of each common reason in the fixed checking order. */
  function CommonRank(q: Reason): nat
  {
    match q
    case TaskPrototype => 0
    case TaskDpiImport => 1
    case TaskDpiOpenArray => 2
    case NotVarNetPort => 3
    case RefArgument => 4
    case InoutPort => 5
    case IsPublic => 6
    case LoopVariable => 7
    case IsForceable => 8
    case _ => 9
  }

  /** cannotSplitVarCommonReason: the first failing check in the fixed order. */
  function CommonReason(v: VarFacts): (r: Option<Reason>)
    ensures r.Some? ==> CommonFails(v, r.value)
    ensures r.Some? ==> forall q | CommonRank(q) < CommonRank(r.value) :: !CommonFails(v, q)
    ensures r.None? <==> forall q :: !CommonFails(v, q)
  {
    var taskReason := if v.ownerTask.Some? then TaskReason(v.ownerTask.value) else None;
    var r :=
      if taskReason.Some? then taskReason
      else if VarTypeReason(v.varType).Some? then VarTypeReason(v.varType)
      else if DirectionReason(v.direction).Some? then DirectionReason(v.direction)
      else if v.sigPublic then Some(IsPublic)
      else if v.usedLoopIdx then Some(LoopVariable)
      else if v.forceable then Some(IsForceable)
      else None;
    assert r.Some? ==> CommonFails(v, r.value);
    r
  }

  /** cannotSplitReason of the unpacked splitter. */
  function UnpackedReason(v: VarFacts): (r: Option<Reason>)
    ensures r.None? <==> v.unpackedDims >= 1 && v.isUnpackArray && CommonReason(v).None?
    ensures v.unpackedDims >= 1 && v.isUnpackArray ==> r == CommonReason(v)
  {
    if v.unpackedDims < 1 || !v.isUnpackArray then Some(NotUnpackedArray) else CommonReason(v)
  }

  /** cannotSplitReason of the packed splitter. */
  function PackedReason(v: VarFacts, checkUnpacked: bool): (r: Option<Reason>)
    ensures r.None? <==>
      && v.basicIsBitLogic == Some(true)
      && (!checkUnpacked || v.unpackedDims == 0) && v.widthMin > 1
      && CommonReason(v).None?
    ensures v.basicIsBitLogic.None? ==> r == Some(TypeUnknown)
  {
    match v.basicIsBitLogic
    case None => Some(TypeUnknown)
    case Some(isBitLogic) =>
      if !((!checkUnpacked || v.unpackedDims == 0) && v.widthMin > 1) then Some(BitwidthOne)
      else if !isBitLogic then Some(NotBitLogic)
      else CommonReason(v)
  }

  /** canSplitVar: one of the two splitters accepts the variable. */
  predicate CanSplitVar(v: VarFacts)
  {
    UnpackedReason(v).None? || PackedReason(v, false).None?
  }

  /** Whichever splitter accepts a variable, none of the common checks fails. */
  lemma CanSplitPassesCommon(v: VarFacts)
    requires CanSplitVar(v)
    ensures forall q :: !CommonFails(v, q)
    ensures !v.sigPublic && !v.forceable && v.direction != Ref && v.direction != Inout
  {
    assert !CommonFails(v, IsPublic) && !CommonFails(v, IsForceable);
    assert !CommonFails(v, RefArgument) && !CommonFails(v, InoutPort);
  }

  /** Checking unpacked dimensions only rejects more variables. */
  lemma PackedCheckUnpackedStricter(v: VarFacts)
    requires PackedReason(v, true).None?
    ensures PackedReason(v, false).None?
  {
  }
}
