/**
 * Reference-count dead-code elimination (V3Dead.cpp).  The tree walk that
 * counts references is summarised by what it leaves behind: a reference
 * count (`user1`) for every node and the worklists of candidates.  The
 * elimination itself is modelled as it runs: worklist loops that delete
 * zero-count items, decrement what those items referenced, null them out
 * of the worklist, and repeat while a pass deleted anything.
 *
 * Nodes are numbered; `count[n]` is the `user1` of node n.
 */
module Dead {
  import opened Wrappers

  // ---------------------------------------------------------------------
  // Pure tests

  /** What mightElimVar looks at on an AstVar. */
  datatype VarInfo = VarInfo(
    sigPublic: bool, isIO: bool, classMember: bool, sensIface: bool,
    isTemp: bool, isTrace: bool)

  /** A variable that is visible outside the design or to the scheduler. */
  predicate Pinned(v: VarInfo)
  {
    v.sigPublic || v.isIO || v.classMember || v.sensIface
  }

  /** May the variable be removed when nothing references it? */
  function MightElimVar(v: VarInfo, elimUserVars: bool): (r: bool)
    ensures Pinned(v) ==> !r
    ensures !Pinned(v) && v.isTemp && !v.isTrace ==> r
    ensures !Pinned(v) && !(v.isTemp && !v.isTrace) ==> (r <==> elimUserVars)
  {
    if v.sigPublic then false
    else if v.isIO || v.classMember || v.sensIface then false
    else if v.isTemp && !v.isTrace then true
    else elimUserVars
  }

  /** The passes that eliminate user variables may remove every variable the others may. */
  lemma ElimUserVarsWidens(v: VarInfo)
    ensures MightElimVar(v, false) ==> MightElimVar(v, true)
    ensures MightElimVar(v, true) && !MightElimVar(v, false) ==> !(v.isTemp && !v.isTrace)
  {
  }

  /** The struct or union under a typedef, when there is one. */
  datatype StructRef = StructRef(node: nat, packed: bool)

  /** A typedef: its node, its public attribute, its struct, and the dtypes checkAll counts for it. */
  datatype TypedefInfo = TypedefInfo(node: nat, attrPublic: bool, subStruct: Option<StructRef>, refs: seq<nat>)

  /** An unpacked struct under the typedef that something references. */
  predicate HoldsReferencedUnpacked(t: TypedefInfo, count: seq<int>)
    requires t.subStruct.Some? ==> t.subStruct.value.node < |count|
  {
    t.subStruct.Some? && count[t.subStruct.value.node] != 0 && !t.subStruct.value.packed
  }

  function ShouldDeleteTypedef(t: TypedefInfo, count: seq<int>, elimCells: bool): (r: bool)
    requires t.subStruct.Some? ==> t.subStruct.value.node < |count|
    ensures r ==> elimCells && !t.attrPublic && !HoldsReferencedUnpacked(t, count)
    ensures elimCells && !t.attrPublic && !HoldsReferencedUnpacked(t, count) ==> r
  {
    if t.subStruct.Some? && count[t.subStruct.value.node] != 0 && !t.subStruct.value.packed then false
    else elimCells && !t.attrPublic
  }

  // ---------------------------------------------------------------------
  // Counting occurrences

  /** How many times n occurs in s. */
  function Occ(s: seq<nat>, n: nat): nat
  {
    if s == [] then 0 else Occ(s[..|s| - 1], n) + (if s[|s| - 1] == n then 1 else 0)
  }

  lemma {:induction false} OccPositive(s: seq<nat>, n: nat)
    requires Occ(s, n) > 0
    ensures n in s
  {
    if s[|s| - 1] != n {
      OccPositive(s[..|s| - 1], n);
      var k :| 0 <= k < |s| - 1 && s[..|s| - 1][k] == n;
      assert s[k] == n;
    }
  }

  lemma {:induction false} OccAbsent(s: seq<nat>, n: nat)
    requires n !in s
    ensures Occ(s, n) == 0
  {
    if s != [] {
      assert forall k | 0 <= k < |s| - 1 :: s[..|s| - 1][k] == s[k];
      OccAbsent(s[..|s| - 1], n);
    }
  }

  lemma {:induction false} OccPresent(s: seq<nat>, n: nat)
    requires n in s
    ensures Occ(s, n) > 0
  {
    if s[|s| - 1] != n {
      var k :| 0 <= k < |s| && s[k] == n;
      assert s[..|s| - 1][k] == n;
      OccPresent(s[..|s| - 1], n);
    }
  }

  function OptList(o: Option<nat>): seq<nat>
  {
    if o.Some? then [o.value] else []
  }

  // ---------------------------------------------------------------------
  // Worklists

  /**
   * A candidate for deletion: its node, the nodes whose counts drop by one
   * when it is deleted (with repetition), and the nodes deleted with it.
   */
  datatype Item = Item(node: nat, refs: seq<nat>, also: seq<nat>)

  predicate ItemIn(it: Item, size: nat)
  {
    it.node < size && forall r | r in it.refs :: r < size
  }

  /** Every live worklist entry names nodes that have a count. */
  predicate ItemsIn(w: seq<Option<Item>>, size: nat)
  {
    forall k | 0 <= k < |w| && w[k].Some? :: ItemIn(w[k].value, size)
  }

  predicate SeqIn(items: seq<Item>, size: nat)
  {
    forall k | 0 <= k < |items| :: ItemIn(items[k], size)
  }

  /** Each entry of w' is the entry of w or has been nulled out. */
  predicate Weakened(w: seq<Option<Item>>, w': seq<Option<Item>>)
  {
    |w'| == |w| && forall k | 0 <= k < |w| :: w'[k] == w[k] || w'[k].None?
  }

  /** No live entry of the worklist has a zero count: a pass would delete nothing. */
  predicate FixedPoint(w: seq<Option<Item>>, count: seq<int>)
  {
    forall k | 0 <= k < |w| && w[k].Some? :: w[k].value.node < |count| && count[w[k].value.node] != 0
  }

  function Contrib(o: Option<Item>, n: nat): nat
  {
    if o.Some? then Occ(o.value.refs, n) else 0
  }

  /** The references to n held by the live entries of the worklist. */
  function WorkRefs(w: seq<Option<Item>>, n: nat): nat
  {
    if w == [] then 0 else Contrib(w[0], n) + WorkRefs(w[1..], n)
  }

  function LiveCount(w: seq<Option<Item>>): nat
  {
    if w == [] then 0 else (if w[0].Some? then 1 else 0) + LiveCount(w[1..])
  }

  /**
   * Counts minus the references held by live entries are the same before
   * and after: every decrement is paid for by an entry leaving the list.
   */
  predicate Balanced(c0: seq<int>, w0: seq<Option<Item>>, c1: seq<int>, w1: seq<Option<Item>>)
  {
    |c0| == |c1| && forall n | 0 <= n < |c0| :: c1[n] - WorkRefs(w1, n) == c0[n] - WorkRefs(w0, n)
  }

  /** The nodes of the entries that were live in w and are nulled in w'. */
  function Nulled(w: seq<Option<Item>>, w': seq<Option<Item>>): set<nat>
    requires |w'| == |w|
  {
    set k | 0 <= k < |w| && w[k].Some? && w'[k].None? :: w[k].value.node
  }

  lemma NulledNone(w: seq<Option<Item>>)
    ensures Nulled(w, w) == {}
  {
  }

  lemma NulledStep(w: seq<Option<Item>>, w': seq<Option<Item>>, i: nat)
    requires |w'| == |w| && i < |w| && w'[i] == w[i] && w[i].Some?
    ensures Nulled(w, w'[i := None]) == Nulled(w, w') + {w[i].value.node}
  {
    var a := Nulled(w, w'[i := None]);
    var b := Nulled(w, w') + {w[i].value.node};
    forall x | x in b
      ensures x in a
    {
      if x != w[i].value.node {
        var k :| 0 <= k < |w| && w[k].Some? && w'[k].None? && w[k].value.node == x;
        assert w'[i := None][k].None?;
      }
    }
  }

  lemma NulledTrans(w: seq<Option<Item>>, w': seq<Option<Item>>, w'': seq<Option<Item>>)
    requires Weakened(w, w') && Weakened(w', w'')
    ensures Nulled(w, w'') == Nulled(w, w') + Nulled(w', w'')
  {
    forall x | x in Nulled(w, w'')
      ensures x in Nulled(w, w') + Nulled(w', w'')
    {
      var k :| 0 <= k < |w| && w[k].Some? && w''[k].None? && w[k].value.node == x;
      if w'[k].Some? {
        assert w'[k] == w[k];
      }
    }
    forall x | x in Nulled(w', w'')
      ensures x in Nulled(w, w'')
    {
      var k :| 0 <= k < |w'| && w'[k].Some? && w''[k].None? && w'[k].value.node == x;
      assert w'[k] == w[k];
    }
  }

  lemma {:induction false} WorkRefsNull(w: seq<Option<Item>>, i: nat, n: nat)
    requires i < |w|
    ensures WorkRefs(w[i := None], n) == WorkRefs(w, n) - Contrib(w[i], n)
  {
    if i == 0 {
      assert w[i := None][1..] == w[1..];
    } else {
      assert w[i := None][1..] == w[1..][i - 1 := None];
      WorkRefsNull(w[1..], i - 1, n);
    }
  }

  lemma {:induction false} LiveNull(w: seq<Option<Item>>, i: nat)
    requires i < |w| && w[i].Some?
    ensures LiveCount(w[i := None]) == LiveCount(w) - 1
  {
    if i == 0 {
      assert w[i := None][1..] == w[1..];
    } else {
      assert w[i := None][1..] == w[1..][i - 1 := None];
      LiveNull(w[1..], i - 1);
    }
  }

  /** A positive reference total has a live entry that holds the reference. */
  lemma {:induction false} WorkRefsPositive(w: seq<Option<Item>>, n: nat) returns (k: nat)
    requires WorkRefs(w, n) > 0
    ensures k < |w| && w[k].Some? && n in w[k].value.refs
  {
    if Contrib(w[0], n) > 0 {
      OccPositive(w[0].value.refs, n);
      k := 0;
    } else {
      var j := WorkRefsPositive(w[1..], n);
      k := j + 1;
    }
  }

  /**
   * At a fixed point, a surviving entry whose count is made only of
   * references from the worklist is referenced by another survivor:
   * nothing survives only because of references from deleted items.
   */
  lemma WorkSurvivorReferenced(w: seq<Option<Item>>, count: seq<int>, k: nat) returns (j: nat)
    requires FixedPoint(w, count)
    requires k < |w| && w[k].Some?
    requires 0 <= count[w[k].value.node] <= WorkRefs(w, w[k].value.node)
    ensures j < |w| && w[j].Some? && w[k].value.node in w[j].value.refs
  {
    j := WorkRefsPositive(w, w[k].value.node);
  }

  // ---------------------------------------------------------------------
  // The retry loops as functions

  /** A worklist and the counts beside it. */
  datatype Swept = Swept(w: seq<Option<Item>>, count: seq<int>)

  /** The counts after one decrement per occurrence of each node in refs. */
  function Drop(c: seq<int>, refs: seq<nat>): (r: seq<int>)
    ensures |r| == |c| && forall n | 0 <= n < |c| :: r[n] == c[n] - Occ(refs, n)
  {
    seq(|c|, n requires 0 <= n < |c| => c[n] - Occ(refs, n))
  }

  lemma DropMeaning(c: seq<int>, c': seq<int>, refs: seq<nat>)
    requires |c'| == |c| && forall n | 0 <= n < |c| :: c'[n] == c[n] - Occ(refs, n)
    ensures c' == Drop(c, refs)
  {
  }

  lemma ItemsInPrefix(w: seq<Option<Item>>, size: nat, k: nat)
    requires ItemsIn(w, size) && k <= |w|
    ensures ItemsIn(w[..k], size)
  {
    assert forall j | 0 <= j < k :: w[..k][j] == w[j];
  }

  /**
   * One pass of a retry loop over w: each entry in order, tested against
   * the counts its predecessors left, is nulled when its count is zero and
   * takes its references off the counts.
   */
  function Pass(w: seq<Option<Item>>, c: seq<int>): (r: Swept)
    requires ItemsIn(w, |c|)
    ensures |r.w| == |w| && |r.count| == |c|
  {
    if w == [] then Swept([], c)
    else
      var e := w[|w| - 1];
      ItemsInPrefix(w, |c|, |w| - 1);
      var p := Pass(w[..|w| - 1], c);
      if e.Some? && p.count[e.value.node] == 0 then Swept(p.w + [None], Drop(p.count, e.value.refs))
      else Swept(p.w + [e], p.count)
  }

  /** The pass over the first k entries of w. */
  function PassUpTo(w: seq<Option<Item>>, c: seq<int>, k: nat): (r: Swept)
    requires ItemsIn(w, |c|) && k <= |w|
    ensures |r.w| == k && |r.count| == |c|
  {
    ItemsInPrefix(w, |c|, k);
    Pass(w[..k], c)
  }

  /** The pass over one more entry. */
  lemma PassUpToStep(w: seq<Option<Item>>, c: seq<int>, i: nat)
    requires ItemsIn(w, |c|) && i < |w|
    ensures var p := PassUpTo(w, c, i); var p' := PassUpTo(w, c, i + 1);
      var goes := w[i].Some? && p.count[w[i].value.node] == 0;
      && (goes ==> p'.w == p.w + [None] && p'.count == Drop(p.count, w[i].value.refs))
      && (!goes ==> p'.w == p.w + [w[i]] && p'.count == p.count)
  {
    assert w[..i + 1][..i] == w[..i];
  }

  /** The counts entry k of w is tested against: those the entries before it left. */
  function CountsAtTurn(w: seq<Option<Item>>, c: seq<int>, k: nat): (r: seq<int>)
    requires ItemsIn(w, |c|) && k <= |w|
    ensures |r| == |c|
  {
    PassUpTo(w, c, k).count
  }

  /** A pass only nulls entries, keeps the nodes in range, and changes no count when it nulls nothing. */
  lemma {:induction false} PassWeakens(w: seq<Option<Item>>, c: seq<int>)
    requires ItemsIn(w, |c|)
    ensures Weakened(w, Pass(w, c).w) && ItemsIn(Pass(w, c).w, |c|)
    ensures Pass(w, c).w == w ==> Pass(w, c).count == c
  {
    if w != [] {
      var init := w[..|w| - 1];
      ItemsInPrefix(w, |c|, |w| - 1);
      PassWeakens(init, c);
      var p := Pass(init, c);
      var r := Pass(w, c);
      assert forall k | 0 <= k < |init| :: r.w[k] == p.w[k] && init[k] == w[k];
      if r.w == w {
        assert p.w == init by {
          assert forall k | 0 <= k < |init| :: p.w[k] == w[k];
        }
      }
    }
  }

  /**
   * An entry is nulled by the pass exactly when it is live and its count
   * is zero at its turn; an entry the pass keeps is unchanged.
   */
  lemma {:induction false} PassTurn(w: seq<Option<Item>>, c: seq<int>, k: nat)
    requires ItemsIn(w, |c|) && k < |w| && w[k].Some?
    ensures Pass(w, c).w[k].None? <==> CountsAtTurn(w, c, k)[w[k].value.node] == 0
    ensures Pass(w, c).w[k].Some? ==> Pass(w, c).w[k] == w[k]
  {
    var init := w[..|w| - 1];
    ItemsInPrefix(w, |c|, |w| - 1);
    if k < |w| - 1 {
      assert init[k] == w[k] && init[..k] == w[..k];
      PassTurn(init, c, k);
    } else {
      assert init == w[..k];
    }
  }

  lemma {:induction false} WorkRefsSnoc(w: seq<Option<Item>>, e: Option<Item>, n: nat)
    ensures WorkRefs(w + [e], n) == WorkRefs(w, n) + Contrib(e, n)
  {
    if w != [] {
      assert (w + [e])[1..] == w[1..] + [e];
      WorkRefsSnoc(w[1..], e, n);
    } else {
      assert ([e])[1..] == [];
    }
  }

  /** Every decrement of a pass is paid for by an entry it nulls. */
  lemma {:induction false} PassBalanced(w: seq<Option<Item>>, c: seq<int>)
    requires ItemsIn(w, |c|)
    ensures Balanced(c, w, Pass(w, c).count, Pass(w, c).w)
  {
    if w != [] {
      var init := w[..|w| - 1];
      var e := w[|w| - 1];
      ItemsInPrefix(w, |c|, |w| - 1);
      PassBalanced(init, c);
      var p := Pass(init, c);
      var r := Pass(w, c);
      assert w == init + [e];
      forall n | 0 <= n < |c|
        ensures r.count[n] - WorkRefs(r.w, n) == c[n] - WorkRefs(w, n)
      {
        WorkRefsSnoc(init, e, n);
        WorkRefsSnoc(p.w, r.w[|w| - 1], n);
        assert r.w == p.w + [r.w[|w| - 1]];
      }
    }
  }

  /** Nulling entries leaves fewer live entries, and strictly fewer when something was nulled. */
  lemma {:induction false} WeakenedLive(w: seq<Option<Item>>, w': seq<Option<Item>>)
    requires Weakened(w, w')
    ensures LiveCount(w') <= LiveCount(w)
    ensures w' != w ==> LiveCount(w') < LiveCount(w)
  {
    if w != [] {
      assert Weakened(w[1..], w'[1..]) by {
        assert forall k | 0 <= k < |w| - 1 :: w'[1..][k] == w'[k + 1] && w[1..][k] == w[k + 1];
      }
      WeakenedLive(w[1..], w'[1..]);
      if w' != w && w'[1..] == w[1..] {
        assert w'[0] != w[0];
      }
    }
  }

  /** A pass keeps the nodes in range, and one that nulls something leaves fewer live entries. */
  lemma PassShrinks(w: seq<Option<Item>>, c: seq<int>)
    requires ItemsIn(w, |c|)
    ensures ItemsIn(Pass(w, c).w, |c|)
    ensures Pass(w, c).w != w ==> LiveCount(Pass(w, c).w) < LiveCount(w)
  {
    PassWeakens(w, c);
    WeakenedLive(w, Pass(w, c).w);
  }

  /** Passes until one nulls nothing (for (bool retry = true; retry;)). */
  function Sweep(w: seq<Option<Item>>, c: seq<int>): (r: Swept)
    requires ItemsIn(w, |c|)
    ensures |r.w| == |w| && |r.count| == |c|
    decreases LiveCount(w)
  {
    PassShrinks(w, c);
    var p := Pass(w, c);
    if p.w == w then p else Sweep(p.w, p.count)
  }

  /** The retry loop only nulls entries and stops at a fixed point. */
  lemma {:induction false} SweepFixes(w: seq<Option<Item>>, c: seq<int>)
    requires ItemsIn(w, |c|)
    ensures var r := Sweep(w, c); Weakened(w, r.w) && ItemsIn(r.w, |c|) && FixedPoint(r.w, r.count)
    decreases LiveCount(w)
  {
    PassWeakens(w, c);
    var p := Pass(w, c);
    if p.w == w {
      PassFixed(w, c);
    } else {
      WeakenedLive(w, p.w);
      SweepFixes(p.w, p.count);
      WeakenedTrans(w, p.w, Sweep(p.w, p.count).w);
    }
  }

  lemma WeakenedTrans(w: seq<Option<Item>>, w': seq<Option<Item>>, w'': seq<Option<Item>>)
    requires Weakened(w, w') && Weakened(w', w'')
    ensures Weakened(w, w'')
  {
  }

  /** Every decrement of the retry loop is paid for by an entry it nulls. */
  lemma {:induction false} SweepBalanced(w: seq<Option<Item>>, c: seq<int>)
    requires ItemsIn(w, |c|)
    ensures Balanced(c, w, Sweep(w, c).count, Sweep(w, c).w)
    decreases LiveCount(w)
  {
    PassShrinks(w, c);
    PassBalanced(w, c);
    var p := Pass(w, c);
    if p.w != w {
      SweepBalanced(p.w, p.count);
    }
  }

  /** A pass that nulls nothing finds no live entry with a zero count. */
  lemma PassFixed(w: seq<Option<Item>>, c: seq<int>)
    requires ItemsIn(w, |c|) && Pass(w, c).w == w
    ensures FixedPoint(w, c)
  {
    forall k | 0 <= k < |w| && w[k].Some?
      ensures c[w[k].value.node] != 0
    {
      PassTurn(w, c, k);
      PassPrefixUnchanged(w, c, k);
    }
  }

  /** When a pass nulls nothing, the counts at every turn are the starting ones. */
  lemma {:induction false} PassPrefixUnchanged(w: seq<Option<Item>>, c: seq<int>, k: nat)
    requires ItemsIn(w, |c|) && k <= |w| && Pass(w, c).w == w
    ensures CountsAtTurn(w, c, k) == c
  {
    if k < |w| {
      var init := w[..|w| - 1];
      ItemsInPrefix(w, |c|, |w| - 1);
      PassWeakens(init, c);
      assert Pass(init, c).w == init by {
        assert forall j | 0 <= j < |init| :: Pass(init, c).w[j] == Pass(w, c).w[j] && init[j] == w[j];
      }
      assert init[..k] == w[..k];
      PassPrefixUnchanged(init, c, k);
    } else {
      assert w[..k] == w;
      PassWeakens(w, c);
    }
  }

  /** The worklist and counts after j passes. */
  function Passes(w: seq<Option<Item>>, c: seq<int>, j: nat): (r: Swept)
    requires ItemsIn(w, |c|)
    ensures ItemsIn(r.w, |r.count|) && |r.w| == |w|
    decreases j
  {
    if j == 0 then Swept(w, c)
    else
      PassShrinks(w, c);
      var p := Pass(w, c);
      Passes(p.w, p.count, j - 1)
  }

  /** Entry k of the worklist is it, and its count is zero at its turn: the pass nulls it (PassTurn). */
  predicate ZeroAtTurn(s: Swept, k: nat, it: Item)
    requires ItemsIn(s.w, |s.count|) && k < |s.w|
  {
    s.w[k] == Some(it) && CountsAtTurn(s.w, s.count, k)[it.node] == 0
  }

  /**
   * Every entry the retry loop nulls was still live after some number of
   * passes, and in the next pass its count was zero at its turn.
   */
  lemma {:induction false} SweepDeletesAtZero(w: seq<Option<Item>>, c: seq<int>, k: nat) returns (j: nat)
    requires ItemsIn(w, |c|) && k < |w| && w[k].Some? && Sweep(w, c).w[k].None?
    ensures ZeroAtTurn(Passes(w, c, j), k, w[k].value)
    decreases LiveCount(w)
  {
    PassShrinks(w, c);
    var p := Pass(w, c);
    PassTurn(w, c, k);
    if p.w[k].None? {
      j := 0;
    } else {
      assert p.w != w && Sweep(w, c) == Sweep(p.w, p.count);
      var j' := SweepDeletesAtZero(p.w, p.count, k);
      j := j' + 1;
      assert Passes(w, c, j) == Passes(p.w, p.count, j');
    }
  }

  // ---------------------------------------------------------------------
  // Modules

  /**
   * A cell somewhere inside a module: the nodes from the module's statement
   * that holds it down to the cell itself, and the node of the module it
   * instantiates.  The cell is still in the module's tree while none of
   * those nodes has been unlinked.
   */
  datatype CellAt = CellAt(path: seq<nat>, modp: nat)

  predicate Linked(c: CellAt, deleted: set<nat>)
  {
    forall p | p in c.path :: p !in deleted
  }

  /** The modules of the cells modp->foreach still finds, in tree order. */
  function LiveCellMods(cs: seq<CellAt>, deleted: set<nat>): seq<nat>
  {
    if cs == [] then []
    else LiveCellMods(cs[..|cs| - 1], deleted) + (if Linked(cs[|cs| - 1], deleted) then [cs[|cs| - 1].modp] else [])
  }

  /**
   * A module in the netlist's list: its node, its level (1 is the wrapper,
   * 2 the top user module), whether it is internal or already dead, and
   * every cell found anywhere inside it.
   */
  datatype ModInfo = ModInfo(node: nat, level: int, internal: bool, dead: bool, cells: seq<CellAt>)

  predicate ModsIn(ms: seq<ModInfo>, size: nat)
  {
    forall k | 0 <= k < |ms| :: ms[k].node < size && forall c | c in ms[k].cells :: c.modp < size
  }

  /** The deletion test of deadCheckMod. */
  predicate Doomed(m: ModInfo, count: seq<int>)
    requires m.node < |count|
  {
    m.dead || (m.level > 2 && count[m.node] == 0 && !m.internal)
  }

  /** A module deadCheckMod never deletes, whatever the counts. */
  predicate Kept(m: ModInfo)
  {
    !m.dead && (m.level <= 2 || m.internal)
  }

  /**
   * What deleting m takes off the count of module n: one for each cell
   * still linked in m; nothing for a dead module, whose cells were never
   * counted.
   */
  function ModContrib(m: ModInfo, deleted: set<nat>, n: nat): nat
  {
    if m.dead then 0 else Occ(LiveCellMods(m.cells, deleted), n)
  }

  /** The references to module n from linked cells of the modules in the list. */
  function CellRefs(ms: seq<ModInfo>, deleted: set<nat>, n: nat): nat
  {
    if ms == [] then 0 else ModContrib(ms[0], deleted, n) + CellRefs(ms[1..], deleted, n)
  }

  lemma {:induction false} CellRefsPositive(ms: seq<ModInfo>, deleted: set<nat>, n: nat) returns (k: nat)
    requires CellRefs(ms, deleted, n) > 0
    ensures k < |ms| && !ms[k].dead && n in LiveCellMods(ms[k].cells, deleted)
  {
    if ModContrib(ms[0], deleted, n) > 0 {
      OccPositive(LiveCellMods(ms[0].cells, deleted), n);
      k := 0;
    } else {
      var j := CellRefsPositive(ms[1..], deleted, n);
      k := j + 1;
    }
  }

  /** A module is in the live list exactly when some cell of it is still linked. */
  lemma {:induction false} LiveCellModsMeaning(cs: seq<CellAt>, deleted: set<nat>, n: nat)
    ensures n in LiveCellMods(cs, deleted) <==> exists k | 0 <= k < |cs| :: cs[k].modp == n && Linked(cs[k], deleted)
  {
    if cs != [] {
      var init := cs[..|cs| - 1];
      LiveCellModsMeaning(init, deleted, n);
      if n in LiveCellMods(init, deleted) {
        var k :| 0 <= k < |init| && init[k].modp == n && Linked(init[k], deleted);
        assert cs[k] == init[k];
      }
      assert forall k | 0 <= k < |init| :: init[k] == cs[k];
    }
  }

  /**
   * Deleting module m takes nothing off the count of module n exactly when
   * m is dead or every cell of m instantiating n has already been unlinked:
   * a cell deleted earlier is not found again.
   */
  lemma UnlinkedCellNotCounted(m: ModInfo, deleted: set<nat>, n: nat)
    ensures ModContrib(m, deleted, n) == 0
            <==> m.dead || forall k | 0 <= k < |m.cells| :: m.cells[k].modp == n ==> !Linked(m.cells[k], deleted)
  {
    if !m.dead {
      var live := LiveCellMods(m.cells, deleted);
      LiveCellModsMeaning(m.cells, deleted, n);
      if n in live {
        OccPresent(live, n);
      } else {
        OccAbsent(live, n);
      }
    }
  }

  /**
   * After deadCheckMod, a surviving module below the top whose count is
   * made only of cell references is instantiated by a cell still linked in
   * another surviving module that is not dead.
   */
  lemma SurvivorInstantiated(ms: seq<ModInfo>, deleted: set<nat>, count: seq<int>, k: nat) returns (j: nat)
    requires ModsIn(ms, |count|)
    requires forall i | 0 <= i < |ms| :: !Doomed(ms[i], count)
    requires k < |ms| && ms[k].level > 2 && !ms[k].internal
    requires 0 <= count[ms[k].node] <= CellRefs(ms, deleted, ms[k].node)
    ensures j < |ms| && !ms[j].dead
    ensures exists c | c in ms[j].cells :: c.modp == ms[k].node && Linked(c, deleted)
  {
    assert !Doomed(ms[k], count);
    j := CellRefsPositive(ms, deleted, ms[k].node);
    LiveCellModsMeaning(ms[j].cells, deleted, ms[k].node);
  }

  /** a is b with some elements left out, in the same order. */
  predicate Subseq<T(==)>(a: seq<T>, b: seq<T>)
  {
    a == [] || (b != [] && ((a[0] == b[0] && Subseq(a[1..], b[1..])) || Subseq(a, b[1..])))
  }

  lemma {:induction false} SubseqRefl<T>(a: seq<T>)
    ensures Subseq(a, a)
  {
    if a != [] {
      SubseqRefl(a[1..]);
    }
  }

  lemma {:induction false} SubseqRemove<T>(a: seq<T>, i: nat)
    requires i < |a|
    ensures Subseq(a[..i] + a[i + 1..], a)
    decreases i
  {
    var r := a[..i] + a[i + 1..];
    if i == 0 {
      assert r == a[1..];
      SubseqRefl(a[1..]);
      if r != [] {
        assert Subseq(r, a[1..]);
      }
    } else {
      assert r[0] == a[0];
      assert r[1..] == a[1..][..i - 1] + a[1..][i..];
      SubseqRemove(a[1..], i - 1);
    }
  }

  lemma {:induction false} SubseqTrans<T>(a: seq<T>, b: seq<T>, c: seq<T>)
    requires Subseq(a, b) && Subseq(b, c)
    ensures Subseq(a, c)
    decreases |c|
  {
    if a != [] {
      if Subseq(b, c[1..]) {
        SubseqTrans(a, b, c[1..]);
      } else if a[0] == b[0] && Subseq(a[1..], b[1..]) {
        SubseqTrans(a[1..], b[1..], c[1..]);
      } else {
        SubseqTrans(a, b[1..], c[1..]);
      }
    }
  }

  // ---------------------------------------------------------------------
  // The module walk as a function

  /** The modules whose counts drop by one when m is deleted: one per linked cell, none for a dead module. */
  function DeadRefs(m: ModInfo, deleted: set<nat>): (r: seq<nat>)
    ensures forall n :: Occ(r, n) == ModContrib(m, deleted, n)
  {
    if m.dead then [] else LiveCellMods(m.cells, deleted)
  }

  /** A module list, the counts beside it, and for each module walked whether it went. */
  datatype ModsOut = ModsOut(ms: seq<ModInfo>, count: seq<int>, gone: seq<bool>)

  lemma ModsInPrefix(ms: seq<ModInfo>, size: nat, k: nat)
    requires ModsIn(ms, size) && k <= |ms|
    ensures ModsIn(ms[..k], size)
  {
    assert forall j | 0 <= j < k :: ms[..k][j] == ms[j];
  }

  /**
   * One walk of deadCheckMod down ms: each module in order, tested against
   * the counts its predecessors left, goes when it is doomed and takes its
   * linked cells off the counts of the modules they instantiate.
   */
  function ModWalk(ms: seq<ModInfo>, c: seq<int>, deleted: set<nat>): (r: ModsOut)
    requires ModsIn(ms, |c|)
    ensures |r.count| == |c| && |r.gone| == |ms| && ModsIn(r.ms, |c|)
    ensures |r.ms| <= |ms| && (|r.ms| == |ms| ==> r.ms == ms && r.count == c)
  {
    if ms == [] then ModsOut([], c, [])
    else
      var m := ms[|ms| - 1];
      ModsInPrefix(ms, |c|, |ms| - 1);
      var p := ModWalk(ms[..|ms| - 1], c, deleted);
      if Doomed(m, p.count) then ModsOut(p.ms, Drop(p.count, DeadRefs(m, deleted)), p.gone + [true])
      else
        assert ms == ms[..|ms| - 1] + [m];
        ModsOut(p.ms + [m], p.count, p.gone + [false])
  }

  /** The walk over the first k modules of ms. */
  function ModWalkUpTo(ms: seq<ModInfo>, c: seq<int>, deleted: set<nat>, k: nat): (r: ModsOut)
    requires ModsIn(ms, |c|) && k <= |ms|
    ensures |r.count| == |c|
  {
    ModsInPrefix(ms, |c|, k);
    ModWalk(ms[..k], c, deleted)
  }

  /** The walk over one more module. */
  lemma ModWalkUpToStep(ms: seq<ModInfo>, c: seq<int>, deleted: set<nat>, j: nat)
    requires ModsIn(ms, |c|) && j < |ms|
    ensures var w := ModWalkUpTo(ms, c, deleted, j); var w' := ModWalkUpTo(ms, c, deleted, j + 1);
      && (Doomed(ms[j], w.count) ==> w'.ms == w.ms && w'.count == Drop(w.count, DeadRefs(ms[j], deleted)))
      && (!Doomed(ms[j], w.count) ==> w'.ms == w.ms + [ms[j]] && w'.count == w.count)
  {
    assert ms[..j + 1][..j] == ms[..j];
  }

  /** The modules of ms whose mark is false, in order. */
  function Unmarked(ms: seq<ModInfo>, gone: seq<bool>): seq<ModInfo>
    requires |gone| == |ms|
  {
    if ms == [] then []
    else Unmarked(ms[..|ms| - 1], gone[..|ms| - 1]) + (if gone[|ms| - 1] then [] else [ms[|ms| - 1]])
  }

  /**
   * A walk deletes a module exactly when it is doomed under the counts the
   * modules before it left, and keeps the others in their order.
   */
  lemma {:induction false} ModWalkTurn(ms: seq<ModInfo>, c: seq<int>, deleted: set<nat>, k: nat)
    requires ModsIn(ms, |c|) && k < |ms|
    ensures ModWalk(ms, c, deleted).gone[k] <==> Doomed(ms[k], ModWalkUpTo(ms, c, deleted, k).count)
  {
    var init := ms[..|ms| - 1];
    ModsInPrefix(ms, |c|, |ms| - 1);
    if k < |ms| - 1 {
      assert init[k] == ms[k] && init[..k] == ms[..k];
      ModWalkTurn(init, c, deleted, k);
    } else {
      assert init == ms[..k];
    }
  }

  lemma {:induction false} ModWalkKeeps(ms: seq<ModInfo>, c: seq<int>, deleted: set<nat>)
    requires ModsIn(ms, |c|)
    ensures ModWalk(ms, c, deleted).ms == Unmarked(ms, ModWalk(ms, c, deleted).gone)
  {
    if ms != [] {
      var init := ms[..|ms| - 1];
      ModsInPrefix(ms, |c|, |ms| - 1);
      ModWalkKeeps(init, c, deleted);
      assert ModWalk(ms, c, deleted).gone[..|ms| - 1] == ModWalk(init, c, deleted).gone;
    }
  }

  lemma {:induction false} SubseqSnoc<T>(a: seq<T>, b: seq<T>, x: T)
    requires Subseq(a, b)
    ensures Subseq(a + [x], b + [x])
    decreases |b|
  {
    if a == [] {
      if b != [] {
        assert (b + [x])[1..] == b[1..] + [x];
        SubseqSnoc([], b[1..], x);
      }
    } else {
      assert (a + [x])[1..] == a[1..] + [x] && (b + [x])[1..] == b[1..] + [x];
      if a[0] == b[0] && Subseq(a[1..], b[1..]) {
        SubseqSnoc(a[1..], b[1..], x);
      } else {
        SubseqSnoc(a, b[1..], x);
      }
    }
  }

  lemma {:induction false} CellRefsSnoc(ms: seq<ModInfo>, m: ModInfo, deleted: set<nat>, n: nat)
    ensures CellRefs(ms + [m], deleted, n) == CellRefs(ms, deleted, n) + ModContrib(m, deleted, n)
  {
    if ms != [] {
      assert (ms + [m])[1..] == ms[1..] + [m];
      CellRefsSnoc(ms[1..], m, deleted, n);
    } else {
      assert ([m])[1..] == [];
    }
  }

  /** A walk keeps the survivors in their order, and keeps every module it never deletes. */
  lemma {:induction false} ModWalkSubseq(ms: seq<ModInfo>, c: seq<int>, deleted: set<nat>)
    requires ModsIn(ms, |c|)
    ensures Subseq(ModWalk(ms, c, deleted).ms, ms)
    ensures forall m | m in ms && Kept(m) :: m in ModWalk(ms, c, deleted).ms
  {
    if ms == [] {
    } else {
      var init := ms[..|ms| - 1];
      var m := ms[|ms| - 1];
      ModsInPrefix(ms, |c|, |ms| - 1);
      ModWalkSubseq(init, c, deleted);
      var p := ModWalk(init, c, deleted);
      assert ms == init + [m];
      if Doomed(m, p.count) {
        SubseqRemove(ms, |ms| - 1);
        assert ms[..|ms| - 1] + ms[|ms|..] == init;
        SubseqTrans(p.ms, init, ms);
      } else {
        SubseqSnoc(p.ms, init, m);
      }
    }
  }

  /** Every decrement of a walk is paid for by a linked cell of a module it deletes. */
  lemma {:induction false} ModWalkBalanced(ms: seq<ModInfo>, c: seq<int>, deleted: set<nat>)
    requires ModsIn(ms, |c|)
    ensures var r := ModWalk(ms, c, deleted);
      forall n | 0 <= n < |c| :: r.count[n] - CellRefs(r.ms, deleted, n) == c[n] - CellRefs(ms, deleted, n)
  {
    if ms != [] {
      var init := ms[..|ms| - 1];
      var m := ms[|ms| - 1];
      ModsInPrefix(ms, |c|, |ms| - 1);
      ModWalkBalanced(init, c, deleted);
      var p := ModWalk(init, c, deleted);
      assert ms == init + [m];
      forall n | 0 <= n < |c|
        ensures ModWalk(ms, c, deleted).count[n] - CellRefs(ModWalk(ms, c, deleted).ms, deleted, n)
                == c[n] - CellRefs(ms, deleted, n)
      {
        CellRefsSnoc(init, m, deleted, n);
        CellRefsSnoc(p.ms, m, deleted, n);
      }
    }
  }

  /** A walk that deletes nothing found no doomed module. */
  lemma {:induction false} ModWalkFixed(ms: seq<ModInfo>, c: seq<int>, deleted: set<nat>)
    requires ModsIn(ms, |c|) && |ModWalk(ms, c, deleted).ms| == |ms|
    ensures forall k | 0 <= k < |ms| :: !Doomed(ms[k], c)
  {
    if ms != [] {
      var init := ms[..|ms| - 1];
      ModsInPrefix(ms, |c|, |ms| - 1);
      ModWalkFixed(init, c, deleted);
      assert forall k | 0 <= k < |init| :: init[k] == ms[k];
    }
  }

  /** Walks until one deletes nothing (for (bool retry = true; retry;)). */
  function ModFix(ms: seq<ModInfo>, c: seq<int>, deleted: set<nat>): (r: ModsOut)
    requires ModsIn(ms, |c|)
    ensures |r.count| == |c| && ModsIn(r.ms, |c|)
    decreases |ms|
  {
    var p := ModWalk(ms, c, deleted);
    if |p.ms| == |ms| then p else ModFix(p.ms, p.count, deleted)
  }

  /** The module list and counts after j walks. */
  function ModWalks(ms: seq<ModInfo>, c: seq<int>, deleted: set<nat>, j: nat): (r: ModsOut)
    requires ModsIn(ms, |c|)
    ensures ModsIn(r.ms, |r.count|)
    decreases j
  {
    if j == 0 then ModsOut(ms, c, [])
    else
      var p := ModWalk(ms, c, deleted);
      ModWalks(p.ms, p.count, deleted, j - 1)
  }

  lemma {:induction false} UnmarkedKeeps(ms: seq<ModInfo>, gone: seq<bool>, k: nat)
    requires |gone| == |ms| && k < |ms| && !gone[k]
    ensures ms[k] in Unmarked(ms, gone)
  {
    if k < |ms| - 1 {
      assert ms[..|ms| - 1][k] == ms[k] && gone[..|ms| - 1][k] == gone[k];
      UnmarkedKeeps(ms[..|ms| - 1], gone[..|ms| - 1], k);
    }
  }

  /**
   * Every module deadCheckMod deletes was, in some walk, at a place where
   * it was doomed under the counts the modules before it left.
   */
  lemma {:induction false} ModFixDeletesDoomed(ms: seq<ModInfo>, c: seq<int>, deleted: set<nat>, m: ModInfo)
    returns (j: nat, k: nat)
    requires ModsIn(ms, |c|) && m in ms && m !in ModFix(ms, c, deleted).ms
    ensures var s := ModWalks(ms, c, deleted, j);
      k < |s.ms| && s.ms[k] == m && ModWalk(s.ms, s.count, deleted).gone[k]
      && Doomed(m, ModWalkUpTo(s.ms, s.count, deleted, k).count)
    decreases |ms|
  {
    var p := ModWalk(ms, c, deleted);
    ModWalkKeeps(ms, c, deleted);
    if m in p.ms {
      assert |p.ms| < |ms|;
      j, k := ModFixDeletesDoomed(p.ms, p.count, deleted, m);
      j := j + 1;
      assert ModWalks(ms, c, deleted, j) == ModWalks(p.ms, p.count, deleted, j - 1);
    } else {
      j := 0;
      k :| 0 <= k < |ms| && ms[k] == m;
      if !p.gone[k] {
        UnmarkedKeeps(ms, p.gone, k);
      }
      ModWalkTurn(ms, c, deleted, k);
    }
  }

  // ---------------------------------------------------------------------
  // The collected candidates

  /** A scope with no variables and no blocks, not the top: removable when unreferenced. */
  datatype ScopeInfo = ScopeInfo(node: nat, above: nat, dtype: Option<nat>)

  /** A class: the nodes of its extends and of its package, when present. */
  datatype ClassInfo = ClassInfo(node: nat, extendsp: Option<nat>, classOrPackage: Option<nat>)

  /** A variable with its attributes and its dtype. */
  datatype VarNode = VarNode(node: nat, info: VarInfo, dtype: Option<nat>)

  /** A varscope: its node, its variable's attributes, its scope and its dtype. */
  datatype VarScopeInfo = VarScopeInfo(node: nat, info: VarInfo, scope: Option<nat>, dtype: nat)

  /** One entry of the multimap from a varscope to its simple assignments. */
  datatype AssignEntry = AssignEntry(vsc: nat, node: nat, dtype: nat)

  /**
   * A cell: its node, the node of its module, and the module's top-level
   * statements; the module has no statements once every one of them has
   * been unlinked.
   */
  datatype CellInfo = CellInfo(node: nat, modp: nat, modStmts: seq<nat>)

  /** An interface-reference variable of a top module, without a cell, and its interface. */
  datatype TopIface = TopIface(varNode: nat, iface: nat)

  /** A removable dtype; a struct or union lists its members' nodes. */
  datatype DTypeCand = DTypeCand(node: nat, members: Option<seq<nat>>)

  function ScopeItem(s: ScopeInfo): Item
  {
    Item(s.node, [s.above] + OptList(s.dtype), [])
  }

  function ClassItem(c: ClassInfo): Item
  {
    Item(c.node, OptList(c.extendsp) + OptList(c.classOrPackage), [])
  }

  function VarItem(v: VarNode): Item
  {
    Item(v.node, OptList(v.dtype), [])
  }

  function ScopeQueue(ss: seq<ScopeInfo>): (w: seq<Option<Item>>)
    ensures |w| == |ss| && forall k | 0 <= k < |ss| :: w[k] == Some(ScopeItem(ss[k]))
  {
    if ss == [] then [] else ScopeQueue(ss[..|ss| - 1]) + [Some(ScopeItem(ss[|ss| - 1]))]
  }

  function ClassQueue(cs: seq<ClassInfo>): (w: seq<Option<Item>>)
    ensures |w| == |cs| && forall k | 0 <= k < |cs| :: w[k] == Some(ClassItem(cs[k]))
  {
    if cs == [] then [] else ClassQueue(cs[..|cs| - 1]) + [Some(ClassItem(cs[|cs| - 1]))]
  }

  /** The variables the walk queues (m_varsp): those mightElimVar allows. */
  function VarQueue(vs: seq<VarNode>, elimUserVars: bool): (w: seq<Option<Item>>)
    ensures forall k | 0 <= k < |w| :: w[k].Some?
    ensures |w| <= |vs|
  {
    if vs == [] then []
    else
      var last := vs[|vs| - 1];
      VarQueue(vs[..|vs| - 1], elimUserVars) + (if MightElimVar(last.info, elimUserVars) then [Some(VarItem(last))] else [])
  }

  /** The dtypes of the assignments recorded for varscope v (equal_range). */
  function AssignDTypes(am: seq<AssignEntry>, v: nat): seq<nat>
  {
    if am == [] then []
    else AssignDTypes(am[..|am| - 1], v) + (if am[|am| - 1].vsc == v then [am[|am| - 1].dtype] else [])
  }

  function AssignNodes(am: seq<AssignEntry>, v: nat): seq<nat>
  {
    if am == [] then []
    else AssignNodes(am[..|am| - 1], v) + (if am[|am| - 1].vsc == v then [am[|am| - 1].node] else [])
  }

  /**
   * Deleting a varscope deletes its assignments (decrementing their
   * dtypes), then decrements its scope and its dtype.
   */
  function VarScopeItem(v: VarScopeInfo, am: seq<AssignEntry>): Item
  {
    Item(v.node, AssignDTypes(am, v.node) + OptList(v.scope) + [v.dtype], AssignNodes(am, v.node))
  }

  /** The varscopes the walk queues (m_vscsp): those whose variable mightElimVar allows. */
  function VarScopeQueue(vs: seq<VarScopeInfo>, am: seq<AssignEntry>, elimUserVars: bool): seq<Item>
  {
    if vs == [] then []
    else
      var last := vs[|vs| - 1];
      VarScopeQueue(vs[..|vs| - 1], am, elimUserVars) + (if MightElimVar(last.info, elimUserVars) then [VarScopeItem(last, am)] else [])
  }

  predicate CellsIn(cs: seq<CellInfo>, size: nat)
  {
    forall k | 0 <= k < |cs| :: cs[k].node < size && cs[k].modp < size
  }

  /** No cell is the module of a cell. */
  predicate CellsNotModules(cs: seq<CellInfo>)
  {
    forall j, k | 0 <= j < |cs| && 0 <= k < |cs| :: cs[j].node != cs[k].modp
  }

  /** The module's stmtsp() is null: all its statements have been unlinked. */
  predicate StmtsGone(stmts: seq<nat>, deleted: set<nat>)
  {
    forall x | x in stmts :: x in deleted
  }

  lemma StmtsGoneGrows(stmts: seq<nat>, d: set<nat>, d': set<nat>)
    requires StmtsGone(stmts, d) && d <= d'
    ensures StmtsGone(stmts, d')
  {
  }

  /** The counts and the deleted nodes after some cells, and the cells deleted so far. */
  datatype CellsOut = CellsOut(count: seq<int>, deleted: set<nat>, dropped: seq<CellInfo>)

  function NodesOf(cs: seq<CellInfo>): set<nat>
  {
    set c | c in cs :: c.node
  }

  function ModsOf(cs: seq<CellInfo>): seq<nat>
  {
    if cs == [] then [] else ModsOf(cs[..|cs| - 1]) + [cs[|cs| - 1].modp]
  }

  /** The deletion test of deadCheckCells, against the state at the cell's turn. */
  predicate CellGoes(c: CellInfo, count: seq<int>, deleted: set<nat>, fDeadCells: bool)
    requires c.node < |count|
  {
    count[c.node] == 0 && StmtsGone(c.modStmts, deleted) && fDeadCells
  }

  function CellStep(r: CellsOut, c: CellInfo, fDeadCells: bool): CellsOut
    requires c.node < |r.count| && c.modp < |r.count|
  {
    if CellGoes(c, r.count, r.deleted, fDeadCells)
    then CellsOut(r.count[c.modp := r.count[c.modp] - 1], r.deleted + {c.node}, r.dropped + [c])
    else r
  }

  lemma OccSnoc(s: seq<nat>, x: nat, n: nat)
    ensures Occ(s + [x], n) == Occ(s, n) + (if x == n then 1 else 0)
  {
    assert (s + [x])[..|s|] == s;
  }

  lemma CellStepMeaning(r0: CellsOut, c: CellInfo, fDeadCells: bool)
    requires c.node < |r0.count| && c.modp < |r0.count|
    ensures var r := CellStep(r0, c, fDeadCells);
      var goes := CellGoes(c, r0.count, r0.deleted, fDeadCells);
      && |r.count| == |r0.count|
      && r.deleted == r0.deleted + (if goes then {c.node} else {})
      && r.dropped == r0.dropped + (if goes then [c] else [])
      && forall n | 0 <= n < |r0.count| ::
           r.count[n] == r0.count[n] - (if goes && c.modp == n then 1 else 0)
           && Occ(ModsOf(r.dropped), n) == Occ(ModsOf(r0.dropped), n) + (if goes && c.modp == n then 1 else 0)
  {
    var r := CellStep(r0, c, fDeadCells);
    if CellGoes(c, r0.count, r0.deleted, fDeadCells) {
      assert r.dropped[..|r.dropped| - 1] == r0.dropped;
      forall n | 0 <= n < |r0.count|
        ensures Occ(ModsOf(r.dropped), n) == Occ(ModsOf(r0.dropped), n) + (if c.modp == n then 1 else 0)
      {
        OccSnoc(ModsOf(r0.dropped), c.modp, n);
      }
    }
  }

  /**
   * deadCheckCells over the cells cs in order, each tested against the
   * counts and the unlinked nodes its predecessors left.
   */
  function CellsRun(cs: seq<CellInfo>, count: seq<int>, deleted: set<nat>, fDeadCells: bool): (r: CellsOut)
    requires CellsIn(cs, |count|)
    ensures |r.count| == |count|
  {
    if cs == [] then CellsOut(count, deleted, [])
    else
      var init := cs[..|cs| - 1];
      assert CellsIn(init, |count|);
      CellStep(CellsRun(init, count, deleted, fDeadCells), cs[|cs| - 1], fDeadCells)
  }

  /** The nodes unlinked are the given ones and those of the deleted cells. */
  lemma {:induction false} CellsRunDeleted(cs: seq<CellInfo>, count: seq<int>, deleted: set<nat>, fDeadCells: bool)
    requires CellsIn(cs, |count|)
    ensures var r := CellsRun(cs, count, deleted, fDeadCells); r.deleted == deleted + NodesOf(r.dropped)
  {
    if cs != [] {
      var init := cs[..|cs| - 1];
      assert CellsIn(init, |count|);
      var r0 := CellsRun(init, count, deleted, fDeadCells);
      CellsRunDeleted(init, count, deleted, fDeadCells);
      CellStepMeaning(r0, cs[|cs| - 1], fDeadCells);
    }
  }

  /** Each deleted cell takes exactly one off its module's count; nothing else changes a count. */
  lemma {:induction false} CellsRunCounts(cs: seq<CellInfo>, count: seq<int>, deleted: set<nat>, fDeadCells: bool)
    requires CellsIn(cs, |count|)
    ensures var r := CellsRun(cs, count, deleted, fDeadCells);
      forall n | 0 <= n < |count| :: r.count[n] == count[n] - Occ(ModsOf(r.dropped), n)
  {
    if cs != [] {
      var init := cs[..|cs| - 1];
      assert CellsIn(init, |count|);
      var r0 := CellsRun(init, count, deleted, fDeadCells);
      CellsRunCounts(init, count, deleted, fDeadCells);
      CellStepMeaning(r0, cs[|cs| - 1], fDeadCells);
    }
  }

  /**
   * Only listed cells are deleted, only with the option on, and each had
   * a module whose statements were all unlinked; with the option off
   * nothing changes.
   */
  lemma {:induction false} CellsRunDropped(cs: seq<CellInfo>, count: seq<int>, deleted: set<nat>, fDeadCells: bool)
    requires CellsIn(cs, |count|)
    ensures forall d | d in CellsRun(cs, count, deleted, fDeadCells).dropped ::
      d in cs && fDeadCells && StmtsGone(d.modStmts, CellsRun(cs, count, deleted, fDeadCells).deleted)
    ensures !fDeadCells ==> CellsRun(cs, count, deleted, fDeadCells) == CellsOut(count, deleted, [])
  {
    if cs != [] {
      var init := cs[..|cs| - 1];
      assert CellsIn(init, |count|);
      var r0 := CellsRun(init, count, deleted, fDeadCells);
      CellsRunDropped(init, count, deleted, fDeadCells);
      var c := cs[|cs| - 1];
      CellStepMeaning(r0, c, fDeadCells);
      var r := CellStep(r0, c, fDeadCells);
      assert forall k | 0 <= k < |init| :: init[k] in cs;
      forall d | d in r.dropped
        ensures d in cs && fDeadCells && StmtsGone(d.modStmts, r.deleted)
      {
        if d in r0.dropped {
          StmtsGoneGrows(d.modStmts, r0.deleted, r.deleted);
        } else {
          assert d == c;
          StmtsGoneGrows(c.modStmts, r0.deleted, r.deleted);
        }
      }
    }
  }

  /**
   * Every unreferenced cell whose module's statements are already unlinked
   * is deleted, when the option is on and no cell is a module.
   */
  lemma {:induction false} CellsRunComplete(cs: seq<CellInfo>, count: seq<int>, deleted: set<nat>, c: CellInfo)
    requires CellsIn(cs, |count|) && CellsNotModules(cs)
    requires c in cs && count[c.node] == 0 && StmtsGone(c.modStmts, deleted)
    ensures c.node in CellsRun(cs, count, deleted, true).deleted
  {
    var init := cs[..|cs| - 1];
    assert forall k | 0 <= k < |init| :: init[k] == cs[k];
    assert CellsIn(init, |count|);
    var r0 := CellsRun(init, count, deleted, true);
    CellStepMeaning(r0, cs[|cs| - 1], true);
    if c == cs[|cs| - 1] {
      CellsRunCounts(init, count, deleted, true);
      CellsRunDropped(init, count, deleted, true);
      CellsRunDeleted(init, count, deleted, true);
      forall k | 0 <= k < |r0.dropped|
        ensures r0.dropped[k].modp != c.node
      {
        assert r0.dropped[k] in init;
      }
      OccAbsentMods(r0.dropped, c.node);
      assert r0.count[c.node] == 0;
    } else {
      CellsRunComplete(init, count, deleted, c);
    }
  }

  lemma {:induction false} OccAbsentMods(ds: seq<CellInfo>, n: nat)
    requires forall k | 0 <= k < |ds| :: ds[k].modp != n
    ensures Occ(ModsOf(ds), n) == 0
  {
    if ds != [] {
      OccAbsentMods(ds[..|ds| - 1], n);
    }
  }

  /**
   * Every cell deadCheckCells deletes was unreferenced from the start,
   * when no cell is a module.
   */
  lemma CellsRunSound(cs: seq<CellInfo>, count: seq<int>, deleted: set<nat>, fDeadCells: bool)
    requires CellsIn(cs, |count|) && CellsNotModules(cs)
    ensures forall d | d in CellsRun(cs, count, deleted, fDeadCells).dropped :: d.node < |count| && count[d.node] == 0
  {
    var r := CellsRun(cs, count, deleted, fDeadCells);
    forall d | d in r.dropped
      ensures d.node < |count| && count[d.node] == 0
    {
      CellsRunTurn(cs, count, deleted, fDeadCells, d);
    }
  }

  /** A deleted cell's own count is untouched by the cells around it. */
  lemma {:induction false} CellsRunTurn(cs: seq<CellInfo>, count: seq<int>, deleted: set<nat>, fDeadCells: bool, d: CellInfo)
    requires CellsIn(cs, |count|) && CellsNotModules(cs)
    requires d in CellsRun(cs, count, deleted, fDeadCells).dropped
    ensures d.node < |count| && count[d.node] == 0
  {
    var init := cs[..|cs| - 1];
    assert forall k | 0 <= k < |init| :: init[k] == cs[k];
    assert CellsIn(init, |count|);
    var r0 := CellsRun(init, count, deleted, fDeadCells);
    var c := cs[|cs| - 1];
    CellStepMeaning(r0, c, fDeadCells);
    if d in r0.dropped {
      CellsRunTurn(init, count, deleted, fDeadCells, d);
    } else {
      CellsRunCounts(init, count, deleted, fDeadCells);
      CellsRunDropped(init, count, deleted, fDeadCells);
      assert CellGoes(c, r0.count, r0.deleted, fDeadCells);
      assert d == c;
      forall k | 0 <= k < |r0.dropped|
        ensures r0.dropped[k].modp != d.node
      {
        assert r0.dropped[k] in init;
      }
      OccAbsentMods(r0.dropped, d.node);
    }
  }

  /**
   * A module whose only statement is a variable already deleted has no
   * statements, so its unreferenced cell goes and the module loses its
   * last reference.
   */
  lemma EmptiedModuleCellGoes()
    ensures CellsRun([CellInfo(0, 1, [2])], [0, 1, 0], {2}, true)
            == CellsOut([0, 0, 0], {2, 0}, [CellInfo(0, 1, [2])])
  {
    var r0 := CellsRun([], [0, 1, 0], {2}, true);
    assert [CellInfo(0, 1, [2])][..0] == [];
    assert StmtsGone([2], r0.deleted);
  }

  // ---------------------------------------------------------------------
  // Single passes

  /** No deletion in the pass decrements a node the same pass tests. */
  predicate Independent(items: seq<Item>)
  {
    forall j, k | 0 <= j < |items| && 0 <= k < |items| :: items[j].node !in items[k].refs
  }

  /** The decrements of a single pass over items, each tested against the counts c. */
  function PassRefs(items: seq<Item>, c: seq<int>, n: nat): nat
    requires SeqIn(items, |c|)
  {
    if items == [] then 0
    else
      var last := items[|items| - 1];
      PassRefs(items[..|items| - 1], c, n) + (if c[last.node] == 0 then Occ(last.refs, n) else 0)
  }

  function SetOf(s: seq<nat>): set<nat>
  {
    set x | x in s
  }

  /** The nodes a single pass over items deletes. */
  function PassDeleted(items: seq<Item>, c: seq<int>): set<nat>
    requires SeqIn(items, |c|)
  {
    if items == [] then {}
    else
      var last := items[|items| - 1];
      PassDeleted(items[..|items| - 1], c) + (if c[last.node] == 0 then {last.node} + SetOf(last.also) else {})
  }

  /** The counts after a single pass over items. */
  function AfterPass(items: seq<Item>, c: seq<int>): (r: seq<int>)
    requires SeqIn(items, |c|)
    ensures |r| == |c| && forall n | 0 <= n < |c| :: r[n] == c[n] - PassRefs(items, c, n)
  {
    seq(|c|, n requires 0 <= n < |c| => c[n] - PassRefs(items, c, n))
  }

  lemma {:induction false} PassRefsAbsent(items: seq<Item>, c: seq<int>, n: nat)
    requires SeqIn(items, |c|)
    requires forall k | 0 <= k < |items| :: n !in items[k].refs
    ensures PassRefs(items, c, n) == 0
  {
    if items != [] {
      OccAbsent(items[|items| - 1].refs, n);
      PassRefsAbsent(items[..|items| - 1], c, n);
    }
  }

  /** A dtype the final loop of deadCheckVar deletes. */
  predicate Removable(d: DTypeCand, count: seq<int>)
    requires d.node < |count|
    requires d.members.Some? ==> forall m | m in d.members.value :: m < |count|
  {
    count[d.node] == 0 && (d.members.None? || forall m | m in d.members.value :: count[m] == 0)
  }

  predicate DTypesIn(ds: seq<DTypeCand>, size: nat)
  {
    forall k | 0 <= k < |ds| ::
      ds[k].node < size && (ds[k].members.Some? ==> forall m | m in ds[k].members.value :: m < size)
  }

  function RemovableSet(ds: seq<DTypeCand>, count: seq<int>): set<nat>
    requires DTypesIn(ds, |count|)
  {
    if ds == [] then {}
    else
      var last := ds[|ds| - 1];
      RemovableSet(ds[..|ds| - 1], count) + (if Removable(last, count) then {last.node} else {})
  }

  predicate TypedefIn(t: TypedefInfo, size: nat)
  {
    t.node < size && (t.subStruct.Some? ==> t.subStruct.value.node < size) && forall r | r in t.refs :: r < size
  }

  predicate TypedefsIn(ts: seq<TypedefInfo>, size: nat)
  {
    forall k | 0 <= k < |ts| :: TypedefIn(ts[k], size)
  }

  /** The references counted for the typedefs that were kept. */
  function KeptRefs(ts: seq<TypedefInfo>, kept: seq<bool>, n: nat): nat
    requires |kept| == |ts|
  {
    if ts == [] then 0
    else KeptRefs(ts[..|ts| - 1], kept[..|ts| - 1], n) + (if kept[|ts| - 1] then Occ(ts[|ts| - 1].refs, n) else 0)
  }

  function DroppedTypedefs(ts: seq<TypedefInfo>, kept: seq<bool>): set<nat>
    requires |kept| == |ts|
  {
    if ts == [] then {}
    else DroppedTypedefs(ts[..|ts| - 1], kept[..|ts| - 1]) + (if kept[|ts| - 1] then {} else {ts[|ts| - 1].node})
  }

  lemma KeptSnoc(ts: seq<TypedefInfo>, kept: seq<bool>, t: TypedefInfo, b: bool)
    requires |kept| == |ts|
    ensures forall n :: KeptRefs(ts + [t], kept + [b], n) == KeptRefs(ts, kept, n) + (if b then Occ(t.refs, n) else 0)
    ensures DroppedTypedefs(ts + [t], kept + [b]) == DroppedTypedefs(ts, kept) + (if b then {} else {t.node})
  {
    assert (ts + [t])[..|ts|] == ts;
    assert (kept + [b])[..|ts|] == kept;
  }

  /** The counts after one more typedef, kept or not. */
  lemma AddKeptSnoc(c: seq<int>, ts: seq<TypedefInfo>, kept: seq<bool>, t: TypedefInfo, b: bool, c2: seq<int>)
    requires |kept| == |ts| && |c2| == |c|
    requires forall n | 0 <= n < |c| :: c2[n] == AddKept(c, ts, kept)[n] + (if b then Occ(t.refs, n) else 0)
    ensures c2 == AddKept(c, ts + [t], kept + [b])
  {
    KeptSnoc(ts, kept, t, b);
  }

  /** An unpacked struct under the typedef with a positive count. */
  predicate HoldsLiveUnpacked(t: TypedefInfo, count: seq<int>)
    requires t.subStruct.Some? ==> t.subStruct.value.node < |count|
  {
    t.subStruct.Some? && count[t.subStruct.value.node] > 0 && !t.subStruct.value.packed
  }

  /** The counts after the dtypes of the kept typedefs are counted. */
  function AddKept(c: seq<int>, ts: seq<TypedefInfo>, kept: seq<bool>): (r: seq<int>)
    requires |kept| == |ts|
    ensures |r| == |c| && forall n | 0 <= n < |c| :: r[n] == c[n] + KeptRefs(ts, kept, n)
  {
    seq(|c|, n requires 0 <= n < |c| => c[n] + KeptRefs(ts, kept, n))
  }

  /**
   * The decisions of deadCheckTypedefs on the first i typedefs of ts, in
   * order, from the counts c at the start: each typedef is tested against
   * the counts with the dtypes of the kept typedefs before it added.
   */
  function TypedefDecisions(ts: seq<TypedefInfo>, c: seq<int>, elimCells: bool, i: nat): (r: seq<bool>)
    requires TypedefsIn(ts, |c|) && i <= |ts|
    ensures |r| == i
  {
    if i == 0 then []
    else
      var p := TypedefDecisions(ts, c, elimCells, i - 1);
      p + [!ShouldDeleteTypedef(ts[i - 1], AddKept(c, ts[..i - 1], p), elimCells)]
  }

  /** Deciding more typedefs leaves the earlier decisions as they were. */
  lemma {:induction false} TypedefDecisionsPrefix(ts: seq<TypedefInfo>, c: seq<int>, elimCells: bool, k: nat, i: nat)
    requires TypedefsIn(ts, |c|) && k <= i <= |ts|
    ensures TypedefDecisions(ts, c, elimCells, k) == TypedefDecisions(ts, c, elimCells, i)[..k]
    decreases i
  {
    if k < i {
      TypedefDecisionsPrefix(ts, c, elimCells, k, i - 1);
      assert TypedefDecisions(ts, c, elimCells, i)[..i - 1] == TypedefDecisions(ts, c, elimCells, i - 1);
    }
  }

  /**
   * A typedef is kept exactly when shouldDeleteTypedef refuses it under the
   * counts the kept typedefs before it left.
   */
  lemma TypedefDecisionsTurn(ts: seq<TypedefInfo>, c: seq<int>, elimCells: bool)
    requires TypedefsIn(ts, |c|)
    ensures var r := TypedefDecisions(ts, c, elimCells, |ts|);
      forall k | 0 <= k < |ts| :: r[k] <==> !ShouldDeleteTypedef(ts[k], AddKept(c, ts[..k], r[..k]), elimCells)
  {
    var r := TypedefDecisions(ts, c, elimCells, |ts|);
    forall k | 0 <= k < |ts|
      ensures r[k] <==> !ShouldDeleteTypedef(ts[k], AddKept(c, ts[..k], r[..k]), elimCells)
    {
      TypedefDecisionsPrefix(ts, c, elimCells, k + 1, |ts|);
      TypedefDecisionsPrefix(ts, c, elimCells, k, |ts|);
      assert r[..k + 1][..k] == r[..k];
    }
  }

  /**
   * Only non-public typedefs go, only when cells may go, and never one over
   * an unpacked struct counted at the start.
   */
  lemma TypedefDecisionsDecided(ts: seq<TypedefInfo>, c: seq<int>, elimCells: bool)
    requires TypedefsIn(ts, |c|)
    ensures var r := TypedefDecisions(ts, c, elimCells, |ts|);
      forall k | 0 <= k < |ts| :: TypedefDecided(ts[k], r[k], c, elimCells)
  {
    var r := TypedefDecisions(ts, c, elimCells, |ts|);
    TypedefDecisionsTurn(ts, c, elimCells);
    forall k | 0 <= k < |ts|
      ensures TypedefDecided(ts[k], r[k], c, elimCells)
    {
      var ck := AddKept(c, ts[..k], r[..k]);
      assert HoldsLiveUnpacked(ts[k], c) ==> HoldsReferencedUnpacked(ts[k], ck);
    }
  }

  /** Some interface variable of a top module, still linked, refers to interface n. */
  predicate TopIfaceUses(ifaces: seq<TopIface>, deleted: set<nat>, n: nat)
  {
    exists k | 0 <= k < |ifaces| :: ifaces[k].iface == n && ifaces[k].varNode !in deleted
  }

  /** The counts after preserveTopIfaces: an unreferenced interface a top module uses gets count 1. */
  function Preserved(c: seq<int>, ifaces: seq<TopIface>, deleted: set<nat>): (r: seq<int>)
    ensures |r| == |c|
    ensures forall n | 0 <= n < |c| :: r[n] == (if c[n] == 0 && TopIfaceUses(ifaces, deleted, n) then 1 else c[n])
  {
    seq(|c|, n requires 0 <= n < |c| => if c[n] == 0 && TopIfaceUses(ifaces, deleted, n) then 1 else c[n])
  }

  /** The part of the elimination state the passes change. */
  datatype State = State(count: seq<int>, deleted: set<nat>, modules: seq<ModInfo>,
                         scopes: seq<Option<Item>>, classes: seq<Option<Item>>, vars: seq<Option<Item>>)

  /** What the decision keep on typedef t says, against the counts c0 at the start of the loop. */
  predicate TypedefDecided(t: TypedefInfo, keep: bool, c0: seq<int>, elimCells: bool)
    requires t.subStruct.Some? ==> t.subStruct.value.node < |c0|
  {
    && (!keep ==> elimCells && !t.attrPublic)
    && (t.attrPublic || !elimCells ==> keep)
    && (HoldsLiveUnpacked(t, c0) ==> keep)
  }

  // ---------------------------------------------------------------------
  // The elimination state

  class DeadVisitor {
    /** user1 of every node, by node number. */
    var count: seq<int>
    /** Nodes unlinked and queued for deletion, nulled worklist entries included; a deleted module leaves `modules` instead. */
    var deleted: set<nat>
    /** The netlist's module list, in order; deleting a module unlinks it. */
    var modules: seq<ModInfo>
    var scopes: seq<Option<Item>>
    var classes: seq<Option<Item>>
    var vars: seq<Option<Item>>
    const varScopes: seq<VarScopeInfo>
    const assignMap: seq<AssignEntry>
    const cells: seq<CellInfo>
    const topIfaces: seq<TopIface>
    const dtypeElims: seq<DTypeCand>
    const typedefs: seq<TypedefInfo>
    const elimUserVars: bool
    const elimCells: bool
    const fDeadCells: bool

    function St(): State
      reads this
    {
      State(count, deleted, modules, scopes, classes, vars)
    }

    /** Every node the state s names has a count, and the single passes are independent. */
    predicate Fits(s: State)
    {
      ModsIn(s.modules, |s.count|) && ItemsIn(s.scopes, |s.count|) && ItemsIn(s.classes, |s.count|)
      && ItemsIn(s.vars, |s.count|)
      && SeqIn(VarScopeQueue(varScopes, assignMap, elimUserVars), |s.count|)
      && Independent(VarScopeQueue(varScopes, assignMap, elimUserVars))
      && CellsIn(cells, |s.count|) && (forall t | t in topIfaces :: t.iface < |s.count|)
      && DTypesIn(dtypeElims, |s.count|) && TypedefsIn(typedefs, |s.count|)
    }

    predicate Valid()
      reads this
    {
      Fits(St())
    }

    // -------------------------------------------------------------------
    // Each elimination as a function of the state

    /** deadCheckTypedefs: the typedefs decided against go, the kept ones count their dtypes. */
    function AfterTypedefs(s: State): (r: State)
      requires Fits(s)
      ensures Fits(r)
    {
      var kept := TypedefDecisions(typedefs, s.count, elimCells, |typedefs|);
      s.(count := AddKept(s.count, typedefs, kept), deleted := s.deleted + DroppedTypedefs(typedefs, kept))
    }

    /** deadCheckVar: the varscope pass, the retry loop over the variables, then the removable dtypes. */
    function AfterVar(s: State): (r: State)
      requires Fits(s)
      ensures Fits(r)
    {
      var q := VarScopeQueue(varScopes, assignMap, elimUserVars);
      var c := AfterPass(q, s.count);
      SweepFixes(s.vars, c);
      var sw := Sweep(s.vars, c);
      s.(count := sw.count, vars := sw.w,
         deleted := s.deleted + PassDeleted(q, s.count) + Nulled(s.vars, sw.w) + RemovableSet(dtypeElims, sw.count))
    }

    /** deadCheckScope: the retry loop over the scopes. */
    function AfterScopes(s: State): (r: State)
      requires Fits(s)
      ensures Fits(r)
    {
      SweepFixes(s.scopes, s.count);
      var sw := Sweep(s.scopes, s.count);
      s.(count := sw.count, scopes := sw.w, deleted := s.deleted + Nulled(s.scopes, sw.w))
    }

    /** deadCheckCells. */
    function AfterCells(s: State): (r: State)
      requires Fits(s)
      ensures Fits(r)
    {
      var run := CellsRun(cells, s.count, s.deleted, fDeadCells);
      s.(count := run.count, deleted := run.deleted)
    }

    /** deadCheckClasses: the retry loop over the classes. */
    function AfterClasses(s: State): (r: State)
      requires Fits(s)
      ensures Fits(r)
    {
      SweepFixes(s.classes, s.count);
      var sw := Sweep(s.classes, s.count);
      s.(count := sw.count, classes := sw.w, deleted := s.deleted + Nulled(s.classes, sw.w))
    }

    /** preserveTopIfaces. */
    function AfterTopIfaces(s: State): (r: State)
      requires Fits(s)
      ensures Fits(r)
    {
      s.(count := Preserved(s.count, topIfaces, s.deleted))
    }

    /** deadCheckMod: walks of the module list until one deletes nothing. */
    function AfterMods(s: State): (r: State)
      requires Fits(s)
      ensures Fits(r)
    {
      var f := ModFix(s.modules, s.count, s.deleted);
      s.(count := f.count, modules := f.ms)
    }

    /** The eliminations before the classes, in the constructor's order. */
    function AfterDeclarations(s: State, elimScopes: bool): (r: State)
      requires Fits(s)
      ensures Fits(r)
    {
      var v := AfterVar(AfterTypedefs(s));
      var sc := if elimScopes then AfterScopes(v) else v;
      if elimCells then AfterCells(sc) else sc
    }

    /** All the eliminations, in the constructor's order. */
    function AfterEliminate(s: State, elimScopes: bool, elimTopIfaces: bool): (r: State)
      requires Fits(s)
      ensures Fits(r)
    {
      var cl := AfterClasses(AfterDeclarations(s, elimScopes));
      AfterMods(if elimTopIfaces then cl else AfterTopIfaces(cl))
    }

    /** The state the counting walk leaves behind. */
    constructor (count0: seq<int>, mods: seq<ModInfo>, scopeInfos: seq<ScopeInfo>, classInfos: seq<ClassInfo>,
                 varNodes: seq<VarNode>, vscs: seq<VarScopeInfo>, am: seq<AssignEntry>, cs: seq<CellInfo>,
                 ifaces: seq<TopIface>, ds: seq<DTypeCand>, ts: seq<TypedefInfo>, userVars: bool, elimCellsOpt: bool, deadCellsOpt: bool)
      requires ModsIn(mods, |count0|) && ItemsIn(ScopeQueue(scopeInfos), |count0|)
      requires ItemsIn(ClassQueue(classInfos), |count0|) && ItemsIn(VarQueue(varNodes, userVars), |count0|)
      requires SeqIn(VarScopeQueue(vscs, am, userVars), |count0|) && Independent(VarScopeQueue(vscs, am, userVars))
      requires CellsIn(cs, |count0|) && forall t | t in ifaces :: t.iface < |count0|
      requires DTypesIn(ds, |count0|) && TypedefsIn(ts, |count0|)
      ensures Valid()
      ensures count == count0 && deleted == {} && modules == mods
      ensures scopes == ScopeQueue(scopeInfos) && classes == ClassQueue(classInfos)
      ensures vars == VarQueue(varNodes, userVars)
      ensures varScopes == vscs && assignMap == am && cells == cs && topIfaces == ifaces && dtypeElims == ds && typedefs == ts
      ensures elimUserVars == userVars && elimCells == elimCellsOpt && fDeadCells == deadCellsOpt
    {
      count := count0;
      deleted := {};
      modules := mods;
      scopes := ScopeQueue(scopeInfos);
      classes := ClassQueue(classInfos);
      vars := VarQueue(varNodes, userVars);
      varScopes := vscs;
      assignMap := am;
      cells := cs;
      topIfaces := ifaces;
      dtypeElims := ds;
      typedefs := ts;
      elimUserVars := userVars;
      elimCells := elimCellsOpt;
      fDeadCells := deadCellsOpt;
    }

    /** user1Inc(delta) on every node of refs, once per occurrence. */
    method AddAll(refs: seq<nat>, delta: int)
      requires forall r | r in refs :: r < |count|
      modifies this`count
      ensures |count| == old(|count|)
      ensures forall n | 0 <= n < |count| :: count[n] == old(count[n]) + delta * Occ(refs, n)
    {
      for j := 0 to |refs|
        invariant |count| == old(|count|)
        invariant forall n | 0 <= n < |count| :: count[n] == old(count[n]) + delta * Occ(refs[..j], n)
      {
        assert refs[..j + 1][..j] == refs[..j];
        assert refs[j] in refs;
        count := count[refs[j] := count[refs[j]] + delta];
      }
      assert refs[..|refs|] == refs;
    }

    // -------------------------------------------------------------------
    // Retry loops over a worklist (deadCheckScope, deadCheckClasses, the
    // variable loop of deadCheckVar)

    /**
     * One pass over the worklist: delete and null every zero-count entry.
     * PassWeakens, PassBalanced, PassShrinks and PassFixed state what the
     * pass keeps.
     */
    method SweepPass(w: seq<Option<Item>>) returns (w': seq<Option<Item>>, retry: bool)
      requires ItemsIn(w, |count|)
      modifies this`count, this`deleted
      ensures |w'| == |w| && deleted == old(deleted) + Nulled(w, w')
      ensures retry <==> w' != w
      ensures Swept(w', count) == Pass(w, old(count))
    {
      w' := w;
      retry := false;
      NulledNone(w);
      ghost var c0, d0 := count, deleted;
      ghost var at := 0;
      for i := 0 to |w|
        invariant |w'| == |w| && |count| == |c0|
        invariant deleted == d0 + Nulled(w, w')
        invariant forall k | i <= k < |w| :: w'[k] == w[k]
        invariant !retry ==> w' == w
        invariant retry ==> at < |w| && w'[at] != w[at]
        invariant w'[..i] == PassUpTo(w, c0, i).w && count == PassUpTo(w, c0, i).count
      {
        PassUpToStep(w, c0, i);
        ghost var done := w'[..i];
        if w'[i].Some? && count[w'[i].value.node] == 0 {
          var it := w'[i].value;
          ghost var before := count;
          AddAll(it.refs, -1);
          DropMeaning(before, count, it.refs);
          NulledStep(w, w', i);
          w' := w'[i := None];
          deleted := deleted + {it.node};
          retry := true;
          at := i;
          assert w'[..i + 1] == done + [None];
        } else {
          assert w'[..i + 1] == done + [w[i]];
        }
      }
      assert w'[..|w|] == w' && w[..|w|] == w;
    }

    /** Passes until one deletes nothing (for (bool retry = true; retry;)). */
    method RetrySweep(w: seq<Option<Item>>) returns (w': seq<Option<Item>>)
      requires ItemsIn(w, |count|)
      modifies this`count, this`deleted
      ensures Weakened(w, w') && ItemsIn(w', |count|)
      ensures deleted == old(deleted) + Nulled(w, w')
      ensures FixedPoint(w', count)
      ensures Balanced(old(count), w, count, w')
      ensures Swept(w', count) == Sweep(w, old(count))
    {
      w' := w;
      var retry := true;
      NulledNone(w);
      ghost var c0, d0 := count, deleted;
      while retry
        invariant |count| == |c0| && ItemsIn(w', |count|) && Weakened(w, w')
        invariant deleted == d0 + Nulled(w, w')
        invariant retry ==> Sweep(w', count) == Sweep(w, c0)
        invariant !retry ==> Swept(w', count) == Sweep(w, c0)
        decreases LiveCount(w') + (if retry then 1 else 0)
      {
        ghost var prev := w';
        ghost var pc := count;
        w', retry := SweepPass(w');
        PassWeakens(prev, pc);
        WeakenedLive(prev, w');
        NulledTrans(w, prev, w');
        assert Sweep(prev, pc) == if retry then Sweep(w', count) else Swept(w', count);
      }
      SweepFixes(w, c0);
      SweepBalanced(w, c0);
    }

    /** Each deleted scope decrements its parent scope and its dtype; repeats to a fixed point. */
    method DeadCheckScope()
      requires Valid()
      modifies this`count, this`deleted, this`scopes
      ensures Valid()
      ensures Weakened(old(scopes), scopes) && FixedPoint(scopes, count)
      ensures deleted == old(deleted) + Nulled(old(scopes), scopes)
      ensures Balanced(old(count), old(scopes), count, scopes)
      ensures St() == AfterScopes(old(St()))
    {
      scopes := RetrySweep(scopes);
    }

    /** Each deleted class decrements its extends and its package; repeats to a fixed point. */
    method DeadCheckClasses()
      requires Valid()
      modifies this`count, this`deleted, this`classes
      ensures Valid()
      ensures Weakened(old(classes), classes) && FixedPoint(classes, count)
      ensures deleted == old(deleted) + Nulled(old(classes), classes)
      ensures Balanced(old(count), old(classes), count, classes)
      ensures St() == AfterClasses(old(St()))
    {
      classes := RetrySweep(classes);
    }

    // -------------------------------------------------------------------
    // The varscope loop of deadCheckVar

    /** Delete every zero-count item, decrementing what it referenced. */
    method SinglePass(items: seq<Item>)
      requires SeqIn(items, |count|) && Independent(items)
      modifies this`count, this`deleted
      ensures |count| == old(|count|)
      ensures forall n | 0 <= n < |count| :: count[n] == old(count[n]) - PassRefs(items, old(count), n)
      ensures deleted == old(deleted) + PassDeleted(items, old(count))
      ensures count == AfterPass(items, old(count))
    {
      for i := 0 to |items|
        invariant |count| == old(|count|)
        invariant forall n | 0 <= n < |count| :: count[n] == old(count[n]) - PassRefs(items[..i], old(count), n)
        invariant deleted == old(deleted) + PassDeleted(items[..i], old(count))
      {
        var it := items[i];
        assert items[..i + 1][..i] == items[..i];
        PassRefsAbsent(items[..i], old(count), it.node);
        if count[it.node] == 0 {
          AddAll(it.refs, -1);
          deleted := deleted + {it.node} + SetOf(it.also);
        }
      }
      assert items[..|items|] == items;
      assert count == AfterPass(items, old(count));
    }

    /**
     * Unreferenced cells of modules left without statements go, when the
     * option allows; each takes one off its module's count.
     */
    method DeadCheckCells()
      requires Valid()
      modifies this`count, this`deleted
      ensures Valid() && old(deleted) <= deleted
      ensures var r := CellsRun(cells, old(count), old(deleted), fDeadCells); count == r.count && deleted == r.deleted
      ensures St() == AfterCells(old(St()))
    {
      for i := 0 to |cells|
        invariant |count| == old(|count|)
        invariant var r := CellsRun(cells[..i], old(count), old(deleted), fDeadCells); count == r.count && deleted == r.deleted
      {
        assert cells[..i + 1][..i] == cells[..i];
        var c := cells[i];
        if count[c.node] == 0 && StmtsGone(c.modStmts, deleted) && fDeadCells {
          count := count[c.modp := count[c.modp] - 1];
          deleted := deleted + {c.node};
        }
      }
      assert cells[..|cells|] == cells;
      CellsRunDeleted(cells, old(count), old(deleted), fDeadCells);
    }

    /** The final loop of deadCheckVar: zero-count dtypes whose members are all unreferenced. */
    method DeadDTypes()
      requires Valid()
      modifies this`deleted
      ensures deleted == old(deleted) + RemovableSet(dtypeElims, count)
    {
      for i := 0 to |dtypeElims|
        invariant deleted == old(deleted) + RemovableSet(dtypeElims[..i], count)
      {
        assert dtypeElims[..i + 1][..i] == dtypeElims[..i];
        var d := dtypeElims[i];
        if count[d.node] == 0 {
          var cont := true;
          if d.members.Some? {
            var ms := d.members.value;
            assert forall k | 0 <= k < |ms| :: ms[k] in d.members.value;
            for j := 0 to |ms|
              invariant forall k | 0 <= k < |ms| :: ms[k] < |count|
              invariant cont <==> forall k | 0 <= k < j :: count[ms[k]] == 0
            {
              if count[ms[j]] != 0 {
                cont := false;
              }
            }
          }
          if cont {
            deleted := deleted + {d.node};
          }
        }
      }
      assert dtypeElims[..|dtypeElims|] == dtypeElims;
    }

    /**
     * Zero-count varscopes go with their assignments; then zero-count
     * variables to a fixed point; then the removable dtypes.
     */
    method DeadCheckVar()
      requires Valid()
      modifies this`count, this`deleted, this`vars
      ensures Valid() && |count| == old(|count|)
      ensures Weakened(old(vars), vars) && FixedPoint(vars, count)
      ensures forall n | 0 <= n < |count| ::
        count[n] + PassRefs(VarScopeQueue(varScopes, assignMap, elimUserVars), old(count), n) - WorkRefs(vars, n)
        == old(count[n]) - WorkRefs(old(vars), n)
      ensures deleted == old(deleted) + PassDeleted(VarScopeQueue(varScopes, assignMap, elimUserVars), old(count))
                         + Nulled(old(vars), vars) + RemovableSet(dtypeElims, count)
      ensures St() == AfterVar(old(St()))
    {
      SinglePass(VarScopeQueue(varScopes, assignMap, elimUserVars));
      vars := RetrySweep(vars);
      DeadDTypes();
    }

    /** One typedef of deadCheckTypedefs: delete it, or count its dtypes. */
    method TypedefStep(t: TypedefInfo) returns (keep: bool)
      requires TypedefIn(t, |count|)
      modifies this`count, this`deleted
      ensures |count| == old(|count|)
      ensures keep <==> !ShouldDeleteTypedef(t, old(count), elimCells)
      ensures keep ==> deleted == old(deleted) && forall n | 0 <= n < |count| :: count[n] == old(count[n]) + Occ(t.refs, n)
      ensures !keep ==> deleted == old(deleted) + {t.node} && count == old(count)
    {
      if ShouldDeleteTypedef(t, count, elimCells) {
        deleted := deleted + {t.node};
        keep := false;
      } else {
        AddAll(t.refs, 1);
        keep := true;
      }
    }

    /** The loop of deadCheckTypedefs over the typedefs ts, in order. */
    method TypedefLoop(ts: seq<TypedefInfo>) returns (kept: seq<bool>)
      requires TypedefsIn(ts, |count|)
      modifies this`count, this`deleted
      ensures |kept| == |ts|
      ensures kept == TypedefDecisions(ts, old(count), elimCells, |ts|)
      ensures deleted == old(deleted) + DroppedTypedefs(ts, kept)
      ensures count == AddKept(old(count), ts, kept)
    {
      kept := [];
      ghost var c0, d0 := count, deleted;
      for i := 0 to |ts|
        invariant |kept| == i
        invariant deleted == d0 + DroppedTypedefs(ts[..i], kept)
        invariant count == AddKept(c0, ts[..i], kept)
        invariant kept == TypedefDecisions(ts, c0, elimCells, i)
      {
        var t := ts[i];
        var keep := TypedefStep(t);
        KeptSnoc(ts[..i], kept, t, keep);
        AddKeptSnoc(c0, ts[..i], kept, t, keep, count);
        assert ts[..i + 1] == ts[..i] + [t];
        kept := kept + [keep];
      }
      assert ts[..|ts|] == ts;
    }

    /**
     * Delete the typedefs shouldDeleteTypedef selects; each kept typedef
     * counts its dtypes.  `kept` records the decision for each typedef.
     */
    method DeadCheckTypedefs() returns (kept: seq<bool>)
      requires Valid()
      modifies this`count, this`deleted
      ensures Valid() && |kept| == |typedefs| && |count| == old(|count|)
      ensures kept == TypedefDecisions(typedefs, old(count), elimCells, |typedefs|)
      ensures forall k | 0 <= k < |typedefs| ::
        kept[k] <==> !ShouldDeleteTypedef(typedefs[k], AddKept(old(count), typedefs[..k], kept[..k]), elimCells)
      ensures deleted == old(deleted) + DroppedTypedefs(typedefs, kept)
      ensures forall n | 0 <= n < |count| :: count[n] == old(count[n]) + KeptRefs(typedefs, kept, n)
      ensures forall k | 0 <= k < |typedefs| :: !kept[k] ==> elimCells && !typedefs[k].attrPublic
      ensures forall k | 0 <= k < |typedefs| :: typedefs[k].attrPublic || !elimCells ==> kept[k]
      ensures forall k | 0 <= k < |typedefs| :: HoldsLiveUnpacked(typedefs[k], old(count)) ==> kept[k]
      ensures St() == AfterTypedefs(old(St()))
    {
      ghost var c0 := count;
      kept := TypedefLoop(typedefs);
      TypedefDecisionsTurn(typedefs, c0, elimCells);
      TypedefDecisionsDecided(typedefs, c0, elimCells);
    }

    // -------------------------------------------------------------------
    // deadCheckMod

    /**
     * modp->foreach over the cells of a deleted module: each cell still
     * linked in its tree takes one off its module's count.
     */
    method DecrementCells(cs: seq<CellAt>)
      requires forall c | c in cs :: c.modp < |count|
      modifies this`count
      ensures |count| == old(|count|)
      ensures forall n | 0 <= n < |count| :: count[n] == old(count[n]) - Occ(LiveCellMods(cs, deleted), n)
    {
      for j := 0 to |cs|
        invariant |count| == old(|count|)
        invariant forall n | 0 <= n < |count| :: count[n] == old(count[n]) - Occ(LiveCellMods(cs[..j], deleted), n)
      {
        assert cs[..j + 1][..j] == cs[..j];
        var c := cs[j];
        assert c in cs;
        assert LiveCellMods(cs[..j + 1], deleted)
               == LiveCellMods(cs[..j], deleted) + (if Linked(c, deleted) then [c.modp] else []);
        if Linked(c, deleted) {
          forall n | 0 <= n < |count|
            ensures Occ(LiveCellMods(cs[..j + 1], deleted), n) == Occ(LiveCellMods(cs[..j], deleted), n) + (if c.modp == n then 1 else 0)
          {
            OccSnoc(LiveCellMods(cs[..j], deleted), c.modp, n);
          }
          count := count[c.modp := count[c.modp] - 1];
        } else {
          assert LiveCellMods(cs[..j + 1], deleted) == LiveCellMods(cs[..j], deleted);
        }
      }
      assert cs[..|cs|] == cs;
    }

    /**
     * The loop of one walk down the module list ms0, deleting every doomed
     * module.  The walk takes nextp before it unlinks a module, so it
     * visits each module of ms0 once, and the list it leaves holds the
     * modules it kept, in order: ms is that list as the walk builds it.
     */
    method WalkModules(ms0: seq<ModInfo>) returns (ms: seq<ModInfo>, retry: bool)
      requires ModsIn(ms0, |count|)
      modifies this`count
      ensures ms == ModWalk(ms0, old(count), deleted).ms
      ensures count == ModWalk(ms0, old(count), deleted).count
      ensures retry <==> |ms| < |ms0|
    {
      retry := false;
      ghost var c0 := count;
      ms := [];
      for j := 0 to |ms0|
        invariant |count| == |c0|
        invariant ms == ModWalkUpTo(ms0, c0, deleted, j).ms
        invariant count == ModWalkUpTo(ms0, c0, deleted, j).count
        invariant retry <==> |ms| < j
      {
        var m := ms0[j];
        ghost var before := count;
        ModWalkUpToStep(ms0, c0, deleted, j);
        ModsInPrefix(ms0, |c0|, j);
        if Doomed(m, count) {
          if !m.dead {
            DecrementCells(m.cells);
            DropMeaning(before, count, DeadRefs(m, deleted));
          } else {
            DropMeaning(before, count, []);
          }
          retry := true;
        } else {
          ms := ms + [m];
        }
      }
      assert ms0[..|ms0|] == ms0;
    }

    /** One walk down the module list deleting every doomed module. */
    method ModPass() returns (retry: bool)
      requires ModsIn(modules, |count|)
      modifies this`count, this`modules
      ensures |count| == old(|count|) && ModsIn(modules, |count|)
      ensures Subseq(modules, old(modules))
      ensures forall m | m in old(modules) && Kept(m) :: m in modules
      ensures forall n | 0 <= n < |count| :: count[n] - CellRefs(modules, deleted, n) == old(count[n]) - CellRefs(old(modules), deleted, n)
      ensures retry ==> |modules| < old(|modules|)
      ensures !retry ==> modules == old(modules) && count == old(count)
      ensures !retry ==> forall k | 0 <= k < |modules| :: !Doomed(modules[k], count)
      ensures modules == ModWalk(old(modules), old(count), deleted).ms
      ensures count == ModWalk(old(modules), old(count), deleted).count
    {
      modules, retry := WalkModules(modules);
      ModWalkSubseq(old(modules), old(count), deleted);
      ModWalkBalanced(old(modules), old(count), deleted);
      if !retry {
        ModWalkFixed(old(modules), old(count), deleted);
      }
    }

    /**
     * Delete dead modules and unreferenced modules below the top until a
     * pass deletes nothing; deleting a live module decrements the modules
     * of its cells.
     */
    method DeadCheckMod()
      requires Valid()
      modifies this`count, this`modules
      ensures Valid() && |count| == old(|count|)
      ensures Subseq(modules, old(modules))
      ensures forall m | m in old(modules) && Kept(m) :: m in modules
      ensures forall k | 0 <= k < |modules| :: !Doomed(modules[k], count)
      ensures forall n | 0 <= n < |count| :: count[n] - CellRefs(modules, deleted, n) == old(count[n]) - CellRefs(old(modules), deleted, n)
      ensures forall n | 0 <= n < |count| && old(count[n]) >= CellRefs(old(modules), deleted, n) :: count[n] >= 0
      ensures modules == ModFix(old(modules), old(count), deleted).ms
      ensures count == ModFix(old(modules), old(count), deleted).count
      ensures St() == AfterMods(old(St()))
    {
      SubseqRefl(modules);
      var retry := true;
      while retry
        invariant Valid()
        invariant Subseq(modules, old(modules))
        invariant forall m | m in old(modules) && Kept(m) :: m in modules
        invariant |count| == old(|count|)
        invariant forall n | 0 <= n < |count| :: count[n] - CellRefs(modules, deleted, n) == old(count[n]) - CellRefs(old(modules), deleted, n)
        invariant !retry ==> forall k | 0 <= k < |modules| :: !Doomed(modules[k], count)
        invariant retry ==> ModFix(modules, count, deleted) == ModFix(old(modules), old(count), deleted)
        invariant !retry ==> modules == ModFix(old(modules), old(count), deleted).ms
        invariant !retry ==> count == ModFix(old(modules), old(count), deleted).count
        decreases |modules| + (if retry then 1 else 0)
      {
        ghost var before, bc := modules, count;
        retry := ModPass();
        SubseqTrans(modules, before, old(modules));
        assert retry ==> ModFix(before, bc, deleted) == ModFix(modules, count, deleted);
      }
    }

    // -------------------------------------------------------------------
    // preserveTopIfaces and the whole pass

    /**
     * Each interface referenced by a still-linked interface variable of a
     * top module, without a cell, is kept alive: an unreferenced one gets
     * count 1.
     */
    method PreserveTopIfaces()
      requires Valid()
      modifies this`count
      ensures Valid() && |count| == old(|count|)
      ensures forall n | 0 <= n < |count| ::
        count[n] == (if old(count[n]) == 0 && exists k | 0 <= k < |topIfaces| :: topIfaces[k].iface == n && topIfaces[k].varNode !in deleted
                     then 1 else old(count[n]))
      ensures St() == AfterTopIfaces(old(St()))
    {
      for i := 0 to |topIfaces|
        invariant |count| == old(|count|)
        invariant forall n | 0 <= n < |count| ::
          count[n] == (if old(count[n]) == 0 && exists k | 0 <= k < i :: topIfaces[k].iface == n && topIfaces[k].varNode !in deleted
                       then 1 else old(count[n]))
      {
        var t := topIfaces[i];
        assert t in topIfaces;
        if t.varNode !in deleted && count[t.iface] == 0 {
          count := count[t.iface := 1];
        }
      }
      assert count == Preserved(old(count), topIfaces, deleted);
    }

    /** The eliminations the constructor runs before the classes: typedefs, variables, scopes and cells. */
    method EliminateDeclarations(elimScopes: bool) returns (kept: seq<bool>)
      requires Valid()
      modifies this`count, this`deleted, this`scopes, this`vars
      ensures Valid() && |count| == old(|count|) && |kept| == |typedefs|
      ensures old(deleted) <= deleted
      ensures Weakened(old(scopes), scopes) && Weakened(old(vars), vars)
      ensures !elimScopes ==> scopes == old(scopes)
      ensures kept == TypedefDecisions(typedefs, old(count), elimCells, |typedefs|)
      ensures St() == AfterDeclarations(old(St()), elimScopes)
    {
      kept := DeadCheckTypedefs();
      DeadCheckVar();
      if elimScopes {
        DeadCheckScope();
      }
      if elimCells {
        DeadCheckCells();
      }
    }

    /**
     * The eliminations in the order the visitor's constructor runs them,
     * after the counting walk.
     */
    method Eliminate(elimScopes: bool, elimTopIfaces: bool) returns (kept: seq<bool>)
      requires Valid()
      modifies this`count, this`deleted, this`scopes, this`classes, this`vars, this`modules
      ensures Valid() && |count| == old(|count|) && |kept| == |typedefs|
      ensures old(deleted) <= deleted
      ensures Subseq(modules, old(modules))
      ensures forall m | m in old(modules) && Kept(m) :: m in modules
      ensures forall k | 0 <= k < |modules| :: !Doomed(modules[k], count)
      ensures Weakened(old(scopes), scopes) && Weakened(old(classes), classes) && Weakened(old(vars), vars)
      ensures !elimScopes ==> scopes == old(scopes)
      ensures kept == TypedefDecisions(typedefs, old(count), elimCells, |typedefs|)
      ensures St() == AfterEliminate(old(St()), elimScopes, elimTopIfaces)
    {
      kept := EliminateDeclarations(elimScopes);
      DeadCheckClasses();
      if !elimTopIfaces {
        PreserveTopIfaces();
      }
      DeadCheckMod();
    }
  }
}
