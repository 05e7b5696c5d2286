/**
 * Parse-time link rules (V3LinkParse.cpp): enum item ranges, variable and
 * module lifetimes, the numbering of unnamed generate blocks, names for
 * unnamed primitive instances, and clocking-block skews.
 */
module LinkParse {
  import opened Wrappers
  import opened Decimal

  // ---------------------------------------------------------------------
  // Enum items with a range: name[left:right] = value

  /** The value of an expanded item: the original value plus an offset. */
  datatype Plus<V> = Plus(base: V, offset: nat)

  datatype ExpandedItem<V> = ExpandedItem(name: string, value: Option<Plus<V>>)

  /** The number of items a range expands to. */
  function Span(left: int, right: int): nat
  {
    if left > right then left - right + 1 else right - left + 1
  }

  /** The index of the k-th expanded item: counting down when left > right, else up. */
  function EnumIndex(left: int, right: int, k: nat): int
  {
    if left > right then left - k else left + k
  }

  function ExpandedValue<V>(value: Option<V>, k: nat): Option<Plus<V>>
  {
    if value.Some? then Some(Plus(value.value, k)) else None
  }

  /** items holds the first |items| replacement items, in order. */
  predicate ExpandedPrefix<V(==)>(items: seq<ExpandedItem<V>>, name: string, left: int, right: int, value: Option<V>)
  {
    forall k | 0 <= k < |items| ::
      items[k] == ExpandedItem(name + IntToDecimal(EnumIndex(left, right, k)), ExpandedValue(value, k))
  }

  /** The loop over i from left to right inclusive that builds the replacement items. */
  method ExpandEnumRange<V(==)>(name: string, left: int, right: int, value: Option<V>)
    returns (items: seq<ExpandedItem<V>>)
    ensures |items| == Span(left, right)
    ensures forall k | 0 <= k < |items| :: items[k].name == name + IntToDecimal(EnumIndex(left, right, k))
    ensures forall k | 0 <= k < |items| ::
      items[k].value == (if value.Some? then Some(Plus(value.value, k)) else None)
  {
    var increment: int := if left > right then -1 else 1;
    var offset: nat := 0;
    var i: int := left;
    items := [];
    while i != right + increment
      invariant offset == |items| && offset <= Span(left, right)
      invariant i == EnumIndex(left, right, offset)
      invariant i == right + increment <==> offset == Span(left, right)
      invariant ExpandedPrefix(items, name, left, right, value)
      decreases Span(left, right) - offset
    {
      items := items + [ExpandedItem(name + IntToDecimal(i), ExpandedValue(value, offset))];
      i := i + increment;
      offset := offset + 1;
    }
    assert ExpandedPrefix(items, name, left, right, value);
  }

  /** The indices run from left to right and are exactly the integers between them. */
  lemma EnumIndicesCover(left: int, right: int, i: int)
    ensures EnumIndex(left, right, 0) == left && EnumIndex(left, right, Span(left, right) - 1) == right
    ensures (if left <= right then left <= i <= right else right <= i <= left)
      <==> exists k: nat | k < Span(left, right) :: EnumIndex(left, right, k) == i
  {
    if left <= right && left <= i <= right {
      assert EnumIndex(left, right, i - left) == i;
    } else if right < left && right <= i <= left {
      assert EnumIndex(left, right, left - i) == i;
    }
  }

  /** The expanded items have pairwise different names. */
  lemma ExpandedNamesDistinct(name: string, left: int, right: int, j: nat, k: nat)
    requires j < k < Span(left, right)
    ensures name + IntToDecimal(EnumIndex(left, right, j)) != name + IntToDecimal(EnumIndex(left, right, k))
  {
    if name + IntToDecimal(EnumIndex(left, right, j)) == name + IntToDecimal(EnumIndex(left, right, k)) {
      PrefixedDecimalInjective(name, EnumIndex(left, right, j), EnumIndex(left, right, k));
    }
  }

  // ---------------------------------------------------------------------
  // Lifetimes (section 6.21 of IEEE 1800-2023)

  datatype Lifetime = NoLifetime | Static | Automatic

  /** What visit(AstVar) reads of a variable. */
  datatype VarDecl = VarDecl(lifetime: Lifetime, hasValue: bool, isPort: bool)

  /** The visitor state visit(AstVar) reads: inside a loop, lifetimes allowed, the propagated lifetime, inside a task. */
  datatype VarContext = VarContext(insideLoop: bool, lifetimeAllowed: bool, lifetime: Lifetime, inFTask: bool)

  datatype LifetimeResult = LifetimeResult(lifetime: Lifetime, staticVarWarning: bool)

  function VarLifetime(v: VarDecl, ctx: VarContext): (r: LifetimeResult)
    ensures r.staticVarWarning <==> v.lifetime == Static && ctx.insideLoop && v.hasValue
    ensures v.isPort && ctx.inFTask ==> r.lifetime == Automatic
    ensures v.isPort && !ctx.inFTask && v.lifetime == NoLifetime ==> r.lifetime == Static
    ensures !v.isPort && v.lifetime == NoLifetime ==>
      r.lifetime == (if ctx.lifetimeAllowed then ctx.lifetime else Static)
    ensures v.lifetime != NoLifetime && !(v.isPort && ctx.inFTask) ==>
      r.lifetime == (if r.staticVarWarning then Automatic else v.lifetime)
  {
    var warn := v.lifetime == Static && ctx.insideLoop && v.hasValue;
    var lt := if warn then Automatic else v.lifetime;
    if !v.isPort then
      LifetimeResult(if lt == NoLifetime then (if ctx.lifetimeAllowed then ctx.lifetime else Static) else lt, warn)
    else if ctx.inFTask then LifetimeResult(Automatic, warn)
    else LifetimeResult(if lt == NoLifetime then Static else lt, warn)
  }

  /** A variable is left without a lifetime only when it inherits "none" from its task. */
  lemma VarLifetimeSet(v: VarDecl, ctx: VarContext)
    ensures VarLifetime(v, ctx).lifetime == NoLifetime ==>
      !v.isPort && v.lifetime == NoLifetime && ctx.lifetimeAllowed && ctx.lifetime == NoLifetime
    ensures VarLifetime(v, ctx).staticVarWarning ==> VarLifetime(v, ctx).lifetime == Automatic
  {
  }

  /** Module visit: the propagated lifetime, and whether variable lifetimes may be inherited. */
  function ModuleContext(declared: Lifetime, isClass: bool): (ctx: VarContext)
    ensures ctx.lifetime != NoLifetime
    ensures declared != NoLifetime ==> ctx.lifetime == declared
    ensures declared == NoLifetime ==> (ctx.lifetime == Automatic <==> isClass)
    ensures ctx.lifetimeAllowed == isClass && !ctx.insideLoop && !ctx.inFTask
  {
    var lt := if declared != NoLifetime then declared else if isClass then Automatic else Static;
    VarContext(false, isClass, lt, false)
  }

  /** A module-level variable without a lifetime is static in a module and automatic in a class. */
  lemma ModuleVarsDefault(isClass: bool, hasValue: bool)
    ensures VarLifetime(VarDecl(NoLifetime, hasValue, false), ModuleContext(NoLifetime, isClass)).lifetime
      == (if isClass then Automatic else Static)
  {
  }

  // ---------------------------------------------------------------------
  // Generate block numbering and unnamed instances

  /** The nodes the numbering looks at; Stmt stands for every other node. */
  datatype GNode =
    | Begin(name: string, implied: bool, genfor: bool, generate: bool, body: seq<GNode>)
    | GenIf(thens: seq<GNode>, elses: seq<GNode>)
    | GenCase(items: seq<GNode>)
    | CaseItem(body: seq<GNode>)
    | Cell(name: string, origName: string, primitive: bool)
    | Stmt(body: seq<GNode>)

  /**
   * What a node's backp() is, as far as the rules look: a GenIf or
   * CaseItem; a GenIf whose else list is this node alone; a begin for which
   * nestedIfBegin holds.
   */
  datatype Back = Back(ifOrCaseItem: bool, genIfSoleElse: bool, nestedIfBegin: bool)

  /** nestedIfBegin: an implied begin that is the whole else of a GenIf and holds one GenIf. */
  predicate NestedIfBegin(b: GNode, back: Back)
    requires b.Begin?
  {
    b.implied && back.genIfSoleElse && |b.body| == 1 && b.body[0].GenIf?
  }

  /** The backp() of a node that follows prev in a list. */
  function SiblingBack(prev: GNode): Back
  {
    Back(prev.GenIf? || prev.CaseItem?, false, false)
  }

  datatype Msg = GenUnnamed(block: string) | InstanceMustBeNamed

  /** m_genblkNum, m_genblkAbove, m_anonUdpId and the messages issued. */
  datatype WalkState = WalkState(num: nat, above: nat, udp: nat, msgs: seq<Msg>)

  datatype Walked = Walked(node: GNode, st: WalkState)

  datatype WalkedList = WalkedList(nodes: seq<GNode>, st: WalkState)

  function Genblk(k: nat): string
  {
    "genblk" + IntToDecimal(k)
  }

  function UdpName(k: nat): string
  {
    "$unnamedudp" + IntToDecimal(k)
  }

  /** Does the begin take a genblk name? */
  predicate Renames(n: GNode, back: Back)
    requires n.Begin?
  {
    n.name == "" && (n.genfor || (n.generate && back.ifOrCaseItem && !NestedIfBegin(n, back)))
  }

  /** The number a renamed begin takes: the incremented counter for a loop, else the enclosing if/case number. */
  function AssignedNum(n: GNode, back: Back, st: WalkState): nat
    requires n.Begin?
  {
    if n.genfor then st.num + 1 else st.above
  }

  /** The visitor's effect on one node: the renamed node and the new state. */
  function Walk(n: GNode, back: Back, st: WalkState): Walked
    decreases n
  {
    match n
    case Begin(name, implied, genfor, generate, body) =>
      var num1 := if genfor then st.num + 1 else st.num;
      var name' := if Renames(n, back) then Genblk(AssignedNum(n, back, st)) else name;
      var msgs := if Renames(n, back) && body != [] then st.msgs + [GenUnnamed(name')] else st.msgs;
      var inner := Back(false, false, NestedIfBegin(n, back));
      if name' != "" then
        var r := WalkList(body, inner, WalkState(0, 0, st.udp, msgs));
        Walked(Begin(name', implied, genfor, generate, r.nodes), WalkState(num1, st.above, r.st.udp, r.st.msgs))
      else
        var r := WalkList(body, inner, WalkState(num1, st.above, st.udp, msgs));
        Walked(Begin(name', implied, genfor, generate, r.nodes), r.st)
    case GenIf(thens, elses) =>
      if back.nestedIfBegin then
        var t := WalkList(thens, Back(true, false, false), st);
        var e := WalkList(elses, Back(true, |elses| == 1, false), t.st);
        Walked(GenIf(t.nodes, e.nodes), e.st)
      else
        var t := WalkList(thens, Back(true, false, false), WalkState(0, st.num + 1, st.udp, st.msgs));
        var e := WalkList(elses, Back(true, |elses| == 1, false), t.st);
        Walked(GenIf(t.nodes, e.nodes), WalkState(st.num + 1, st.above, e.st.udp, e.st.msgs))
    case GenCase(items) =>
      var r := WalkList(items, Back(false, false, false), WalkState(0, st.num + 1, st.udp, st.msgs));
      Walked(GenCase(r.nodes), WalkState(st.num + 1, st.above, r.st.udp, r.st.msgs))
    case CaseItem(body) =>
      var r := WalkList(body, Back(true, false, false), st);
      Walked(CaseItem(r.nodes), r.st)
    case Cell(name, origName, primitive) =>
      if origName == "" then
        var msgs := if primitive then st.msgs else st.msgs + [InstanceMustBeNamed];
        Walked(Cell(UdpName(st.udp + 1), UdpName(st.udp + 1), primitive),
               WalkState(st.num, st.above, st.udp + 1, msgs))
      else Walked(n, st)
    case Stmt(body) =>
      var r := WalkList(body, Back(false, false, false), st);
      Walked(Stmt(r.nodes), r.st)
  }

  /** The visitor's effect on a list of siblings, first to last. */
  function WalkList(ns: seq<GNode>, first: Back, st: WalkState): WalkedList
    decreases ns
  {
    if ns == [] then WalkedList([], st)
    else
      var w := Walk(ns[0], first, st);
      var r := WalkList(ns[1..], SiblingBack(ns[0]), w.st);
      WalkedList([w.node] + r.nodes, r.st)
  }

  /** The module visit resets the counters for its body. */
  function WalkModule(body: seq<GNode>, msgs: seq<Msg>): WalkedList
  {
    WalkList(body, Back(false, false, false), WalkState(0, 0, 0, msgs))
  }

  // Properties of the numbering

  /** How much a node advances m_genblkNum; it depends on the tree only. */
  function Bumps(n: GNode, back: Back): nat
    decreases n
  {
    match n
    case Begin(name, _, genfor, _, body) =>
      (if genfor then 1 else 0)
      + (if name != "" || Renames(n, back) then 0 else BumpsList(body, Back(false, false, NestedIfBegin(n, back))))
    case GenIf(thens, elses) =>
      if back.nestedIfBegin then BumpsList(thens, Back(true, false, false)) + BumpsList(elses, Back(true, |elses| == 1, false))
      else 1
    case GenCase(_) => 1
    case CaseItem(body) => BumpsList(body, Back(true, false, false))
    case Cell(_, _, _) => 0
    case Stmt(body) => BumpsList(body, Back(false, false, false))
  }

  function BumpsList(ns: seq<GNode>, first: Back): nat
    decreases ns
  {
    if ns == [] then 0 else Bumps(ns[0], first) + BumpsList(ns[1..], SiblingBack(ns[0]))
  }

  /** Visiting a node restores m_genblkAbove and advances m_genblkNum by its Bumps. */
  lemma {:induction false} WalkCounters(n: GNode, back: Back, st: WalkState)
    ensures Walk(n, back, st).st.above == st.above
    ensures Walk(n, back, st).st.num == st.num + Bumps(n, back)
    decreases n
  {
    match n
    case Begin(name, _, genfor, _, body) =>
      var num1 := if genfor then st.num + 1 else st.num;
      var name' := if Renames(n, back) then Genblk(AssignedNum(n, back, st)) else name;
      var msgs := if Renames(n, back) && body != [] then st.msgs + [GenUnnamed(name')] else st.msgs;
      if name' == "" {
        WalkListCounters(body, Back(false, false, NestedIfBegin(n, back)), WalkState(num1, st.above, st.udp, msgs));
      }
    case GenIf(thens, elses) =>
      if back.nestedIfBegin {
        WalkListCounters(thens, Back(true, false, false), st);
        var t := WalkList(thens, Back(true, false, false), st);
        WalkListCounters(elses, Back(true, |elses| == 1, false), t.st);
      }
    case GenCase(_) =>
    case CaseItem(body) =>
      WalkListCounters(body, Back(true, false, false), st);
    case Cell(_, _, _) =>
    case Stmt(body) =>
      WalkListCounters(body, Back(false, false, false), st);
  }

  lemma {:induction false} WalkListCounters(ns: seq<GNode>, first: Back, st: WalkState)
    ensures WalkList(ns, first, st).st.above == st.above
    ensures WalkList(ns, first, st).st.num == st.num + BumpsList(ns, first)
    ensures |WalkList(ns, first, st).nodes| == |ns|
    decreases ns
  {
    if ns != [] {
      WalkCounters(ns[0], first, st);
      WalkListCounters(ns[1..], SiblingBack(ns[0]), Walk(ns[0], first, st).st);
    }
  }

  /** An unnamed generate loop block in a list named genblk(k), with k above the counter on entry to the list. */
  lemma {:induction false} GenforNameAt(ns: seq<GNode>, first: Back, st: WalkState, i: nat) returns (k: nat)
    requires i < |ns| && ns[i].Begin? && ns[i].genfor && ns[i].name == ""
    ensures k > st.num
    ensures |WalkList(ns, first, st).nodes| == |ns|
    ensures WalkList(ns, first, st).nodes[i].Begin? && WalkList(ns, first, st).nodes[i].name == Genblk(k)
    ensures i == 0 ==> k == st.num + 1
    decreases ns
  {
    WalkListCounters(ns, first, st);
    var w := Walk(ns[0], first, st);
    WalkCounters(ns[0], first, st);
    WalkListCounters(ns[1..], SiblingBack(ns[0]), w.st);
    if i == 0 {
      k := st.num + 1;
    } else {
      k := GenforNameAt(ns[1..], SiblingBack(ns[0]), w.st, i - 1);
    }
  }

  /** Two unnamed generate loop blocks in the same list get different names. */
  lemma GenforNamesDistinct(ns: seq<GNode>, first: Back, st: WalkState, i: nat, j: nat)
    requires i < j < |ns|
    requires ns[i].Begin? && ns[i].genfor && ns[i].name == ""
    requires ns[j].Begin? && ns[j].genfor && ns[j].name == ""
    ensures |WalkList(ns, first, st).nodes| == |ns|
    ensures WalkList(ns, first, st).nodes[i].Begin? && WalkList(ns, first, st).nodes[j].Begin?
    ensures WalkList(ns, first, st).nodes[i].name != WalkList(ns, first, st).nodes[j].name
    decreases ns
  {
    WalkListCounters(ns, first, st);
    var _ := GenforNameAt(ns, first, st, i);
    var _ := GenforNameAt(ns, first, st, j);
    var w := Walk(ns[0], first, st);
    WalkCounters(ns[0], first, st);
    if i == 0 {
      var ki := GenforNameAt(ns, first, st, 0);
      var kj := GenforNameAt(ns[1..], SiblingBack(ns[0]), w.st, j - 1);
      assert WalkList(ns, first, st).nodes[j] == WalkList(ns[1..], SiblingBack(ns[0]), w.st).nodes[j - 1];
      if Genblk(ki) == Genblk(kj) {
        PrefixedDecimalInjective("genblk", ki, kj);
      }
    } else {
      GenforNamesDistinct(ns[1..], SiblingBack(ns[0]), w.st, i - 1, j - 1);
    }
  }

  /** The first unnamed generate begin of an if branch takes the if's own number. */
  lemma IfBranchTakesIfNumber(thens: seq<GNode>, elses: seq<GNode>, back: Back, st: WalkState)
    requires !back.nestedIfBegin
    requires thens != [] && thens[0].Begin? && thens[0].name == "" && thens[0].generate && !thens[0].genfor
    ensures Walk(GenIf(thens, elses), back, st).node.GenIf?
    ensures |Walk(GenIf(thens, elses), back, st).node.thens| == |thens|
    ensures Walk(GenIf(thens, elses), back, st).node.thens[0].Begin?
    ensures Walk(GenIf(thens, elses), back, st).node.thens[0].name == Genblk(st.num + 1)
    ensures Walk(GenIf(thens, elses), back, st).st.num == st.num + 1
  {
    var st0 := WalkState(0, st.num + 1, st.udp, st.msgs);
    WalkListCounters(thens, Back(true, false, false), st0);
  }

  // Properties of the instance naming

  /** The (name, origName) of every cell, in visiting order. */
  function Cells(n: GNode): seq<(string, string)>
    decreases n
  {
    match n
    case Begin(_, _, _, _, body) => CellsList(body)
    case GenIf(thens, elses) => CellsList(thens) + CellsList(elses)
    case GenCase(items) => CellsList(items)
    case CaseItem(body) => CellsList(body)
    case Cell(name, origName, _) => [(name, origName)]
    case Stmt(body) => CellsList(body)
  }

  function CellsList(ns: seq<GNode>): seq<(string, string)>
    decreases ns
  {
    if ns == [] then [] else Cells(ns[0]) + CellsList(ns[1..])
  }

  /** The number of cells without an original name. */
  function Blanks(cs: seq<(string, string)>): nat
  {
    if cs == [] then 0 else (if cs[0].1 == "" then 1 else 0) + Blanks(cs[1..])
  }

  /** The names the cells end with: each unnamed one takes the next $unnamedudp number after u. */
  function Renamed(cs: seq<(string, string)>, u: nat): seq<(string, string)>
  {
    if cs == [] then []
    else if cs[0].1 == "" then [(UdpName(u + 1), UdpName(u + 1))] + Renamed(cs[1..], u + 1)
    else [cs[0]] + Renamed(cs[1..], u)
  }

  lemma {:induction false} RenamedAppend(a: seq<(string, string)>, b: seq<(string, string)>, u: nat)
    ensures Renamed(a + b, u) == Renamed(a, u) + Renamed(b, u + Blanks(a))
    ensures Blanks(a + b) == Blanks(a) + Blanks(b)
  {
    if a != [] {
      assert (a + b)[0] == a[0] && (a + b)[1..] == a[1..] + b;
      RenamedAppend(a[1..], b, if a[0].1 == "" then u + 1 else u);
    } else {
      assert a + b == b;
    }
  }

  /** Visiting renames the cells as Renamed says and advances m_anonUdpId by the unnamed ones. */
  lemma {:induction false} WalkCells(n: GNode, back: Back, st: WalkState)
    ensures Cells(Walk(n, back, st).node) == Renamed(Cells(n), st.udp)
    ensures Walk(n, back, st).st.udp == st.udp + Blanks(Cells(n))
    decreases n, 1
  {
    match n
    case Begin(_, _, _, _, _) =>
      WalkCellsBegin(n, back, st);
    case GenIf(_, _) =>
      WalkCellsGenIf(n, back, st);
    case GenCase(items) =>
      WalkListCells(items, Back(false, false, false), WalkState(0, st.num + 1, st.udp, st.msgs));
    case CaseItem(body) =>
      WalkListCells(body, Back(true, false, false), st);
    case Cell(_, origName, _) =>
      assert Renamed(Cells(n), st.udp) == Renamed([(n.name, origName)], st.udp);
    case Stmt(body) =>
      WalkListCells(body, Back(false, false, false), st);
  }

  lemma {:induction false} WalkCellsBegin(n: GNode, back: Back, st: WalkState)
    requires n.Begin?
    ensures Cells(Walk(n, back, st).node) == Renamed(Cells(n), st.udp)
    ensures Walk(n, back, st).st.udp == st.udp + Blanks(Cells(n))
    decreases n, 0
  {
    var num1 := if n.genfor then st.num + 1 else st.num;
    var name' := if Renames(n, back) then Genblk(AssignedNum(n, back, st)) else n.name;
    var msgs := if Renames(n, back) && n.body != [] then st.msgs + [GenUnnamed(name')] else st.msgs;
    var inner := Back(false, false, NestedIfBegin(n, back));
    if name' != "" {
      WalkListCells(n.body, inner, WalkState(0, 0, st.udp, msgs));
    } else {
      WalkListCells(n.body, inner, WalkState(num1, st.above, st.udp, msgs));
    }
  }

  lemma {:induction false} WalkCellsGenIf(n: GNode, back: Back, st: WalkState)
    requires n.GenIf?
    ensures Cells(Walk(n, back, st).node) == Renamed(Cells(n), st.udp)
    ensures Walk(n, back, st).st.udp == st.udp + Blanks(Cells(n))
    decreases n, 0
  {
    var st0 := if back.nestedIfBegin then st else WalkState(0, st.num + 1, st.udp, st.msgs);
    WalkListCells(n.thens, Back(true, false, false), st0);
    var t := WalkList(n.thens, Back(true, false, false), st0);
    var e := WalkList(n.elses, Back(true, |n.elses| == 1, false), t.st);
    WalkListCells(n.elses, Back(true, |n.elses| == 1, false), t.st);
    var w := Walk(n, back, st);
    assert w.node == GenIf(t.nodes, e.nodes) && w.st.udp == e.st.udp;
    assert Cells(w.node) == CellsList(t.nodes) + CellsList(e.nodes);
    RenamedAppend(CellsList(n.thens), CellsList(n.elses), st.udp);
  }

  lemma {:induction false} WalkListCells(ns: seq<GNode>, first: Back, st: WalkState)
    ensures CellsList(WalkList(ns, first, st).nodes) == Renamed(CellsList(ns), st.udp)
    ensures WalkList(ns, first, st).st.udp == st.udp + Blanks(CellsList(ns))
    decreases ns, 2
  {
    if ns != [] {
      var w := Walk(ns[0], first, st);
      WalkCells(ns[0], first, st);
      WalkListCells(ns[1..], SiblingBack(ns[0]), w.st);
      var out := WalkList(ns, first, st).nodes;
      assert out[0] == w.node && out[1..] == WalkList(ns[1..], SiblingBack(ns[0]), w.st).nodes;
      RenamedAppend(Cells(ns[0]), CellsList(ns[1..]), st.udp);
    }
  }

  /** The i-th renamed cell, when unnamed, takes the number after u plus the unnamed cells before it. */
  lemma {:induction false} RenamedAt(cs: seq<(string, string)>, u: nat, i: nat)
    requires i < |cs| && cs[i].1 == ""
    ensures |Renamed(cs, u)| == |cs|
    ensures Renamed(cs, u)[i].0 == UdpName(u + Blanks(cs[..i]) + 1)
  {
    RenamedLength(cs, u);
    if i > 0 {
      assert cs[1..][..i - 1] == cs[..i][1..];
      RenamedAt(cs[1..], if cs[0].1 == "" then u + 1 else u, i - 1);
    }
  }

  lemma {:induction false} RenamedLength(cs: seq<(string, string)>, u: nat)
    ensures |Renamed(cs, u)| == |cs|
  {
    if cs != [] {
      RenamedLength(cs[1..], if cs[0].1 == "" then u + 1 else u);
    }
  }

  lemma {:induction false} BlanksGrow(cs: seq<(string, string)>, i: nat, j: nat)
    requires i < j <= |cs| && cs[i].1 == ""
    ensures Blanks(cs[..j]) >= Blanks(cs[..i]) + 1
  {
    assert cs[..j] == cs[..i] + cs[i..j];
    RenamedAppend(cs[..i], cs[i..j], 0);
    assert cs[i..j][0] == cs[i];
  }

  /** Two unnamed cells of one module never end with the same name. */
  lemma UdpNamesDistinct(body: seq<GNode>, msgs: seq<Msg>, i: nat, j: nat)
    requires i < j < |CellsList(body)|
    requires CellsList(body)[i].1 == "" && CellsList(body)[j].1 == ""
    ensures |CellsList(WalkModule(body, msgs).nodes)| == |CellsList(body)|
    ensures CellsList(WalkModule(body, msgs).nodes)[i].0 != CellsList(WalkModule(body, msgs).nodes)[j].0
  {
    var cs := CellsList(body);
    WalkListCells(body, Back(false, false, false), WalkState(0, 0, 0, msgs));
    RenamedAt(cs, 0, i);
    RenamedAt(cs, 0, j);
    BlanksGrow(cs, i, j);
    var ki := Blanks(cs[..i]) + 1;
    var kj := Blanks(cs[..j]) + 1;
    if UdpName(ki) == UdpName(kj) {
      PrefixedDecimalInjective("$unnamedudp", ki, kj);
    }
  }

  /** The visitor state the numbering uses. */
  class LinkParseVisitor {
    var genblkNum: nat
    var genblkAbove: nat
    var anonUdpId: nat
    var msgs: seq<Msg>

    function State(): WalkState
      reads this
    {
      WalkState(genblkNum, genblkAbove, anonUdpId, msgs)
    }

    constructor ()
      ensures State() == WalkState(0, 0, 0, [])
    {
      genblkNum := 0;
      genblkAbove := 0;
      anonUdpId := 0;
      msgs := [];
    }

    /** The visitor's dispatch on the node type. */
    method VisitNode(n: GNode, back: Back) returns (n': GNode)
      modifies this
      ensures Walked(n', State()) == Walk(n, back, old(State()))
      decreases n, 2
    {
      match n
      case Begin(_, _, _, _, _) =>
        n' := VisitBegin(n, back);
      case GenIf(thens, elses) =>
        n' := VisitGenIf(thens, elses, back);
      case GenCase(items) =>
        n' := VisitGenCase(items);
      case CaseItem(body) =>
        var r := VisitList(body, Back(true, false, false));
        n' := CaseItem(r);
      case Cell(_, _, _) =>
        n' := VisitCell(n);
      case Stmt(body) =>
        var r := VisitList(body, Back(false, false, false));
        n' := Stmt(r);
    }

    /** visit(AstBegin): name an unnamed loop or if/case branch block, then visit the body. */
    method VisitBegin(n: GNode, back: Back) returns (n': GNode)
      requires n.Begin?
      modifies this
      ensures Walked(n', State()) == Walk(n, back, old(State()))
      decreases n, 1
    {
      var assign: int := -1;
      if n.genfor {
        genblkNum := genblkNum + 1;
        if n.name == "" {
          assign := genblkNum;
        }
      } else if n.generate && n.name == "" && back.ifOrCaseItem && !NestedIfBegin(n, back) {
        assign := genblkAbove;
      }
      var newName := n.name;
      if assign != -1 {
        newName := Genblk(assign);
        if n.body != [] {
          msgs := msgs + [GenUnnamed(newName)];
        }
      }
      var inner := Back(false, false, NestedIfBegin(n, back));
      var body';
      if newName != "" {
        var num1, above1 := genblkNum, genblkAbove;
        genblkAbove, genblkNum := 0, 0;
        body' := VisitList(n.body, inner);
        genblkNum, genblkAbove := num1, above1;
      } else {
        body' := VisitList(n.body, inner);
      }
      n' := Begin(newName, n.implied, n.genfor, n.generate, body');
    }

    /** visit(AstGenIf): a directly nested if shares the number of the if above it. */
    method VisitGenIf(thens: seq<GNode>, elses: seq<GNode>, back: Back) returns (n': GNode)
      modifies this
      ensures Walked(n', State()) == Walk(GenIf(thens, elses), back, old(State()))
      decreases GenIf(thens, elses), 1
    {
      if back.nestedIfBegin {
        var t := VisitList(thens, Back(true, false, false));
        var e := VisitList(elses, Back(true, |elses| == 1, false));
        n' := GenIf(t, e);
      } else {
        genblkNum := genblkNum + 1;
        var num1, above1 := genblkNum, genblkAbove;
        genblkAbove, genblkNum := genblkNum, 0;
        var t := VisitList(thens, Back(true, false, false));
        var e := VisitList(elses, Back(true, |elses| == 1, false));
        genblkNum, genblkAbove := num1, above1;
        n' := GenIf(t, e);
      }
    }

    /** visit(AstGenCase): the case takes the next number and its items count from zero. */
    method VisitGenCase(items: seq<GNode>) returns (n': GNode)
      modifies this
      ensures Walked(n', State()) == Walk(GenCase(items), Back(false, false, false), old(State()))
      decreases GenCase(items), 1
    {
      genblkNum := genblkNum + 1;
      var num1, above1 := genblkNum, genblkAbove;
      genblkAbove, genblkNum := genblkNum, 0;
      var r := VisitList(items, Back(false, false, false));
      genblkNum, genblkAbove := num1, above1;
      n' := GenCase(r);
    }

    /** visit(AstCell): an instance without a name takes the next $unnamedudp name. */
    method VisitCell(n: GNode) returns (n': GNode)
      requires n.Cell?
      modifies this
      ensures Walked(n', State()) == Walk(n, Back(false, false, false), old(State()))
    {
      n' := n;
      if n.origName == "" {
        if !n.primitive {
          msgs := msgs + [InstanceMustBeNamed];
        }
        anonUdpId := anonUdpId + 1;
        n' := Cell(UdpName(anonUdpId), UdpName(anonUdpId), n.primitive);
      }
    }

    /** iterateChildren over one list of siblings. */
    method VisitList(ns: seq<GNode>, first: Back) returns (ns': seq<GNode>)
      modifies this
      ensures WalkedList(ns', State()) == WalkList(ns, first, old(State()))
      decreases ns, 0
    {
      ns' := [];
      var i := 0;
      while i < |ns|
        invariant 0 <= i <= |ns|
        invariant WalkList(ns, first, old(State()))
          == WalkedList(ns' + WalkList(ns[i..], if i == 0 then first else SiblingBack(ns[i - 1]), State()).nodes,
                        WalkList(ns[i..], if i == 0 then first else SiblingBack(ns[i - 1]), State()).st)
        decreases |ns| - i
      {
        var back := if i == 0 then first else SiblingBack(ns[i - 1]);
        assert ns[i..][0] == ns[i] && ns[i..][1..] == ns[i + 1..];
        var m := VisitNode(ns[i], back);
        ns' := ns' + [m];
        i := i + 1;
      }
      assert ns[i..] == [];
    }

    /** visit(AstNodeModule): the counters start at zero for the body and are restored after it. */
    method VisitModule(body: seq<GNode>) returns (body': seq<GNode>)
      modifies this
      ensures genblkNum == old(genblkNum) && genblkAbove == old(genblkAbove) && anonUdpId == old(anonUdpId)
      ensures body' == WalkModule(body, old(msgs)).nodes && msgs == WalkModule(body, old(msgs)).st.msgs
    {
      var num0, above0, udp0 := genblkNum, genblkAbove, anonUdpId;
      genblkNum, genblkAbove, anonUdpId := 0, 0, 0;
      body' := VisitList(body, Back(false, false, false));
      genblkNum, genblkAbove, anonUdpId := num0, above0, udp0;
    }
  }

  // ---------------------------------------------------------------------
  // Clocking blocks

  datatype Dir = In | Out | InOut

  datatype Skew = OneStep | SkewConst(value: int) | SkewExpr(node: nat)

  /** A clocking item; a default item has neither an expression nor an assignment. */
  datatype ClockingItem = ClockingItem(dir: Dir, skew: Option<Skew>, isDefault: bool)

  datatype ClockingError = MultipleDefaultInput | MultipleDefaultOutput | OneStepOutput | IncorrectDirection

  /** The last default input skew, if any. */
  function DefaultIn(items: seq<ClockingItem>): Option<Skew>
  {
    if items == [] then None
    else
      var last := items[|items| - 1];
      if last.isDefault && last.skew.Some? && last.dir == In then last.skew else DefaultIn(items[..|items| - 1])
  }

  function DefaultOut(items: seq<ClockingItem>): Option<Skew>
  {
    if items == [] then None
    else
      var last := items[|items| - 1];
      if last.isDefault && last.skew.Some? && last.dir == Out then last.skew else DefaultOut(items[..|items| - 1])
  }

  /** A default item with a skew that is neither input nor output: an internal error. */
  predicate BadDefault(items: seq<ClockingItem>)
  {
    exists k | 0 <= k < |items| :: items[k].isDefault && items[k].skew.Some? && items[k].dir == InOut
  }

  lemma BadDefaultSnoc(items: seq<ClockingItem>, it: ClockingItem)
    ensures BadDefault(items + [it]) <==> BadDefault(items) || (it.isDefault && it.skew.Some? && it.dir == InOut)
  {
    if BadDefault(items + [it]) {
      var k :| 0 <= k < |items| + 1 && (items + [it])[k].isDefault && (items + [it])[k].skew.Some? && (items + [it])[k].dir == InOut;
      if k < |items| {
        assert items[k] == (items + [it])[k];
      }
    }
    if BadDefault(items) {
      var k :| 0 <= k < |items| && items[k].isDefault && items[k].skew.Some? && items[k].dir == InOut;
      assert items[k] == (items + [it])[k];
    }
    if it.isDefault && it.skew.Some? && it.dir == InOut {
      assert (items + [it])[|items|] == it;
    }
  }

  /** The errors of the loop over default items, in order. */
  function DefaultErrors(items: seq<ClockingItem>): seq<ClockingError>
  {
    if items == [] then []
    else
      var pre := items[..|items| - 1];
      var last := items[|items| - 1];
      DefaultErrors(pre)
      + if !last.isDefault || last.skew.None? then []
        else if last.dir == In then (if DefaultIn(pre).Some? then [MultipleDefaultInput] else [])
        else if last.dir == Out then
          (if last.skew == Some(OneStep) then [OneStepOutput] else [])
          + (if DefaultOut(pre).Some? then [MultipleDefaultOutput] else [])
        else []
  }

  /** The items that stay, in order. */
  function NonDefaults(items: seq<ClockingItem>): seq<ClockingItem>
  {
    if items == [] then []
    else NonDefaults(items[..|items| - 1]) + if items[|items| - 1].isDefault then [] else [items[|items| - 1]]
  }

  /** visit(AstClockingItem): a missing skew is the default, else 0 for outputs and 1step for inputs. */
  function Filled(it: ClockingItem, dIn: Option<Skew>, dOut: Option<Skew>): ClockingItem
  {
    if it.skew.Some? then it
    else if it.dir == Out then it.(skew := Some(if dOut.Some? then dOut.value else SkewConst(0)))
    else if it.dir == In then it.(skew := Some(if dIn.Some? then dIn.value else OneStep))
    else it
  }

  function ItemError(it: ClockingItem): seq<ClockingError>
  {
    if it.dir == Out && it.skew == Some(OneStep) then [OneStepOutput] else []
  }

  /**
   * visit(AstClocking): collect and remove the default items, then fill
   * the skews of the others.  `fatal` is the internal error that stops
   * compilation.
   */
  method VisitClocking(items: seq<ClockingItem>) returns (out: seq<ClockingItem>, errs: seq<ClockingError>, fatal: bool)
    ensures fatal <==> BadDefault(items)
    ensures !fatal ==> |out| == |NonDefaults(items)|
    ensures !fatal ==> forall k | 0 <= k < |out| ::
      out[k] == Filled(NonDefaults(items)[k], DefaultIn(items), DefaultOut(items))
    ensures !fatal ==> errs == DefaultErrors(items) + ItemErrors(NonDefaults(items))
  {
    var dIn, dOut, defaultErrs, kept;
    dIn, dOut, defaultErrs, kept, fatal := CollectDefaults(items);
    if fatal {
      return [], defaultErrs, true;
    }
    var itemErrs;
    out, itemErrs := FillItems(kept, dIn, dOut);
    errs := defaultErrs + itemErrs;
  }

  /** The first loop of visit(AstClocking): record the default skews and drop the default items. */
  method CollectDefaults(items: seq<ClockingItem>)
    returns (dIn: Option<Skew>, dOut: Option<Skew>, errs: seq<ClockingError>, kept: seq<ClockingItem>, fatal: bool)
    ensures fatal <==> BadDefault(items)
    ensures !fatal ==> dIn == DefaultIn(items) && dOut == DefaultOut(items)
    ensures !fatal ==> errs == DefaultErrors(items) && kept == NonDefaults(items)
  {
    dIn, dOut := None, None;
    errs, kept := [], [];
    for i := 0 to |items|
      invariant dIn == DefaultIn(items[..i]) && dOut == DefaultOut(items[..i])
      invariant errs == DefaultErrors(items[..i]) && kept == NonDefaults(items[..i])
      invariant !BadDefault(items[..i])
    {
      var it := items[i];
      assert items[..i + 1][..i] == items[..i];
      assert items[..i + 1][i] == it;
      if it.isDefault && it.skew.Some? {
        if it.dir == In {
          if dIn.Some? {
            errs := errs + [MultipleDefaultInput];
          }
          dIn := it.skew;
        } else if it.dir == Out {
          if it.skew == Some(OneStep) {
            errs := errs + [OneStepOutput];
          }
          if dOut.Some? {
            errs := errs + [MultipleDefaultOutput];
          }
          dOut := it.skew;
        } else {
          fatal := true;
          assert items[i] == it;
          return;
        }
      }
      if !it.isDefault {
        kept := kept + [it];
      }
      assert items[..i + 1] == items[..i] + [it];
      BadDefaultSnoc(items[..i], it);
    }
    assert items[..|items|] == items;
    fatal := false;
  }

  /** visit(AstClockingItem) over the remaining items, in order. */
  method FillItems(kept: seq<ClockingItem>, dIn: Option<Skew>, dOut: Option<Skew>)
    returns (out: seq<ClockingItem>, errs: seq<ClockingError>)
    ensures |out| == |kept|
    ensures forall k | 0 <= k < |out| :: out[k] == Filled(kept[k], dIn, dOut)
    ensures errs == ItemErrors(kept)
  {
    out, errs := [], [];
    for j := 0 to |kept|
      invariant |out| == j
      invariant forall k | 0 <= k < j :: out[k] == Filled(kept[k], dIn, dOut)
      invariant errs == ItemErrors(kept[..j])
    {
      assert kept[..j + 1][..j] == kept[..j];
      errs := errs + ItemError(kept[j]);
      out := out + [Filled(kept[j], dIn, dOut)];
    }
    assert kept[..|kept|] == kept;
  }

  function ItemErrors(items: seq<ClockingItem>): seq<ClockingError>
  {
    if items == [] then [] else ItemErrors(items[..|items| - 1]) + ItemError(items[|items| - 1])
  }

  /** After the visit every input and output item has a skew. */
  lemma FilledHasSkew(it: ClockingItem, dIn: Option<Skew>, dOut: Option<Skew>)
    ensures it.dir != InOut ==> Filled(it, dIn, dOut).skew.Some?
    ensures it.skew.Some? ==> Filled(it, dIn, dOut) == it
  {
  }

  function CountDefaultIn(items: seq<ClockingItem>): nat
  {
    if items == [] then 0
    else
      var last := items[|items| - 1];
      CountDefaultIn(items[..|items| - 1]) + (if last.isDefault && last.skew.Some? && last.dir == In then 1 else 0)
  }

  lemma {:induction false} DefaultInCounted(items: seq<ClockingItem>)
    ensures DefaultIn(items).Some? <==> CountDefaultIn(items) > 0
  {
    if items != [] {
      DefaultInCounted(items[..|items| - 1]);
    }
  }

  /** "Multiple default input skews" is reported exactly when there are two or more. */
  lemma {:induction false} MultipleInputIff(items: seq<ClockingItem>)
    ensures MultipleDefaultInput in DefaultErrors(items) <==> CountDefaultIn(items) >= 2
  {
    if items != [] {
      var pre := items[..|items| - 1];
      MultipleInputIff(pre);
      DefaultInCounted(pre);
    }
  }
}
