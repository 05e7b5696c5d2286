/**
 * The extraction step in front of the dataflow optimizer
 * (DataflowExtractVisitor of V3DfgOptimizer.cpp).  Pure right-hand sides and
 * conditions inside combinational always blocks become candidates; a
 * candidate is moved into a continuous assignment of its own when every
 * variable it reads is driven by a continuous assignment and none is the
 * target of a force or release.  Variables are node numbers.
 */
module DfgExtract {

  /** The expressions the visitor distinguishes; Call is any node kind it does not handle. */
  datatype Expr =
    | Ref(v: nat, write: bool)
    | Const
    | Op(kids: seq<Expr>)
    | Call(kids: seq<Expr>)

  datatype AlwaysKwd = KwAlways | KwAlwaysComb | KwAlwaysLatch | KwAlwaysFf

  /** Statements; Other stands for every statement kind without its own visit. */
  datatype Stmt =
    | Assign(lhs: Expr, rhs: Expr)
    | AssignW(lhs: Expr, rhs: Expr)
    | If(cond: Expr, thens: seq<Stmt>, elses: seq<Stmt>)
    | Force(lhs: Expr, rhs: Expr)
    | Release(lhs: Expr)
    | Always(hasSenses: bool, kwd: AlwaysKwd, body: seq<Stmt>)
    | Other(exprs: seq<Expr>, body: seq<Stmt>)

  /** A module; only `proper` ones (AstModule, not packages, classes or interfaces) are extracted from. */
  datatype Module = Module(proper: bool, items: seq<Stmt>)

  datatype Candidate = Candidate(expr: Expr, vars: seq<nat>)

  // ---------------------------------------------------------------------
  // What a traced expression contributes

  /** The variables read, in visiting order, duplicates kept. */
  function Reads(e: Expr): seq<nat>
    decreases e
  {
    match e
    case Ref(v, write) => if write then [] else [v]
    case Const => []
    case Op(kids) => ReadsList(kids)
    case Call(kids) => ReadsList(kids)
  }

  function ReadsList(es: seq<Expr>): seq<nat>
    decreases es
  {
    if es == [] then [] else Reads(es[0]) + ReadsList(es[1..])
  }

  /** The variables written. */
  function Writes(e: Expr): set<nat>
    decreases e
  {
    match e
    case Ref(v, write) => if write then {v} else {}
    case Const => {}
    case Op(kids) => WritesList(kids)
    case Call(kids) => WritesList(kids)
  }

  function WritesList(es: seq<Expr>): set<nat>
    decreases es
  {
    if es == [] then {} else Writes(es[0]) + WritesList(es[1..])
  }

  /** A side effect: a write reference, or a node kind the visitor does not handle. */
  predicate Impure(e: Expr)
    decreases e
  {
    match e
    case Ref(_, write) => write
    case Const => false
    case Op(kids) => ImpureList(kids)
    case Call(_) => true
  }

  predicate ImpureList(es: seq<Expr>)
    decreases es
  {
    es != [] && (Impure(es[0]) || ImpureList(es[1..]))
  }

  /** Any write makes an expression impure. */
  lemma {:induction false} WriteIsImpure(e: Expr)
    ensures Writes(e) != {} ==> Impure(e)
    decreases e
  {
    match e
    case Ref(_, _) =>
    case Const =>
    case Op(kids) => WriteIsImpureList(kids);
    case Call(_) =>
  }

  lemma {:induction false} WriteIsImpureList(es: seq<Expr>)
    ensures WritesList(es) != {} ==> ImpureList(es)
    decreases es
  {
    if es != [] {
      WriteIsImpure(es[0]);
      WriteIsImpureList(es[1..]);
    }
  }

  /** Every variable Reads lists occurs as a read reference. */
  predicate ReadsVar(e: Expr, v: nat)
    decreases e
  {
    match e
    case Ref(w, write) => !write && w == v
    case Const => false
    case Op(kids) => exists k | 0 <= k < |kids| :: ReadsVar(kids[k], v)
    case Call(kids) => exists k | 0 <= k < |kids| :: ReadsVar(kids[k], v)
  }

  lemma {:induction false} ReadsMeansRead(e: Expr, v: nat)
    ensures v in Reads(e) <==> ReadsVar(e, v)
    decreases e
  {
    match e
    case Ref(_, _) =>
    case Const =>
    case Op(kids) => ReadsListMeansRead(kids, v);
    case Call(kids) => ReadsListMeansRead(kids, v);
  }

  lemma {:induction false} ReadsListMeansRead(es: seq<Expr>, v: nat)
    ensures v in ReadsList(es) <==> exists k | 0 <= k < |es| :: ReadsVar(es[k], v)
    decreases es
  {
    if es != [] {
      ReadsMeansRead(es[0], v);
      ReadsListMeansRead(es[1..], v);
      if exists k | 0 <= k < |es| :: ReadsVar(es[k], v) {
        var k :| 0 <= k < |es| && ReadsVar(es[k], v);
        if k > 0 {
          assert es[1..][k - 1] == es[k];
        }
      }
      if exists k | 0 <= k < |es| - 1 :: ReadsVar(es[1..][k], v) {
        var k :| 0 <= k < |es| - 1 && ReadsVar(es[1..][k], v);
        assert es[k + 1] == es[1..][k];
      }
    }
  }

  // ---------------------------------------------------------------------
  // Candidates

  /** The always blocks extraction looks into: no sensitivity list, a combinational keyword. */
  predicate IsComb(hasSenses: bool, kwd: AlwaysKwd)
  {
    !hasSenses && kwd in {KwAlways, KwAlwaysComb, KwAlwaysLatch}
  }

  /** A root expression kept as a candidate: not a plain reference or constant, pure, reading something. */
  predicate Extractable(e: Expr)
  {
    !e.Ref? && !e.Const? && !Impure(e) && Reads(e) != []
  }

  /** iterateExtractionCandidate's effect on the candidate list. */
  function RootCandidates(e: Expr, on: bool): (cs: seq<Candidate>)
    ensures cs != [] <==> on && Extractable(e)
    ensures cs != [] ==> cs == [Candidate(e, Reads(e))]
  {
    if e.Ref? || !on then []
    else if e.Const? then []
    else if Impure(e) || Reads(e) == [] then []
    else [Candidate(e, Reads(e))]
  }

  /** The candidates a statement adds; `on` says whether a candidate list is set up. */
  function Cands(s: Stmt, on: bool, proper: bool): seq<Candidate>
    decreases s
  {
    match s
    case Assign(_, rhs) => RootCandidates(rhs, on)
    case AssignW(_, _) => []
    case If(cond, thens, elses) =>
      RootCandidates(cond, on) + CandsList(thens, on, proper) + CandsList(elses, on, proper)
    case Force(_, _) => []
    case Release(_) => []
    case Always(hasSenses, kwd, body) => CandsList(body, IsComb(hasSenses, kwd) && proper, proper)
    case Other(_, body) => CandsList(body, on, proper)
  }

  function CandsList(ss: seq<Stmt>, on: bool, proper: bool): seq<Candidate>
    decreases ss
  {
    if ss == [] then [] else Cands(ss[0], on, proper) + CandsList(ss[1..], on, proper)
  }

  /** Variables driven by a continuous assignment to a plain reference (user4). */
  function CombDriven(s: Stmt): set<nat>
    decreases s
  {
    match s
    case Assign(_, _) => {}
    case AssignW(lhs, _) => if lhs.Ref? then {lhs.v} else {}
    case If(_, thens, elses) => CombDrivenList(thens) + CombDrivenList(elses)
    case Force(_, _) => {}
    case Release(_) => {}
    case Always(_, _, body) => CombDrivenList(body)
    case Other(_, body) => CombDrivenList(body)
  }

  function CombDrivenList(ss: seq<Stmt>): set<nat>
    decreases ss
  {
    if ss == [] then {} else CombDriven(ss[0]) + CombDrivenList(ss[1..])
  }

  /** Variables written on the left of a force or release (user3). */
  function Forced(s: Stmt): set<nat>
    decreases s
  {
    match s
    case Assign(_, _) => {}
    case AssignW(_, _) => {}
    case If(_, thens, elses) => ForcedList(thens) + ForcedList(elses)
    case Force(lhs, _) => Writes(lhs)
    case Release(lhs) => Writes(lhs)
    case Always(_, _, body) => ForcedList(body)
    case Other(_, body) => ForcedList(body)
  }

  function ForcedList(ss: seq<Stmt>): set<nat>
    decreases ss
  {
    if ss == [] then {} else Forced(ss[0]) + ForcedList(ss[1..])
  }

  /** Every candidate is an extractable expression together with the variables it reads. */
  lemma {:induction false} CandidatesAreExtractable(s: Stmt, on: bool, proper: bool, c: Candidate)
    requires c in Cands(s, on, proper)
    ensures Extractable(c.expr) && c.vars == Reads(c.expr)
    decreases s
  {
    match s
    case Assign(_, _) =>
    case AssignW(_, _) =>
    case If(cond, thens, elses) =>
      if c !in RootCandidates(cond, on) {
        if c in CandsList(thens, on, proper) {
          CandidatesAreExtractableList(thens, on, proper, c);
        } else {
          CandidatesAreExtractableList(elses, on, proper, c);
        }
      }
    case Force(_, _) =>
    case Release(_) =>
    case Always(hasSenses, kwd, body) =>
      CandidatesAreExtractableList(body, IsComb(hasSenses, kwd) && proper, proper, c);
    case Other(_, body) =>
      CandidatesAreExtractableList(body, on, proper, c);
  }

  lemma {:induction false} CandidatesAreExtractableList(ss: seq<Stmt>, on: bool, proper: bool, c: Candidate)
    requires c in CandsList(ss, on, proper)
    ensures Extractable(c.expr) && c.vars == Reads(c.expr)
    decreases ss
  {
    if c in Cands(ss[0], on, proper) {
      CandidatesAreExtractable(ss[0], on, proper, c);
    } else {
      CandidatesAreExtractableList(ss[1..], on, proper, c);
    }
  }

  /** Outside proper modules nothing is collected, whatever always blocks they hold. */
  lemma {:induction false} NoCandidatesOutsideModules(s: Stmt)
    ensures Cands(s, false, false) == []
    decreases s
  {
    match s
    case Assign(_, _) =>
    case AssignW(_, _) =>
    case If(_, thens, elses) =>
      NoCandidatesOutsideModulesList(thens);
      NoCandidatesOutsideModulesList(elses);
    case Force(_, _) =>
    case Release(_) =>
    case Always(_, _, body) => NoCandidatesOutsideModulesList(body);
    case Other(_, body) => NoCandidatesOutsideModulesList(body);
  }

  lemma {:induction false} NoCandidatesOutsideModulesList(ss: seq<Stmt>)
    ensures CandsList(ss, false, false) == []
    decreases ss
  {
    if ss != [] {
      NoCandidatesOutsideModules(ss[0]);
      NoCandidatesOutsideModulesList(ss[1..]);
    }
  }

  /** A sequential always block (with a sensitivity list, or always_ff) contributes nothing directly. */
  lemma SequentialAlwaysNoRoots(hasSenses: bool, kwd: AlwaysKwd, body: seq<Stmt>, on: bool, proper: bool)
    requires hasSenses || kwd == KwAlwaysFf
    ensures Cands(Always(hasSenses, kwd, body), on, proper) == CandsList(body, false, proper)
  {
  }

  // ---------------------------------------------------------------------
  // The final pass

  /** A candidate that only reads continuously driven, never forced variables. */
  predicate Good(c: Candidate, forced: set<nat>, comb: set<nat>)
  {
    c.vars != [] && forall k | 0 <= k < |c.vars| :: c.vars[k] in comb && c.vars[k] !in forced
  }

  /** The candidates the final pass replaces, in order. */
  function Extracted(cs: seq<Candidate>, forced: set<nat>, comb: set<nat>): (r: seq<Candidate>)
    ensures forall c | c in r :: c in cs && Good(c, forced, comb)
    ensures forall c | c in cs && Good(c, forced, comb) :: c in r
    ensures |r| <= |cs|
  {
    if cs == [] then []
    else
      var rest := Extracted(cs[..|cs| - 1], forced, comb);
      if Good(cs[|cs| - 1], forced, comb) then rest + [cs[|cs| - 1]] else rest
  }

  function ExtractedModules(ms: seq<Module>, cands: seq<seq<Candidate>>, forced: set<nat>, comb: set<nat>): seq<Candidate>
    requires |cands| == |ms|
  {
    if ms == [] then []
    else
      var n := |ms| - 1;
      ExtractedModules(ms[..n], cands[..n], forced, comb)
      + if ms[n].proper then Extracted(cands[n], forced, comb) else []
  }

  /** The candidates of every module, in netlist order. */
  function NetlistCands(ms: seq<Module>): (r: seq<seq<Candidate>>)
    ensures |r| == |ms|
  {
    if ms == [] then [] else NetlistCands(ms[..|ms| - 1]) + [CandsList(ms[|ms| - 1].items, false, ms[|ms| - 1].proper)]
  }

  function NetlistForced(ms: seq<Module>): set<nat>
  {
    if ms == [] then {} else NetlistForced(ms[..|ms| - 1]) + ForcedList(ms[|ms| - 1].items)
  }

  function NetlistComb(ms: seq<Module>): set<nat>
  {
    if ms == [] then {} else NetlistComb(ms[..|ms| - 1]) + CombDrivenList(ms[|ms| - 1].items)
  }

  /** The loop over a candidate's read variables with its hasBadVar flag. */
  method HasBadVar(rs: seq<nat>, forced: set<nat>, comb: set<nat>) returns (bad: bool)
    ensures bad <==> exists k | 0 <= k < |rs| :: rs[k] in forced || rs[k] !in comb
  {
    bad := false;
    var i := 0;
    while i < |rs|
      invariant 0 <= i <= |rs|
      invariant forall k | 0 <= k < i :: rs[k] !in forced && rs[k] in comb
    {
      if rs[i] in forced || rs[i] !in comb {
        bad := true;
        return;
      }
      i := i + 1;
    }
  }

  /** The candidates of one module that the final pass replaces. */
  method ExtractModule(cs: seq<Candidate>, forced: set<nat>, comb: set<nat>) returns (r: seq<Candidate>)
    ensures r == Extracted(cs, forced, comb)
  {
    r := [];
    for i := 0 to |cs|
      invariant r == Extracted(cs[..i], forced, comb)
    {
      assert cs[..i + 1][..i] == cs[..i];
      if cs[i].vars != [] {
        var bad := HasBadVar(cs[i].vars, forced, comb);
        if !bad {
          r := r + [cs[i]];
        }
      }
    }
    assert cs[..|cs|] == cs;
  }

  // ---------------------------------------------------------------------
  // The visitor

  class DataflowExtractVisitor {
    /** user3 of variables: subject of a force or release. */
    var forced: set<nat>
    /** user4 of variables: driven by a continuous assignment. */
    var combDriven: set<nat>
    /** m_extractionCandidates of the modules visited so far, in order. */
    var moduleCands: seq<seq<Candidate>>
    /** The candidate list of the module being visited. */
    var cands: seq<Candidate>
    /** m_candidatesp != nullptr. */
    var candidatesOn: bool
    /** m_modp is a proper module. */
    var inProperModule: bool
    /** Scratch state of the expression being traced. */
    var impure: bool
    var readVars: seq<nat>
    var inForceReleaseLhs: bool

    constructor ()
      ensures forced == {} && combDriven == {} && moduleCands == [] && !candidatesOn && !inForceReleaseLhs
    {
      forced, combDriven := {}, {};
      moduleCands, cands := [], [];
      candidatesOn, inProperModule := false, false;
      impure, readVars, inForceReleaseLhs := false, [], false;
    }

    /** visit(AstNodeExpr) and visit(AstNodeVarRef) and visit(AstNode) on expressions. */
    method VisitExpr(e: Expr)
      modifies this`readVars, this`impure, this`forced
      ensures readVars == old(readVars) + Reads(e)
      ensures impure == (old(impure) || Impure(e))
      ensures forced == old(forced) + (if inForceReleaseLhs then Writes(e) else {})
      decreases e, 1
    {
      match e
      case Ref(v, write) =>
        if write {
          impure := true;
          if inForceReleaseLhs {
            forced := forced + {v};
          }
        } else {
          readVars := readVars + [v];
        }
      case Const =>
      case Op(kids) =>
        VisitExprs(kids);
      case Call(kids) =>
        impure := true;
        VisitExprs(kids);
    }

    method VisitExprs(es: seq<Expr>)
      modifies this`readVars, this`impure, this`forced
      ensures readVars == old(readVars) + ReadsList(es)
      ensures impure == (old(impure) || ImpureList(es))
      ensures forced == old(forced) + (if inForceReleaseLhs then WritesList(es) else {})
      decreases es, 0
    {
      var i := 0;
      while i < |es|
        invariant 0 <= i <= |es|
        invariant readVars + ReadsList(es[i..]) == old(readVars) + ReadsList(es)
        invariant (impure || ImpureList(es[i..])) == (old(impure) || ImpureList(es))
        invariant forced + (if inForceReleaseLhs then WritesList(es[i..]) else {})
          == old(forced) + (if inForceReleaseLhs then WritesList(es) else {})
        decreases |es| - i
      {
        assert es[i..][0] == es[i] && es[i..][1..] == es[i + 1..];
        VisitExpr(es[i]);
        i := i + 1;
      }
      assert es[i..] == [];
    }

    /** iterateExtractionCandidate. */
    method IterateCandidate(e: Expr)
      modifies this`readVars, this`impure, this`forced, this`cands
      ensures cands == old(cands) + RootCandidates(e, candidatesOn)
      ensures forced == old(forced) + (if inForceReleaseLhs then Writes(e) else {})
    {
      if e.Ref? || !candidatesOn {
        VisitExpr(e);
        return;
      }
      if e.Const? {
        return;
      }
      impure := false;
      readVars := [];
      VisitExpr(e);
      assert readVars == Reads(e) && impure == Impure(e);
      if impure {
        return;
      }
      if readVars == [] {
        return;
      }
      cands := cands + [Candidate(e, readVars)];
    }

    /** The visitor dispatch on statements. */
    method VisitStmt(s: Stmt)
      requires !inForceReleaseLhs
      modifies this`readVars, this`impure, this`forced, this`cands, this`combDriven,
        this`candidatesOn, this`inForceReleaseLhs
      ensures cands == old(cands) + Cands(s, old(candidatesOn), inProperModule)
      ensures forced == old(forced) + Forced(s)
      ensures combDriven == old(combDriven) + CombDriven(s)
      ensures candidatesOn == old(candidatesOn) && !inForceReleaseLhs
      decreases s, 2
    {
      match s
      case Assign(_, _) => VisitAssign(s);
      case AssignW(_, _) => VisitAssignW(s);
      case If(_, _, _) => VisitIf(s);
      case Force(lhs, rhs) =>
        VisitExpr(rhs);
        inForceReleaseLhs := true;
        VisitExpr(lhs);
        inForceReleaseLhs := false;
      case Release(lhs) =>
        inForceReleaseLhs := true;
        VisitExpr(lhs);
        inForceReleaseLhs := false;
      case Always(_, _, _) => VisitAlways(s);
      case Other(exprs, body) =>
        impure := true;
        VisitExprs(exprs);
        VisitStmts(body);
    }

    /** visit(AstAssign) and visit(AstAssignDly): the right-hand side is a candidate root. */
    method VisitAssign(s: Stmt)
      requires s.Assign? && !inForceReleaseLhs
      modifies this`readVars, this`impure, this`forced, this`cands, this`combDriven,
        this`candidatesOn, this`inForceReleaseLhs
      ensures cands == old(cands) + Cands(s, old(candidatesOn), inProperModule)
      ensures forced == old(forced) + Forced(s)
      ensures combDriven == old(combDriven) + CombDriven(s)
      ensures candidatesOn == old(candidatesOn) && !inForceReleaseLhs
      decreases s, 1
    {
      IterateCandidate(s.rhs);
      VisitExpr(s.lhs);
    }

    /** visit(AstAssignW): a plain reference on the left is marked as continuously driven. */
    method VisitAssignW(s: Stmt)
      requires s.AssignW? && !inForceReleaseLhs
      modifies this`readVars, this`impure, this`forced, this`cands, this`combDriven,
        this`candidatesOn, this`inForceReleaseLhs
      ensures cands == old(cands) + Cands(s, old(candidatesOn), inProperModule)
      ensures forced == old(forced) + Forced(s)
      ensures combDriven == old(combDriven) + CombDriven(s)
      ensures candidatesOn == old(candidatesOn) && !inForceReleaseLhs
      decreases s, 1
    {
      if s.lhs.Ref? {
        combDriven := combDriven + {s.lhs.v};
      }
      VisitExpr(s.lhs);
      VisitExpr(s.rhs);
    }

    /** visit(AstIf): the condition is a candidate root. */
    method VisitIf(s: Stmt)
      requires s.If? && !inForceReleaseLhs
      modifies this`readVars, this`impure, this`forced, this`cands, this`combDriven,
        this`candidatesOn, this`inForceReleaseLhs
      ensures cands == old(cands) + Cands(s, old(candidatesOn), inProperModule)
      ensures forced == old(forced) + Forced(s)
      ensures combDriven == old(combDriven) + CombDriven(s)
      ensures candidatesOn == old(candidatesOn) && !inForceReleaseLhs
      decreases s, 1
    {
      IterateCandidate(s.cond);
      VisitStmts(s.thens);
      VisitStmts(s.elses);
    }

    /** visit(AstAlways): a candidate list only for combinational blocks of proper modules. */
    method VisitAlways(s: Stmt)
      requires s.Always? && !inForceReleaseLhs
      modifies this`readVars, this`impure, this`forced, this`cands, this`combDriven,
        this`candidatesOn, this`inForceReleaseLhs
      ensures cands == old(cands) + Cands(s, old(candidatesOn), inProperModule)
      ensures forced == old(forced) + Forced(s)
      ensures combDriven == old(combDriven) + CombDriven(s)
      ensures candidatesOn == old(candidatesOn) && !inForceReleaseLhs
      decreases s, 1
    {
      var saved := candidatesOn;
      var isComb := !s.hasSenses && (s.kwd == KwAlways || s.kwd == KwAlwaysComb || s.kwd == KwAlwaysLatch);
      candidatesOn := isComb && inProperModule;
      VisitStmts(s.body);
      candidatesOn := saved;
    }

    method VisitStmts(ss: seq<Stmt>)
      requires !inForceReleaseLhs
      modifies this`readVars, this`impure, this`forced, this`cands, this`combDriven,
        this`candidatesOn, this`inForceReleaseLhs
      ensures cands == old(cands) + CandsList(ss, old(candidatesOn), inProperModule)
      ensures forced == old(forced) + ForcedList(ss)
      ensures combDriven == old(combDriven) + CombDrivenList(ss)
      ensures candidatesOn == old(candidatesOn) && !inForceReleaseLhs
      decreases ss, 0
    {
      var i := 0;
      while i < |ss|
        invariant 0 <= i <= |ss| && candidatesOn == old(candidatesOn) && !inForceReleaseLhs
        invariant cands + CandsList(ss[i..], candidatesOn, inProperModule)
          == old(cands) + CandsList(ss, candidatesOn, inProperModule)
        invariant forced + ForcedList(ss[i..]) == old(forced) + ForcedList(ss)
        invariant combDriven + CombDrivenList(ss[i..]) == old(combDriven) + CombDrivenList(ss)
        decreases |ss| - i
      {
        assert ss[i..][0] == ss[i] && ss[i..][1..] == ss[i + 1..];
        VisitStmt(ss[i]);
        i := i + 1;
      }
      assert ss[i..] == [];
    }

    /** visit(AstNodeModule): the module's items, collecting into its own candidate list. */
    method VisitModule(m: Module)
      requires !inForceReleaseLhs && !candidatesOn
      modifies this
      ensures moduleCands == old(moduleCands) + [CandsList(m.items, false, m.proper)]
      ensures forced == old(forced) + ForcedList(m.items)
      ensures combDriven == old(combDriven) + CombDrivenList(m.items)
      ensures !candidatesOn && !inForceReleaseLhs
    {
      inProperModule := m.proper;
      cands := [];
      VisitStmts(m.items);
      assert cands == CandsList(m.items, false, m.proper);
      moduleCands := moduleCands + [cands];
    }

    /** visit(AstNetlist): collect over all modules, then replace the good candidates of proper modules. */
    method VisitNetlist(ms: seq<Module>) returns (extracted: seq<Candidate>)
      requires moduleCands == [] && forced == {} && combDriven == {} && !inForceReleaseLhs && !candidatesOn
      modifies this
      ensures moduleCands == NetlistCands(ms)
      ensures forced == NetlistForced(ms) && combDriven == NetlistComb(ms)
      ensures extracted == ExtractedModules(ms, NetlistCands(ms), NetlistForced(ms), NetlistComb(ms))
    {
      for i := 0 to |ms|
        invariant moduleCands == NetlistCands(ms[..i])
        invariant forced == NetlistForced(ms[..i]) && combDriven == NetlistComb(ms[..i])
        invariant !inForceReleaseLhs && !candidatesOn
      {
        assert ms[..i + 1][..i] == ms[..i] && ms[..i + 1][i] == ms[i];
        VisitModule(ms[i]);
      }
      assert ms[..|ms|] == ms;
      extracted := ExtractAll(ms, moduleCands, forced, combDriven);
    }
  }

  /** The loop of visit(AstNetlist) over modules after the collection. */
  method ExtractAll(ms: seq<Module>, cands: seq<seq<Candidate>>, forced: set<nat>, comb: set<nat>)
    returns (extracted: seq<Candidate>)
    requires |cands| == |ms|
    ensures extracted == ExtractedModules(ms, cands, forced, comb)
  {
    extracted := [];
    for i := 0 to |ms|
      invariant extracted == ExtractedModules(ms[..i], cands[..i], forced, comb)
    {
      assert ms[..i + 1][..i] == ms[..i] && cands[..i + 1][..i] == cands[..i];
      if ms[i].proper {
        var r := ExtractModule(cands[i], forced, comb);
        extracted := extracted + r;
      }
    }
    assert ms[..|ms|] == ms && cands[..|cands|] == cands;
  }

  /**
   * What the pass replaces: exactly the candidates of proper modules that read
   * only continuously driven, never forced variables.
   */
  lemma {:induction false} ExtractedMeaning(ms: seq<Module>, cands: seq<seq<Candidate>>, forced: set<nat>, comb: set<nat>, c: Candidate)
    requires |cands| == |ms|
    ensures c in ExtractedModules(ms, cands, forced, comb) <==>
      Good(c, forced, comb) && exists k | 0 <= k < |ms| :: ms[k].proper && c in cands[k]
  {
    if ms != [] {
      var n := |ms| - 1;
      ExtractedMeaning(ms[..n], cands[..n], forced, comb, c);
      if Good(c, forced, comb) && exists k | 0 <= k < |ms| :: ms[k].proper && c in cands[k] {
        var k :| 0 <= k < |ms| && ms[k].proper && c in cands[k];
        if k < n {
          assert ms[..n][k] == ms[k] && cands[..n][k] == cands[k];
        }
      }
      if c in ExtractedModules(ms[..n], cands[..n], forced, comb) {
        var k :| 0 <= k < n && ms[..n][k].proper && c in cands[..n][k];
        assert ms[k] == ms[..n][k] && cands[k] == cands[..n][k];
      }
    }
  }
}
