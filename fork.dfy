/**
 * Capture bookkeeping of the fork lowering pass (V3Fork.cpp): the
 * dynamic-scope frames of DynScopeVisitor, with their insertion-ordered
 * capture sets and generated names, and the capture list and task names of
 * ForkVisitor.  Variables and procedures are identified by node numbers.
 */
module Fork {
  import opened Wrappers
  import opened Decimal
  import opened InsertionSets

  // ---------------------------------------------------------------------
  // Generated names

  /** generateDynScopeClassName. */
  function DynScopeClassName(classId: nat): string
  {
    "__VDynScope_" + ToDecimal(classId)
  }

  /** generateDynScopeHandleName: the procedure name (or ANON) and the frame id. */
  function DynScopeHandleName(procName: string, id: nat): string
  {
    "__VDynScope_" + (if procName != "" then procName + "_" else "ANON_") + ToDecimal(id)
  }

  /** The name generateTaskName builds from the id it is given. */
  function TaskName(fromName: string, kind: string, id: nat): string
  {
    "__V" + kind + "_" + (if fromName != "" then fromName + "__" else "_") + ToDecimal(id)
  }

  lemma NatPrefixInjective(p: string, i: nat, j: nat)
    requires p + ToDecimal(i) == p + ToDecimal(j)
    ensures i == j
  {
    assert IntToDecimal(i) == ToDecimal(i) && IntToDecimal(j) == ToDecimal(j);
    PrefixedDecimalInjective(p, i, j);
  }

  /** Different class ids give different class names. */
  lemma ClassNamesDistinct(i: nat, j: nat)
    ensures DynScopeClassName(i) == DynScopeClassName(j) <==> i == j
  {
    if DynScopeClassName(i) == DynScopeClassName(j) {
      NatPrefixInjective("__VDynScope_", i, j);
    }
  }

  /** For one procedure name, different frame ids give different handle names. */
  lemma HandleNamesDistinct(procName: string, i: nat, j: nat)
    ensures DynScopeHandleName(procName, i) == DynScopeHandleName(procName, j) <==> i == j
  {
    if DynScopeHandleName(procName, i) == DynScopeHandleName(procName, j) {
      NatPrefixInjective("__VDynScope_" + (if procName != "" then procName + "_" else "ANON_"), i, j);
    }
  }

  /** For one node name and kind, different ids give different task names. */
  lemma TaskNamesDistinct(fromName: string, kind: string, i: nat, j: nat)
    ensures TaskName(fromName, kind, i) == TaskName(fromName, kind, j) <==> i == j
  {
    if TaskName(fromName, kind, i) == TaskName(fromName, kind, j) {
      NatPrefixInjective("__V" + kind + "_" + (if fromName != "" then fromName + "__" else "_"), i, j);
    }
  }

  /** Every generated name is the common prefix followed by decimal digits only. */
  lemma TaskNameShape(fromName: string, kind: string, id: nat)
    ensures |TaskName(fromName, kind, id)| > 3 + |kind| + 1
    ensures TaskName(fromName, kind, id)[..3] == "__V"
    ensures IsDigit(TaskName(fromName, kind, id)[|TaskName(fromName, kind, id)| - 1])
  {
    var t := TaskName(fromName, kind, id);
    var d := ToDecimal(id);
    assert t[|t| - 1] == d[|d| - 1];
  }

  // ---------------------------------------------------------------------
  // needsDynScope

  /** What needsDynScope reads of a variable reference and its context. */
  datatype RefInfo = RefInfo(
    forkDepth: nat,        // m_forkDepth at the reference
    varDepth: nat,         // the fork depth recorded at the declaration (user1)
    funcLocal: bool,
    classHandle: bool,     // the variable holds a class handle
    handleWritten: bool,   // the handle is assigned in this reference's statement (user2)
    writes: bool,          // the reference writes or reads-and-writes
    afterTimingControl: bool)

  /** The variable can outlive its declaring scope: it is a local referenced under a deeper fork. */
  predicate Escapes(r: RefInfo)
  {
    r.forkDepth > r.varDepth && r.funcLocal
  }

  /** The variable's value may change: a written handle, a write to a value, or a later timing control. */
  predicate Mutated(r: RefInfo)
  {
    (if r.classHandle then r.handleWritten else r.writes) || r.afterTimingControl
  }

  function NeedsDynScope(r: RefInfo): (b: bool)
    ensures b <==> Escapes(r) && Mutated(r)
  {
    (r.forkDepth > r.varDepth && r.funcLocal)
    && ((if r.classHandle then r.handleWritten else r.writes) || r.afterTimingControl)
  }

  /** A reference at the depth of its declaration, or to a non-local, never needs a dynamic scope. */
  lemma NoDynScopeWithoutEscape(r: RefInfo)
    ensures r.forkDepth <= r.varDepth ==> !NeedsDynScope(r)
    ensures !r.funcLocal ==> !NeedsDynScope(r)
    ensures Escapes(r) && r.afterTimingControl ==> NeedsDynScope(r)
    ensures Escapes(r) && !r.classHandle && r.writes ==> NeedsDynScope(r)
    ensures r.classHandle && !r.handleWritten && !r.afterTimingControl ==> !NeedsDynScope(r)
  {
  }

  /** The unsupported write to a captured output after a timing control. */
  function UnsupportedCapturedWrite(r: RefInfo, isEvent: bool, writable: bool): (b: bool)
    ensures b ==> r.afterTimingControl && r.writes && writable && !isEvent
  {
    NeedsDynScope(r) && !isEvent && r.afterTimingControl && writable && r.writes
  }

  /** The unsupported-write error is only raised on references that are captured. */
  lemma UnsupportedOnlyWhenCaptured(r: RefInfo, isEvent: bool, writable: bool)
    ensures UnsupportedCapturedWrite(r, isEvent, writable) ==> NeedsDynScope(r)
    ensures Escapes(r) && r.afterTimingControl && r.writes && writable && !isEvent
      ==> UnsupportedCapturedWrite(r, isEvent, writable)
  {
  }

  // ---------------------------------------------------------------------
  // ForkDynScopeFrame

  /** A dynamic scope frame: the variables it captures, in first-capture order. */
  class DynScopeFrame {
    const procp: nat
    const procName: string
    const classId: nat
    const id: nat
    /** Whether createInstancePrototype has run. */
    var initialized: bool
    /** m_captures. */
    var captures: set<nat>
    /** m_captureOrder. */
    var captureOrder: seq<nat>
    /** Every captureVarInsert call, in order. */
    ghost var inserted: seq<nat>

    ghost predicate Valid()
      reads this
    {
      Distinct(captureOrder) && (forall v :: v in captures <==> v in captureOrder)
      && captureOrder == FirstOccurrences(inserted)
    }

    constructor (procp: nat, procName: string, classId: nat, id: nat)
      ensures Valid() && inserted == [] && !initialized
      ensures this.procp == procp && this.procName == procName && this.classId == classId && this.id == id
    {
      this.procp := procp;
      this.procName := procName;
      this.classId := classId;
      this.id := id;
      initialized := false;
      captures := {};
      captureOrder := [];
      inserted := [];
    }

    /** The class name createInstancePrototype gives the frame. */
    function ClassName(): string
    {
      DynScopeClassName(classId)
    }

    /** The handle variable name createInstancePrototype gives the frame. */
    function HandleName(): string
    {
      DynScopeHandleName(procName, id)
    }

    /** createInstancePrototype: only allowed once. */
    method CreateInstancePrototype()
      requires !initialized
      modifies this`initialized
      ensures initialized
    {
      initialized := true;
    }

    method CaptureVarInsert(v: nat)
      requires Valid()
      modifies this`captures, this`captureOrder, this`inserted
      ensures Valid() && inserted == old(inserted) + [v]
      ensures captures == old(captures) + {v}
      ensures captureOrder == if v in old(captures) then old(captureOrder) else old(captureOrder) + [v]
    {
      ghost var h := inserted + [v];
      FirstOccurrencesElements(inserted);
      FirstOccurrencesSnoc(inserted, v);
      FirstOccurrencesElements(h);
      if v !in captures {
        captures := captures + {v};
        captureOrder := captureOrder + [v];
      } else {
        assert captures + {v} == captures;
      }
      inserted := h;
    }

    /** captured(v): was v ever inserted? */
    method Captured(v: nat) returns (b: bool)
      requires Valid()
      ensures b <==> v in inserted
    {
      FirstOccurrencesElements(inserted);
      b := v in captures;
    }
  }

  /** Recording captures one after another keeps each variable once, in first-capture order. */
  lemma CaptureOrderProperties(inserted: seq<nat>, i: nat, j: nat)
    requires i < j < |FirstOccurrences(inserted)|
    ensures FirstOccurrences(inserted)[i] != FirstOccurrences(inserted)[j]
    ensures FirstOccurrences(inserted)[i] in inserted && FirstOccurrences(inserted)[j] in inserted
    ensures FirstIndex(inserted, FirstOccurrences(inserted)[i]) < FirstIndex(inserted, FirstOccurrences(inserted)[j])
  {
    FirstOccurrencesElements(inserted);
    FirstOccurrencesOrder(inserted, i, j);
  }

  // ---------------------------------------------------------------------
  // DynScopeVisitor frame table

  /** A frame as the table records it. */
  datatype FrameInfo = FrameInfo(procp: nat, procName: string, classId: nat, id: nat, modNum: nat)

  /** The frame table: m_frames (node to frame), m_frameOrder, m_class_id and m_id. */
  class DynScopeTable {
    /** Every frame pushed, in order; frames[k] is frame number k. */
    var frames: seq<FrameInfo>
    /** m_frames: each bound node and the number of its frame. */
    var bound: map<nat, nat>
    var frameOrder: seq<nat>
    var classId: nat
    var id: nat
    /** The number of modules entered so far; frames remember theirs. */
    var modNum: nat

    ghost predicate Valid()
      reads this
    {
      Distinct(frameOrder)
      && (forall n :: n in bound <==> n in frameOrder)
      && (forall n | n in bound :: bound[n] < |frames|)
      && classId == |frames|
      && (forall k | 0 <= k < |frames| :: frames[k].classId == k && frames[k].modNum <= modNum)
      && (forall k | 0 <= k < |frames| :: frames[k].modNum == modNum ==> frames[k].id < id)
      && (forall j, k | 0 <= j < k < |frames| && frames[j].modNum == frames[k].modNum :: frames[j].id < frames[k].id)
    }

    constructor ()
      ensures Valid() && frames == [] && bound == map[] && frameOrder == [] && id == 0
    {
      frames := [];
      bound := map[];
      frameOrder := [];
      classId := 0;
      id := 0;
      modNum := 0;
    }

    /** visit(AstNodeModule): frame ids restart at zero in every module. */
    method EnterModule()
      requires Valid()
      modifies this`id, this`modNum
      ensures Valid() && id == 0 && modNum == old(modNum) + 1
    {
      modNum := modNum + 1;
      id := 0;
    }

    /** pushDynScopeFrame: a new frame numbered by the two counters, bound to its procedure. */
    method PushDynScopeFrame(procp: nat, procName: string) returns (f: nat)
      requires Valid()
      requires procp !in bound
      modifies this`frames, this`bound, this`frameOrder, this`classId, this`id
      ensures Valid()
      ensures f == |old(frames)| && frames == old(frames) + [FrameInfo(procp, procName, old(classId), old(id), modNum)]
      ensures classId == old(classId) + 1 && id == old(id) + 1
      ensures bound == old(bound)[procp := f] && frameOrder == old(frameOrder) + [procp]
    {
      f := |frames|;
      frames := frames + [FrameInfo(procp, procName, classId, id, modNum)];
      bound := bound[procp := f];
      frameOrder := frameOrder + [procp];
      classId := classId + 1;
      id := id + 1;
    }

    /** bindNodeToDynScope: the first binding of a node wins and is appended to the order. */
    method BindNode(n: nat, f: nat)
      requires Valid() && f < |frames|
      modifies this`bound, this`frameOrder
      ensures Valid()
      ensures n in old(bound) ==> bound == old(bound) && frameOrder == old(frameOrder)
      ensures n !in old(bound) ==> bound == old(bound)[n := f] && frameOrder == old(frameOrder) + [n]
    {
      if n !in bound {
        bound := bound[n := f];
        frameOrder := frameOrder + [n];
      }
    }

    /** frameOf. */
    function FrameOf(n: nat): (r: Option<nat>)
      reads this
      requires Valid()
      ensures r.Some? <==> n in bound
      ensures r.Some? ==> r.value < |frames|
    {
      if n in bound then Some(bound[n]) else None
    }
  }

  /** All frames have different class names. */
  lemma FrameClassNamesDistinct(t: DynScopeTable, j: nat, k: nat)
    requires t.Valid() && j < k < |t.frames|
    ensures DynScopeClassName(t.frames[j].classId) != DynScopeClassName(t.frames[k].classId)
  {
    ClassNamesDistinct(t.frames[j].classId, t.frames[k].classId);
  }

  /** Two frames of one module for procedures of the same name have different handle names. */
  lemma FrameHandleNamesDistinct(t: DynScopeTable, j: nat, k: nat)
    requires t.Valid() && j < k < |t.frames|
    requires t.frames[j].modNum == t.frames[k].modNum && t.frames[j].procName == t.frames[k].procName
    ensures DynScopeHandleName(t.frames[j].procName, t.frames[j].id)
      != DynScopeHandleName(t.frames[k].procName, t.frames[k].id)
  {
    HandleNamesDistinct(t.frames[j].procName, t.frames[j].id, t.frames[k].id);
  }

  // ---------------------------------------------------------------------
  // ForkVisitor captures

  /** A capture variable: an automatic, function-local input copy named after the reference. */
  datatype CaptureVar = CaptureVar(name: string, dtype: nat)

  /** A call argument passing the original reference. */
  datatype CaptureArg = CaptureArg(name: string, refNode: nat)

  /** m_capturedVarsp, m_capturedVarRefsp and m_id of the visitor. */
  class ForkCaptures {
    var vars: seq<CaptureVar>
    var args: seq<CaptureArg>
    var id: nat

    ghost predicate Valid()
      reads this
    {
      |vars| == |args|
      && (forall k | 0 <= k < |vars| :: args[k].name == vars[k].name)
      && (forall j, k | 0 <= j < k < |vars| :: vars[j].name != vars[k].name)
    }

    constructor ()
      ensures Valid() && vars == [] && args == [] && id == 0
    {
      vars := [];
      args := [];
      id := 0;
    }

    /** Start of a taskifiable process: no captures yet. */
    method ClearCaptures()
      modifies this`vars, this`args
      ensures Valid() && vars == [] && args == []
    {
      vars := [];
      args := [];
    }

    /** captureRef: the capture with the reference's name, created with its argument when missing. */
    method CaptureRef(name: string, dtype: nat, refNode: nat) returns (k: nat)
      requires Valid()
      modifies this`vars, this`args
      ensures Valid()
      ensures k < |vars| && vars[k].name == name
      ensures (exists j | 0 <= j < |old(vars)| :: old(vars)[j].name == name) ==>
        vars == old(vars) && args == old(args) && k < |old(vars)|
      ensures (forall j | 0 <= j < |old(vars)| :: old(vars)[j].name != name) ==>
        vars == old(vars) + [CaptureVar(name, dtype)] && args == old(args) + [CaptureArg(name, refNode)]
        && k == |old(vars)|
    {
      k := 0;
      while k < |vars| && vars[k].name != name
        invariant 0 <= k <= |vars|
        invariant forall j | 0 <= j < k :: vars[j].name != name
      {
        k := k + 1;
      }
      if k == |vars| {
        vars := vars + [CaptureVar(name, dtype)];
        args := args + [CaptureArg(name, refNode)];
      }
    }

    /** generateTaskName: the next id of this module. */
    method GenerateTaskName(fromName: string, kind: string) returns (name: string)
      modifies this`id
      ensures name == TaskName(fromName, kind, old(id)) && id == old(id) + 1
    {
      name := TaskName(fromName, kind, id);
      id := id + 1;
    }

    /** visit(AstNodeModule): task ids restart at zero. */
    method EnterModule()
      modifies this`id
      ensures id == 0
    {
      id := 0;
    }
  }

  /** Capturing the same name twice creates one variable and returns it both times. */
  method CaptureTwice(c: ForkCaptures, name: string, dtype: nat, r1: nat, r2: nat) returns (k1: nat, k2: nat)
    requires c.Valid()
    modifies c
    ensures c.Valid() && k1 == k2 && k1 < |c.vars| && c.vars[k1].name == name
    ensures |c.vars| <= |old(c.vars)| + 1
  {
    k1 := c.CaptureRef(name, dtype, r1);
    ghost var mid := c.vars;
    k2 := c.CaptureRef(name, dtype, r2);
    assert mid[k1].name == name;
    assert forall j | 0 <= j < |mid| && j != k1 :: mid[j].name != name;
  }

  // ---------------------------------------------------------------------
  // visitTaskifiable

  datatype ProcKind = BeginProc | StmtProc | ForkProc

  /** The kind string generateTaskName is given. */
  function KindName(k: ProcKind): string
  {
    match k
    case BeginProc => "fork_begin"
    case StmtProc => "fork_stmt"
    case ForkProc => "fork_nested"
  }

  datatype TaskifyDecision = IterateOnly | NotNeeded | Taskify(kind: string)

  /**
   * The choice visitTaskifiable makes: nodes outside a new process (or
   * created calls) are only iterated; a process with no fork locals and no
   * captures stays in place unless taskify-all is set.
   */
  function TaskifyChoice(newProcess: bool, createdCall: bool, forkLocals: nat, captures: nat,
                         taskifyAll: bool, kind: ProcKind): (d: TaskifyDecision)
    ensures d.IterateOnly? <==> !newProcess || createdCall
    ensures d.NotNeeded? <==> newProcess && !createdCall && forkLocals == 0 && captures == 0 && !taskifyAll
    ensures d.Taskify? ==> d.kind == KindName(kind)
  {
    if !newProcess || createdCall then IterateOnly
    else if forkLocals == 0 && captures == 0 && !taskifyAll then NotNeeded
    else Taskify(KindName(kind))
  }

  /** A process with a fork local or a capture is always moved into a task. */
  lemma CapturesForceTask(createdCall: bool, forkLocals: nat, captures: nat, taskifyAll: bool, kind: ProcKind)
    requires !createdCall && (forkLocals > 0 || captures > 0 || taskifyAll)
    ensures TaskifyChoice(true, createdCall, forkLocals, captures, taskifyAll, kind) == Taskify(KindName(kind))
  {
  }
}
