/**
 * The callback scheduler of VerilatedVpiImp (include/verilated_vpi.cpp):
 * one list of callbacks per reason that are due now, the list being called,
 * and two maps keyed by (time, id) of timed callbacks that fall due later
 * (m_futureCbs) and of cbNextSimTime callbacks (m_nextCbs). A removed
 * callback is only invalidated (its id becomes 0); the sweeps drop it later.
 */
module VpiCallbacks {
  import opened Wrappers
  import VpiStrings

  // Callback reason codes of vpi_user.h; each is its index in VpiStrings.ReasonNames.
  const CbValueChange := 1
  const CbAtStartOfSimTime := 5
  const CbReadWriteSynch := 6
  const CbReadOnlySynch := 7
  const CbNextSimTime := 8
  const CbAfterDelay := 9
  const CbStartOfSimulation := 11
  const CbEndOfSimulation := 12
  const CbEnterInteractive := 21
  const CbExitInteractive := 22
  const CbInteractiveScopeChange := 23
  const CbPLIError := 28
  const CbAtEndOfSimTime := 31
  /** CB_ENUM_MAX_VALUE: one more than the largest reason, the number of current lists. */
  const CbEnumMax := CbAtEndOfSimTime + 1

  /** 2^64: QData times wrap around modulo this. */
  const QuadMod := 0x1_0000_0000_0000_0000

  lemma ReasonCodes()
    ensures VpiStrings.ReasonNames[CbValueChange] == "cbValueChange"
    ensures VpiStrings.ReasonNames[CbNextSimTime] == "cbNextSimTime"
    ensures VpiStrings.ReasonNames[CbAfterDelay] == "cbAfterDelay"
    ensures VpiStrings.ReasonNames[CbAtEndOfSimTime] == "cbAtEndOfSimTime"
    ensures |VpiStrings.ReasonNames| == CbEnumMax
  {
  }

  /** VerilatedVpiCbHolder: the callback's id (0 once invalidated), its reason, and the object its s_cb_data names (obj), which stands for the whole of the user's data. */
  datatype Holder = Holder(id: nat, reason: nat, obj: nat)

  predicate IsValid(h: Holder)
  {
    h.id != 0
  }

  function Invalidated(h: Holder): Holder
  {
    h.(id := 0)
  }

  /** An entry of m_futureCbs or m_nextCbs: its key (time, id) and its holder. */
  datatype Timed = Timed(time: nat, id: nat, holder: Holder)

  /** VerilatedVpiTimedCbsCmp: by time, then by id. */
  predicate KeyLess(a: Timed, b: Timed)
  {
    a.time < b.time || (a.time == b.time && a.id < b.id)
  }

  /** A map's entries in the order of its keys, each key once. */
  predicate Ordered(s: seq<Timed>)
  {
    forall i, j | 0 <= i < j < |s| :: KeyLess(s[i], s[j])
  }

  predicate HasKey(s: seq<Timed>, time: nat, id: nat)
  {
    exists i | 0 <= i < |s| :: s[i].time == time && s[i].id == id
  }

  /** std::map::emplace: e at its place in key order, or no change when its key is present. */
  function Emplace(s: seq<Timed>, e: Timed): (r: seq<Timed>)
    decreases |s|
  {
    if s == [] then [e]
    else if KeyLess(e, s[0]) then [e] + s
    else if s[0].time == e.time && s[0].id == e.id then s
    else [s[0]] + Emplace(s[1..], e)
  }

  lemma {:induction false} EmplaceContents(s: seq<Timed>, e: Timed)
    ensures forall x | x in Emplace(s, e) :: x in s || x == e
    ensures forall x | x in s :: x in Emplace(s, e)
    decreases |s|
  {
    if s != [] && !KeyLess(e, s[0]) && !(s[0].time == e.time && s[0].id == e.id) {
      EmplaceContents(s[1..], e);
      assert s == [s[0]] + s[1..];
    }
  }

  /** Emplace keeps the map in key order. */
  lemma {:induction false} EmplaceOrdered(s: seq<Timed>, e: Timed)
    requires Ordered(s)
    ensures Ordered(Emplace(s, e))
    decreases |s|
  {
    if s != [] && !KeyLess(e, s[0]) && !(s[0].time == e.time && s[0].id == e.id) {
      var t := Emplace(s[1..], e);
      assert Ordered(s[1..]) by {
        assert forall i | 0 <= i < |s| - 1 :: s[1..][i] == s[i + 1];
      }
      EmplaceOrdered(s[1..], e);
      EmplaceContents(s[1..], e);
      forall j | 0 <= j < |t|
        ensures KeyLess(s[0], t[j])
      {
        assert t[j] in t;
        if t[j] != e {
          var k :| 0 <= k < |s| - 1 && s[1..][k] == t[j];
          assert s[k + 1] == t[j];
        }
      }
      assert forall j | 1 <= j < |t| + 1 :: ([s[0]] + t)[j] == t[j - 1];
    } else if s != [] && KeyLess(e, s[0]) {
      forall j | 0 <= j < |s|
        ensures KeyLess(e, s[j])
      {
        assert j == 0 || KeyLess(s[0], s[j]);
      }
      assert forall j | 1 <= j < |s| + 1 :: ([e] + s)[j] == s[j - 1];
    }
  }

  /** Emplace adds e exactly when its key is new. */
  lemma {:induction false} EmplaceAdds(s: seq<Timed>, e: Timed)
    requires Ordered(s)
    ensures HasKey(s, e.time, e.id) ==> Emplace(s, e) == s
    ensures !HasKey(s, e.time, e.id) ==> |Emplace(s, e)| == |s| + 1 && e in Emplace(s, e)
    decreases |s|
  {
    if s == [] {
    } else if KeyLess(e, s[0]) {
      forall i | 0 <= i < |s|
        ensures !(s[i].time == e.time && s[i].id == e.id)
      {
        assert i == 0 || KeyLess(s[0], s[i]);
      }
    } else if !(s[0].time == e.time && s[0].id == e.id) {
      assert Ordered(s[1..]) by {
        assert forall i | 0 <= i < |s| - 1 :: s[1..][i] == s[i + 1];
      }
      EmplaceAdds(s[1..], e);
      assert HasKey(s, e.time, e.id) <==> HasKey(s[1..], e.time, e.id) by {
        if HasKey(s, e.time, e.id) {
          var i :| 0 <= i < |s| && s[i].time == e.time && s[i].id == e.id;
          assert s[1..][i - 1] == s[i];
        }
        if HasKey(s[1..], e.time, e.id) {
          var i :| 0 <= i < |s| - 1 && s[1..][i].time == e.time && s[1..][i].id == e.id;
          assert s[i + 1] == s[1..][i];
        }
      }
    }
  }

  /** Entries of a map with the key (time, id) of a new holder keep their reasons, and the new one has its own. */
  lemma EmplaceReasons(s: seq<Timed>, e: Timed)
    requires ReasonsOk(s) && e.holder.reason < CbEnumMax
    ensures ReasonsOk(Emplace(s, e))
  {
    EmplaceContents(s, e);
    var r := Emplace(s, e);
    forall i | 0 <= i < |r|
      ensures r[i].holder.reason < CbEnumMax
    {
      assert r[i] in r;
    }
  }

  /** The index of the entry with key (time, id): std::map::find. */
  function Find(s: seq<Timed>, time: nat, id: nat): (r: Option<nat>)
    ensures r.Some? ==> r.value < |s| && s[r.value].time == time && s[r.value].id == id
    ensures r.None? <==> !HasKey(s, time, id)
    decreases |s|
  {
    if s == [] then None
    else if s[0].time == time && s[0].id == id then Some(0)
    else
      match Find(s[1..], time, id)
      case None =>
        assert !HasKey(s, time, id) by {
          forall i | 0 <= i < |s|
            ensures !(s[i].time == time && s[i].id == id)
          {
            if i > 0 {
              assert s[i] == s[1..][i - 1];
            }
          }
        }
        None
      case Some(k) => Some(k + 1)
  }

  /** The index of the first holder with the given id. */
  function FirstId(l: seq<Holder>, id: nat): (r: Option<nat>)
    ensures r.Some? ==> r.value < |l| && l[r.value].id == id && forall k | 0 <= k < r.value :: l[k].id != id
    ensures r.None? ==> forall k | 0 <= k < |l| :: l[k].id != id
    decreases |l|
  {
    if l == [] then None
    else if l[0].id == id then Some(0)
    else
      match FirstId(l[1..], id)
      case None => None
      case Some(k) => Some(k + 1)
  }

  function InvalidateAt(l: seq<Holder>, i: nat): seq<Holder>
    requires i < |l|
  {
    l[i := Invalidated(l[i])]
  }

  function InvalidateTimed(s: seq<Timed>, i: nat): seq<Timed>
    requires i < |s|
  {
    s[i := s[i].(holder := Invalidated(s[i].holder))]
  }

  /** The valid holders of a list, in order. */
  function Valids(l: seq<Holder>): (r: seq<Holder>)
    ensures |r| <= |l| && forall h | h in r :: IsValid(h) && h in l
    decreases |l|
  {
    if l == [] then []
    else
      var p := Valids(l[..|l| - 1]);
      if IsValid(l[|l| - 1]) then p + [l[|l| - 1]] else p
  }

  /** The valid holders of reason q among the entries es, in order. */
  function Select(es: seq<Timed>, q: nat): (r: seq<Holder>)
    ensures forall h | h in r :: IsValid(h) && h.reason == q
    decreases |es|
  {
    if es == [] then []
    else
      var p := Select(es[..|es| - 1], q);
      var h := es[|es| - 1].holder;
      if IsValid(h) && h.reason == q then p + [h] else p
  }

  predicate ReasonsOk(es: seq<Timed>)
  {
    forall i | 0 <= i < |es| :: es[i].holder.reason < CbEnumMax
  }

  /** The current lists after the entries es, in order, were moved: each valid holder goes to the end of its reason's list. */
  function Route(lists: seq<seq<Holder>>, es: seq<Timed>): (r: seq<seq<Holder>>)
    requires |lists| == CbEnumMax && ReasonsOk(es)
    ensures |r| == CbEnumMax
    decreases |es|
  {
    if es == [] then lists
    else
      var p := Route(lists, es[..|es| - 1]);
      var h := es[|es| - 1].holder;
      if IsValid(h) then p[h.reason := p[h.reason] + [h]] else p
  }

  /** Route appends to each reason's list exactly that reason's valid holders, in order. */
  lemma {:induction false} RouteSelect(lists: seq<seq<Holder>>, es: seq<Timed>, q: nat)
    requires |lists| == CbEnumMax && ReasonsOk(es) && q < CbEnumMax
    ensures Route(lists, es)[q] == lists[q] + Select(es, q)
    decreases |es|
  {
    if es != [] {
      RouteSelect(lists, es[..|es| - 1], q);
    }
  }

  /** An entry of m_futureCbs is due at time now when its time is at most now; one of m_nextCbs when it is before now. */
  predicate Due(e: Timed, now: nat, strict: bool)
  {
    if strict then e.time < now else e.time <= now
  }

  /** The number of leading due entries: the loops of moveFutureCbs stop at the first entry that is not due. */
  function DueCount(s: seq<Timed>, now: nat, strict: bool): (n: nat)
    ensures n <= |s| && (forall i | 0 <= i < n :: Due(s[i], now, strict))
    ensures n < |s| ==> !Due(s[n], now, strict)
    decreases |s|
  {
    if s == [] || !Due(s[0], now, strict) then 0
    else
      var n := DueCount(s[1..], now, strict);
      assert forall i | 1 <= i < n + 1 :: s[i] == s[1..][i - 1];
      n + 1
  }

  /** In a map ordered by key, the entries after the due ones are all not due. */
  lemma RestNotDue(s: seq<Timed>, now: nat, strict: bool)
    requires Ordered(s)
    ensures var rest := s[DueCount(s, now, strict)..];
      forall i | 0 <= i < |rest| :: !Due(rest[i], now, strict)
  {
    var n := DueCount(s, now, strict);
    var rest := s[n..];
    forall i | 0 <= i < |rest|
      ensures !Due(rest[i], now, strict)
    {
      assert rest[i] == s[n + i];
      assert i == 0 || KeyLess(s[n], s[n + i]);
    }
  }

  /** The scheduler's lists and maps. */
  datatype Sched = Sched(current: seq<seq<Holder>>, callList: seq<Holder>, future: seq<Timed>, next: seq<Timed>)

  predicate SchedOk(s: Sched)
  {
    |s.current| == CbEnumMax && Ordered(s.future) && Ordered(s.next) && ReasonsOk(s.future) && ReasonsOk(s.next)
  }

  lemma SuffixOk(s: seq<Timed>, n: nat)
    requires Ordered(s) && ReasonsOk(s) && n <= |s|
    ensures Ordered(s[n..]) && ReasonsOk(s[n..]) && ReasonsOk(s[..n])
  {
    assert forall i | 0 <= i < |s| - n :: s[n..][i] == s[n + i];
  }

  /** moveFutureCbs: the due entries of both maps move, in key order, to the current lists; invalidated ones are dropped. */
  function Move(s: Sched, now: nat): (r: Sched)
    requires SchedOk(s)
    ensures SchedOk(r) && r.callList == s.callList
  {
    var f := DueCount(s.future, now, false);
    var n := DueCount(s.next, now, true);
    SuffixOk(s.future, f);
    SuffixOk(s.next, n);
    Sched(Route(Route(s.current, s.future[..f]), s.next[..n]), s.callList, s.future[f..], s.next[n..])
  }

  /** After the move no entry of m_futureCbs is at or before now and none of m_nextCbs is before now. */
  lemma MoveNotDue(s: Sched, now: nat)
    requires SchedOk(s)
    ensures forall i | 0 <= i < |Move(s, now).future| :: Move(s, now).future[i].time > now
    ensures forall i | 0 <= i < |Move(s, now).next| :: Move(s, now).next[i].time >= now
  {
    var m := Move(s, now);
    assert m.future == s.future[DueCount(s.future, now, false)..];
    assert m.next == s.next[DueCount(s.next, now, true)..];
    RestNotDue(s.future, now, false);
    RestNotDue(s.next, now, true);
  }

  /** The move takes a prefix of each map: the entries it leaves are the rest, in order. */
  lemma MoveSplits(s: Sched, now: nat)
    requires SchedOk(s)
    ensures s.future == s.future[..DueCount(s.future, now, false)] + Move(s, now).future
    ensures s.next == s.next[..DueCount(s.next, now, true)] + Move(s, now).next
  {
  }

  /** Reason q's current list gains the valid due holders of reason q, those of m_futureCbs first, each in key order. */
  lemma MoveAppends(s: Sched, now: nat, q: nat)
    requires SchedOk(s) && q < CbEnumMax
    ensures Move(s, now).current[q] ==
      s.current[q] + Select(s.future[..DueCount(s.future, now, false)], q)
                   + Select(s.next[..DueCount(s.next, now, true)], q)
  {
    var f := DueCount(s.future, now, false);
    var n := DueCount(s.next, now, true);
    SuffixOk(s.future, f);
    SuffixOk(s.next, n);
    RouteSelect(s.current, s.future[..f], q);
    RouteSelect(Route(s.current, s.future[..f]), s.next[..n], q);
  }

  lemma InvalidateTimedOk(s: seq<Timed>, i: nat)
    requires Ordered(s) && ReasonsOk(s) && i < |s|
    ensures Ordered(InvalidateTimed(s, i)) && ReasonsOk(InvalidateTimed(s, i))
  {
    var r := InvalidateTimed(s, i);
    assert forall k | 0 <= k < |s| :: r[k].time == s[k].time && r[k].id == s[k].id;
  }

  /** Same lengths, and each holder unchanged or invalidated. */
  predicate OnlyInvalidates(l: seq<Holder>, l': seq<Holder>)
  {
    |l'| == |l| && forall k | 0 <= k < |l| :: l'[k] == l[k] || l'[k] == Invalidated(l[k])
  }

  /** Same keys in the same order, and each holder unchanged or invalidated. */
  predicate TimedOnlyInvalidates(s: seq<Timed>, s': seq<Timed>)
  {
    |s'| == |s| && forall k | 0 <= k < |s| ::
      s'[k].time == s[k].time && s'[k].id == s[k].id &&
      (s'[k].holder == s[k].holder || s'[k].holder == Invalidated(s[k].holder))
  }

  /**
   * cbReasonRemove: invalidate the first holder with the id in the reason's
   * current list, else in the call list, else the entry with key (time, id)
   * of m_futureCbs, else that of m_nextCbs; an unknown id changes nothing.
   */
  function Remove(s: Sched, id: nat, reason: nat, time: nat): (r: Sched)
    requires SchedOk(s) && reason < CbEnumMax
    ensures SchedOk(r)
    ensures |r.current| == |s.current| && forall q | 0 <= q < |s.current| :: OnlyInvalidates(s.current[q], r.current[q])
    ensures OnlyInvalidates(s.callList, r.callList)
    ensures TimedOnlyInvalidates(s.future, r.future) && TimedOnlyInvalidates(s.next, r.next)
  {
    match FirstId(s.current[reason], id)
    case Some(i) => s.(current := s.current[reason := InvalidateAt(s.current[reason], i)])
    case None =>
      match FirstId(s.callList, id)
      case Some(i) => s.(callList := InvalidateAt(s.callList, i))
      case None =>
        match Find(s.future, time, id)
        case Some(i) =>
          InvalidateTimedOk(s.future, i);
          s.(future := InvalidateTimed(s.future, i))
        case None =>
          match Find(s.next, time, id)
          case Some(i) =>
            InvalidateTimedOk(s.next, i);
            s.(next := InvalidateTimed(s.next, i))
          case None => s
  }

  /** Removing an id found nowhere under the handle's reason and key changes nothing. */
  lemma RemoveUnknown(s: Sched, id: nat, reason: nat, time: nat)
    requires SchedOk(s) && reason < CbEnumMax
    requires forall k | 0 <= k < |s.current[reason]| :: s.current[reason][k].id != id
    requires forall k | 0 <= k < |s.callList| :: s.callList[k].id != id
    requires !HasKey(s.future, time, id) && !HasKey(s.next, time, id)
    ensures Remove(s, id, reason, time) == s
  {
  }

  /** Removal stops at the first hit: a holder found in the current list leaves the maps alone. */
  lemma RemoveFirstHit(s: Sched, id: nat, reason: nat, time: nat, k: nat)
    requires SchedOk(s) && reason < CbEnumMax && k < |s.current[reason]| && s.current[reason][k].id == id
    requires forall j | 0 <= j < k :: s.current[reason][j].id != id
    ensures Remove(s, id, reason, time).current[reason][k] == Invalidated(s.current[reason][k])
    ensures Remove(s, id, reason, time).callList == s.callList
    ensures Remove(s, id, reason, time).future == s.future && Remove(s, id, reason, time).next == s.next
  {
  }

  // Registration

  type U32 = x: nat | x < 0x1_0000_0000

  /** s_vpi_time's two 32-bit words. */
  datatype CbTime = CbTime(high: U32, low: U32)

  /** The s_cb_data fields vpi_register_cb reads: the reason, the optional time, and the object (obj). */
  datatype CbData = CbData(reason: int, time: Option<CbTime>, obj: nat)

  /** VerilatedVpioReasonCb: the handle vpi_register_cb returns, which vpi_remove_cb passes to cbReasonRemove. */
  datatype CbHandle = CbHandle(id: nat, time: nat, reason: nat)

  /** VL_SET_QII: the 64-bit time of the two words. */
  function SetQii(t: CbTime): (r: nat)
    ensures r < QuadMod
  {
    t.high * 0x1_0000_0000 + t.low
  }

  /** The one-shot reasons that carry a time. */
  predicate TimedReason(reason: int)
  {
    reason in {CbAfterDelay, CbAtEndOfSimTime, CbAtStartOfSimTime, CbReadOnlySynch, CbReadWriteSynch}
  }

  /** The reasons registered straight into their current list. */
  predicate ImmediateReason(reason: int)
  {
    reason in {CbEndOfSimulation, CbEnterInteractive, CbExitInteractive, CbInteractiveScopeChange,
               CbPLIError, CbStartOfSimulation, CbValueChange}
  }

  predicate Supported(reason: int)
  {
    TimedReason(reason) || reason == CbNextSimTime || ImmediateReason(reason)
  }

  lemma SupportedBound(reason: int)
    requires Supported(reason)
    ensures 0 < reason < CbEnumMax
  {
  }

  /**
   * The absolute time of a timed callback: the given time for
   * cbAtStartOfSimTime and cbAtEndOfSimTime, now plus the given time
   * (wrapping at 2^64) for the others, and 0 with no time.
   */
  function AbsTime(reason: int, time: Option<CbTime>, now: nat): (r: nat)
    ensures r < QuadMod
  {
    match time
    case None => 0
    case Some(t) =>
      if reason == CbAtStartOfSimTime || reason == CbAtEndOfSimTime then SetQii(t)
      else (now + SetQii(t)) % QuadMod
  }

  function Append(lists: seq<seq<Holder>>, h: Holder): (r: seq<seq<Holder>>)
    requires h.reason < |lists|
    ensures |r| == |lists|
  {
    lists[h.reason := lists[h.reason] + [h]]
  }

  /**
   * Where vpi_register_cb puts the new holder: a timed one due by now and an
   * untimed one at the end of its reason's current list, a later timed one
   * in m_futureCbs at key (time, id), a cbNextSimTime one in m_nextCbs at
   * key (now, id).
   */
  function Register(s: Sched, id: nat, c: CbData, now: nat): (r: Sched)
    requires SchedOk(s) && Supported(c.reason)
    ensures SchedOk(r) && r.callList == s.callList
  {
    SupportedBound(c.reason);
    var h := Holder(id, c.reason as nat, c.obj);
    if TimedReason(c.reason) then
      var abs := AbsTime(c.reason, c.time, now);
      if abs <= now then s.(current := Append(s.current, h))
      else
        EmplaceOrdered(s.future, Timed(abs, id, h));
        EmplaceReasons(s.future, Timed(abs, id, h));
        s.(future := Emplace(s.future, Timed(abs, id, h)))
    else if c.reason == CbNextSimTime then
      EmplaceOrdered(s.next, Timed(now, id, h));
      EmplaceReasons(s.next, Timed(now, id, h));
      s.(next := Emplace(s.next, Timed(now, id, h)))
    else s.(current := Append(s.current, h))
  }

  /** The time of the handle of vpi_register_cb as written: 0 for a cbNextSimTime callback, though m_nextCbs keys it by now. */
  function HandleTimeAsWritten(c: CbData, now: nat): nat
  {
    if TimedReason(c.reason) then AbsTime(c.reason, c.time, now) else 0
  }

  /** The handle's time corrected to the key m_nextCbs uses for a cbNextSimTime callback. */
  function HandleTime(c: CbData, now: nat): nat
  {
    if TimedReason(c.reason) then AbsTime(c.reason, c.time, now)
    else if c.reason == CbNextSimTime then now
    else 0
  }

  /** No holder anywhere in the scheduler has the id. */
  predicate NoHolder(s: Sched, id: nat)
  {
    (forall q, k | 0 <= q < |s.current| && 0 <= k < |s.current[q]| :: s.current[q][k].id != id)
    && (forall k | 0 <= k < |s.callList| :: s.callList[k].id != id)
    && (forall i | 0 <= i < |s.future| :: s.future[i].holder.id != id)
    && (forall i | 0 <= i < |s.next| :: s.next[i].holder.id != id)
  }

  /** An id is fresh when no holder and no key uses it: nextCallbackId gives each callback a new id. */
  predicate Fresh(s: Sched, id: nat)
  {
    NoHolder(s, id) && (forall i | 0 <= i < |s.future| :: s.future[i].id != id)
    && (forall i | 0 <= i < |s.next| :: s.next[i].id != id)
  }

  predicate HoldersBelow(l: seq<Holder>, b: nat)
  {
    forall k | 0 <= k < |l| :: l[k].id <= b
  }

  predicate TimedBelow(es: seq<Timed>, b: nat)
  {
    forall i | 0 <= i < |es| :: es[i].id <= b && es[i].holder.id <= b
  }

  /** Every id a holder or a key carries is at most b: the ids nextCallbackId has handed out. */
  predicate IdsBelow(s: Sched, b: nat)
  {
    (forall q | 0 <= q < |s.current| :: HoldersBelow(s.current[q], b))
    && HoldersBelow(s.callList, b) && TimedBelow(s.future, b) && TimedBelow(s.next, b)
  }

  /** An id above every id handed out is fresh. */
  lemma IdsBelowFresh(s: Sched, b: nat)
    requires IdsBelow(s, b)
    ensures Fresh(s, b + 1)
  {
    forall q, k | 0 <= q < |s.current| && 0 <= k < |s.current[q]|
      ensures s.current[q][k].id != b + 1
    {
      assert HoldersBelow(s.current[q], b);
    }
  }

  lemma IdsBelowGrows(s: Sched, b: nat, b': nat)
    requires IdsBelow(s, b) && b <= b'
    ensures IdsBelow(s, b')
  {
    forall q | 0 <= q < |s.current|
      ensures HoldersBelow(s.current[q], b')
    {
      assert HoldersBelow(s.current[q], b);
    }
  }

  lemma HoldersBelowAppend(l: seq<Holder>, h: Holder, b: nat)
    requires HoldersBelow(l, b) && h.id <= b
    ensures HoldersBelow(l + [h], b)
  {
    assert forall k | 0 <= k < |l| :: (l + [h])[k] == l[k];
  }

  lemma HoldersBelowInvalidates(l: seq<Holder>, l': seq<Holder>, b: nat)
    requires HoldersBelow(l, b) && OnlyInvalidates(l, l')
    ensures HoldersBelow(l', b)
  {
  }

  lemma HoldersBelowValids(l: seq<Holder>, b: nat)
    requires HoldersBelow(l, b)
    ensures HoldersBelow(Valids(l), b)
  {
    var r := Valids(l);
    forall k | 0 <= k < |r|
      ensures r[k].id <= b
    {
      assert r[k] in r;
      var j :| 0 <= j < |l| && l[j] == r[k];
    }
  }

  /** Replacing one current list by a list within the bound keeps the bound. */
  lemma IdsBelowSetCurrent(s: Sched, q: nat, l: seq<Holder>, b: nat)
    requires IdsBelow(s, b) && q < |s.current| && HoldersBelow(l, b)
    ensures IdsBelow(s.(current := s.current[q := l]), b)
  {
  }

  /** Invalidating holders keeps the bound: an invalidated holder has id 0. */
  lemma IdsBelowRemove(s: Sched, id: nat, reason: nat, time: nat, b: nat)
    requires SchedOk(s) && reason < CbEnumMax && IdsBelow(s, b)
    ensures IdsBelow(Remove(s, id, reason, time), b)
  {
    var r := Remove(s, id, reason, time);
    forall q | 0 <= q < |r.current|
      ensures HoldersBelow(r.current[q], b)
    {
      HoldersBelowInvalidates(s.current[q], r.current[q], b);
    }
    HoldersBelowInvalidates(s.callList, r.callList, b);
  }

  lemma {:induction false} IdsBelowRoute(lists: seq<seq<Holder>>, es: seq<Timed>, b: nat)
    requires |lists| == CbEnumMax && ReasonsOk(es)
    requires (forall q | 0 <= q < |lists| :: HoldersBelow(lists[q], b)) && TimedBelow(es, b)
    ensures forall q | 0 <= q < CbEnumMax :: HoldersBelow(Route(lists, es)[q], b)
    decreases |es|
  {
    if es != [] {
      var init := es[..|es| - 1];
      assert forall i | 0 <= i < |init| :: init[i] == es[i];
      IdsBelowRoute(lists, init, b);
      var p := Route(lists, init);
      var h := es[|es| - 1].holder;
      assert h.id <= b && h.reason < CbEnumMax;
      if IsValid(h) {
        HoldersBelowAppend(p[h.reason], h, b);
      }
    }
  }

  lemma TimedBelowSplit(es: seq<Timed>, n: nat, b: nat)
    requires TimedBelow(es, b) && n <= |es|
    ensures TimedBelow(es[..n], b) && TimedBelow(es[n..], b)
  {
    assert forall i | 0 <= i < |es| - n :: es[n..][i] == es[n + i];
  }

  /** The move only takes holders out of the maps into the current lists. */
  lemma IdsBelowMove(s: Sched, now: nat, b: nat)
    requires SchedOk(s) && IdsBelow(s, b)
    ensures IdsBelow(Move(s, now), b)
  {
    var f := DueCount(s.future, now, false);
    var n := DueCount(s.next, now, true);
    SuffixOk(s.future, f);
    SuffixOk(s.next, n);
    TimedBelowSplit(s.future, f, b);
    TimedBelowSplit(s.next, n, b);
    IdsBelowRoute(s.current, s.future[..f], b);
    IdsBelowRoute(Route(s.current, s.future[..f]), s.next[..n], b);
  }

  lemma TimedBelowEmplace(es: seq<Timed>, e: Timed, b: nat)
    requires TimedBelow(es, b) && e.id <= b && e.holder.id <= b
    ensures TimedBelow(Emplace(es, e), b)
  {
    EmplaceContents(es, e);
    var r := Emplace(es, e);
    forall i | 0 <= i < |r|
      ensures r[i].id <= b && r[i].holder.id <= b
    {
      assert r[i] in r;
    }
  }

  /** Registering callback b + 1 keeps every id at most b + 1. */
  lemma IdsBelowRegister(s: Sched, b: nat, c: CbData, now: nat)
    requires SchedOk(s) && Supported(c.reason) && IdsBelow(s, b)
    ensures IdsBelow(Register(s, b + 1, c, now), b + 1)
  {
    SupportedBound(c.reason);
    var h := Holder(b + 1, c.reason as nat, c.obj);
    IdsBelowGrows(s, b, b + 1);
    HoldersBelowAppend(s.current[h.reason], h, b + 1);
    if TimedReason(c.reason) {
      TimedBelowEmplace(s.future, Timed(AbsTime(c.reason, c.time, now), b + 1, h), b + 1);
    } else if c.reason == CbNextSimTime {
      TimedBelowEmplace(s.next, Timed(now, b + 1, h), b + 1);
    }
  }

  /** A cbNextSimTime callback registered at time 5 is not found by vpi_remove_cb with the handle as written. */
  lemma NextSimTimeRemoveMissed()
    ensures var s := Sched(seq(CbEnumMax, _ => []), [], [], []);
            var c := CbData(CbNextSimTime, None, 7);
            var s1 := Register(s, 2, c, 5);
            s1.next == [Timed(5, 2, Holder(2, CbNextSimTime, 7))]
            && Remove(s1, 2, CbNextSimTime, HandleTimeAsWritten(c, 5)) == s1
  {
    var s := Sched(seq(CbEnumMax, _ => []), [], [], []);
    var c := CbData(CbNextSimTime, None, 7);
    var s1 := Register(s, 2, c, 5);
    assert s1.next == [Timed(5, 2, Holder(2, CbNextSimTime, 7))];
    assert s1.current[CbNextSimTime] == [];
    assert !HasKey(s1.future, 0, 2);
    assert !HasKey(s1.next, 0, 2);
  }

  /**
   * For any start state and any current time other than 0, vpi_remove_cb
   * with the handle vpi_register_cb returns for a cbNextSimTime callback
   * changes nothing: the callback stays valid and will be called.
   */
  lemma NextSimTimeRemoveMisses(s: Sched, id: nat, c: CbData, now: nat)
    requires SchedOk(s) && c.reason == CbNextSimTime && Fresh(s, id) && now != 0
    ensures Supported(c.reason)
    ensures var s1 := Register(s, id, c, now);
            Remove(s1, id, CbNextSimTime as nat, HandleTimeAsWritten(c, now)) == s1
  {
    assert Supported(c.reason);
    var s1 := Register(s, id, c, now);
    var e := Timed(now, id, Holder(id, c.reason as nat, c.obj));
    assert s1.next == Emplace(s.next, e) && s1.current == s.current && s1.future == s.future;
    EmplaceContents(s.next, e);
    assert FirstId(s1.current[CbNextSimTime as nat], id).None?;
    assert !HasKey(s1.future, 0, id);
    forall i | 0 <= i < |s1.next|
      ensures !(s1.next[i].time == 0 && s1.next[i].id == id)
    {
      assert s1.next[i] in Emplace(s.next, e);
    }
  }

  /** Every reason but cbNextSimTime gets the handle time the corrected registration gives it. */
  lemma HandleTimeAgrees(c: CbData, now: nat)
    ensures c.reason != CbNextSimTime ==> HandleTimeAsWritten(c, now) == HandleTime(c, now)
    ensures c.reason == CbNextSimTime ==> HandleTimeAsWritten(c, now) == 0 && HandleTime(c, now) == now
  {
  }

  /** The holder appended to a list that had no holder with its id is the first one found. */
  lemma FirstIdAppended(l: seq<Holder>, h: Holder)
    requires forall k | 0 <= k < |l| :: l[k].id != h.id
    ensures FirstId(l + [h], h.id) == Some(|l|)
  {
    var r := FirstId(l + [h], h.id);
    assert (l + [h])[|l|].id == h.id;
  }

  /** A fresh id's entry, once emplaced, is the one found by its key, and every other entry keeps another id. */
  lemma EmplaceFound(s: seq<Timed>, e: Timed)
    requires Ordered(s) && e.id == e.holder.id
    requires forall i | 0 <= i < |s| :: s[i].id != e.id && s[i].holder.id != e.id
    ensures Find(Emplace(s, e), e.time, e.id).Some?
    ensures var t := Emplace(s, e); forall i | 0 <= i < |t| :: t[i] == e || (t[i].id != e.id && t[i].holder.id != e.id)
  {
    EmplaceAdds(s, e);
    EmplaceContents(s, e);
    var t := Emplace(s, e);
    assert !HasKey(s, e.time, e.id);
    forall i | 0 <= i < |t|
      ensures t[i] == e || (t[i].id != e.id && t[i].holder.id != e.id)
    {
      assert t[i] in t;
    }
  }

  /** Removing a callback just appended to its current list invalidates it. */
  lemma RemoveAppended(s: Sched, h: Holder, time: nat)
    requires SchedOk(s) && h.reason < CbEnumMax && h.id != 0 && NoHolder(s, h.id)
    ensures SchedOk(s.(current := Append(s.current, h)))
    ensures NoHolder(Remove(s.(current := Append(s.current, h)), h.id, h.reason, time), h.id)
  {
    var s1 := s.(current := Append(s.current, h));
    FirstIdAppended(s.current[h.reason], h);
    var r := Remove(s1, h.id, h.reason, time);
    assert InvalidateAt(s1.current[h.reason], |s.current[h.reason]|) == s.current[h.reason] + [Invalidated(h)];
    assert r.current == s1.current[h.reason := s.current[h.reason] + [Invalidated(h)]];
    assert forall q | 0 <= q < |r.current| && q != h.reason :: r.current[q] == s.current[q];
  }

  /** Removing a timed callback just emplaced in m_futureCbs by its key invalidates it. */
  lemma RemoveEmplacedFuture(s: Sched, e: Timed)
    requires SchedOk(s) && e.holder.reason < CbEnumMax && e.id == e.holder.id && e.id != 0 && Fresh(s, e.id)
    ensures SchedOk(s.(future := Emplace(s.future, e)))
    ensures NoHolder(Remove(s.(future := Emplace(s.future, e)), e.id, e.holder.reason, e.time), e.id)
  {
    EmplaceOrdered(s.future, e);
    EmplaceReasons(s.future, e);
    EmplaceFound(s.future, e);
    var s1 := s.(future := Emplace(s.future, e));
    assert FirstId(s1.current[e.holder.reason], e.id).None?;
    assert FirstId(s1.callList, e.id).None?;
    var i := Find(s1.future, e.time, e.id).value;
    InvalidateTimedOk(s1.future, i);
  }

  /** Removing a cbNextSimTime callback just emplaced in m_nextCbs by its key invalidates it. */
  lemma RemoveEmplacedNext(s: Sched, e: Timed)
    requires SchedOk(s) && e.holder.reason < CbEnumMax && e.id == e.holder.id && e.id != 0 && Fresh(s, e.id)
    ensures SchedOk(s.(next := Emplace(s.next, e)))
    ensures NoHolder(Remove(s.(next := Emplace(s.next, e)), e.id, e.holder.reason, e.time), e.id)
  {
    EmplaceOrdered(s.next, e);
    EmplaceReasons(s.next, e);
    EmplaceFound(s.next, e);
    var s1 := s.(next := Emplace(s.next, e));
    assert FirstId(s1.current[e.holder.reason], e.id).None?;
    assert FirstId(s1.callList, e.id).None?;
    assert Find(s1.future, e.time, e.id).None?;
    var i := Find(s1.next, e.time, e.id).value;
    InvalidateTimedOk(s1.next, i);
  }

  /**
   * With the corrected handle, vpi_remove_cb right after vpi_register_cb
   * leaves no valid holder with the callback's id, wherever the callback
   * was put: it will never be called.
   */
  lemma RemoveAfterRegister(s: Sched, id: nat, c: CbData, now: nat)
    requires SchedOk(s) && Supported(c.reason) && id != 0 && Fresh(s, id)
    ensures NoHolder(Remove(Register(s, id, c, now), id, c.reason as nat, HandleTime(c, now)), id)
  {
    var h := Holder(id, c.reason as nat, c.obj);
    if TimedReason(c.reason) {
      var abs := AbsTime(c.reason, c.time, now);
      if abs <= now {
        RemoveAppended(s, h, abs);
      } else {
        RemoveEmplacedFuture(s, Timed(abs, id, h));
      }
    } else if c.reason == CbNextSimTime {
      RemoveEmplacedNext(s, Timed(now, id, h));
    } else {
      RemoveAppended(s, h, 0);
    }
  }

  /** A removal during callCbs reaches a holder of the call list not yet called: its turn then calls nothing. */
  lemma RemoveInPass(s: Sched, id: nat, reason: nat, time: nat, k: nat)
    requires SchedOk(s) && reason < CbEnumMax && id != 0
    requires forall j | 0 <= j < |s.current[reason]| :: s.current[reason][j].id != id
    requires k < |s.callList| && s.callList[k].id == id && forall j | 0 <= j < k :: s.callList[j].id != id
    ensures !IsValid(Remove(s, id, reason, time).callList[k])
    ensures Remove(s, id, reason, time).current == s.current
  {
  }

  /** The search loops of cbReasonRemove. */
  method FindHolder(l: seq<Holder>, id: nat) returns (r: Option<nat>)
    ensures r == FirstId(l, id)
  {
    var k := 0;
    while k < |l|
      invariant k <= |l| && forall j | 0 <= j < k :: l[j].id != id
    {
      if l[k].id == id {
        return Some(k);
      }
      k := k + 1;
    }
    return None;
  }

  /** The valid holders among l whose object changed, in order. */
  function Changed(l: seq<Holder>, changed: set<nat>): (r: seq<Holder>)
    ensures |r| <= |l| && forall h | h in r :: h in l && h.obj in changed
    decreases |l|
  {
    if l == [] then []
    else
      var p := Changed(l[..|l| - 1], changed);
      if l[|l| - 1].obj in changed then p + [l[|l| - 1]] else p
  }

  /** One loop of moveFutureCbs: the leading due entries of a map go, in key order, to the current lists. */
  method MoveDue(lists: seq<seq<Holder>>, es: seq<Timed>, now: nat, strict: bool) returns (lists': seq<seq<Holder>>, rest: seq<Timed>)
    requires |lists| == CbEnumMax && ReasonsOk(es)
    ensures ReasonsOk(es[..DueCount(es, now, strict)])
    ensures lists' == Route(lists, es[..DueCount(es, now, strict)]) && rest == es[DueCount(es, now, strict)..]
  {
    lists', rest := lists, es;
    ghost var k := 0;
    while rest != [] && Due(rest[0], now, strict)
      invariant k <= |es| && rest == es[k..] && ReasonsOk(es[..k])
      invariant lists' == Route(lists, es[..k])
      invariant forall i | 0 <= i < k :: Due(es[i], now, strict)
      decreases |rest|
    {
      var h := rest[0].holder;
      assert es[..k + 1][..k] == es[..k] && es[k] == rest[0];
      if IsValid(h) {
        lists' := lists'[h.reason := lists'[h.reason] + [h]];
      }
      rest := rest[1..];
      k := k + 1;
    }
    assert k == DueCount(es, now, strict);
  }

  /** A vpi_put_value with vpiInertialDelay held until doInertialPuts: the variable and the value. */
  datatype PendingPut = PendingPut(variable: nat, value: nat)

  /** The callback state of the singleton VerilatedVpiImp. */
  class Scheduler {
    /** m_cbCurrentLists, one list per reason. */
    var current: seq<seq<Holder>>
    /** m_cbCallList: the list callCbs is iterating. */
    var callList: seq<Holder>
    /** m_futureCbs and m_nextCbs, in key order. */
    var future: seq<Timed>
    var next: seq<Timed>
    /** m_inertialPuts. */
    var inertialPuts: seq<PendingPut>
    /** m_nextCallbackId. */
    var nextId: nat
    /** Whether callCbs is iterating m_cbCallList, how far it got, and whether it called anything yet. */
    var inPass: bool
    var passPos: nat
    var passCalled: bool

    function St(): Sched
      reads this
    {
      Sched(current, callList, future, next)
    }

    ghost predicate Valid()
      reads this
    {
      SchedOk(St()) && nextId >= 1 && IdsBelow(St(), nextId) && passPos <= |callList|
      && (!inPass ==> callList == [] && passPos == 0 && !passCalled)
    }

    constructor ()
      ensures Valid() && St() == Sched(seq(CbEnumMax, _ => []), [], [], [])
      ensures nextId == 1 && inertialPuts == [] && !inPass
    {
      current := seq(CbEnumMax, _ => []);
      callList := [];
      future := [];
      next := [];
      inertialPuts := [];
      nextId := 1;
      inPass := false;
      passPos := 0;
      passCalled := false;
    }

    /** nextCallbackId pre-increments: the first id is 2, and no id is 0, the mark of an invalidated holder. */
    method NextCallbackId() returns (id: nat)
      requires Valid()
      modifies this`nextId
      ensures Valid() && id == old(nextId) + 1 && nextId == id && id >= 2
      ensures Fresh(St(), id)
    {
      IdsBelowFresh(St(), nextId);
      IdsBelowGrows(St(), nextId, nextId + 1);
      nextId := nextId + 1;
      id := nextId;
    }

    method CbCurrentAdd(id: nat, reason: nat, obj: nat)
      requires Valid() && reason < CbEnumMax && id <= nextId
      modifies this`current
      ensures Valid() && current == Append(old(current), Holder(id, reason, obj))
    {
      HoldersBelowAppend(current[reason], Holder(id, reason, obj), nextId);
      IdsBelowSetCurrent(St(), reason, current[reason] + [Holder(id, reason, obj)], nextId);
      current := Append(current, Holder(id, reason, obj));
    }

    method CbFutureAdd(id: nat, reason: nat, obj: nat, time: nat)
      requires Valid() && reason < CbEnumMax && id <= nextId
      modifies this`future
      ensures Valid() && future == Emplace(old(future), Timed(time, id, Holder(id, reason, obj)))
    {
      TimedBelowEmplace(future, Timed(time, id, Holder(id, reason, obj)), nextId);
      EmplaceOrdered(future, Timed(time, id, Holder(id, reason, obj)));
      EmplaceReasons(future, Timed(time, id, Holder(id, reason, obj)));
      future := Emplace(future, Timed(time, id, Holder(id, reason, obj)));
    }

    method CbNextAdd(id: nat, reason: nat, obj: nat, time: nat)
      requires Valid() && reason < CbEnumMax && id <= nextId
      modifies this`next
      ensures Valid() && next == Emplace(old(next), Timed(time, id, Holder(id, reason, obj)))
    {
      TimedBelowEmplace(next, Timed(time, id, Holder(id, reason, obj)), nextId);
      EmplaceOrdered(next, Timed(time, id, Holder(id, reason, obj)));
      EmplaceReasons(next, Timed(time, id, Holder(id, reason, obj)));
      next := Emplace(next, Timed(time, id, Holder(id, reason, obj)));
    }

    /**
     * vpi_register_cb at simulation time now: a null cb_data and an
     * unsupported reason give a warning and no handle; otherwise the
     * callback gets the next id and is placed as Register says.
     */
    method RegisterCb(cb: Option<CbData>, now: nat) returns (handle: Option<CbHandle>, warning: Option<string>)
      requires Valid()
      modifies this`current, this`future, this`next, this`nextId
      ensures Valid()
      ensures cb.None? ==> handle.None? && warning == Some("vpi_register_cb : callback data pointer is null")
                           && St() == old(St()) && nextId == old(nextId)
      ensures cb.Some? && !Supported(cb.value.reason) ==>
                handle.None? && St() == old(St()) && nextId == old(nextId)
                && warning == Some("vpi_register_cb: Unsupported callback type " + VpiStrings.StrFromVpiCallbackReason(cb.value.reason))
      ensures cb.Some? && Supported(cb.value.reason) ==>
                warning.None? && nextId == old(nextId) + 1
                && St() == Register(old(St()), nextId, cb.value, now)
                && handle == Some(CbHandle(nextId, HandleTimeAsWritten(cb.value, now), cb.value.reason as nat))
                && Fresh(old(St()), nextId)
    {
      if cb.None? {
        return None, Some("vpi_register_cb : callback data pointer is null");
      }
      var c := cb.value;
      if !Supported(c.reason) {
        return None, Some("vpi_register_cb: Unsupported callback type " + VpiStrings.StrFromVpiCallbackReason(c.reason));
      }
      var reason := c.reason as nat;
      var id := NextCallbackId();
      warning := None;
      if TimedReason(c.reason) {
        var abs := AbsTime(c.reason, c.time, now);
        handle := Some(CbHandle(id, abs, reason));
        if abs <= now {
          CbCurrentAdd(id, reason, c.obj);
        } else {
          CbFutureAdd(id, reason, c.obj, abs);
        }
      } else if c.reason == CbNextSimTime {
        handle := Some(CbHandle(id, 0, reason));
        CbNextAdd(id, reason, c.obj, now);
      } else {
        handle := Some(CbHandle(id, 0, reason));
        CbCurrentAdd(id, reason, c.obj);
      }
    }

    /** cbReasonRemove. */
    method CbReasonRemove(id: nat, reason: nat, time: nat)
      requires Valid() && reason < CbEnumMax
      modifies this`current, this`callList, this`future, this`next
      ensures Valid() && St() == Remove(old(St()), id, reason, time)
    {
      IdsBelowRemove(St(), id, reason, time, nextId);
      var i := FindHolder(current[reason], id);
      if i.Some? {
        current := current[reason := InvalidateAt(current[reason], i.value)];
        return;
      }
      i := FindHolder(callList, id);
      if i.Some? {
        callList := InvalidateAt(callList, i.value);
        return;
      }
      var f := Find(future, time, id);
      if f.Some? {
        InvalidateTimedOk(future, f.value);
        future := InvalidateTimed(future, f.value);
        return;
      }
      f := Find(next, time, id);
      if f.Some? {
        InvalidateTimedOk(next, f.value);
        next := InvalidateTimed(next, f.value);
      }
    }

    /** vpi_remove_cb: a null handle returns 0; otherwise the callback is removed and 1 returned. */
    method RemoveCb(handle: Option<CbHandle>) returns (status: int)
      requires Valid() && (handle.Some? ==> handle.value.reason < CbEnumMax)
      modifies this`current, this`callList, this`future, this`next
      ensures Valid()
      ensures handle.None? ==> status == 0 && St() == old(St())
      ensures handle.Some? ==> status == 1 && St() == Remove(old(St()), handle.value.id, handle.value.reason, handle.value.time)
    {
      if handle.None? {
        return 0;
      }
      CbReasonRemove(handle.value.id, handle.value.reason, handle.value.time);
      return 1;
    }

    /** moveFutureCbs at simulation time now. */
    method MoveFutureCbs(now: nat)
      requires Valid()
      modifies this`current, this`future, this`next
      ensures Valid() && St() == Move(old(St()), now)
    {
      IdsBelowMove(St(), now, nextId);
      if future == [] && next == [] {
        return;
      }
      SuffixOk(future, DueCount(future, now, false));
      current, future := MoveDue(current, future, now, false);
      SuffixOk(next, DueCount(next, now, true));
      current, next := MoveDue(current, next, now, true);
    }

    /** cbNextDeadline: the earliest time in m_futureCbs, or the largest 64-bit time when it is empty. */
    function CbNextDeadline(): (r: nat)
      requires Valid()
      reads this
      ensures future == [] ==> r == QuadMod - 1
      ensures future != [] ==> (exists i | 0 <= i < |future| :: future[i].time == r)
                               && forall i | 0 <= i < |future| :: r <= future[i].time
    {
      if future == [] then QuadMod - 1
      else
        assert forall i | 0 < i < |future| :: KeyLess(future[0], future[i]);
        future[0].time
    }

    /** hasCbs: whether the reason's current list holds anything, valid or not. */
    function HasCbs(reason: nat): (r: bool)
      requires Valid() && reason < CbEnumMax
      reads this
      ensures !r ==> Valids(current[reason]) == []
    {
      current[reason] != []
    }

    /** The start of callCbs: move due callbacks, then swap the reason's list with the empty call list. */
    method StartCall(reason: nat, now: nat) returns (nonEmpty: bool)
      requires Valid() && !inPass && reason < CbEnumMax
      modifies this`current, this`callList, this`future, this`next, this`inPass
      ensures Valid() && passPos == 0 && !passCalled
      ensures var m := Move(old(St()), now);
        (nonEmpty <==> m.current[reason] != [])
        && (nonEmpty ==> inPass && callList == m.current[reason] && current == m.current[reason := []]
                         && future == m.future && next == m.next)
        && (!nonEmpty ==> !inPass && St() == m)
    {
      MoveFutureCbs(now);
      ghost var m := St();
      nonEmpty := TakeCurrent(reason);
      assert m == Move(old(St()), now);
      assert nonEmpty ==> callList == m.current[reason] && current == m.current[reason := []];
      assert !nonEmpty ==> St() == m;
    }

    /** The swap of callCbs: a non-empty current list of the reason becomes the call list, leaving an empty one behind. */
    method TakeCurrent(reason: nat) returns (nonEmpty: bool)
      requires Valid() && !inPass && reason < CbEnumMax
      modifies this`current, this`callList, this`inPass
      ensures Valid() && passPos == 0 && !passCalled
      ensures nonEmpty <==> old(current[reason]) != []
      ensures nonEmpty ==> inPass && callList == old(current[reason]) && current == old(current)[reason := []]
      ensures !nonEmpty ==> !inPass && current == old(current) && callList == old(callList)
    {
      if current[reason] == [] {
        return false;
      }
      var calling := current[reason];
      IdsBelowSetCurrent(St(), reason, [], nextId);
      current := current[reason := callList];
      callList := calling;
      inPass := true;
      return true;
    }

    /** One turn of the callCbs loop: a valid holder is invalidated (timed callbacks are one-shot) and called. */
    method CallStep() returns (invoked: Option<Holder>)
      requires Valid() && inPass && passPos < |callList|
      modifies this`callList, this`passPos, this`passCalled
      ensures Valid() && inPass && passPos == old(passPos) + 1
      ensures var h := old(callList)[old(passPos)];
        if IsValid(h) then invoked == Some(h) && callList == old(callList)[old(passPos) := Invalidated(h)] && passCalled
        else invoked.None? && callList == old(callList) && passCalled == old(passCalled)
    {
      var h := callList[passPos];
      if IsValid(h) {
        callList := InvalidateAt(callList, passPos);
        invoked := Some(h);
        passCalled := true;
      } else {
        invoked := None;
      }
      passPos := passPos + 1;
    }

    /** The end of callCbs: the call list is cleared and whether anything was called returned. */
    method FinishCall() returns (called: bool)
      requires Valid() && inPass && passPos == |callList|
      modifies this`callList, this`passPos, this`inPass, this`passCalled
      ensures Valid() && !inPass && callList == [] && called == old(passCalled)
    {
      called := passCalled;
      callList := [];
      passPos := 0;
      inPass := false;
      passCalled := false;
    }

    /**
     * callCbs(reason) at time now, with no callback re-entering the
     * scheduler: the valid holders of the reason's list after the move are
     * called in order, and the list is left empty.
     */
    method CallCbs(reason: nat, now: nat) returns (called: bool, invoked: seq<Holder>)
      requires Valid() && !inPass && reason < CbEnumMax
      modifies this`current, this`callList, this`future, this`next, this`inPass, this`passPos, this`passCalled
      ensures Valid() && !inPass
      ensures var m := Move(old(St()), now);
        invoked == Valids(m.current[reason]) && (called <==> invoked != [])
        && St() == m.(current := m.current[reason := []])
    {
      ghost var m := Move(St(), now);
      var nonEmpty := StartCall(reason, now);
      if !nonEmpty {
        assert m.current[reason := []] == m.current;
        return false, [];
      }
      invoked := CallLoop();
      called := FinishCall();
    }

    /** The loop of callCbs over the call list: each valid holder, in order, is invalidated and called. */
    method CallLoop() returns (invoked: seq<Holder>)
      requires Valid() && inPass && passPos == 0 && !passCalled
      modifies this`callList, this`passPos, this`passCalled
      ensures Valid() && inPass && passPos == |callList|
      ensures invoked == Valids(old(callList)) && (passCalled <==> invoked != [])
    {
      ghost var list0 := callList;
      invoked := [];
      while passPos < |callList|
        invariant Valid() && inPass && |callList| == |list0|
        invariant forall k | passPos <= k < |callList| :: callList[k] == list0[k]
        invariant invoked == Valids(list0[..passPos]) && (passCalled <==> invoked != [])
        decreases |callList| - passPos
      {
        assert list0[..passPos + 1][..passPos] == list0[..passPos];
        var x := CallStep();
        if x.Some? {
          invoked := invoked + [x.value];
        }
      }
      assert list0[..passPos] == list0;
    }

    /**
     * callValueCbs: invalidated cbValueChange holders are erased, and the
     * valid ones whose object is in changed (its value differs from the
     * copy taken at the last call) are called in order.
     */
    method CallValueCbs(changed: set<nat>) returns (called: bool, invoked: seq<Holder>)
      requires Valid()
      modifies this`current
      ensures Valid()
      ensures current == old(current)[CbValueChange := Valids(old(current)[CbValueChange])]
      ensures invoked == Changed(Valids(old(current)[CbValueChange]), changed) && (called <==> invoked != [])
    {
      var l := current[CbValueChange];
      if l == [] {
        assert current[CbValueChange := []] == current;
        return false, [];
      }
      var kept := [];
      invoked := [];
      called := false;
      var i := 0;
      while i < |l|
        invariant i <= |l| && kept == Valids(l[..i]) && invoked == Changed(kept, changed)
        invariant called <==> invoked != []
      {
        assert l[..i + 1][..i] == l[..i];
        if IsValid(l[i]) {
          assert (kept + [l[i]])[..|kept|] == kept;
          kept := kept + [l[i]];
          if l[i].obj in changed {
            invoked := invoked + [l[i]];
            called := true;
          }
        }
        i := i + 1;
      }
      assert l[..i] == l;
      assert HoldersBelow(l, nextId);
      HoldersBelowValids(l, nextId);
      IdsBelowSetCurrent(St(), CbValueChange, kept, nextId);
      current := current[CbValueChange := kept];
    }

    /** inertialDelay: queue a put. */
    method InertialDelay(p: PendingPut)
      modifies this`inertialPuts
      ensures inertialPuts == old(inertialPuts) + [p]
    {
      inertialPuts := inertialPuts + [p];
    }

    /** doInertialPuts: the queued puts, in order, are applied by vpi_put_value with vpiNoDelay; the queue is cleared. */
    method DoInertialPuts() returns (puts: seq<PendingPut>)
      modifies this`inertialPuts
      ensures puts == old(inertialPuts) && inertialPuts == []
    {
      puts := inertialPuts;
      inertialPuts := [];
    }
  }
}
