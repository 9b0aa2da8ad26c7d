/** Bounded waiting under sched_yield, and environment handles over runs
  (kern/sched.c, kern/env.c).
 */
module Fairness {
  import opened EnvIds
  import opened Smp
  import opened SmpSafety
  import opened Rendezvous

  /** Slots the scan from `start` passes before it reaches i, round the end. */
  function Distance(start: nat, i: nat): (d: int)
    requires start <= NENV && i < NENV
    ensures 0 <= d < NENV
  {
    if i >= start then i - start else i + NENV - start
  }

  function Rank(s: Sys, c: nat, i: nat): int
    requires Sized(s) && c < |s.cpus| && i < NENV
  {
    Distance(ScanStart(s, c), i)
  }

  /** The scan takes the nearest runnable environment. */
  lemma PickIsNearest(s: Sys, c: nat, i: nat)
    requires Sized(s) && c < |s.cpus| && i < NENV && s.envs[i].status == Runnable
    ensures Pick(s, c).Some? && Rank(s, c, Pick(s, c).value) <= Rank(s, c, i)
  {
  }

  /** The step calls sched_yield with the current environment left alone. */
  predicate Yields(s: Sys, a: Action, c: nat)
    requires Sized(s) && Enabled(s, a) && c < |s.cpus|
  {
    a.Kernel? && a.c == c && !LosesCurrent(s, a, c) &&
    (!s.cpus[c].mode.user ||
     match Dispatch(s, c, a.ev)
     case Left(_) => a.ev == Timer || a.ev == Yield
     case Back(s1) => s1.envs[s.cpus[c].cur.value].status != Running)
  }

  /** The step reaps or destroys the current environment of CPU c. */
  predicate LosesCurrent(s: Sys, a: Action, c: nat)
    requires Sized(s) && Enabled(s, a) && c < |s.cpus|
  {
    a.Kernel? && a.c == c && s.cpus[c].mode.user &&
    (s.envs[s.cpus[c].cur.value].status == Dying ||
     match a.ev
     case Crash => true
     case PageFault(upcall) => !upcall
     case Destroy(envid) => EnvId2Env(s, c, envid, true) == s.cpus[c].cur
     case _ => false)
  }

  lemma YieldLeavesOtherCpus(s: Sys, c: nat, d: nat)
    requires Sized(s) && c < |s.cpus| && d < |s.cpus| && d != c
    ensures SchedYield(s, c).cpus[d] == s.cpus[d]
  {
  }

  lemma DispatchLeavesOtherCpus(s: Sys, c: nat, ev: Event, d: nat)
    requires Sized(s) && c < |s.cpus| && s.cpus[c].cur.Some? && d < |s.cpus| && d != c
    ensures Dispatch(s, c, ev).s.cpus[d] == s.cpus[d]
  {
    hide SchedYield;
    YieldLeavesOtherCpus(s, c, d);
    var e := if ev.Destroy? then EnvId2Env(s, c, ev.envid, true) else s.cpus[c].cur;
    if e.Some? {
      YieldLeavesOtherCpus(SetCur(EnvFree(s, e.value), c, None), c, d);
    }
  }

  lemma StepLeavesOtherCpus(s: Sys, a: Action, d: nat)
    requires Sized(s) && Enabled(s, a) && d < |s.cpus| && d != a.c
    ensures Step(s, a).cpus[d] == s.cpus[d]
  {
    if a.Kernel? {
      var c := a.c;
      if !s.cpus[c].mode.user {
        YieldLeavesOtherCpus(s, c, d);
      } else {
        var cur := s.cpus[c].cur.value;
        if s.envs[cur].status == Dying {
          YieldLeavesOtherCpus(SetCur(EnvFree(s, cur), c, None), c, d);
        } else {
          DispatchLeavesOtherCpus(s, c, a.ev, d);
          match Dispatch(s, c, a.ev)
          case Left(s1) =>
          case Back(s1) => YieldLeavesOtherCpus(s1, c, d);
        }
      }
    }
  }

  /** In a state outside the kernel the scan starts after the current slot. */
  lemma ScanStartIs(s: Sys, c: nat)
    requires Inv(s) && c < |s.cpus| && s.cpus[c].mode != Monitor
    ensures ScanStart(s, c) == if s.cpus[c].cur.Some? then s.cpus[c].cur.value + 1 else 0
  {
    assert CpuOk(s, c);
    if s.cpus[c].cur.Some? {
      var e := s.cpus[c].cur.value;
      SlotInId(s, e);
    }
  }

  lemma SlotInId(s: Sys, e: nat)
    requires Inv(s) && e < NENV && s.envs[e].status != Free
    ensures EnvX(s.envs[e].id) == e
  {
    assert EnvOk(s.envs[e], e);
    var k: nat :| s.envs[e].id == EnvIdAfter(k, e);
    EnvIdCarriesSlot(k, e);
  }

  /** sched_yield that passes over a runnable i lands nearer to it. */
  lemma YieldApproaches(s: Sys, c: nat, i: nat)
    requires Sized(s) && c < |s.cpus| && i < NENV && s.envs[i].status == Runnable
    requires SchedYield(s, c).envs[i].status == Runnable
    ensures SchedYield(s, c).cpus[c].mode == User
    ensures SchedYield(s, c).cpus[c].cur.Some?
    ensures Distance(SchedYield(s, c).cpus[c].cur.value + 1, i) < Rank(s, c, i)
  {
    PickIsNearest(s, c, i);
  }

  lemma StillRunnable(s: Sys, c: nat, i: nat)
    requires Sized(s) && c < |s.cpus| && i < NENV && s.cpus[c].cur != Some(i)
    requires SchedYield(s, c).envs[i].status == Runnable
    ensures s.envs[i].status == Runnable
  {
  }

  lemma StepRank(s: Sys, a: Action, c: nat, i: nat)
    requires Inv(s) && Enabled(s, a) && LegalAction(s, a) && c < |s.cpus| && i < NENV && !LosesCurrent(s, a, c)
    requires s.envs[i].status == Runnable && Step(s, a).envs[i].status == Runnable
    ensures Rank(Step(s, a), c, i) <= Rank(s, c, i) - (if Yields(s, a, c) then 1 else 0)
  {
    var r := Step(s, a);
    StepSafe(s, a);
    assert CpuOk(s, c);
    if s.cpus[c].mode == Monitor {
      MonitorIsStuck(s, a, c);
    } else if a.c != c {
      StepLeavesOtherCpus(s, a, c);
      ScanStartIs(s, c);
      ScanStartIs(r, c);
    } else if !a.Kernel? {
      ScanStartIs(s, c);
      ScanStartIs(r, c);
    } else {
      OwnStepRank(s, a, i);
    }
  }

  /** A CPU in the monitor keeps the lock, so nothing happens in the kernel. */
  lemma MonitorIsStuck(s: Sys, a: Action, c: nat)
    requires Inv(s) && Enabled(s, a) && c < |s.cpus| && s.cpus[c].mode == Monitor
    ensures !a.Kernel?
  {
    assert Owner(s, c);
    assert a.Kernel? ==> Owner(s, a.c);
  }

  lemma OwnStepRank(s: Sys, a: Action, i: nat)
    requires Inv(s) && Enabled(s, a) && LegalAction(s, a) && a.Kernel? && i < NENV && !LosesCurrent(s, a, a.c)
    requires s.envs[i].status == Runnable && Step(s, a).envs[i].status == Runnable && Inv(Step(s, a))
    ensures Rank(Step(s, a), a.c, i) <= Rank(s, a.c, i) - (if Yields(s, a, a.c) then 1 else 0)
  {
    hide LockOk, SeatsOk, FreeOk, EnvsOk;
    var c := a.c;
    var r := Step(s, a);
    assert CpuOk(s, c);
    ScanStartIs(s, c);
    if !s.cpus[c].mode.user {
      YieldApproaches(s, c, i);
      ScanStartIs(r, c);
    } else {
      var cur := s.cpus[c].cur.value;
      assert i != cur;
      match Dispatch(s, c, a.ev)
      case Left(s1) =>
        if a.ev == Timer || a.ev == Yield {
          YieldApproaches(s, c, i);
        }
        ScanStartIs(r, c);
      case Back(s1) =>
        BackKeepsCpus(s, c, a.ev);
        TailRank(s1, c, cur, i);
        ScanStartIs(r, c);
    }
  }

  lemma TailRank(s: Sys, c: nat, cur: nat, i: nat)
    requires Sized(s) && c < |s.cpus| && i < NENV && i != cur && s.cpus[c].cur == Some(cur)
    requires Tail(s, c).envs[i].status == Runnable
    ensures Tail(s, c).cpus[c].mode == User && Tail(s, c).cpus[c].cur.Some?
    ensures if s.envs[cur].status == Running then Tail(s, c).cpus[c].cur == Some(cur)
            else Distance(Tail(s, c).cpus[c].cur.value + 1, i) < Rank(s, c, i)
  {
    if s.envs[cur].status != Running {
      StillRunnable(s, c, i);
      YieldApproaches(s, c, i);
    }
  }

  /** Coming back to trap(), the CPUs and the current id are as they were. */
  lemma BackKeepsCpus(s: Sys, c: nat, ev: Event)
    requires Mid(s, c) && s.cpus[c].cur.Some? && s.envs[s.cpus[c].cur.value].status == Running
    requires Dispatch(s, c, ev).Back?
    ensures Dispatch(s, c, ev).s.cpus == s.cpus
    ensures Dispatch(s, c, ev).s.envs[s.cpus[c].cur.value].id == s.envs[s.cpus[c].cur.value].id
  {
    if ev.Fork? && s.free != [] {
      assert s.free[0] in s.free;
    }
  }

  // ------------------------------------------------------------------
  // Runs
  // ------------------------------------------------------------------

  /** i is runnable in every state of the run, and CPU c never loses its
      current environment. */
  ghost predicate Waits(s: Sys, run: seq<Action>, c: nat, i: nat)
    requires Sized(s) && LegalRun(s, run) && c < |s.cpus| && i < NENV
    decreases |run|
  {
    s.envs[i].status == Runnable
      && (run == [] || (!LosesCurrent(s, run[0], c) && Waits(Step(s, run[0]), run[1..], c, i)))
  }

  ghost function YieldCount(s: Sys, run: seq<Action>, c: nat): nat
    requires Sized(s) && LegalRun(s, run) && c < |s.cpus|
    decreases |run|
  {
    if run == [] then 0
    else (if Yields(s, run[0], c) then 1 else 0) + YieldCount(Step(s, run[0]), run[1..], c)
  }

  /** Bounded waiting: while i waits, CPU c can call sched_yield at most as
      often as there are slots between its position and i. */
  lemma {:induction false} BoundedWaiting(s: Sys, run: seq<Action>, c: nat, i: nat)
    requires Inv(s) && LegalRun(s, run) && c < |s.cpus| && i < NENV && Waits(s, run, c, i)
    ensures YieldCount(s, run, c) + Rank(After(s, run), c, i) <= Rank(s, c, i) < NENV
    decreases |run|
  {
    if run != [] {
      var s1 := Step(s, run[0]);
      StepSafe(s, run[0]);
      StepRank(s, run[0], c, i);
      BoundedWaiting(s1, run[1..], c, i);
    }
  }

  /** The clock interrupts and sys_yield calls that CPU c serves. */
  ghost function Ticks(run: seq<Action>, c: nat): nat
    decreases |run|
  {
    if run == [] then 0 else (if IsTick(run[0], c) then 1 else 0) + Ticks(run[1..], c)
  }

  predicate IsTick(a: Action, c: nat) {
    a.Kernel? && a.c == c && (a.ev == Timer || a.ev == Yield)
  }

  /** How often CPU c loses its current environment in the run. */
  ghost function Losses(s: Sys, run: seq<Action>, c: nat): nat
    requires Sized(s) && LegalRun(s, run) && c < |s.cpus|
    decreases |run|
  {
    if run == [] then 0
    else (if LosesCurrent(s, run[0], c) then 1 else 0) + Losses(Step(s, run[0]), run[1..], c)
  }

  ghost predicate StaysRunnable(s: Sys, run: seq<Action>, i: nat)
    requires Sized(s) && LegalRun(s, run) && i < NENV
    decreases |run|
  {
    s.envs[i].status == Runnable && (run == [] || StaysRunnable(Step(s, run[0]), run[1..], i))
  }

  lemma TickYields(s: Sys, a: Action, c: nat)
    requires Sized(s) && Enabled(s, a) && c < |s.cpus| && IsTick(a, c) && !LosesCurrent(s, a, c)
    ensures Yields(s, a, c)
  {
  }

  lemma StaysOne(s: Sys, run: seq<Action>, i: nat)
    requires Sized(s) && LegalRun(s, run) && i < NENV && StaysRunnable(s, run, i)
    ensures s.envs[i].status == Runnable && (run != [] ==> Step(s, run[0]).envs[i].status == Runnable)
  {
  }

  /** Bounded waiting, counted from outside: an environment that stays
      runnable waits for fewer than NENV clock interrupts and sys_yield calls
      of any one CPU, and for at most NENV more each time that CPU's
      environment is destroyed under it. */
  lemma {:induction false} TicksAreBounded(s: Sys, run: seq<Action>, c: nat, i: nat)
    requires Inv(s) && LegalRun(s, run) && c < |s.cpus| && i < NENV && StaysRunnable(s, run, i)
    ensures Ticks(run, c) + Rank(After(s, run), c, i) <= Rank(s, c, i) + NENV * Losses(s, run, c)
    ensures Ticks(run, c) < NENV * (Losses(s, run, c) + 1)
    decreases |run|
  {
    hide LockOk, SeatsOk, FreeOk, EnvsOk, CpuOk, Step, LosesCurrent, IsTick, Rank, LegalAction;
    if run != [] {
      var s1 := Step(s, run[0]);
      StaysOne(s, run, i);
      StepSafe(s, run[0]);
      if LosesCurrent(s, run[0], c) {
        RankBounds(s, c, i);
        RankBounds(s1, c, i);
      } else {
        StepRank(s, run[0], c, i);
        if IsTick(run[0], c) { TickYields(s, run[0], c); }
      }
      TicksAreBounded(s1, run[1..], c, i);
    }
    RankBounds(s, c, i);
    RankBounds(After(s, run), c, i);
  }

  lemma RankBounds(s: Sys, c: nat, i: nat)
    requires Sized(s) && c < |s.cpus| && i < NENV
    ensures 0 <= Rank(s, c, i) < NENV
  {
  }

  // ------------------------------------------------------------------
  // Handles
  // ------------------------------------------------------------------

  /** Allocations of slot e in the run. */
  ghost function Allocations(s: Sys, run: seq<Action>, e: nat): nat
    requires Sized(s) && LegalRun(s, run) && e < NENV
    decreases |run|
  {
    if run == [] then 0
    else (if Allocates(s, run[0], e) then 1 else 0) + Allocations(Step(s, run[0]), run[1..], e)
  }

  predicate Allocates(s: Sys, a: Action, e: nat)
    requires Sized(s) && Enabled(s, a) && e < NENV
  {
    s.envs[e].status == Free && Step(s, a).envs[e].status != Free
  }

  lemma DispatchId(s: Sys, c: nat, ev: Event, e: nat)
    requires Mid(s, c) && s.cpus[c].cur.Some? && s.envs[s.cpus[c].cur.value].status == Running && e < NENV
    ensures IdStep(s, Dispatch(s, c, ev).s, e)
  {
    var cur := s.cpus[c].cur.value;
    match ev
    case Timer => YieldReschedules(s, c);
    case Yield => YieldReschedules(s, c);
    case PageFault(upcall) =>
      DestroyId(s, c, cur, e);
      RunReschedules(s, c, cur);
    case Crash => DestroyId(s, c, cur, e);
    case Destroy(envid) =>
      if EnvId2Env(s, c, envid, true).Some? {
        DestroyId(s, c, EnvId2Env(s, c, envid, true).value, e);
      }
    case Fork(memory) =>
      if s.free != [] {
        assert s.free[0] in s.free;
      }
    case _ =>
  }

  /** The id of slot e moves to the next one exactly when the slot is
      allocated. */
  ghost predicate IdStep(s: Sys, r: Sys, e: nat)
    requires Sized(s) && Sized(r) && e < NENV
  {
    r.envs[e].id ==
      if s.envs[e].status == Free && r.envs[e].status != Free then NextEnvId(s.envs[e].id, e) else s.envs[e].id
  }

  lemma DestroyId(s: Sys, c: nat, t: nat, e: nat)
    requires Sized(s) && c < |s.cpus| && t < NENV && e < NENV && s.envs[t].status != Free
    ensures IdStep(s, EnvDestroy(s, c, t).s, e)
  {
    if s.cpus[c].cur == Some(t) {
      YieldReschedules(SetCur(EnvFree(s, t), c, None), c);
    }
  }

  lemma StepId(s: Sys, a: Action, e: nat)
    requires Inv(s) && Enabled(s, a) && e < NENV
    ensures IdStep(s, Step(s, a), e)
  {
    assert CpuOk(s, a.c);
    if a.Kernel? {
      var c := a.c;
      if !s.cpus[c].mode.user {
        YieldReschedules(s, c);
      } else {
        var cur := s.cpus[c].cur.value;
        if s.envs[cur].status == Dying {
          YieldReschedules(SetCur(EnvFree(s, cur), c, None), c);
        } else {
          DispatchId(s, c, a.ev, e);
          match Dispatch(s, c, a.ev)
          case Left(s1) =>
          case Back(s1) => TailReschedules(s1, c);
        }
      }
    }
  }

  lemma StepNthId(s: Sys, a: Action, e: nat, k: nat)
    requires Inv(s) && Enabled(s, a) && e < NENV && s.envs[e].id == EnvIdAfter(k, e)
    ensures Step(s, a).envs[e].id == EnvIdAfter(if Allocates(s, a, e) then k + 1 else k, e)
  {
    StepId(s, a, e);
  }

  lemma {:induction false} AllocationsAdvanceId(s: Sys, run: seq<Action>, e: nat, k: nat, m: nat)
    requires Inv(s) && LegalRun(s, run) && e < NENV && s.envs[e].id == EnvIdAfter(k, e)
    requires m == k + Allocations(s, run, e)
    ensures After(s, run).envs[e].id == EnvIdAfter(m, e)
    decreases |run|
  {
    if run != [] {
      var k' := if Allocates(s, run[0], e) then k + 1 else k;
      StepSafe(s, run[0]);
      StepNthId(s, run[0], e, k);
      AllocationsAdvanceId(Step(s, run[0]), run[1..], e, k', m);
    }
  }

  lemma Resolve(s: Sys, c: nat, id: int, e: nat, n: nat)
    requires Sized(s) && c < |s.cpus| && s.cpus[c].cur.Some? && EnvX(id) == e < NENV && id != 0
    requires s.envs[e].id == id <==> n % ENV_PERIOD == 0
    ensures EnvId2Env(s, c, id, false) == if s.envs[e].status != Free && n % ENV_PERIOD == 0 then Some(e) else None
  {
  }

  /** A handle taken at the start of a run resolves at its end exactly when
      its slot is in use and was allocated again a multiple of 524287 times;
      so within that bound a stale handle is rejected. */
  lemma HandleResolves(s: Sys, run: seq<Action>, e: nat, c: nat)
    requires Inv(s) && LegalRun(s, run) && e < NENV && s.envs[e].status != Free
    requires c < |s.cpus| && After(s, run).cpus[c].cur.Some?
    ensures EnvId2Env(After(s, run), c, s.envs[e].id, false) ==
              if After(s, run).envs[e].status != Free && Allocations(s, run, e) % ENV_PERIOD == 0 then Some(e) else None
  {
    var k := NthId(s, e);
    HandleId(s, run, e, k);
    Resolve(After(s, run), c, s.envs[e].id, e, Allocations(s, run, e));
  }

  lemma NthId(s: Sys, e: nat) returns (k: nat)
    requires Inv(s) && e < NENV && s.envs[e].status != Free
    ensures s.envs[e].id == EnvIdAfter(k, e) && s.envs[e].id != 0
  {
    assert EnvOk(s.envs[e], e);
    k :| s.envs[e].id == EnvIdAfter(k, e);
  }

  lemma HandleId(s: Sys, run: seq<Action>, e: nat, k: nat)
    requires Inv(s) && LegalRun(s, run) && e < NENV && s.envs[e].id == EnvIdAfter(k, e) && s.envs[e].id != 0
    ensures EnvX(s.envs[e].id) == e
    ensures After(s, run).envs[e].id == s.envs[e].id <==> Allocations(s, run, e) % ENV_PERIOD == 0
  {
    hide LockOk, SeatsOk, FreeOk, EnvsOk, CpuOk, Allocations, LegalRun, EnvIdAfter, EnvX;
    AllocationsAdvanceId(s, run, e, k, k + Allocations(s, run, e));
    SameIdAgain(k, Allocations(s, run, e), e);
  }

  lemma SameIdAgain(k: nat, n: nat, e: nat)
    requires e < NENV && EnvIdAfter(k, e) != 0
    ensures EnvX(EnvIdAfter(k, e)) == e
    ensures EnvIdAfter(k + n, e) == EnvIdAfter(k, e) <==> n % ENV_PERIOD == 0
  {
    EnvIdCarriesSlot(k, e);
    EnvIdRecurs(k, k + n, e);
  }
}
