/** What one step of the kernel comes to, event by event, told from the state
  before and the state after (kern/trap.c, kern/sched.c, kern/env.c,
  kern/syscall.c).
 */
module KernelEvents {
  import opened EnvIds
  import opened Smp
  import opened SmpSafety
  import opened Fairness

  // ------------------------------------------------------------------
  // What runs next
  // ------------------------------------------------------------------

  /** Slot i comes before slot e, counting round the end from the slot after
      `cur`, or from slot 0. */
  predicate Before(cur: Option<nat>, i: nat, e: nat) {
    match cur
    case None => i < e
    case Some(k) => if k < e then k < i < e else k < i || i < e
  }

  ghost predicate Nearest(envs: seq<Env>, cur: Option<nat>, e: nat) {
    && e < |envs| && envs[e].status == Runnable
    && (forall i: nat | i < |envs| && Before(cur, i, e) :: envs[i].status != Runnable)
  }

  ghost predicate NoneRunnable(envs: seq<Env>) {
    forall i: nat | i < |envs| :: envs[i].status != Runnable
  }

  ghost predicate NoneAlive(envs: seq<Env>) {
    forall i: nat | i < |envs| :: envs[i].status in {Free, NotRunnable}
  }

  /** CPU c goes back to user mode in environment e, and the lock is free. */
  ghost predicate Resumes(r: Sys, c: nat, e: nat) {
    c < |r.cpus| && r.cpus[c] == Cpu(Some(e), User) && !r.locked
  }

  /** The environments are as in `envs`, and CPU c, whose current one was
      `cur`, gives way: to the nearest runnable one; without any, to its own
      if that still runs; and otherwise it halts, or stays in the monitor with
      the lock when nobody is left to run. */
  ghost predicate GivesWay(envs: seq<Env>, cur: Option<nat>, locked: bool, r: Sys, c: nat) {
    && c < |r.cpus| && |r.envs| == |envs| && (cur.Some? ==> cur.value < |envs|)
    && (!NoneRunnable(envs) ==>
          exists e: nat :: Nearest(envs, cur, e) && Resumes(r, c, e) && TakesOver(envs, cur, e, r.envs))
    && (NoneRunnable(envs) && cur.Some? && envs[cur.value].status == Running ==>
          Resumes(r, c, cur.value) && r.envs == envs)
    && (NoneRunnable(envs) && (cur.Some? ==> envs[cur.value].status != Running) ==>
          && r.envs == envs
          && (NoneAlive(envs) ==> r.cpus[c] == Cpu(cur, Monitor) && r.locked == locked)
          && (!NoneAlive(envs) ==> r.cpus[c] == Cpu(None, Halted) && !r.locked))
  }

  /** e runs, the one that ran before is runnable, and nothing else changed. */
  ghost predicate TakesOver(envs: seq<Env>, cur: Option<nat>, e: nat, r: seq<Env>) {
    && |r| == |envs| && e < |r|
    && (forall i: nat | i < |envs| ::
          r[i] == if i == e then envs[i].(status := Running)
                  else if cur == Some(i) && envs[i].status == Running then envs[i].(status := Runnable)
                  else envs[i])
  }

  ghost predicate OtherCpus(s: Sys, r: Sys, c: nat) {
    |r.cpus| == |s.cpus| && forall d: nat | d < |s.cpus| && d != c :: r.cpus[d] == s.cpus[d]
  }

  lemma RunTakesOver(s: Sys, c: nat, e: nat)
    requires Sized(s) && c < |s.cpus| && e < NENV
    ensures var r := EnvRun(s, c, e);
            Resumes(r, c, e) && TakesOver(s.envs, s.cpus[c].cur, e, r.envs) && r.free == s.free && OtherCpus(s, r, c)
  {
  }

  /** The scan starts after the slot in the id of the current environment. */
  lemma PickNearest(s: Sys, c: nat)
    requires Sized(s) && c < |s.cpus|
    requires s.cpus[c].cur.Some? ==> EnvX(s.envs[s.cpus[c].cur.value].id) == s.cpus[c].cur.value
    ensures Pick(s, c).None? <==> NoneRunnable(s.envs)
    ensures Pick(s, c).Some? ==> Nearest(s.envs, s.cpus[c].cur, Pick(s, c).value)
  {
  }

  lemma YieldGivesWay(s: Sys, c: nat)
    requires Sized(s) && c < |s.cpus|
    requires s.cpus[c].cur.Some? ==> EnvX(s.envs[s.cpus[c].cur.value].id) == s.cpus[c].cur.value
    ensures var r := SchedYield(s, c);
            GivesWay(s.envs, s.cpus[c].cur, s.locked, r, c) && r.free == s.free && OtherCpus(s, r, c)
  {
    hide Pick, EnvX, EnvRun, TakesOver, Nearest;
    PickNearest(s, c);
    var cur := s.cpus[c].cur;
    var r := SchedYield(s, c);
    match Pick(s, c)
    case Some(e) => RunTakesOver(s, c, e);
    case None =>
      if cur.Some? && s.envs[cur.value].status == Running {
        RunTakesOver(s, c, cur.value);
        SameTakesOver(s.envs, cur.value, r.envs);
      } else {
        HaltIs(s, c);
      }
  }

  lemma SameTakesOver(envs: seq<Env>, e: nat, r: seq<Env>)
    requires TakesOver(envs, Some(e), e, r) && envs[e].status == Running
    ensures r == envs
  {
  }

  /** sched_halt is left exactly when somebody may still run. */
  lemma HaltIs(s: Sys, c: nat)
    requires Sized(s) && c < |s.cpus|
    ensures var r := SchedHalt(s, c);
            && r.envs == s.envs && r.free == s.free && OtherCpus(s, r, c)
            && (NoneAlive(s.envs) ==> r.cpus[c] == Cpu(s.cpus[c].cur, Monitor) && r.locked == s.locked)
            && (!NoneAlive(s.envs) ==> r.cpus[c] == Cpu(None, Halted) && !r.locked)
  {
    assert NoneAlive(s.envs) <==> forall i | 0 <= i < NENV :: !Alive(s.envs[i].status);
  }

  // ------------------------------------------------------------------
  // Which environment an id names
  // ------------------------------------------------------------------

  /** In a call of environment k, envid is e's: 0 is the caller itself; any
      other id belongs to an environment in use, which is the caller or its
      child where that is asked for. */
  predicate Named(s: Sys, k: nat, envid: int, checkperm: bool, e: nat) {
    && e < |s.envs| && k < |s.envs|
    && if envid == 0 then e == k
       else && s.envs[e].status != Free && s.envs[e].id == envid
            && (checkperm ==> e == k || s.envs[e].parent == s.envs[k].id)
  }

  lemma NamedExactly(s: Sys, c: nat, envid: int, checkperm: bool)
    requires Inv(s) && c < |s.cpus| && s.cpus[c].cur.Some?
    ensures forall e: nat :: EnvId2Env(s, c, envid, checkperm) == Some(e) <==>
                               Named(s, s.cpus[c].cur.value, envid, checkperm, e)
  {
    hide LockOk, SeatsOk, FreeOk, EnvsOk, CpuOk, EnvX;
    forall e: nat | e < NENV && s.envs[e].status != Free
      ensures EnvX(s.envs[e].id) == e
    {
      SlotInId(s, e);
    }
  }

  // ------------------------------------------------------------------
  // The events
  // ------------------------------------------------------------------

  /** CPU c is in the kernel for its environment k, which runs. */
  ghost predicate Serving(s: Sys, c: nat, k: nat) {
    && Sized(s) && Inv(s) && c < |s.cpus| && s.cpus[c] == Cpu(Some(k), Holding(true))
    && k < NENV && s.envs[k].status == Running
  }

  /** The call returns to its environment. */
  ghost predicate ComesBack(s: Sys, r: Sys, c: nat, k: nat) {
    Resumes(r, c, k) && OtherCpus(s, r, c)
  }

  lemma ServingSlot(s: Sys, c: nat, k: nat)
    requires Serving(s, c, k)
    ensures EnvX(s.envs[k].id) == k && s.locked && !s.envs[k].recving
  {
    SlotInId(s, k);
    assert Owner(s, c);
    assert EnvOk(s.envs[k], k);
  }

  /** trap() on its way back to an environment that still runs. */
  lemma TailComesBack(s: Sys, s1: Sys, c: nat, k: nat)
    requires Serving(s, c, k) && Sized(s1) && s1.cpus == s.cpus && s1.envs[k].status == Running
    ensures var r := Tail(s1, c); ComesBack(s, r, c, k) && r.envs == s1.envs && r.free == s1.free
  {
    hide Inv, EnvRun, TakesOver;
    RunTakesOver(s1, c, k);
    SameTakesOver(s1.envs, k, EnvRun(s1, c, k).envs);
  }

  lemma TailGivesWay(s: Sys, s1: Sys, c: nat, k: nat)
    requires Serving(s, c, k) && Sized(s1) && s1.cpus == s.cpus && s1.locked == s.locked
    requires s1.envs[k].status != Running && s1.envs[k].id == s.envs[k].id
    ensures var r := Tail(s1, c);
            GivesWay(s1.envs, Some(k), true, r, c) && r.free == s1.free && OtherCpus(s, r, c)
  {
    hide Inv, SchedYield, GivesWay, EnvX;
    ServingSlot(s, c, k);
    YieldGivesWay(s1, c);
  }

  /** A clock interrupt, like sys_yield, takes the CPU away from an environment
      that runs whenever another could: it goes to the nearest runnable one
      after it, round the end, and the old one stays runnable. */
  lemma ClockPreempts(s: Sys, c: nat, k: nat, ev: Event)
    requires Serving(s, c, k) && (ev == Timer || ev == Yield)
    ensures
      var r := Step(s, Kernel(c, ev));
      && r.free == s.free && OtherCpus(s, r, c)
      && (!NoneRunnable(s.envs) ==>
            exists e: nat ::
              && Nearest(s.envs, Some(k), e) && e != k && Resumes(r, c, e)
              && r.envs == s.envs[k := s.envs[k].(status := Runnable)][e := s.envs[e].(status := Running)])
      && (NoneRunnable(s.envs) ==> Resumes(r, c, k) && r.envs == s.envs)
  {
    hide Inv, SchedYield, EnvX, Nearest, Resumes, TakesOver;
    ServingSlot(s, c, k);
    YieldGivesWay(s, c);
    var r := Step(s, Kernel(c, ev));
    assert r == SchedYield(s, c);
    if !NoneRunnable(s.envs) {
      var e: nat :| Nearest(s.envs, Some(k), e) && Resumes(r, c, e) && TakesOver(s.envs, Some(k), e, r.envs);
      Swapped(s.envs, k, e, r.envs);
    }
  }

  lemma Swapped(envs: seq<Env>, k: nat, e: nat, r: seq<Env>)
    requires Nearest(envs, Some(k), e) && TakesOver(envs, Some(k), e, r) && k < |envs| && envs[k].status == Running
    ensures e != k && r == envs[k := envs[k].(status := Runnable)][e := envs[e].(status := Running)]
  {
  }

  /** Spurious interrupts, page faults with a handler, calls that are refused:
      the environment goes on and nothing has changed. */
  lemma NothingHappens(s: Sys, c: nat, k: nat, ev: Event)
    requires Serving(s, c, k)
    requires ev == Nothing || ev == PageFault(true) || ev == Recv(false) || ev == Fork(false)
             || (ev == Fork(true) && s.free == [])
             || (ev.Destroy? && forall e: nat :: !Named(s, k, ev.envid, true, e))
             || (ev.Status? && (ev.status !in {Runnable, NotRunnable}
                                || forall e: nat :: !Named(s, k, ev.envid, true, e)))
             || (ev.Send? && (ev.page == PageError
                              || forall e: nat | Named(s, k, ev.envid, false, e) :: !s.envs[e].recving))
    ensures var r := Step(s, Kernel(c, ev)); ComesBack(s, r, c, k) && r.envs == s.envs && r.free == s.free
  {
    hide Inv, EnvRun, Tail, EnvId2Env, TakesOver, Named;
    if ev == PageFault(true) {
      RunTakesOver(s, c, k);
      SameTakesOver(s.envs, k, EnvRun(s, c, k).envs);
    } else {
      if ev.Destroy? || ev.Status? {
        NamedExactly(s, c, ev.envid, true);
      } else if ev.Send? {
        NamedExactly(s, c, ev.envid, false);
      }
      assert Dispatch(s, c, ev) == Back(s);
      TailComesBack(s, s, c, k);
    }
  }

  /** sys_exofork: the head of the free list becomes a sleeping child of the
      caller with an id nobody has. */
  lemma ForkAdds(s: Sys, c: nat, k: nat)
    requires Serving(s, c, k) && s.free != []
    ensures
      var r := Step(s, Kernel(c, Fork(true))); var e := s.free[0];
      && ComesBack(s, r, c, k) && r.free == s.free[1..] && e != k
      && s.envs[e].status == Free
      && r.envs == s.envs[e := Env(r.envs[e].id, s.envs[k].id, NotRunnable, false, s.envs[e].msg)]
      && 0 < r.envs[e].id && EnvX(r.envs[e].id) == e && r.envs[e].id != s.envs[e].id
      && (forall i: nat | i < NENV && s.envs[i].status != Free :: s.envs[i].id != r.envs[e].id)
  {
    hide LockOk, SeatsOk, FreeOk, EnvsOk, CpuOk, EnvRun, Tail, TakesOver, EnvX, NextEnvId;
    ServingIsMid(s, c, k);
    ExoforkFresh(s, c, true);
    TailComesBack(s, Exofork(s, c, true), c, k);
  }

  lemma ServingIsMid(s: Sys, c: nat, k: nat)
    requires Serving(s, c, k)
    ensures Mid(s, c)
  {
  }

  /** sys_env_set_status on another environment. */
  lemma StatusSets(s: Sys, c: nat, k: nat, envid: int, st: Status, e: nat)
    requires Serving(s, c, k) && Named(s, k, envid, true, e) && st in {Runnable, NotRunnable} && e != k
    ensures var r := Step(s, Kernel(c, Event.Status(envid, st)));
            ComesBack(s, r, c, k) && r.envs == s.envs[e := s.envs[e].(status := st)] && r.free == s.free
  {
    hide Inv, EnvRun, Tail, EnvId2Env, TakesOver;
    NamedExactly(s, c, envid, true);
    TailComesBack(s, SetStatus(s, e, st), c, k);
  }

  /** And on the caller: it gives way. */
  lemma StatusOfSelf(s: Sys, c: nat, k: nat, envid: int, st: Status)
    requires Serving(s, c, k) && Named(s, k, envid, true, k) && st in {Runnable, NotRunnable}
    ensures var r := Step(s, Kernel(c, Event.Status(envid, st)));
            && GivesWay(s.envs[k := s.envs[k].(status := st)], Some(k), true, r, c)
            && r.free == s.free && OtherCpus(s, r, c)
  {
    hide Inv, EnvRun, Tail, EnvId2Env, TakesOver, GivesWay, Named;
    NamedExactly(s, c, envid, true);
    TailGivesWay(s, SetStatus(s, k, st), c, k);
  }

  /** sys_ipc_try_send to an environment that waits: it has the message, and
      can run; the sender goes on. */
  lemma SendDelivers(s: Sys, c: nat, k: nat, envid: int, value: nat, page: PagePart, e: nat)
    requires Serving(s, c, k) && Named(s, k, envid, false, e) && s.envs[e].recving && page != PageError
    ensures
      var r := Step(s, Kernel(c, Send(envid, value, page)));
      var msg := Msg(s.envs[k].id, value, if page.PageSent? then page.perm else 0);
      && ComesBack(s, r, c, k) && r.free == s.free && e != k
      && r.envs == s.envs[e := Env(s.envs[e].id, s.envs[e].parent, Runnable, false, msg)]
  {
    hide Inv, EnvRun, Tail, EnvId2Env, TakesOver;
    NamedExactly(s, c, envid, false);
    ServingSlot(s, c, k);
    TailComesBack(s, IpcSend(s, c, e, value, page), c, k);
  }

  /** sys_ipc_recv: the caller sleeps, and waits for a message. */
  lemma RecvSleeps(s: Sys, c: nat, k: nat)
    requires Serving(s, c, k)
    ensures var r := Step(s, Kernel(c, Recv(true)));
            && GivesWay(s.envs[k := s.envs[k].(status := NotRunnable, recving := true)], Some(k), true, r, c)
            && r.free == s.free && OtherCpus(s, r, c)
  {
    hide Inv, EnvRun, Tail, TakesOver, GivesWay;
    TailGivesWay(s, s.(envs := s.envs[k := s.envs[k].(status := NotRunnable, recving := true)]), c, k);
  }

  // ------------------------------------------------------------------
  // Destroying
  // ------------------------------------------------------------------

  /** The event destroys environment e: the call names it, or it is the caller
      and has trapped without a handler. */
  ghost predicate Kills(s: Sys, k: nat, ev: Event, e: nat) {
    || (ev.Destroy? && Named(s, k, ev.envid, true, e))
    || ((ev == Crash || ev == PageFault(false)) && e == k && k < |s.envs|)
  }

  /** The environments once e is off its slot. */
  function Without(s: Sys, e: nat): seq<Env>
    requires e < |s.envs|
  {
    s.envs[e := s.envs[e].(status := Free)]
  }

  lemma KillDispatches(s: Sys, c: nat, k: nat, ev: Event, e: nat)
    requires Serving(s, c, k) && Kills(s, k, ev, e)
    ensures e < NENV && Dispatch(s, c, ev) == EnvDestroy(s, c, e)
  {
    hide Inv, EnvDestroy, EnvId2Env;
    if ev.Destroy? {
      NamedExactly(s, c, ev.envid, true);
    }
  }

  /** An environment that runs on another CPU is left to it to reap; any other
      is off its slot at once, and one that destroys itself gives way to the
      first runnable slot. */
  lemma KillFrees(s: Sys, c: nat, k: nat, ev: Event, e: nat)
    requires Serving(s, c, k) && Kills(s, k, ev, e)
    ensures
      var r := Step(s, Kernel(c, ev));
      if e != k && s.envs[e].status == Running then
        ComesBack(s, r, c, k) && r.free == s.free && r.envs == s.envs[e := s.envs[e].(status := Dying)]
      else if e != k then ComesBack(s, r, c, k) && r.free == [e] + s.free && r.envs == Without(s, e)
      else GivesWay(Without(s, k), None, true, r, c) && r.free == [k] + s.free && OtherCpus(s, r, c)
  {
    hide Inv, Tail, Dispatch, SchedYield, GivesWay, Kills;
    KillDispatches(s, c, k, ev, e);
    ServingSlot(s, c, k);
    if e == k {
      YieldGivesWay(SetCur(EnvFree(s, k), c, None), c);
    } else {
      TailComesBack(s, EnvDestroy(s, c, e).s, c, k);
    }
  }

  /** Nobody is given e for this id, whoever asks. */
  ghost predicate Refused(r: Sys, id: int)
    requires Sized(r)
  {
    forall d: nat, checkperm: bool | d < |r.cpus| && r.cpus[d].cur.Some? :: EnvId2Env(r, d, id, checkperm) == None
  }

  lemma FreeIsRefused(r: Sys, id: int, e: nat)
    requires Sized(r) && e < NENV && r.envs[e].status == Free && EnvX(id) == e && id != 0
    ensures Refused(r, id)
  {
  }

  /** Nothing but statuses changed, e's apart. */
  ghost predicate OthersStay(s: Sys, r: Sys) {
    |r.envs| == |s.envs| && forall i: nat | i < |s.envs| :: r.envs[i].(status := Free) == s.envs[i].(status := Free)
  }

  /** Giving way leaves statuses other than running and runnable, and
      everything else. */
  lemma WayLeaves(envs: seq<Env>, cur: Option<nat>, locked: bool, r: Sys, c: nat, e: nat)
    requires GivesWay(envs, cur, locked, r, c) && e < |envs|
    ensures r.envs[e].(status := Free) == envs[e].(status := Free)
    ensures envs[e].status !in {Runnable, Running} ==>
              r.envs[e] == envs[e] && (r.cpus[c].cur == Some(e) ==> cur == Some(e))
  {
    hide Nearest, NoneRunnable, NoneAlive;
    if !NoneRunnable(envs) {
      var n: nat :| Nearest(envs, cur, n) && Resumes(r, c, n) && TakesOver(envs, cur, n, r.envs);
      assert envs[n].status == Runnable by { NearestRuns(envs, cur, n); }
    }
  }

  lemma NearestRuns(envs: seq<Env>, cur: Option<nat>, n: nat)
    requires Nearest(envs, cur, n)
    ensures n < |envs| && envs[n].status == Runnable
  {
  }

  /** What is destroyed is gone: its slot is free and first in line to be used
      again, no CPU that had it through this call keeps it, and its id means
      nothing any more. Nobody else loses anything but the CPU. */
  lemma KilledIsGone(s: Sys, c: nat, k: nat, ev: Event, e: nat)
    requires Serving(s, c, k) && Kills(s, k, ev, e) && !(e != k && s.envs[e].status == Running)
    ensures
      var r := Step(s, Kernel(c, ev));
      && r.envs[e].status == Free && r.free == [e] + s.free && r.cpus[c].cur != Some(e)
      && Refused(r, s.envs[e].id) && OthersStay(s, r)
  {
    hide Inv, Step, GivesWay, Kills, EnvX, LockOk, SeatsOk, FreeOk, EnvsOk, CpuOk, Refused;
    KillFrees(s, c, k, ev, e);
    KilledSlot(s, c, k, ev, e);
    var r := Step(s, Kernel(c, ev));
    if e == k {
      forall i: nat | i < NENV
        ensures r.envs[i].(status := Free) == s.envs[i].(status := Free)
      {
        WayLeaves(Without(s, k), None, true, r, c, i);
      }
      WayLeaves(Without(s, k), None, true, r, c, k);
    }
    FreeIsRefused(r, s.envs[e].id, e);
  }

  lemma KilledSlot(s: Sys, c: nat, k: nat, ev: Event, e: nat)
    requires Serving(s, c, k) && Kills(s, k, ev, e)
    ensures e < NENV && EnvX(s.envs[e].id) == e && s.envs[e].id != 0
  {
    hide EnvX;
    assert s.envs[e].status != Free;
    SlotInId(s, e);
    assert EnvOk(s.envs[e], e);
  }

  // ------------------------------------------------------------------
  // Reaping, and CPUs that were halted
  // ------------------------------------------------------------------

  /** A CPU that traps with an environment another CPU has destroyed frees it
      and gives way, whatever the trap was. */
  lemma ReapFrees(s: Sys, c: nat, k: nat, ev: Event)
    requires Inv(s) && c < |s.cpus| && s.cpus[c] == Cpu(Some(k), Holding(true)) && s.envs[k].status == Dying
    ensures
      var r := Step(s, Kernel(c, ev));
      && GivesWay(Without(s, k), None, true, r, c) && r.free == [k] + s.free && OtherCpus(s, r, c)
      && r.envs[k].status == Free && Refused(r, s.envs[k].id)
  {
    hide SchedYield, GivesWay, EnvX, LockOk, SeatsOk, FreeOk, EnvsOk, CpuOk, Refused;
    HolderLocks(s, c);
    YieldGivesWay(SetCur(EnvFree(s, k), c, None), c);
    var r := Step(s, Kernel(c, ev));
    WayLeaves(Without(s, k), None, true, r, c, k);
    SlotInId(s, k);
    IdNonZero(s, k);
    FreeIsRefused(r, s.envs[k].id, k);
  }

  lemma HolderLocks(s: Sys, c: nat)
    requires Inv(s) && c < |s.cpus| && s.cpus[c].mode.Holding?
    ensures s.locked
  {
    assert Owner(s, c);
  }

  lemma IdNonZero(s: Sys, e: nat)
    requires Inv(s) && e < NENV && s.envs[e].status != Free
    ensures s.envs[e].id != 0
  {
    assert EnvOk(s.envs[e], e);
  }

  /** A CPU that was halted looks for work from slot 0 on. */
  lemma HaltedLooks(s: Sys, c: nat, ev: Event)
    requires Inv(s) && c < |s.cpus| && s.cpus[c].mode == Holding(false)
    ensures var r := Step(s, Kernel(c, ev));
            GivesWay(s.envs, None, true, r, c) && r.free == s.free && OtherCpus(s, r, c)
  {
    hide SchedYield, GivesWay, LockOk, SeatsOk, FreeOk, EnvsOk;
    HolderLocks(s, c);
    assert CpuOk(s, c);
    YieldGivesWay(s, c);
  }

  /** A dying environment, current on CPU d. */
  predicate DyingOn(s: Sys, d: nat, e: nat) {
    d < |s.cpus| && s.cpus[d].cur == Some(e) && s.cpus[d].mode != Monitor && e < |s.envs| && s.envs[e].status == Dying
  }

  lemma YieldLeavesDying(s: Sys, c: nat, e: nat)
    requires Sized(s) && c < |s.cpus| && e < NENV && s.envs[e].status == Dying
    ensures SchedYield(s, c).envs[e].status == Dying
  {
  }

  lemma DispatchLeavesDying(s: Sys, c: nat, ev: Event, e: nat)
    requires Mid(s, c) && s.cpus[c].cur.Some? && s.envs[s.cpus[c].cur.value].status == Running && Legal(s, c, ev)
    requires e < NENV && s.envs[e].status == Dying
    ensures Dispatch(s, c, ev).s.envs[e].status == Dying
  {
    hide SchedYield, LockOk, SeatsOk, CpuOk;
    var cur := s.cpus[c].cur.value;
    assert EnvOk(s.envs[e], e);
    match ev
    case Timer => YieldLeavesDying(s, c, e);
    case Yield => YieldLeavesDying(s, c, e);
    case PageFault(_) => YieldLeavesDying(SetCur(EnvFree(s, cur), c, None), c, e);
    case Crash => YieldLeavesDying(SetCur(EnvFree(s, cur), c, None), c, e);
    case Destroy(envid) =>
      if EnvId2Env(s, c, envid, true) == Some(cur) {
        YieldLeavesDying(SetCur(EnvFree(s, cur), c, None), c, e);
      }
    case Fork(_) =>
      if s.free != [] {
        assert s.free[0] in s.free;
      }
    case _ =>
  }

  lemma StepLeavesDying(s: Sys, a: Action, d: nat, e: nat)
    requires Inv(s) && Enabled(s, a) && LegalAction(s, a) && DyingOn(s, d, e) && !(a.Kernel? && a.c == d)
    ensures DyingOn(Step(s, a), d, e)
  {
    hide LockOk, FreeOk, EnvsOk, SchedYield, Dispatch, Legal;
    if a.c != d {
      StepLeavesOtherCpus(s, a, d);
      var c := a.c;
      assert CpuOk(s, c);
      if a.Kernel? && s.cpus[c].mode.user {
        var cur := s.cpus[c].cur.value;
        assert cur != e by { assert Seat(s, d, e) && !Seat(s, c, e); }
        if s.envs[cur].status == Dying {
          YieldLeavesDying(SetCur(EnvFree(s, cur), c, None), c, e);
        } else {
          DispatchLeavesDying(s, c, a.ev, e);
          YieldLeavesDying(Dispatch(s, c, a.ev).s, c, e);
        }
      } else if a.Kernel? {
        YieldLeavesDying(s, c, e);
      }
    }
  }

  /** Destroyed from another CPU, an environment stays dying, on its CPU,
      until that CPU is in the kernel next; then it is gone. */
  lemma {:induction false} DyingIsReaped(s: Sys, run: seq<Action>, d: nat, e: nat)
    requires Inv(s) && DyingOn(s, d, e) && LegalRun(s, run) && run != []
    requires forall j | 0 <= j < |run| :: (run[j].Kernel? && run[j].c == d) <==> j == |run| - 1
    ensures var r := After(s, run);
            r.envs[e].status == Free && r.free != [] && r.free[0] == e && Refused(r, s.envs[e].id)
    decreases |run|
  {
    hide LockOk, SeatsOk, FreeOk, EnvsOk, Step, LegalAction, Refused;
    var a := run[0];
    if |run| == 1 {
      assert CpuOk(s, d);
      ReapFrees(s, d, e, a.ev);
      AfterOne(s, run);
    } else {
      var s1 := Step(s, a);
      StepSafe(s, a);
      StepLeavesDying(s, a, d, e);
      StepId(s, a, e);
      forall j | 0 <= j < |run[1..]|
        ensures (run[1..][j].Kernel? && run[1..][j].c == d) <==> j == |run[1..]| - 1
      {
        assert run[1..][j] == run[j + 1];
      }
      DyingIsReaped(s1, run[1..], d, e);
    }
  }

  lemma AfterOne(s: Sys, run: seq<Action>)
    requires Sized(s) && LegalRun(s, run) && |run| == 1
    ensures After(s, run) == Step(s, run[0])
  {
    assert run[1..] == [];
  }
}
