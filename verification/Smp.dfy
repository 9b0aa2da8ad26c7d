/** Scheduling, the big kernel lock and IPC as a multi-CPU step system
  (kern/sched.c, kern/env.c, kern/trap.c, kern/spinlock.c, kern/syscall.c).

  A CPU runs an environment, is halted, spins on the kernel lock, holds it,
  or sits in the monitor for ever with the lock held. Spinning is one atomic
  exchange per step; what a CPU does between taking the lock and releasing it
  is one step, since every other CPU can only spin or run user code.
 */
module Smp {
  import opened EnvIds

  datatype Status = Free | Dying | Runnable | Running | NotRunnable

  datatype Msg = Msg(from: int, value: nat, perm: nat)

  /** struct Env without its registers and address space. */
  datatype Env = Env(id: int, parent: int, status: Status, recving: bool, msg: Msg)

  /** `user` remembers whether the trap came from user mode. */
  datatype Mode = User | Halted | Spinning(user: bool) | Holding(user: bool) | Monitor

  datatype Option<T> = None | Some(value: T)

  datatype Cpu = Cpu(cur: Option<nat>, mode: Mode)

  datatype Sys = Sys(envs: seq<Env>, free: seq<nat>, cpus: seq<Cpu>, locked: bool)

  ghost predicate Sized(s: Sys) {
    |s.envs| == NENV && (forall c | 0 <= c < |s.cpus| :: s.cpus[c].cur.Some? ==> s.cpus[c].cur.value < NENV)
    && (forall k | 0 <= k < |s.free| :: s.free[k] < NENV)
  }

  ghost predicate SameShape(s: Sys, r: Sys) {
    Sized(r) && |r.cpus| == |s.cpus|
  }

  // ------------------------------------------------------------------
  // env_run, sched_yield, sched_halt
  // ------------------------------------------------------------------

  function SetStatus(s: Sys, e: nat, st: Status): (r: Sys)
    requires e < |s.envs|
    ensures Sized(s) ==> SameShape(s, r)
  {
    s.(envs := s.envs[e := s.envs[e].(status := st)])
  }

  function SetCur(s: Sys, c: nat, cur: Option<nat>): (r: Sys)
    requires c < |s.cpus|
    ensures Sized(s) && (cur.Some? ==> cur.value < NENV) ==> SameShape(s, r)
  {
    s.(cpus := s.cpus[c := s.cpus[c].(cur := cur)])
  }

  /** Leaving the kernel: the lock is released with a plain exchange. */
  function Leave(s: Sys, c: nat, m: Mode): (r: Sys)
    requires c < |s.cpus|
    ensures Sized(s) ==> SameShape(s, r)
  {
    s.(cpus := s.cpus[c := s.cpus[c].(mode := m)], locked := false)
  }

  function EnvRun(s: Sys, c: nat, e: nat): (r: Sys)
    requires Sized(s) && c < |s.cpus| && e < NENV
    ensures SameShape(s, r)
  {
    var cur := s.cpus[c].cur;
    var s1 := if cur.Some? && s.envs[cur.value].status == Running then SetStatus(s, cur.value, Runnable) else s;
    Leave(SetStatus(SetCur(s1, c, Some(e)), e, Running), c, User)
  }

  /** The first runnable environment in [lo, hi). */
  function FirstRunnable(envs: seq<Env>, lo: nat, hi: nat): (r: Option<nat>)
    requires hi <= |envs|
    ensures r.Some? ==> lo <= r.value < hi && envs[r.value].status == Runnable
    ensures r.Some? ==> forall i | lo <= i < r.value :: envs[i].status != Runnable
    ensures r.None? ==> forall i | lo <= i < hi :: envs[i].status != Runnable
    decreases hi - lo
  {
    if lo >= hi then None
    else if envs[lo].status == Runnable then Some(lo)
    else FirstRunnable(envs, lo + 1, hi)
  }

  /** Where CPU c starts looking: after the slot in its current id. */
  function ScanStart(s: Sys, c: nat): nat
    requires Sized(s) && c < |s.cpus|
  {
    if s.cpus[c].cur.Some? then EnvX(s.envs[s.cpus[c].cur.value].id) + 1 else 0
  }

  function Pick(s: Sys, c: nat): (r: Option<nat>)
    requires Sized(s) && c < |s.cpus|
    ensures r.Some? ==> r.value < NENV && s.envs[r.value].status == Runnable
    ensures r.None? ==> forall i | 0 <= i < NENV :: s.envs[i].status != Runnable
  {
    var start := ScanStart(s, c);
    var r := FirstRunnable(s.envs, start, NENV);
    if r.Some? then r else FirstRunnable(s.envs, 0, start)
  }

  predicate Alive(st: Status) {
    st == Runnable || st == Running || st == Dying
  }

  /** sched_halt: the monitor never returns and never releases the lock. */
  function SchedHalt(s: Sys, c: nat): (r: Sys)
    requires Sized(s) && c < |s.cpus|
    ensures SameShape(s, r)
  {
    if forall i | 0 <= i < NENV :: !Alive(s.envs[i].status) then s.(cpus := s.cpus[c := s.cpus[c].(mode := Monitor)])
    else Leave(SetCur(s, c, None), c, Halted)
  }

  function SchedYield(s: Sys, c: nat): (r: Sys)
    requires Sized(s) && c < |s.cpus|
    ensures SameShape(s, r)
  {
    match Pick(s, c)
    case Some(e) => EnvRun(s, c, e)
    case None =>
      var cur := s.cpus[c].cur;
      if cur.Some? && s.envs[cur.value].status == Running then EnvRun(s, c, cur.value) else SchedHalt(s, c)
  }

  // ------------------------------------------------------------------
  // System calls
  // ------------------------------------------------------------------

  /** A call either comes back to trap() or has already left the kernel. */
  datatype Outcome = Back(s: Sys) | Left(s: Sys)

  /** envid2env; None is -E_BAD_ENV. */
  function EnvId2Env(s: Sys, c: nat, envid: int, checkperm: bool): (r: Option<nat>)
    requires Sized(s) && c < |s.cpus| && s.cpus[c].cur.Some?
    ensures r.Some? ==> r.value < NENV
  {
    var cur := s.cpus[c].cur.value;
    if envid == 0 then Some(cur)
    else
      var e := EnvX(envid);
      if s.envs[e].status == Free || s.envs[e].id != envid then None
      else if checkperm && e != cur && s.envs[e].parent != s.envs[cur].id then None
      else Some(e)
  }

  function EnvFree(s: Sys, e: nat): (r: Sys)
    requires e < |s.envs|
    ensures Sized(s) && e < NENV ==> SameShape(s, r)
  {
    SetStatus(s, e, Free).(free := [e] + s.free)
  }

  function EnvDestroy(s: Sys, c: nat, e: nat): (r: Outcome)
    requires Sized(s) && c < |s.cpus| && e < NENV
    ensures SameShape(s, r.s)
  {
    if s.envs[e].status == Running && s.cpus[c].cur != Some(e) then Back(SetStatus(s, e, Dying))
    else
      var s1 := EnvFree(s, e);
      if s.cpus[c].cur == Some(e) then Left(SchedYield(SetCur(s1, c, None), c)) else Back(s1)
  }

  /** env_alloc then sys_exofork; without a free slot or without memory for
      the directory nothing changes. */
  function Exofork(s: Sys, c: nat, memory: bool): (r: Sys)
    requires Sized(s) && c < |s.cpus| && s.cpus[c].cur.Some?
    ensures SameShape(s, r)
  {
    if s.free == [] || !memory then s
    else
      var e := s.free[0];
      var env := Env(NextEnvId(s.envs[e].id, e), s.envs[s.cpus[c].cur.value].id, NotRunnable, false, s.envs[e].msg);
      s.(envs := s.envs[e := env], free := s.free[1..])
  }

  /** What the page part of sys_ipc_try_send comes to: no page asked for, an
      error return, or a page inserted with these permissions. */
  datatype PagePart = NoPage | PageError | PageSent(perm: nat)

  /** sys_ipc_try_send to environment e, once its id resolved. */
  function IpcSend(s: Sys, c: nat, e: nat, value: nat, page: PagePart): (r: Sys)
    requires Sized(s) && c < |s.cpus| && s.cpus[c].cur.Some? && e < NENV
    ensures SameShape(s, r)
  {
    if !s.envs[e].recving || page == PageError then s
    else
      var perm := if page.PageSent? then page.perm else 0;
      var msg := Msg(s.envs[s.cpus[c].cur.value].id, value, perm);
      s.(envs := s.envs[e := s.envs[e].(status := Runnable, recving := false, msg := msg)])
  }

  datatype Event =
    | Timer | Yield
    | Nothing                                 // breakpoint, spurious irq, any call that changes no status
    | PageFault(upcall: bool)
    | Crash                                   // unexpected trap from user mode
    | Destroy(envid: int)
    | Fork(memory: bool)
    | Status(envid: int, status: Status)      // sys_env_set_status
    | Send(envid: int, value: nat, page: PagePart)
    | Recv(valid: bool)                       // sys_ipc_recv; false is a misaligned dstva

  /** trap_dispatch for a trap from user mode; cur is set and not Dying. */
  function Dispatch(s: Sys, c: nat, ev: Event): (r: Outcome)
    requires Sized(s) && c < |s.cpus| && s.cpus[c].cur.Some?
    ensures SameShape(s, r.s)
  {
    var cur := s.cpus[c].cur.value;
    match ev
    case Timer => Left(SchedYield(s, c))
    case Yield => Left(SchedYield(s, c))
    case Nothing => Back(s)
    case PageFault(upcall) => if upcall then Left(EnvRun(s, c, cur)) else EnvDestroy(s, c, cur)
    case Crash => EnvDestroy(s, c, cur)
    case Destroy(envid) =>
      (match EnvId2Env(s, c, envid, true)
       case None => Back(s)
       case Some(e) => EnvDestroy(s, c, e))
    case Fork(memory) => Back(Exofork(s, c, memory))
    case Status(envid, st) =>
      if st != NotRunnable && st != Runnable then Back(s)
      else
        (match EnvId2Env(s, c, envid, true)
         case None => Back(s)
         case Some(e) => Back(SetStatus(s, e, st)))
    case Send(envid, value, page) =>
      (match EnvId2Env(s, c, envid, false)
       case None => Back(s)
       case Some(e) => Back(IpcSend(s, c, e, value, page)))
    case Recv(valid) =>
      if !valid then Back(s)
      else Back(s.(envs := s.envs[cur := s.envs[cur].(status := NotRunnable, recving := true)]))
  }

  /** The end of trap(): back to the current environment if it still runs. */
  function Tail(s: Sys, c: nat): (r: Sys)
    requires Sized(s) && c < |s.cpus|
    ensures SameShape(s, r)
  {
    var cur := s.cpus[c].cur;
    if cur.Some? && s.envs[cur.value].status == Running then EnvRun(s, c, cur.value) else SchedYield(s, c)
  }

  /** trap() from the moment it holds the lock. A kernel-mode trap, which
      only a halted CPU takes, is a timer tick or a spurious interrupt; both
      end in sched_yield. */
  function Body(s: Sys, c: nat, ev: Event): (r: Sys)
    requires Sized(s) && c < |s.cpus| && (s.cpus[c].mode == Holding(true) ==> s.cpus[c].cur.Some?)
    requires s.cpus[c].mode.Holding?
    ensures SameShape(s, r)
  {
    if !s.cpus[c].mode.user then SchedYield(s, c)
    else
      var cur := s.cpus[c].cur.value;
      if s.envs[cur].status == Dying then SchedYield(SetCur(EnvFree(s, cur), c, None), c)
      else
        match Dispatch(s, c, ev)
        case Left(s1) => s1
        case Back(s1) => Tail(s1, c)
  }

  /** The steps of the machine: CPU c traps, tries the lock once, or runs the
      kernel with the lock held. */
  datatype Action = Trap(c: nat) | Xchg(c: nat) | Kernel(c: nat, ev: Event)

  predicate Enabled(s: Sys, a: Action) {
    a.c < |s.cpus| &&
    match a
    case Trap(c) => s.cpus[c].mode.User? || s.cpus[c].mode.Halted?
    case Xchg(c) => s.cpus[c].mode.Spinning?
    case Kernel(c, ev) => s.cpus[c].mode.Holding? && (s.cpus[c].mode.user ==> s.cpus[c].cur.Some?)
  }

  /** One turn of the loop in spin_lock: xchg(&locked, 1). */
  function TryLock(s: Sys, c: nat): (r: Sys)
    requires c < |s.cpus| && s.cpus[c].mode.Spinning?
    ensures Sized(s) ==> SameShape(s, r)
  {
    var mode := if s.locked then s.cpus[c].mode else Holding(s.cpus[c].mode.user);
    s.(cpus := s.cpus[c := s.cpus[c].(mode := mode)], locked := true)
  }

  function Step(s: Sys, a: Action): (r: Sys)
    requires Sized(s) && Enabled(s, a)
    ensures SameShape(s, r)
  {
    match a
    case Trap(c) => s.(cpus := s.cpus[c := s.cpus[c].(mode := Spinning(s.cpus[c].mode.User?))])
    case Xchg(c) => TryLock(s, c)
    case Kernel(c, ev) => Body(s, c, ev)
  }
}
