/** What sys_env_set_status can do to a blocked receiver (kern/syscall.c): the
  flag it forgets to clear lets a later send make a running environment
  runnable, and then two CPUs run it.
 */
module WokenReceiver {
  import opened EnvIds
  import opened Smp
  import opened SmpSafety

  /** The actions can be performed one after the other and lead from s to r. */
  ghost predicate Performs(s: Sys, run: seq<Action>, r: Sys)
    requires Sized(s)
    decreases |run|
  {
    if run == [] then r == s else Enabled(s, run[0]) && Performs(Step(s, run[0]), run[1..], r)
  }

  lemma {:induction false} PerformsThen(s: Sys, a: seq<Action>, m: Sys, b: seq<Action>, r: Sys)
    requires Sized(s) && Sized(m) && Performs(s, a, m) && Performs(m, b, r)
    ensures Performs(s, a + b, r)
    decreases |a|
  {
    hide Step, Enabled;
    if a == [] {
      assert a + b == b;
    } else {
      assert (a + b)[0] == a[0] && (a + b)[1..] == a[1..] + b;
      PerformsThen(Step(s, a[0]), a[1..], m, b, r);
    }
  }

  /** Two CPUs, the other one on environment 2; only environments 0 to 2 can
      run, and 1 is a child of 0. */
  ghost predicate Stage(s: Sys, first: Status, recving: bool, second: Status) {
    && Sized(s) && |s.cpus| == 2
    && s.envs[0].status == Running && s.envs[1].status == first && s.envs[1].recving == recving
    && s.envs[2].status == second && s.envs[1].parent == s.envs[0].id
    && (forall e | 0 <= e < 3 :: EnvX(s.envs[e].id) == e && s.envs[e].id != 0)
    && (forall e | 3 <= e < NENV :: s.envs[e].status != Runnable)
  }

  /** From user mode into the kernel, with the lock free. */
  function Enter(s: Sys, c: nat): Sys
    requires c < |s.cpus|
  {
    s.(cpus := s.cpus[c := s.cpus[c].(mode := Holding(true))], locked := true)
  }

  lemma Enters(s: Sys, c: nat)
    requires Sized(s) && c < |s.cpus| && s.cpus[c].mode == User && !s.locked
    ensures Performs(s, [Trap(c), Xchg(c)], Enter(s, c))
  {
    var s1 := Step(s, Trap(c));
    var s2 := Step(s1, Xchg(c));
    assert s2.cpus == Enter(s, c).cpus;
    assert [Trap(c), Xchg(c)][1..] == [Xchg(c)] && [Xchg(c)][1..] == [];
    assert Performs(s2, [], s2);
    assert Performs(s1, [Xchg(c)], s2);
  }

  /** One trip of CPU c through the kernel. */
  lemma Trip(s: Sys, c: nat, ev: Event)
    requires Sized(s) && c < |s.cpus| && s.cpus[c].mode == User && s.cpus[c].cur.Some? && !s.locked
    ensures Performs(s, [Trap(c), Xchg(c), Kernel(c, ev)], Body(Enter(s, c), c, ev))
  {
    hide Body;
    var m := Enter(s, c);
    Enters(s, c);
    assert [Kernel(c, ev)][1..] == [];
    assert Performs(Step(m, Kernel(c, ev)), [], Body(m, c, ev));
    assert Performs(m, [Kernel(c, ev)], Body(m, c, ev));
    PerformsThen(s, [Trap(c), Xchg(c)], m, [Kernel(c, ev)], Body(m, c, ev));
    assert [Trap(c), Xchg(c)] + [Kernel(c, ev)] == [Trap(c), Xchg(c), Kernel(c, ev)];
  }

  /** CPU 0 makes the blocked receiver runnable; the flag stays. */
  lemma Wakes(s: Sys)
    requires Stage(s, NotRunnable, true, Running) && s.cpus[0] == Cpu(Some(0), Holding(true))
    ensures var r := Body(s, 0, Event.Status(s.envs[1].id, Runnable));
            Stage(r, Runnable, true, Running) && r.cpus == [Cpu(Some(0), User), s.cpus[1]] && !r.locked
            && r.envs[1].id == s.envs[1].id
  {
  }

  /** CPU 1 yields from environment 2 and takes environment 1. */
  lemma Takes(s: Sys)
    requires Stage(s, Runnable, true, Running) && s.cpus[1] == Cpu(Some(2), Holding(true))
    ensures var r := Body(s, 1, Yield);
            Stage(r, Running, true, Runnable) && r.cpus == [s.cpus[0], Cpu(Some(1), User)] && !r.locked
            && r.envs[1].id == s.envs[1].id
  {
    assert Pick(s, 1) == Some(1);
  }

  /** CPU 0 sends to it, finds the flag, and makes it runnable again. */
  lemma Sends(s: Sys, value: nat)
    requires Stage(s, Running, true, Runnable) && s.cpus[0] == Cpu(Some(0), Holding(true))
    ensures var r := Body(s, 0, Send(s.envs[1].id, value, NoPage));
            Stage(r, Runnable, false, Runnable) && r.cpus == [Cpu(Some(0), User), s.cpus[1]] && !r.locked
            && r.envs[1].id == s.envs[1].id
  {
  }

  /** CPU 0 yields and takes it too. */
  lemma TakesToo(s: Sys)
    requires Stage(s, Runnable, false, Runnable) && s.cpus[0] == Cpu(Some(0), Holding(true))
    ensures var r := Body(s, 0, Yield);
            |r.envs| == NENV && r.envs[1].status == Running && r.cpus == [Cpu(Some(1), User), s.cpus[1]] && !r.locked
  {
    assert Pick(s, 0) == Some(1);
  }

  /** CPU 0 is in the kernel for environment 0, CPU 1 runs environment 2, and
      environment 1, a child of 0, is blocked in receive. */
  ghost predicate Blocked(s: Sys) {
    Stage(s, NotRunnable, true, Running) && s.cpus == [Cpu(Some(0), Holding(true)), Cpu(Some(2), User)] && s.locked
  }

  function TheRun(child: int, value: nat): seq<Action> {
    [Kernel(0, Event.Status(child, Runnable))]
    + [Trap(1), Xchg(1), Kernel(1, Yield)]
    + [Trap(0), Xchg(0), Kernel(0, Send(child, value, NoPage))]
    + [Trap(0), Xchg(0), Kernel(0, Yield)]
  }

  /** From a state that keeps the invariant, the parent makes the blocked
      child runnable, another CPU takes it, the parent sends to it and yields:
      both CPUs are then in user mode in the same environment. Only the first
      of these actions is one the safety theorem does not allow. */
  lemma RunsTwice(s: Sys, value: nat) returns (r: Sys)
    requires Inv(s) && Blocked(s)
    ensures Performs(s, TheRun(s.envs[1].id, value), r)
    ensures !r.locked && r.cpus == [Cpu(Some(1), User), Cpu(Some(1), User)] && |r.envs| == NENV
            && r.envs[1].status == Running
    ensures !LegalAction(s, Kernel(0, Event.Status(s.envs[1].id, Runnable)))
  {
    hide Body, Stage, Inv;
    StageSized(s);
    var id := s.envs[1].id;
    NotAllowed(s);
    Wakes(s);
    var s1 := Body(s, 0, Event.Status(id, Runnable));
    assert Performs(s1, [], s1);
    assert [Kernel(0, Event.Status(id, Runnable))][1..] == [];
    assert Performs(s, [Kernel(0, Event.Status(id, Runnable))], s1);
    StillStage(s1, 1, Runnable, true, Running);
    Trip(s1, 1, Yield);
    Takes(Enter(s1, 1));
    var s2 := Body(Enter(s1, 1), 1, Yield);
    StillStage(s2, 0, Running, true, Runnable);
    Trip(s2, 0, Send(id, value, NoPage));
    Sends(Enter(s2, 0), value);
    var s3 := Body(Enter(s2, 0), 0, Send(id, value, NoPage));
    StillStage(s3, 0, Runnable, false, Runnable);
    Trip(s3, 0, Yield);
    TakesToo(Enter(s3, 0));
    r := Body(Enter(s3, 0), 0, Yield);
    FourParts(s, [Kernel(0, Event.Status(id, Runnable))], s1, [Trap(1), Xchg(1), Kernel(1, Yield)], s2,
              [Trap(0), Xchg(0), Kernel(0, Send(id, value, NoPage))], s3, [Trap(0), Xchg(0), Kernel(0, Yield)], r);
  }

  lemma FourParts(s: Sys, a: seq<Action>, s1: Sys, b: seq<Action>, s2: Sys, c: seq<Action>, s3: Sys, d: seq<Action>,
      r: Sys)
    requires Sized(s) && Sized(s1) && Sized(s2) && Sized(s3)
    requires Performs(s, a, s1) && Performs(s1, b, s2) && Performs(s2, c, s3) && Performs(s3, d, r)
    ensures Performs(s, a + b + c + d, r)
  {
    hide Performs;
    PerformsThen(s, a, s1, b, s2);
    PerformsThen(s, a + b, s2, c, s3);
    PerformsThen(s, a + b + c, s3, d, r);
  }

  lemma StillStage(s: Sys, c: nat, first: Status, recving: bool, second: Status)
    requires Stage(s, first, recving, second) && c < 2
    ensures Sized(s) && |s.cpus| == 2 && Stage(Enter(s, c), first, recving, second)
  {
  }

  lemma StageSized(s: Sys)
    requires Blocked(s)
    ensures Sized(s)
  {
  }

  lemma NotAllowed(s: Sys)
    requires Inv(s) && Blocked(s)
    ensures !LegalAction(s, Kernel(0, Event.Status(s.envs[1].id, Runnable)))
  {
    hide Inv;
    assert EnvId2Env(s, 0, s.envs[1].id, true) == Some(1);
    assert !StatusAllowed(s, 0, 1, Runnable);
  }

  // ------------------------------------------------------------------
  // There is such a state
  // ------------------------------------------------------------------

  /** Environment e, with the id boot would give it. */
  function FirstEnv(e: nat): Env
    requires e < NENV
  {
    var none := Msg(0, 0, 0);
    if e == 1 then Env(NextEnvId(0, 1), NextEnvId(0, 0), NotRunnable, true, none)
    else if e < 3 then Env(NextEnvId(0, e), 0, Running, false, none)
    else Env(0, 0, Free, false, none)
  }

  function FirstSys(): Sys {
    Sys(seq(NENV, e requires 0 <= e < NENV => FirstEnv(e)), seq(NENV - 3, k requires 0 <= k => k + 3),
        [Cpu(Some(0), Holding(true)), Cpu(Some(2), User)], true)
  }

  lemma FirstEnvOk(e: nat)
    requires e < NENV
    ensures EnvOk(FirstEnv(e), e)
    ensures e < 3 ==> EnvX(FirstEnv(e).id) == e && FirstEnv(e).id != 0
  {
    assert EnvIdAfter(0, e) == 0;
    assert EnvIdAfter(1, e) == NextEnvId(0, e);
    EnvIdCarriesSlot(1, e);
  }

  lemma FirstFree()
    ensures Sized(FirstSys()) && FreeOk(FirstSys())
  {
    hide NextEnvId;
    var s := FirstSys();
    forall e: nat | e < NENV
      ensures e in s.free <==> s.envs[e].status == Free
    {
      if e >= 3 {
        assert s.free[e - 3] == e;
      }
    }
  }

  lemma FirstSeats()
    ensures Sized(FirstSys()) && LockOk(FirstSys()) && SeatsOk(FirstSys())
    ensures CpuOk(FirstSys(), 0) && CpuOk(FirstSys(), 1)
  {
    hide NextEnvId;
    var s := FirstSys();
    assert Owner(s, 0);
    assert Seat(s, 0, 0) && Seat(s, 1, 2);
  }

  lemma BlockedExists()
    ensures Inv(FirstSys()) && Blocked(FirstSys())
  {
    hide NextEnvId, EnvX, FreeOk, LockOk, SeatsOk, CpuOk, EnvOk;
    FirstFree();
    FirstSeats();
    forall e: nat | e < NENV {
      FirstEnvOk(e);
    }
    FirstEnvOk(0);
    FirstEnvOk(1);
    FirstEnvOk(2);
  }
}
