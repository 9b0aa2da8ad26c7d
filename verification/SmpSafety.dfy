/** What every step of the multi-CPU machine keeps: one CPU in the kernel, and
  every running or dying environment current on exactly one CPU.
 */
module SmpSafety {
  import opened EnvIds
  import opened Smp

  predicate Owner(s: Sys, c: nat) {
    c < |s.cpus| && (s.cpus[c].mode.Holding? || s.cpus[c].mode.Monitor?)
  }

  /** The lock word says whether some CPU is in the kernel, and one at most is. */
  ghost predicate LockOk(s: Sys) {
    && (s.locked <==> exists c :: Owner(s, c))
    && (forall c, d | Owner(s, c) && Owner(s, d) :: c == d)
  }

  predicate Live(st: Status) {
    st == Running || st == Dying
  }

  /** The CPU runs e, or will find it current when it has the lock. */
  predicate Seat(s: Sys, c: nat, e: nat) {
    c < |s.cpus| && s.cpus[c].cur == Some(e) && s.cpus[c].mode != Monitor
  }

  predicate FromUser(m: Mode) {
    m == User || m == Spinning(true) || m == Holding(true)
  }

  predicate FromHalt(m: Mode) {
    m == Halted || m == Spinning(false) || m == Holding(false)
  }

  /** A CPU that came from user mode has a running or dying environment; one
      that was halted has none. */
  predicate CpuOk(s: Sys, c: nat)
    requires Sized(s) && c < |s.cpus|
  {
    var cpu := s.cpus[c];
    && (FromUser(cpu.mode) ==> cpu.cur.Some? && Live(s.envs[cpu.cur.value].status))
    && (FromHalt(cpu.mode) ==> cpu.cur.None?)
  }

  ghost predicate SeatsOk(s: Sys)
    requires Sized(s)
  {
    && (forall c, d, e | Seat(s, c, e) && Seat(s, d, e) :: c == d)
    && (forall e | 0 <= e < NENV && Live(s.envs[e].status) :: exists c :: Seat(s, c, e))
  }

  ghost predicate FreeOk(s: Sys)
    requires Sized(s)
  {
    && (forall i, j | 0 <= i < j < |s.free| :: s.free[i] != s.free[j])
    && (forall e: nat | e < NENV :: e in s.free <==> s.envs[e].status == Free)
  }

  /** A blocked receiver is asleep or gone. */
  predicate RecvOk(env: Env) {
    env.recving ==> env.status == NotRunnable || env.status == Free
  }

  ghost predicate EnvOk(env: Env, e: nat)
    requires e < NENV
  {
    RecvOk(env) && (exists k: nat :: env.id == EnvIdAfter(k, e)) && (env.status != Free ==> env.id != 0)
  }

  ghost predicate EnvsOk(s: Sys)
    requires Sized(s)
  {
    forall e: nat | e < NENV :: EnvOk(s.envs[e], e)
  }

  ghost predicate Inv(s: Sys) {
    && Sized(s) && LockOk(s) && SeatsOk(s) && FreeOk(s) && EnvsOk(s)
    && (forall c: nat | c < |s.cpus| :: CpuOk(s, c))
  }

  /** On CPU c inside the kernel everything but its own environment is as outside. */
  ghost predicate InKernel(s: Sys, c: nat) {
    && Sized(s) && LockOk(s) && SeatsOk(s) && FreeOk(s) && EnvsOk(s)
    && c < |s.cpus| && s.cpus[c].mode.Holding?
    && (forall d: nat | d < |s.cpus| && d != c :: CpuOk(s, d))
  }

  /** The current environment may have been put to sleep or preempted. */
  ghost predicate Mid(s: Sys, c: nat) {
    && InKernel(s, c)
    && (s.cpus[c].cur.Some? ==> s.envs[s.cpus[c].cur.value].status in {Running, Runnable, NotRunnable})
  }

  // ------------------------------------------------------------------
  // env_run, sched_yield, env_destroy
  // ------------------------------------------------------------------

  lemma LeaveLock(s: Sys, r: Sys, c: nat)
    requires LockOk(s) && c < |s.cpus| && s.cpus[c].mode.Holding?
    requires |r.cpus| == |s.cpus| && !r.locked && (r.cpus[c].mode.User? || r.cpus[c].mode.Halted?)
    requires forall d | 0 <= d < |s.cpus| && d != c :: r.cpus[d] == s.cpus[d]
    ensures LockOk(r)
  {
    assert Owner(s, c);
    forall d | Owner(r, d)
      ensures false
    {
      assert Owner(s, d);
    }
  }

  lemma EnvRunSafe(s: Sys, c: nat, e: nat)
    requires Mid(s, c) && e < NENV
    requires s.envs[e].status == Runnable || (s.cpus[c].cur == Some(e) && s.envs[e].status == Running)
    ensures Inv(EnvRun(s, c, e))
  {
    var r := EnvRun(s, c, e);
    LeaveLock(s, r, c);
    forall i: nat | i < NENV
      ensures r.envs[i] == if i == e then s.envs[e].(status := Running)
                           else if s.cpus[c].cur == Some(i) && s.envs[i].status == Running
                             then s.envs[i].(status := Runnable)
                           else s.envs[i]
    {
    }
    assert Seat(r, c, e);
    forall d: nat | d < |s.cpus| && d != c
      ensures CpuOk(r, d) && !Seat(s, d, e)
    {
      assert Owner(s, c) && !Owner(s, d);
      assert CpuOk(s, d);
      if Seat(s, d, e) {
        assert Seat(s, c, e);
      }
      if s.cpus[d].cur.Some? && s.cpus[d].cur == s.cpus[c].cur {
        assert Seat(s, d, s.cpus[c].cur.value) && Seat(s, c, s.cpus[c].cur.value);
      }
    }
    EnvRunSeats(s, c, e);
    forall i: nat | i < NENV
      ensures EnvOk(r.envs[i], i)
    {
      assert EnvOk(s.envs[i], i);
    }
  }

  lemma EnvRunSeats(s: Sys, c: nat, e: nat)
    requires Mid(s, c) && e < NENV
    requires forall d | Seat(s, d, e) :: d == c
    ensures SeatsOk(EnvRun(s, c, e))
  {
    var r := EnvRun(s, c, e);
    assert Seat(r, c, e);
    forall d, i | Seat(r, d, i)
      ensures if d == c then i == e else Seat(s, d, i) && i != e
    {
      if d != c {
        assert Seat(s, d, i);
      }
    }
    forall i | 0 <= i < NENV && Live(r.envs[i].status)
      ensures exists d :: Seat(r, d, i)
    {
      if i != e {
        assert Live(s.envs[i].status);
        var d :| Seat(s, d, i);
        assert Seat(r, d, i);
      }
    }
  }

  lemma SchedHaltSafe(s: Sys, c: nat)
    requires Mid(s, c)
    requires s.cpus[c].cur.Some? ==> s.envs[s.cpus[c].cur.value].status != Running
    ensures Inv(SchedHalt(s, c))
  {
    var r := SchedHalt(s, c);
    if forall i | 0 <= i < NENV :: !Alive(s.envs[i].status) {
      forall d | 0 <= d < |s.cpus|
        ensures Owner(r, d) <==> Owner(s, d)
        ensures CpuOk(r, d)
      {
        assert d != c ==> CpuOk(s, d);
      }
      forall d, e | Seat(r, d, e)
        ensures Seat(s, d, e)
      {
      }
    } else {
      LeaveLock(s, r, c);
      forall d: nat | d < |s.cpus| && d != c
        ensures CpuOk(r, d)
      {
        assert CpuOk(s, d);
      }
      forall d, e | Seat(r, d, e)
        ensures Seat(s, d, e)
      {
      }
      forall e | 0 <= e < NENV && Live(r.envs[e].status)
        ensures exists d :: Seat(r, d, e)
      {
        var d :| Seat(s, d, e);
        assert Seat(r, d, e);
      }
    }
  }

  lemma SchedYieldSafe(s: Sys, c: nat)
    requires Mid(s, c)
    ensures Inv(SchedYield(s, c))
  {
    match Pick(s, c)
    case Some(e) => EnvRunSafe(s, c, e);
    case None =>
      var cur := s.cpus[c].cur;
      if cur.Some? && s.envs[cur.value].status == Running {
        EnvRunSafe(s, c, cur.value);
      } else {
        SchedHaltSafe(s, c);
      }
  }

  /** Only one environment other than a live one changes, and it stays at rest
      or falls asleep or wakes up. */
  lemma ReplaceEnv(s: Sys, c: nat, e: nat, env: Env)
    requires Mid(s, c) && e < NENV && EnvOk(env, e)
    requires s.envs[e].status != Free && env.status != Free
    requires !Live(s.envs[e].status) || s.cpus[c].cur == Some(e)
    requires env.status == Runnable || env.status == NotRunnable
    ensures Mid(s.(envs := s.envs[e := env]), c)
  {
    var r := s.(envs := s.envs[e := env]);
    assert Owner(s, c);
    forall d | 0 <= d < |s.cpus|
      ensures Owner(r, d) <==> Owner(s, d)
      ensures d != c ==> CpuOk(r, d)
    {
      if d != c {
        assert CpuOk(s, d);
        assert !Owner(s, d);
        if s.cpus[d].cur == Some(e) {
          assert Seat(s, d, e);
          assert Seat(s, c, e);
        }
      }
    }
    SameSeats(s, r);
  }

  lemma SameSeats(s: Sys, r: Sys)
    requires Sized(s) && SeatsOk(s) && SameShape(s, r)
    requires forall c | 0 <= c < |s.cpus| :: r.cpus[c] == s.cpus[c]
    requires forall e | 0 <= e < NENV && Live(r.envs[e].status) :: Live(s.envs[e].status)
    ensures SeatsOk(r)
  {
    forall c, e | Seat(r, c, e)
      ensures Seat(s, c, e)
    {
    }
    forall e | 0 <= e < NENV && Live(r.envs[e].status)
      ensures exists c :: Seat(r, c, e)
    {
      var c :| Seat(s, c, e);
      assert Seat(r, c, e);
    }
  }

  /** Freeing an environment that no other CPU has. */
  lemma EnvFreeSafe(s: Sys, c: nat, e: nat)
    requires InKernel(s, c) && e < NENV && s.envs[e].status != Free
    requires forall d | Seat(s, d, e) :: d == c
    ensures var r := if s.cpus[c].cur == Some(e) then SetCur(EnvFree(s, e), c, None) else EnvFree(s, e);
            InKernel(r, c) && r.cpus[c].cur == (if s.cpus[c].cur == Some(e) then None else s.cpus[c].cur)
  {
    var r := if s.cpus[c].cur == Some(e) then SetCur(EnvFree(s, e), c, None) else EnvFree(s, e);
    forall d | 0 <= d < |s.cpus|
      ensures Owner(r, d) <==> Owner(s, d)
      ensures d != c ==> CpuOk(r, d)
    {
      if d != c {
        assert Owner(s, c) && !Owner(s, d);
        assert CpuOk(s, d);
        assert !Seat(s, d, e);
      }
    }
    forall d, i | Seat(r, d, i)
      ensures Seat(s, d, i)
    {
    }
    forall i | 0 <= i < NENV && Live(r.envs[i].status)
      ensures exists d :: Seat(r, d, i)
    {
      assert i != e;
      var d :| Seat(s, d, i);
      assert Seat(r, d, i);
    }
    EnvFreeList(s, e);
    forall i: nat | i < NENV
      ensures EnvOk(r.envs[i], i)
    {
      assert EnvOk(s.envs[i], i);
    }
  }

  lemma EnvFreeList(s: Sys, e: nat)
    requires Sized(s) && FreeOk(s) && e < NENV && s.envs[e].status != Free
    ensures FreeOk(EnvFree(s, e))
  {
    var r := EnvFree(s, e);
    assert e !in s.free;
    forall i: nat | i < NENV
      ensures i in r.free <==> r.envs[i].status == Free
    {
      assert i in s.free <==> s.envs[i].status == Free;
    }
  }

  ghost predicate Safe(o: Outcome, c: nat) {
    match o
    case Back(s) => Mid(s, c)
    case Left(s) => Inv(s)
  }

  /** Another CPU that has e current shows it as running or dying. */
  lemma SeatIsLive(s: Sys, c: nat, d: nat, e: nat)
    requires InKernel(s, c) && Seat(s, d, e) && d != c
    ensures e < NENV && Live(s.envs[e].status)
  {
    assert Owner(s, c) && !Owner(s, d);
    assert CpuOk(s, d);
  }

  lemma EnvDestroySafe(s: Sys, c: nat, e: nat)
    requires Mid(s, c) && e < NENV && s.envs[e].status != Free
    requires s.envs[e].status != Dying
    ensures Safe(EnvDestroy(s, c, e), c)
  {
    if s.envs[e].status == Running && s.cpus[c].cur != Some(e) {
      MarkDying(s, c, e);
    } else {
      forall d | Seat(s, d, e)
        ensures d == c
      {
        if d != c {
          SeatIsLive(s, c, d, e);
          assert Seat(s, c, e);
        }
      }
      EnvFreeSafe(s, c, e);
      if s.cpus[c].cur == Some(e) {
        SchedYieldSafe(SetCur(EnvFree(s, e), c, None), c);
      }
    }
  }

  lemma MarkDying(s: Sys, c: nat, e: nat)
    requires Mid(s, c) && e < NENV && s.envs[e].status == Running && s.cpus[c].cur != Some(e)
    ensures Mid(SetStatus(s, e, Dying), c)
  {
    var r := SetStatus(s, e, Dying);
    SameSeats(s, r);
    forall d | 0 <= d < |s.cpus|
      ensures Owner(r, d) <==> Owner(s, d)
      ensures d != c ==> CpuOk(r, d)
    {
      assert d != c ==> CpuOk(s, d);
    }
    assert EnvOk(s.envs[e], e);
  }

  // ------------------------------------------------------------------
  // System calls
  // ------------------------------------------------------------------

  /** The caller, or an environment that is not on a CPU and, when blocked in
      receive, is kept asleep. */
  predicate StatusAllowed(s: Sys, c: nat, e: nat, st: Status)
    requires Sized(s) && c < |s.cpus| && e < NENV
  {
    s.cpus[c].cur == Some(e) || (!Live(s.envs[e].status) && (s.envs[e].recving ==> st == NotRunnable))
  }

  /** sys_env_set_status keeps the invariant exactly when it is allowed. */
  lemma SetStatusExactly(s: Sys, c: nat, e: nat, st: Status)
    requires Mid(s, c) && e < NENV && s.cpus[c].cur.Some? && s.envs[s.cpus[c].cur.value].status == Running
    requires s.envs[e].status != Free && (st == Runnable || st == NotRunnable)
    ensures Mid(SetStatus(s, e, st), c) <==> StatusAllowed(s, c, e, st)
  {
    var r := SetStatus(s, e, st);
    assert EnvOk(s.envs[e], e);
    if StatusAllowed(s, c, e, st) {
      ReplaceEnv(s, c, e, s.envs[e].(status := st));
    } else if Live(s.envs[e].status) {
      var d :| Seat(s, d, e);
      assert Owner(s, c) && !Owner(s, d);
      assert CpuOk(s, d);
      assert !CpuOk(r, d);
    } else {
      assert !EnvOk(r.envs[e], e);
    }
  }

  /** A dying environment freed by another CPU is still current on its own. */
  lemma DestroyExactly(s: Sys, c: nat, e: nat)
    requires Mid(s, c) && e < NENV && s.envs[e].status != Free
    ensures Safe(EnvDestroy(s, c, e), c) <==> s.envs[e].status != Dying
  {
    if s.envs[e].status != Dying {
      EnvDestroySafe(s, c, e);
    } else {
      var d :| Seat(s, d, e);
      assert Owner(s, c) && !Owner(s, d);
      assert CpuOk(s, d);
      assert !CpuOk(EnvFree(s, e), d);
    }
  }

  lemma ExoforkSafe(s: Sys, c: nat, memory: bool)
    requires Mid(s, c) && s.cpus[c].cur.Some? && s.envs[s.cpus[c].cur.value].status == Running
    ensures Mid(Exofork(s, c, memory), c)
  {
    if s.free != [] && memory {
      var e := s.free[0];
      var r := Exofork(s, c, memory);
      assert e in s.free;
      SameSeats(s, r);
      forall d | 0 <= d < |s.cpus|
        ensures Owner(r, d) <==> Owner(s, d)
        ensures d != c ==> CpuOk(r, d)
      {
        if d != c {
          assert CpuOk(s, d);
          assert Owner(s, c) && !Owner(s, d);
        }
      }
      ExoforkEnvs(s, c);
    }
  }

  lemma ExoforkEnvs(s: Sys, c: nat)
    requires Sized(s) && FreeOk(s) && EnvsOk(s) && c < |s.cpus| && s.cpus[c].cur.Some? && s.free != []
    ensures FreeOk(Exofork(s, c, true)) && EnvsOk(Exofork(s, c, true))
  {
    var e := s.free[0];
    var r := Exofork(s, c, true);
    forall i: nat | i < NENV
      ensures i in r.free <==> r.envs[i].status == Free
    {
      assert i in s.free <==> s.envs[i].status == Free;
      assert i in s.free <==> i == e || i in r.free;
    }
    assert EnvOk(s.envs[e], e);
    var k: nat :| s.envs[e].id == EnvIdAfter(k, e);
    assert r.envs[e].id == EnvIdAfter(k + 1, e);
    EnvIdCarriesSlot(k + 1, e);
  }

  /** The child sys_exofork makes: it takes the head of the free list and no
      other slot changes; its id is the slot's next one, positive, and nobody
      else's, not even its predecessor's in that slot. Otherwise nothing. */
  lemma ExoforkFresh(s: Sys, c: nat, memory: bool)
    requires Mid(s, c) && s.cpus[c].cur.Some?
    ensures var r := Exofork(s, c, memory);
            if s.free == [] || !memory then r == s
            else
              var e := s.free[0]; var id := r.envs[e].id;
              && s.envs[e].status == Free && e !in r.free && s.free == [e] + r.free
              && (forall i | 0 <= i < NENV && i != e :: r.envs[i] == s.envs[i])
              && 0 < id < INT_LIMIT && EnvX(id) == e && id == NextEnvId(s.envs[e].id, e)
              && (forall i | 0 <= i < NENV && s.envs[i].status != Free :: s.envs[i].id != id)
              && id != s.envs[e].id
              && r.envs[e].status == NotRunnable && r.envs[e].parent == s.envs[s.cpus[c].cur.value].id
  {
    hide SeatsOk, LockOk, CpuOk, NextEnvId, EnvX, EnvOk;
    if s.free != [] && memory {
      var e := s.free[0];
      assert e in s.free;
      NextIsFresh(s, e);
    }
  }

  lemma NextIsFresh(s: Sys, e: nat)
    requires Sized(s) && EnvsOk(s) && e < NENV && s.envs[e].status == Free
    ensures var id := NextEnvId(s.envs[e].id, e);
            && 0 < id < INT_LIMIT && EnvX(id) == e && id != s.envs[e].id
            && (forall i | 0 <= i < NENV && s.envs[i].status != Free :: s.envs[i].id != id)
  {
    hide NextEnvId, EnvX;
    assert EnvOk(s.envs[e], e);
    var k: nat :| s.envs[e].id == EnvIdAfter(k, e);
    EnvIdCarriesSlot(k + 1, e);
    assert EnvIdAfter(k + 1, e) == NextEnvId(s.envs[e].id, e);
    NextDiffers(k, e);
    forall i: nat | i < NENV && s.envs[i].status != Free
      ensures s.envs[i].id != NextEnvId(s.envs[e].id, e)
    {
      assert EnvOk(s.envs[i], i);
      var j: nat :| s.envs[i].id == EnvIdAfter(j, i);
      if j > 0 {
        EnvIdCarriesSlot(j, i);
      }
    }
  }

  lemma NextDiffers(k: nat, slot: nat)
    requires slot < NENV
    ensures EnvIdAfter(k + 1, slot) != EnvIdAfter(k, slot)
  {
    if k == 0 {
      EnvIdCarriesSlot(1, slot);
    } else {
      EnvIdRecurs(k, k + 1, slot);
    }
  }

  lemma IpcSendSafe(s: Sys, c: nat, e: nat, value: nat, page: PagePart)
    requires Mid(s, c) && s.cpus[c].cur.Some? && s.envs[s.cpus[c].cur.value].status == Running
    requires e < NENV && s.envs[e].status != Free
    ensures Mid(IpcSend(s, c, e, value, page), c)
  {
    var r := IpcSend(s, c, e, value, page);
    if r != s {
      assert EnvOk(s.envs[e], e);
      ReplaceEnv(s, c, e, r.envs[e]);
    }
  }

  lemma RecvSafe(s: Sys, c: nat)
    requires Mid(s, c) && s.cpus[c].cur.Some? && s.envs[s.cpus[c].cur.value].status == Running
    ensures Safe(Dispatch(s, c, Recv(true)), c)
  {
    var cur := s.cpus[c].cur.value;
    assert EnvOk(s.envs[cur], cur);
    ReplaceEnv(s, c, cur, s.envs[cur].(status := NotRunnable, recving := true));
  }

  // ------------------------------------------------------------------
  // Runs
  // ------------------------------------------------------------------

  /** What the callers of two system calls are held to. */
  predicate Legal(s: Sys, c: nat, ev: Event)
    requires Sized(s) && c < |s.cpus| && s.cpus[c].cur.Some?
  {
    match ev
    case Status(envid, st) =>
      var r := EnvId2Env(s, c, envid, true);
      r.Some? && (st == Runnable || st == NotRunnable) ==> StatusAllowed(s, c, r.value, st)
    case Destroy(envid) =>
      var r := EnvId2Env(s, c, envid, true);
      r.Some? ==> s.envs[r.value].status != Dying
    case _ => true
  }

  lemma DispatchSafe(s: Sys, c: nat, ev: Event)
    requires Mid(s, c) && s.cpus[c].cur.Some? && s.envs[s.cpus[c].cur.value].status == Running
    requires Legal(s, c, ev)
    ensures Safe(Dispatch(s, c, ev), c)
  {
    var cur := s.cpus[c].cur.value;
    match ev
    case Timer => SchedYieldSafe(s, c);
    case Yield => SchedYieldSafe(s, c);
    case Nothing =>
    case PageFault(upcall) =>
      if upcall {
        EnvRunSafe(s, c, cur);
      } else {
        EnvDestroySafe(s, c, cur);
      }
    case Crash => EnvDestroySafe(s, c, cur);
    case Destroy(envid) =>
      var r := EnvId2Env(s, c, envid, true);
      if r.Some? {
        EnvDestroySafe(s, c, r.value);
      }
    case Fork(memory) => ExoforkSafe(s, c, memory);
    case Status(envid, st) =>
      var r := EnvId2Env(s, c, envid, true);
      if r.Some? && (st == Runnable || st == NotRunnable) {
        SetStatusExactly(s, c, r.value, st);
      }
    case Send(envid, value, page) =>
      var r := EnvId2Env(s, c, envid, false);
      if r.Some? {
        IpcSendSafe(s, c, r.value, value, page);
      }
    case Recv(valid) =>
      if valid {
        RecvSafe(s, c);
      }
  }

  lemma TailSafe(s: Sys, c: nat)
    requires Mid(s, c)
    ensures Inv(Tail(s, c))
  {
    var cur := s.cpus[c].cur;
    if cur.Some? && s.envs[cur.value].status == Running {
      EnvRunSafe(s, c, cur.value);
    } else {
      SchedYieldSafe(s, c);
    }
  }

  predicate LegalAction(s: Sys, a: Action)
    requires Sized(s) && Enabled(s, a)
  {
    a.Kernel? && s.cpus[a.c].mode.user && s.envs[s.cpus[a.c].cur.value].status == Running ==> Legal(s, a.c, a.ev)
  }

  lemma BodySafe(s: Sys, c: nat, ev: Event)
    requires Inv(s) && Enabled(s, Kernel(c, ev)) && LegalAction(s, Kernel(c, ev))
    ensures Inv(Body(s, c, ev))
  {
    assert CpuOk(s, c);
    if !s.cpus[c].mode.user {
      SchedYieldSafe(s, c);
    } else {
      var cur := s.cpus[c].cur.value;
      if s.envs[cur].status == Dying {
        assert Seat(s, c, cur);
        EnvFreeSafe(s, c, cur);
        SchedYieldSafe(SetCur(EnvFree(s, cur), c, None), c);
      } else {
        DispatchSafe(s, c, ev);
        match Dispatch(s, c, ev)
        case Left(s1) =>
        case Back(s1) => TailSafe(s1, c);
      }
    }
  }

  lemma TrapSafe(s: Sys, a: Action)
    requires Inv(s) && Enabled(s, a) && !a.Kernel?
    ensures Inv(Step(s, a))
  {
    var r := Step(s, a);
    assert CpuOk(s, a.c);
    if s.locked {
      var d :| Owner(s, d);
      assert Owner(r, d);
    } else if a.Xchg? {
      assert Owner(r, a.c);
    }
    forall d | 0 <= d < |s.cpus|
      ensures Owner(r, d) <==> Owner(s, d) || (a.Xchg? && !s.locked && d == a.c)
      ensures CpuOk(r, d)
    {
      assert CpuOk(s, d);
    }
    forall d, e
      ensures Seat(r, d, e) <==> Seat(s, d, e)
    {
    }
    forall e | 0 <= e < NENV && Live(r.envs[e].status)
      ensures exists d :: Seat(r, d, e)
    {
      var d :| Seat(s, d, e);
      assert Seat(r, d, e);
    }
  }

  lemma StepSafe(s: Sys, a: Action)
    requires Inv(s) && Enabled(s, a) && LegalAction(s, a)
    ensures Inv(Step(s, a))
  {
    if a.Kernel? {
      BodySafe(s, a.c, a.ev);
    } else {
      TrapSafe(s, a);
    }
  }

  /** The run of a schedule, or None where a step is not possible there. */
  ghost predicate LegalRun(s: Sys, run: seq<Action>)
    requires Sized(s)
    decreases |run|
  {
    run == [] || (Enabled(s, run[0]) && LegalAction(s, run[0]) && LegalRun(Step(s, run[0]), run[1..]))
  }

  ghost function After(s: Sys, run: seq<Action>): (r: Sys)
    requires Sized(s) && LegalRun(s, run)
    ensures SameShape(s, r)
    decreases |run|
  {
    if run == [] then s else After(Step(s, run[0]), run[1..])
  }

  lemma {:induction false} RunSafe(s: Sys, run: seq<Action>)
    requires Inv(s) && LegalRun(s, run)
    ensures Inv(After(s, run))
    decreases |run|
  {
    if run != [] {
      StepSafe(s, run[0]);
      RunSafe(Step(s, run[0]), run[1..]);
    }
  }

  /** After env_init, env_create and mp_main: the boot CPU holds the lock, the
      others wait for it, and created environments are runnable. */
  ghost predicate Boot(s: Sys) {
    && Sized(s) && |s.cpus| > 0 && s.locked
    && s.cpus[0] == Cpu(None, Holding(false))
    && (forall c | 0 < c < |s.cpus| :: s.cpus[c] == Cpu(None, Spinning(false)))
    && FreeOk(s)
    && (forall e: nat | e < NENV :: !s.envs[e].recving
         && ((s.envs[e].status == Free && s.envs[e].id == 0)
             || (s.envs[e].status == Runnable && s.envs[e].id == NextEnvId(0, e))))
  }

  lemma BootSafe(s: Sys)
    requires Boot(s)
    ensures Inv(s)
  {
    assert Owner(s, 0);
    forall e: nat | e < NENV
      ensures EnvOk(s.envs[e], e)
    {
      assert EnvIdAfter(0, e) == 0;
      assert EnvIdAfter(1, e) == NextEnvId(0, e);
      EnvIdCarriesSlot(1, e);
    }
  }

  /** Multi-CPU safety: in every legal run from boot, one CPU at most is in
      the kernel, and while the lock is free every CPU's environment is none
      or running or dying, and every such environment is current on exactly
      one CPU. */
  lemma EveryRunIsSafe(s: Sys, run: seq<Action>)
    requires Boot(s) && LegalRun(s, run)
    ensures var r := After(s, run);
            && (forall c, d | Owner(r, c) && Owner(r, d) :: c == d)
            && (!r.locked ==>
                 && (forall c: nat | c < |r.cpus| && r.cpus[c].cur.Some? :: Live(r.envs[r.cpus[c].cur.value].status))
                 && (forall e: nat | e < NENV && Live(r.envs[e].status) ::
                       && (exists c: nat :: c < |r.cpus| && r.cpus[c].cur == Some(e))
                       && (forall c: nat, d: nat | c < d < |r.cpus| && r.cpus[c].cur == Some(e) ::
                         r.cpus[d].cur != Some(e))))
  {
    BootSafe(s);
    RunSafe(s, run);
    var r := After(s, run);
    if !r.locked {
      Outside(r);
    }
  }

  lemma Outside(r: Sys)
    requires Inv(r) && !r.locked
    ensures forall c: nat | c < |r.cpus| && r.cpus[c].cur.Some? :: Live(r.envs[r.cpus[c].cur.value].status)
    ensures forall e: nat | e < NENV && Live(r.envs[e].status) ::
              exists c: nat :: c < |r.cpus| && r.cpus[c].cur == Some(e)
    ensures forall e: nat, c: nat, d: nat | c < d < |r.cpus| && r.cpus[c].cur == Some(e) :: r.cpus[d].cur != Some(e)
  {
    forall c: nat | c < |r.cpus|
      ensures !Owner(r, c) && (r.cpus[c].cur.Some? ==> Live(r.envs[r.cpus[c].cur.value].status))
    {
      assert CpuOk(r, c);
    }
    forall e: nat | e < NENV && Live(r.envs[e].status)
      ensures exists c: nat :: c < |r.cpus| && r.cpus[c].cur == Some(e)
    {
      var c :| Seat(r, c, e);
    }
    forall e: nat, c: nat, d: nat | c < d < |r.cpus| && r.cpus[c].cur == Some(e)
      ensures r.cpus[d].cur != Some(e)
    {
      assert Seat(r, c, e);
      assert Seat(r, d, e) <==> r.cpus[d].cur == Some(e);
    }
  }
}
