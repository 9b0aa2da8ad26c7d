/** kern/sched.c, kern/env.c and the system calls of kern/syscall.c that move
  environments between states, as they run: the envs and cpus arrays are
  updated in place, and every method is proved against the function of the
  same name.
 */
module SmpKernel {
  import opened EnvIds
  import S = Smp
  import opened SmpSafety

  class Kernel {
    const envs: array<S.Env>
    const cpus: array<S.Cpu>
    // env_free_list
    var free: seq<nat>
    var locked: bool

    ghost function State(): S.Sys
      reads this, envs, cpus
    {
      S.Sys(envs[..], free, cpus[..], locked)
    }

    /** env_init, and mp_init for the CPUs: the boot CPU has the lock. */
    constructor (ncpu: nat)
      requires 0 < ncpu
      ensures fresh(envs) && fresh(cpus) && cpus.Length == ncpu
      ensures Boot(State()) && free == seq(NENV, i => i)
    {
      envs := new S.Env[NENV](_ => S.Env(0, 0, S.Free, false, S.Msg(0, 0, 0)));
      cpus := new S.Cpu[ncpu](c => S.Cpu(S.None, if c == 0 then S.Holding(false) else S.Spinning(false)));
      free := seq(NENV, i => i);
      locked := true;
      new;
      forall e: nat | e < NENV
        ensures e in free
      {
        assert free[e] == e;
      }
    }

    /** One turn of the loop in spin_lock: an atomic exchange. */
    method TryLock(c: nat) returns (acquired: bool)
      requires c < cpus.Length && cpus[c].mode.Spinning?
      modifies this`locked, cpus
      ensures State() == S.TryLock(old(State()), c) && acquired == !old(locked)
    {
      acquired := !locked;
      locked := true;
      if acquired {
        cpus[c] := cpus[c].(mode := S.Holding(cpus[c].mode.user));
      }
      assert State() == S.TryLock(old(State()), c);
    }

    method EnvRun(c: nat, e: nat)
      requires S.Sized(State()) && c < cpus.Length && e < NENV
      modifies this`locked, envs, cpus
      ensures State() == S.EnvRun(old(State()), c, e)
    {
      var cur := cpus[c].cur;
      if cur.Some? && envs[cur.value].status == S.Running {
        envs[cur.value] := envs[cur.value].(status := S.Runnable);
      }
      cpus[c] := cpus[c].(cur := S.Some(e));
      envs[e] := envs[e].(status := S.Running);
      locked := false;
      cpus[c] := cpus[c].(mode := S.User);
    }

    method SchedHalt(c: nat)
      requires S.Sized(State()) && c < cpus.Length
      modifies this`locked, cpus
      ensures State() == S.SchedHalt(old(State()), c)
    {
      var i := 0;
      while i < NENV && !S.Alive(envs[i].status)
        invariant 0 <= i <= NENV && S.Sized(State())
        invariant forall j | 0 <= j < i :: !S.Alive(envs[j].status)
      {
        i := i + 1;
      }
      if i == NENV {
        cpus[c] := cpus[c].(mode := S.Monitor);
        return;
      }
      cpus[c] := cpus[c].(cur := S.None);
      cpus[c] := cpus[c].(mode := S.Halted);
      locked := false;
    }

    method SchedYield(c: nat)
      requires S.Sized(State()) && c < cpus.Length
      modifies this`locked, envs, cpus
      ensures State() == S.SchedYield(old(State()), c)
    {
      var cur := cpus[c].cur;
      var start := if cur.Some? then EnvX(envs[cur.value].id) + 1 else 0;
      var i := start;
      while i < NENV
        invariant start <= i && start <= NENV && (i <= NENV || i == start)
        invariant State() == old(State())
        invariant forall j | start <= j < i :: envs[j].status != S.Runnable
      {
        if envs[i].status == S.Runnable {
          FirstIs(envs[..], start, NENV, i);
          EnvRun(c, i);
          return;
        }
        i := i + 1;
      }
      i := 0;
      while i < start
        invariant 0 <= i <= start && State() == old(State())
        invariant forall j | start <= j < NENV :: envs[j].status != S.Runnable
        invariant forall j | 0 <= j < i :: envs[j].status != S.Runnable
      {
        if envs[i].status == S.Runnable {
          FirstIs(envs[..], 0, start, i);
          EnvRun(c, i);
          return;
        }
        i := i + 1;
      }
      if cur.Some? && envs[cur.value].status == S.Running {
        EnvRun(c, cur.value);
        return;
      }
      SchedHalt(c);
    }

    /** The bookkeeping half of env_free. */
    method EnvFree(e: nat)
      requires e < envs.Length
      modifies this`free, envs
      ensures State() == S.EnvFree(old(State()), e)
    {
      envs[e] := envs[e].(status := S.Free);
      free := [e] + free;
    }

    method EnvDestroy(c: nat, e: nat) returns (left: bool)
      requires S.Sized(State()) && c < cpus.Length && e < NENV
      modifies this, envs, cpus
      ensures S.EnvDestroy(old(State()), c, e) == if left then S.Left(State()) else S.Back(State())
    {
      if envs[e].status == S.Running && cpus[c].cur != S.Some(e) {
        envs[e] := envs[e].(status := S.Dying);
        return false;
      }
      EnvFree(e);
      left := cpus[c].cur == S.Some(e);
      if left {
        cpus[c] := cpus[c].(cur := S.None);
        assert State() == S.SetCur(S.EnvFree(old(State()), e), c, S.None);
        SchedYield(c);
      }
    }

    method EnvId2Env(c: nat, envid: int, checkperm: bool) returns (r: S.Option<nat>)
      requires S.Sized(State()) && c < cpus.Length && cpus[c].cur.Some?
      ensures r == S.EnvId2Env(State(), c, envid, checkperm)
    {
      var cur := cpus[c].cur.value;
      if envid == 0 {
        return S.Some(cur);
      }
      var e := EnvX(envid);
      if envs[e].status == S.Free || envs[e].id != envid {
        return S.None;
      }
      if checkperm && e != cur && envs[e].parent != envs[cur].id {
        return S.None;
      }
      r := S.Some(e);
    }

    /** env_alloc and sys_exofork; 0 stands for both error returns. */
    method SysExofork(c: nat, memory: bool) returns (id: int)
      requires S.Sized(State()) && c < cpus.Length && cpus[c].cur.Some?
      modifies this`free, envs
      ensures State() == S.Exofork(old(State()), c, memory)
      ensures if State() == old(State()) then id == 0 else old(free) != [] && id == envs[old(free)[0]].id
    {
      id := 0;
      if free == [] || !memory {
        return;
      }
      var e := free[0];
      id := NextEnvId(envs[e].id, e);
      envs[e] := S.Env(id, envs[cpus[c].cur.value].id, S.NotRunnable, false, envs[e].msg);
      free := free[1..];
      assert |free| < |old(free)|;
    }

    method SysEnvSetStatus(c: nat, envid: int, st: S.Status) returns (ok: bool)
      requires S.Sized(State()) && c < cpus.Length && cpus[c].cur.Some?
      modifies envs
      ensures S.Back(State()) == S.Dispatch(old(State()), c, S.Status(envid, st))
    {
      if st != S.NotRunnable && st != S.Runnable {
        return false;
      }
      var r := EnvId2Env(c, envid, true);
      ok := r.Some?;
      if ok {
        envs[r.value] := envs[r.value].(status := st);
        assert State() == S.SetStatus(old(State()), r.value, st);
      }
    }

    /** 0, -E_BAD_ENV, -E_IPC_NOT_RECV or an error of the page part. */
    method SysIpcTrySend(c: nat, envid: int, value: nat, page: S.PagePart) returns (r: SendResult)
      requires S.Sized(State()) && c < cpus.Length && cpus[c].cur.Some?
      modifies envs
      ensures S.Back(State()) == S.Dispatch(old(State()), c, S.Send(envid, value, page))
      ensures r != Sent ==> State() == old(State())
      ensures r == NotRecv ==> forall e: nat | S.EnvId2Env(State(), c, envid, false) == S.Some(e) :: !envs[e].recving
    {
      var e := EnvId2Env(c, envid, false);
      if e.None? {
        return BadEnv;
      }
      var i := e.value;
      if !envs[i].recving {
        return NotRecv;
      }
      if page == S.PageError {
        return BadPage;
      }
      var perm := if page.PageSent? then page.perm else 0;
      envs[i] := envs[i].(status := S.Runnable, recving := false,
                          msg := S.Msg(envs[cpus[c].cur.value].id, value, perm));
      r := Sent;
      assert State() == S.IpcSend(old(State()), c, i, value, page);
    }

    method SysIpcRecv(c: nat, valid: bool) returns (ok: bool)
      requires S.Sized(State()) && c < cpus.Length && cpus[c].cur.Some?
      modifies envs
      ensures ok == valid && S.Back(State()) == S.Dispatch(old(State()), c, S.Recv(valid))
    {
      ok := valid;
      if ok {
        var cur := cpus[c].cur.value;
        envs[cur] := envs[cur].(status := S.NotRunnable, recving := true);
      }
    }

    /** trap_dispatch with the handlers it calls. */
    method TrapDispatch(c: nat, ev: S.Event) returns (left: bool)
      requires S.Sized(State()) && c < cpus.Length && cpus[c].cur.Some?
      modifies this, envs, cpus
      ensures S.Dispatch(old(State()), c, ev) == if left then S.Left(State()) else S.Back(State())
    {
      var cur := cpus[c].cur.value;
      left := false;
      match ev
      case Timer => SchedYield(c); left := true;
      case Yield => SchedYield(c); left := true;
      case Nothing =>
      case PageFault(upcall) =>
        if upcall {
          EnvRun(c, cur);
          left := true;
        } else {
          left := EnvDestroy(c, cur);
        }
      case Crash => left := EnvDestroy(c, cur);
      case Destroy(envid) =>
        var r := EnvId2Env(c, envid, true);
        if r.Some? {
          left := EnvDestroy(c, r.value);
        }
      case Fork(memory) => var _ := SysExofork(c, memory);
      case Status(envid, st) => var _ := SysEnvSetStatus(c, envid, st);
      case Send(envid, value, page) => var _ := SysIpcTrySend(c, envid, value, page);
      case Recv(valid) => var _ := SysIpcRecv(c, valid);
    }

    /** trap() with the lock held. */
    method Trap(c: nat, ev: S.Event)
      requires S.Sized(State()) && S.Enabled(State(), S.Kernel(c, ev))
      modifies this, envs, cpus
      ensures State() == S.Body(old(State()), c, ev)
    {
      if !cpus[c].mode.user {
        // A halted CPU: the tick or the spurious interrupt ends here.
        SchedYield(c);
        return;
      }
      var cur := cpus[c].cur;
      if envs[cur.value].status == S.Dying {
        EnvFree(cur.value);
        cpus[c] := cpus[c].(cur := S.None);
        assert State() == S.SetCur(S.EnvFree(old(State()), cur.value), c, S.None);
        SchedYield(c);
        return;
      }
      var left := TrapDispatch(c, ev);
      if left {
        return;
      }
      cur := cpus[c].cur;
      if cur.Some? && envs[cur.value].status == S.Running {
        EnvRun(c, cur.value);
      } else {
        SchedYield(c);
      }
    }
  }

  datatype SendResult = Sent | BadEnv | NotRecv | BadPage

  lemma FirstIs(envs: seq<S.Env>, lo: nat, hi: nat, i: nat)
    requires lo <= i < hi <= |envs| && envs[i].status == S.Runnable
    requires forall j | lo <= j < i :: envs[j].status != S.Runnable
    ensures S.FirstRunnable(envs, lo, hi) == S.Some(i)
  {
  }
}
