/** IPC over whole runs: every wake-up from sys_ipc_recv comes from exactly one
  successful send, whose message stays until the next receive
  (kern/syscall.c, lib/ipc.c).
 */
module Rendezvous {
  import opened EnvIds
  import opened Smp
  import opened SmpSafety

  /** The kernel serves a trap of the running environment. */
  predicate Serves(s: Sys, a: Action)
    requires Sized(s) && Enabled(s, a)
  {
    a.Kernel? && s.cpus[a.c].mode.user && s.envs[s.cpus[a.c].cur.value].status != Dying
  }

  /** The step is a send to e that succeeds. */
  predicate Delivers(s: Sys, a: Action, e: nat)
    requires Sized(s) && Enabled(s, a) && e < NENV
  {
    && Serves(s, a) && a.ev.Send? && a.ev.page != PageError
    && EnvId2Env(s, a.c, a.ev.envid, false) == Some(e) && s.envs[e].recving
  }

  /** e enters sys_ipc_recv. */
  predicate Blocks(s: Sys, a: Action, e: nat)
    requires Sized(s) && Enabled(s, a) && e < NENV
  {
    Serves(s, a) && a.ev == Recv(true) && s.cpus[a.c].cur == Some(e)
  }

  /** What the sender meant to be seen. */
  function SentMsg(s: Sys, a: Action): Msg
    requires Sized(s) && Enabled(s, a) && Serves(s, a) && a.ev.Send?
  {
    Msg(s.envs[s.cpus[a.c].cur.value].id, a.ev.value, if a.ev.page.PageSent? then a.ev.page.perm else 0)
  }

  /** Only statuses changed, and no environment appeared or went. */
  ghost predicate Rescheduled(s: Sys, r: Sys)
    requires Sized(s) && Sized(r)
  {
    forall e: nat | e < NENV :: r.envs[e] == s.envs[e].(status := r.envs[e].status)
                                && (r.envs[e].status == Free <==> s.envs[e].status == Free)
  }

  /** Choosing what runs next wakes nobody and touches no message. */
  lemma RunReschedules(s: Sys, c: nat, e: nat)
    requires Sized(s) && c < |s.cpus| && e < NENV && s.envs[e].status in {Runnable, Running}
    ensures Rescheduled(s, EnvRun(s, c, e)) && SleepersSleep(s, EnvRun(s, c, e))
  {
  }

  ghost predicate SleepersSleep(s: Sys, r: Sys)
    requires Sized(s) && Sized(r)
  {
    forall e: nat | e < NENV && s.envs[e].status == NotRunnable :: r.envs[e].status == NotRunnable
  }

  lemma YieldReschedules(s: Sys, c: nat)
    requires Sized(s) && c < |s.cpus|
    ensures Rescheduled(s, SchedYield(s, c)) && SleepersSleep(s, SchedYield(s, c))
  {
    match Pick(s, c)
    case Some(e) => RunReschedules(s, c, e);
    case None =>
      var cur := s.cpus[c].cur;
      if cur.Some? && s.envs[cur.value].status == Running {
        RunReschedules(s, c, cur.value);
      }
  }

  lemma TailReschedules(s: Sys, c: nat)
    requires Sized(s) && c < |s.cpus|
    ensures Rescheduled(s, Tail(s, c)) && SleepersSleep(s, Tail(s, c))
  {
    var cur := s.cpus[c].cur;
    if cur.Some? && s.envs[cur.value].status == Running {
      RunReschedules(s, c, cur.value);
    } else {
      YieldReschedules(s, c);
    }
  }

  /** What one event does to the receive state of environment e. */
  ghost predicate Seen(old_: Env, new_: Env, delivered: bool, blocked: bool, msg: Msg) {
    if delivered then !new_.recving && new_.msg == msg && old_.recving
    else if blocked then new_.recving && new_.msg == old_.msg && !old_.recving
    else new_.msg == old_.msg && (new_.recving == old_.recving || (old_.status == Free && !new_.recving))
  }

  ghost predicate SeenStep(s: Sys, a: Action, e: nat, r: Sys)
    requires Sized(s) && Enabled(s, a) && Sized(r) && e < NENV
  {
    Seen(s.envs[e], r.envs[e], Delivers(s, a, e), Blocks(s, a, e),
         if Delivers(s, a, e) then SentMsg(s, a) else s.envs[e].msg)
  }

  lemma DispatchSeen(s: Sys, a: Action, e: nat)
    requires Mid(s, a.c) && Enabled(s, a) && Serves(s, a) && e < NENV && s.envs[s.cpus[a.c].cur.value].status == Running
    ensures SeenStep(s, a, e, Dispatch(s, a.c, a.ev).s)
  {
    var c := a.c;
    var cur := s.cpus[c].cur.value;
    assert EnvOk(s.envs[cur], cur);
    match a.ev
    case Timer => YieldReschedules(s, c);
    case Yield => YieldReschedules(s, c);
    case PageFault(upcall) =>
      DestroySeen(s, c, cur, e);
      RunReschedules(s, c, cur);
    case Crash => DestroySeen(s, c, cur, e);
    case Destroy(envid) =>
      if EnvId2Env(s, c, envid, true).Some? {
        DestroySeen(s, c, EnvId2Env(s, c, envid, true).value, e);
      }
    case Fork(memory) =>
      if s.free != [] {
        assert s.free[0] in s.free;
      }
    case _ =>
  }

  lemma DestroySeen(s: Sys, c: nat, t: nat, e: nat)
    requires Sized(s) && c < |s.cpus| && t < NENV && e < NENV
    ensures var r := EnvDestroy(s, c, t).s.envs[e]; r.recving == s.envs[e].recving && r.msg == s.envs[e].msg
  {
    if s.cpus[c].cur == Some(t) {
      var s1 := SetCur(EnvFree(s, t), c, None);
      YieldReschedules(s1, c);
      assert SchedYield(s1, c).envs[e] == s1.envs[e].(status := SchedYield(s1, c).envs[e].status);
    }
  }

  /** Each step, for each environment: a successful send clears the flag and
      stores the message; a receive sets the flag; a slot allocated anew
      starts with the flag clear; nothing else touches either. */
  lemma StepSeen(s: Sys, a: Action, e: nat)
    requires Inv(s) && Enabled(s, a) && LegalAction(s, a) && e < NENV
    ensures SeenStep(s, a, e, Step(s, a))
  {
    assert CpuOk(s, a.c);
    if a.Kernel? {
      var c := a.c;
      if !s.cpus[c].mode.user {
        YieldReschedules(s, c);
      } else {
        var cur := s.cpus[c].cur.value;
        if s.envs[cur].status == Dying {
          YieldReschedules(SetCur(EnvFree(s, cur), c, None), c);
        } else {
          DispatchSeen(s, a, e);
          match Dispatch(s, c, a.ev)
          case Left(s1) =>
          case Back(s1) => TailReschedules(s1, c);
        }
      }
    }
  }

  /** A send that does not succeed leaves what an event that does nothing
      leaves: the caller just returns from the system call. */
  lemma FailedSendChangesNothing(s: Sys, c: nat, envid: int, value: nat, page: PagePart)
    requires Inv(s) && Enabled(s, Kernel(c, Send(envid, value, page)))
    requires forall e: nat | e < NENV :: !Delivers(s, Kernel(c, Send(envid, value, page)), e)
    ensures Step(s, Kernel(c, Send(envid, value, page))) == Step(s, Kernel(c, Nothing))
  {
    assert CpuOk(s, c);
    if Serves(s, Kernel(c, Nothing)) {
      match EnvId2Env(s, c, envid, false)
      case None =>
      case Some(e) => assert !Delivers(s, Kernel(c, Send(envid, value, page)), e);
    }
  }

  /** The send that succeeds leaves its receiver runnable and its sender on
      the CPU. */
  lemma DeliveryWakes(s: Sys, a: Action, e: nat)
    requires Inv(s) && Enabled(s, a) && e < NENV && Delivers(s, a, e)
    ensures s.envs[e].status == NotRunnable && Step(s, a).envs[e].status == Runnable
    ensures s.cpus[a.c].cur != Some(e) && Step(s, a).cpus[a.c] == Cpu(s.cpus[a.c].cur, User)
  {
    assert CpuOk(s, a.c);
    assert EnvOk(s.envs[e], e);
  }

  // ------------------------------------------------------------------
  // Runs
  // ------------------------------------------------------------------

  /** e is never freed in the run. */
  ghost predicate Stays(s: Sys, run: seq<Action>, e: nat)
    requires Sized(s) && LegalRun(s, run) && e < NENV
    decreases |run|
  {
    s.envs[e].status != Free && (run == [] || Stays(Step(s, run[0]), run[1..], e))
  }

  ghost function Deliveries(s: Sys, run: seq<Action>, e: nat): nat
    requires Sized(s) && LegalRun(s, run) && e < NENV
    decreases |run|
  {
    if run == [] then 0
    else (if Delivers(s, run[0], e) then 1 else 0) + Deliveries(Step(s, run[0]), run[1..], e)
  }

  ghost function Receives(s: Sys, run: seq<Action>, e: nat): nat
    requires Sized(s) && LegalRun(s, run) && e < NENV
    decreases |run|
  {
    if run == [] then 0
    else (if Blocks(s, run[0], e) then 1 else 0) + Receives(Step(s, run[0]), run[1..], e)
  }

  /** The messages delivered to e, in order. */
  ghost function Inbox(s: Sys, run: seq<Action>, e: nat): (r: seq<Msg>)
    requires Sized(s) && LegalRun(s, run) && e < NENV
    ensures |r| == Deliveries(s, run, e)
    decreases |run|
  {
    if run == [] then []
    else (if Delivers(s, run[0], e) then [SentMsg(s, run[0])] else []) + Inbox(Step(s, run[0]), run[1..], e)
  }

  function Flag(b: bool): int {
    if b then 1 else 0
  }

  /** Receives and deliveries alternate, and the message an environment reads
      is the last one delivered to it. */
  lemma {:induction false} ReceivesMatchSends(s: Sys, run: seq<Action>, e: nat)
    requires Inv(s) && LegalRun(s, run) && e < NENV && Stays(s, run, e)
    ensures Receives(s, run, e) - Deliveries(s, run, e) == Flag(After(s, run).envs[e].recving) - Flag(s.envs[e].recving)
    ensures After(s, run).envs[e].msg ==
              if Inbox(s, run, e) == [] then s.envs[e].msg else Inbox(s, run, e)[|Inbox(s, run, e)| - 1]
    decreases |run|
  {
    hide LockOk, SeatsOk, FreeOk, EnvsOk, CpuOk, Step, Enabled, LegalAction, Delivers, Blocks, SentMsg, Stays,
      LegalRun, After, Receives, Deliveries, Inbox;
    if run == [] {
      RunNothing(s, e);
    } else {
      RunOne(s, run, e);
      var s1 := Step(s, run[0]);
      StepSafe(s, run[0]);
      StepSeen(s, run[0], e);
      ReceivesMatchSends(s1, run[1..], e);
      var rest := Inbox(s1, run[1..], e);
      if Delivers(s, run[0], e) {
        assert Inbox(s, run, e)[|rest|] == if rest == [] then SentMsg(s, run[0]) else rest[|rest| - 1];
      }
    }
  }

  lemma RunNothing(s: Sys, e: nat)
    requires Sized(s) && e < NENV
    ensures After(s, []) == s && Receives(s, [], e) == 0 && Deliveries(s, [], e) == 0 && Inbox(s, [], e) == []
  {
  }

  /** The counts and the inbox after one more action. */
  lemma RunOne(s: Sys, run: seq<Action>, e: nat)
    requires Sized(s) && LegalRun(s, run) && e < NENV && Stays(s, run, e) && run != []
    ensures Enabled(s, run[0]) && LegalAction(s, run[0]) && LegalRun(Step(s, run[0]), run[1..])
    ensures s.envs[e].status != Free && Stays(Step(s, run[0]), run[1..], e)
    ensures After(s, run) == After(Step(s, run[0]), run[1..])
    ensures Receives(s, run, e) == Flag(Blocks(s, run[0], e)) + Receives(Step(s, run[0]), run[1..], e)
    ensures Deliveries(s, run, e) == Flag(Delivers(s, run[0], e)) + Deliveries(Step(s, run[0]), run[1..], e)
    ensures Delivers(s, run[0], e) ==>
              Serves(s, run[0]) && run[0].ev.Send?
              && Inbox(s, run, e) == [SentMsg(s, run[0])] + Inbox(Step(s, run[0]), run[1..], e)
    ensures !Delivers(s, run[0], e) ==> Inbox(s, run, e) == Inbox(Step(s, run[0]), run[1..], e)
    ensures !(Delivers(s, run[0], e) && Blocks(s, run[0], e))
  {
  }

  /** Exactly once: a blocked receiver that has not received again is either
      still blocked, with nothing delivered and its message as it was, or has
      had exactly one delivery, whose message it now holds. */
  lemma ExactlyOnce(s: Sys, run: seq<Action>, e: nat)
    requires Inv(s) && LegalRun(s, run) && e < NENV && Stays(s, run, e)
    requires s.envs[e].recving && Receives(s, run, e) == 0
    ensures var r := After(s, run).envs[e];
            if r.recving then Inbox(s, run, e) == [] && r.status == NotRunnable && r.msg == s.envs[e].msg
            else Inbox(s, run, e) == [r.msg]
  {
    RunSafe(s, run);
    ReceivesMatchSends(s, run, e);
    assert EnvOk(After(s, run).envs[e], e);
    StaysAtEnd(s, run, e);
  }

  lemma {:induction false} StaysAtEnd(s: Sys, run: seq<Action>, e: nat)
    requires Sized(s) && LegalRun(s, run) && e < NENV && Stays(s, run, e)
    ensures After(s, run).envs[e].status != Free
    decreases |run|
  {
    if run != [] {
      StaysAtEnd(Step(s, run[0]), run[1..], e);
    }
  }

  /** Once awake, an environment's message lasts until it receives again. */
  lemma MessageLasts(s: Sys, run: seq<Action>, e: nat)
    requires Inv(s) && LegalRun(s, run) && e < NENV && Stays(s, run, e)
    requires !s.envs[e].recving && Receives(s, run, e) == 0
    ensures After(s, run).envs[e].msg == s.envs[e].msg && Deliveries(s, run, e) == 0
  {
    ReceivesMatchSends(s, run, e);
  }
}
