/** sys_ipc_try_send as a whole (kern/syscall.c): the receiver's status and
  message on one side, its page table on the other.
 */
module SendCall {
  import opened Pmap
  import opened Teardown
  import opened EnvMemory
  import opened InsertCases
  import opened CallCases
  import opened PageSend
  import S = Smp

  /** srcva as the call finds it: at or above UTOP, not page-aligned, or a
      page below UTOP. */
  datatype Source = NoPage | Misaligned | Page(va: Va)

  datatype SendResult = Sent | BadEnv | NotReceiving | Invalid | NoMemory | Broken

  /** The page directories of the environments, and what the kernel keeps. */
  datatype Both = Both(sys: S.Sys, mem: Phys, dirs: seq<nat>)

  /** Every environment in use has a live directory. */
  ghost predicate Linked(b: Both) {
    && S.Sized(b.sys) && Inv(b.mem) && |b.dirs| == |b.sys.envs|
    && (forall e | 0 <= e < |b.dirs| && b.sys.envs[e].status != S.Free :: LiveDir(b.mem, b.dirs[e]))
  }

  /** CPU c's environment sends to envid; dstva is where its receiver asked
      for a page. */
  function TrySend(b: Both, c: nat, envid: int, value: nat, src: Source, perm: Perm, dstva: Va): (r: (Both, SendResult))
    requires Linked(b) && c < |b.sys.cpus| && b.sys.cpus[c].cur.Some?
    requires b.sys.envs[b.sys.cpus[c].cur.value].status != S.Free && UserVa(dstva) && (src.Page? ==> UserVa(src.va))
  {
    var cur := b.sys.cpus[c].cur.value;
    match S.EnvId2Env(b.sys, c, envid, false)
    case None => (b, BadEnv)
    case Some(e) =>
      if !b.sys.envs[e].recving then (b, NotReceiving)
      else
        match src
        case NoPage => (b.(sys := S.IpcSend(b.sys, c, e, value, S.NoPage)), Sent)
        case Misaligned => (b, Invalid)
        case Page(va) =>
          var (mem, r) := SendPage(b.mem, b.dirs[cur], va, b.dirs[e], dstva, perm);
          match r
          case Done =>
            (b.(sys := S.IpcSend(b.sys, c, e, value, S.PageSent(perm.low as nat)), mem := mem), Sent)
          case Enomem => (b.(mem := mem), NoMemory)
          case Einval => (b.(mem := mem), Invalid)
          case _ => (b.(mem := mem), Broken)
  }

  /** The page is sent: nothing refuses it and there is room for it. */
  ghost predicate PageGoes(b: Both, e: nat, cur: nat, va: Va, perm: Perm, dstva: Va)
    requires Linked(b) && e < |b.dirs| && cur < |b.dirs| && UserVa(va) && UserVa(dstva)
    requires LiveDir(b.mem, b.dirs[cur]) && LiveDir(b.mem, b.dirs[e])
  {
    var op := Share(b.dirs[cur], va, b.dirs[e], dstva, perm);
    SyscallPerm(perm) && Reaches(b.mem, op) && RoomAt(b.mem, b.dirs[e], dstva)
  }

  /** A resolved receiver is in use. */
  lemma Resolved(b: Both, c: nat, envid: int)
    requires Linked(b) && c < |b.sys.cpus| && b.sys.cpus[c].cur.Some?
    requires b.sys.envs[b.sys.cpus[c].cur.value].status != S.Free
    ensures var r := S.EnvId2Env(b.sys, c, envid, false);
            r.Some? ==> b.sys.envs[r.value].status != S.Free && LiveDir(b.mem, b.dirs[r.value])
    ensures LiveDir(b.mem, b.dirs[b.sys.cpus[c].cur.value])
  {
  }

  /** All or nothing: the call that does not return 0 leaves every status,
      every message and every page table as it was. It returns 0 exactly when
      the id resolves to a receiver that waits and the page, if one is asked
      for, goes; then the message is delivered, and the page is where
      sys_page_map would have put it. */
  lemma SendIsAllOrNothing(b: Both, c: nat, envid: int, value: nat, src: Source, perm: Perm, dstva: Va)
    requires Linked(b) && c < |b.sys.cpus| && b.sys.cpus[c].cur.Some?
    requires b.sys.envs[b.sys.cpus[c].cur.value].status != S.Free && UserVa(dstva) && (src.Page? ==> UserVa(src.va))
    ensures
      var (b', r) := TrySend(b, c, envid, value, src, perm, dstva);
      var to := S.EnvId2Env(b.sys, c, envid, false);
      var cur := b.sys.cpus[c].cur.value;
      && (r != Sent ==> b' == b) && r != Broken
      && (to.Some? ==> LiveDir(b.mem, b.dirs[to.value])) && LiveDir(b.mem, b.dirs[cur])
      && (r == Sent <==>
            to.Some? && b.sys.envs[to.value].recving && !src.Misaligned?
            && (src.Page? ==> PageGoes(b, to.value, cur, src.va, perm, dstva)))
      && (r == Sent ==>
            var part := if src.Page? then S.PageSent(perm.low as nat) else S.NoPage;
            && b'.sys == S.Dispatch(b.sys, c, S.Send(envid, value, part)).s
            && b'.sys.envs[to.value].msg == S.Msg(b.sys.envs[cur].id, value, if src.Page? then perm.low as nat else 0)
            && b'.sys.envs[to.value].status == S.Runnable && !b'.sys.envs[to.value].recving
            && b'.mem == if src.Page? then SysPageMap(b.mem, b.dirs[cur], src.va, b.dirs[to.value], dstva, perm).0
                          else b.mem)
      && (r != Sent ==> b'.sys == S.Dispatch(b.sys, c, S.Send(envid, value, S.PageError)).s)
  {
    hide SendPage, SysPageMap, Reaches, RoomAt, SyscallPerm;
    Resolved(b, c, envid);
    var cur := b.sys.cpus[c].cur.value;
    match S.EnvId2Env(b.sys, c, envid, false)
    case None =>
    case Some(e) =>
      if src.Page? {
        SendReads(b.mem, Share(b.dirs[cur], src.va, b.dirs[e], dstva, perm));
      }
  }

  /** Which error it is: the first test that fails, in the order of the code;
      memory is asked for last. */
  lemma SendErrors(b: Both, c: nat, envid: int, value: nat, src: Source, perm: Perm, dstva: Va)
    requires Linked(b) && c < |b.sys.cpus| && b.sys.cpus[c].cur.Some?
    requires b.sys.envs[b.sys.cpus[c].cur.value].status != S.Free && UserVa(dstva) && (src.Page? ==> UserVa(src.va))
    ensures
      var r := TrySend(b, c, envid, value, src, perm, dstva).1;
      var to := S.EnvId2Env(b.sys, c, envid, false);
      var cur := b.sys.cpus[c].cur.value;
      var waits := to.Some? && b.sys.envs[to.value].recving;
      && LiveDir(b.mem, b.dirs[cur]) && (to.Some? ==> LiveDir(b.mem, b.dirs[to.value]))
      && (r == BadEnv <==> to.None?)
      && (r == NotReceiving <==> to.Some? && !b.sys.envs[to.value].recving)
      && (r == Invalid <==> waits && (src.Misaligned? || (src.Page? && PageRefused(b, cur, src.va, perm))))
      && (r == NoMemory <==> waits && src.Page? && !PageRefused(b, cur, src.va, perm)
                             && b.mem.mem[b.dirs[to.value]][dstva.pdx] == EMPTY && b.mem.list == [])
  {
    hide SendPage, SysPageMap, Shared, Reaches, RoomAt, Trans, UserPerm, SyscallPerm, S.EnvId2Env, S.IpcSend, TreeOk,
      CountsOk, FreeListOk, LacksBits;
    Resolved(b, c, envid);
    var to := S.EnvId2Env(b.sys, c, envid, false);
    if to.Some? && src.Page? {
      SendAnswers(b.mem, Share(b.dirs[b.sys.cpus[c].cur.value], src.va, b.dirs[to.value], dstva, perm));
    }
  }

  /** The permission argument or the source is not what the call asks for. */
  predicate PageRefused(b: Both, cur: nat, va: Va, perm: Perm)
    requires Sized(b.mem) && cur < |b.dirs| && b.dirs[cur] < |b.mem.role| && UserVa(va)
  {
    var e := Trans(b.mem, b.dirs[cur], va);
    || LacksBits(perm) || perm.high != 0 || perm.low & !PTE_SYSCALL != 0
    || b.mem.mem[b.dirs[cur]][va.pdx] == EMPTY
    || (perm.low & PTE_W != 0 && (e.None? || e.value.perm & PTE_W == 0))
  }
}
