/** The page part of sys_ipc_try_send (kern/syscall.c): what a page sent with a
  message does to the reference counts.
 */
module PageSend {
  import opened Pmap
  import opened Teardown
  import opened EnvMemory
  import opened InsertCases
  import opened CallCases

  // PTE_AVAIL | PTE_P | PTE_W | PTE_U
  const PTE_SYSCALL: bv12 := 0xE07

  /** No bit outside PTE_SYSCALL. */
  predicate SyscallPerm(perm: Perm) {
    perm.high == 0 && perm.low | PTE_SYSCALL == PTE_SYSCALL
  }

  /** Unlike sys_page_map, it looks at every bit of its argument, and running
      out of memory is an error return. */
  function SendPage(s: Phys, src: nat, srcva: Va, dst: nat, dstva: Va, perm: Perm): (r: (Phys, Result))
    requires Sized(s) && src < |s.role| && dst < |s.role| && UserVa(srcva) && AnyVa(dstva)
    ensures Sized(r.0) && |r.0.role| == |s.role|
  {
    if !SyscallPerm(perm) || !UserPerm(perm) then (s, Einval)
    else
      match PgdirWalk(s, src, srcva, false).1
      case NoSlot => (s, Einval)
      case BadFrame => (s, Halted)
      case Slot(t) =>
        var pte := s.mem[t][srcva.ptx];
        if pte.frame >= |s.pages| then (s, Halted)
        else if perm.low & PTE_W != 0 && pte.perm & PTE_W == 0 then (s, Einval)
        else
          var (s2, o) := PageInsertWord(s, dst, pte.frame, dstva, WordFor(pte.frame, perm));
          match o
          case Ok => (s2, Done)
          case Panic => (s2, Halted)
          case NoMem => (s2, Enomem)
  }

  predicate SendAllowed(s: Phys, src: nat, srcva: Va, perm: Perm)
    requires Sized(s) && src < |s.role| && UserVa(srcva)
  {
    SyscallPerm(perm) && ShareAllowed(s, src, srcva, perm)
  }

  /** A page that is sent arrives at the receiver's address with the
      permissions asked for, its count goes up by one unless it was mapped
      there already, and the kernel's invariant holds. */
  lemma SentPageAddsOneReference(s: Phys, op: Op, n: nat)
    requires Kernel(s, n) && op.Share? && Admissible(s, op) && SendAllowed(s, op.src, op.srcva, op.perm)
    requires s.mem[op.dst][op.dstva.pdx] != EMPTY || s.list != []
    requires n + Empties(s, op) < REF_MOD
    ensures
      var (s', r) := SendPage(s, op.src, op.srcva, op.dst, op.dstva, op.perm);
      var pp := Trans(s, op.src, op.srcva).value.frame;
      var there := Trans(s, op.dst, op.dstva);
      && r == Done && Kernel(s', n + Empties(s, op)) && pp < |s.pages|
      && Trans(s', op.dst, op.dstva) == Some(Pte(pp, op.perm.low | PTE_P)) && OnlyAt(s, s', op.dst, op.dstva)
      && s'.pages[pp].ref == s.pages[pp].ref + (if there.Some? && there.value.frame == pp then 0 else 1)
  {
    hide TreeOk, FreeListOk, CountsOk, Or;
    ShareReaches(s, op.src, op.srcva);
    var pp := Trans(s, op.src, op.srcva).value.frame;
    InsertedKernel(s, op.dst, pp, op.dstva, op.perm.low, n);
    InsertCounts(s, op.dst, pp, op.dstva, op.perm.low, n);
  }

  function Sent(s: Phys, op: Op): (r: (Phys, Result))
    requires Sized(s) && LiveShare(s, op)
    ensures Sized(r.0) && |r.0.role| == |s.role|
  {
    SendPage(s, op.src, op.srcva, op.dst, op.dstva, op.perm)
  }

  /** Between live environments and below UTOP, sending a page keeps the
      invariant exactly when its permissions are refused, there is no memory
      for it, or sys_page_map of the same page would be safe. */
  lemma SendExactly(s: Phys, op: Op, n: nat)
    requires Kernel(s, n) && LiveShare(s, op)
    ensures Inv(Sent(s, op).0) <==>
              !SyscallPerm(op.perm) || !RoomAt(s, op.dst, op.dstva) || ShareIsSafe(s, op, n)
  {
    hide TreeOk, CountsOk, FreeListOk, Settled, PageInsertWord, ShareIsSafe, SyscallPerm, SendPage, SysPageMap;
    ShareExactly(s, op, n);
    ShareReads(s, op);
    SendReads(s, op);
  }

  /** Where it is not refused and has room it is sys_page_map; without room it
      changes nothing. */
  lemma SendReads(s: Phys, op: Op)
    requires Inv(s) && LiveShare(s, op)
    ensures !SyscallPerm(op.perm) || !Reaches(s, op) ==> Sent(s, op) == (s, Einval)
    ensures SyscallPerm(op.perm) && Reaches(s, op) && !RoomAt(s, op.dst, op.dstva) ==> Sent(s, op) == (s, Enomem)
    ensures SyscallPerm(op.perm) && Reaches(s, op) && RoomAt(s, op.dst, op.dstva) ==>
              Sent(s, op) == Shared(s, op) && Sent(s, op).1 == Done
  {
    hide PageInsertWord, FreeListOk, Or, SyscallPerm;
    NoBits();
    ShareReads(s, op);
    if s.mem[op.src][op.srcva.pdx] != EMPTY {
      MappedSlot(s, op.src, op.srcva);
    }
    if Reaches(s, op) {
      var pp := SourcePage(s, op);
      if RoomAt(s, op.dst, op.dstva) {
        InsertExactly(s, op.dst, pp, op.dstva, Or(pp, op.perm.high), op.perm.low);
      } else {
        InsertNoMem(s, op.dst, pp, op.dstva, WordFor(pp, op.perm));
      }
    }
  }

  /** Sending a page answers -E_INVAL exactly when the argument lacks PTE_U or
      PTE_P or has any bit outside PTE_SYSCALL, or the source has no page table
      there, or its word does not have the write access that is asked for;
      -E_NO_MEM exactly when there is no table and no page to make one. Both
      change nothing. */
  lemma SendAnswers(s: Phys, op: Op)
    requires Inv(s) && LiveShare(s, op)
    ensures
      var (s', r) := Sent(s, op);
      var src := Trans(s, op.src, op.srcva);
      var refused := LacksBits(op.perm) || op.perm.high != 0 || op.perm.low & !PTE_SYSCALL != 0
                     || s.mem[op.src][op.srcva.pdx] == EMPTY
                     || (op.perm.low & PTE_W != 0 && (src.None? || src.value.perm & PTE_W == 0));
      var room := s.mem[op.dst][op.dstva.pdx] != EMPTY || s.list != [];
      && (r == Einval <==> refused) && (r == Enomem <==> !refused && !room) && (r == Done <==> !refused && room)
      && (r != Done ==> s' == s)
  {
    hide TreeOk, CountsOk, FreeListOk, UserPerm, LacksBits, Trans, Sent, Shared, SyscallPerm;
    BitsAsked(op.perm);
    OutsideSyscall(op.perm);
    SendReads(s, op);
  }

  lemma OutsideSyscall(perm: Perm)
    ensures SyscallPerm(perm) <==> perm.high == 0 && perm.low & !PTE_SYSCALL == 0
  {
    var low := perm.low;
    assert low | PTE_SYSCALL == PTE_SYSCALL <==> low & !PTE_SYSCALL == 0;
  }

  lemma InsertCounts(s: Phys, d: nat, pp: nat, va: Va, perm: bv12, n: nat)
    requires Kernel(s, n) && UserVa(va) && LiveDir(s, d)
    requires pp < |s.role| && s.role[pp] == Data && s.pages[pp].ref < REF_MOD - 1
    requires PageInsert(s, d, pp, va, perm).1 == Ok && Inserted(s, PageInsert(s, d, pp, va, perm).0, d, pp, va, perm)
    requires n + (if Trans(s, d, va).None? then 1 else 0) < REF_MOD
    ensures
      var there := Trans(s, d, va);
      PageInsert(s, d, pp, va, perm).0.pages[pp].ref ==
        s.pages[pp].ref + (if there.Some? && there.value.frame == pp then 0 else 1)
  {
    hide TreeOk, FreeListOk, CountsOk, Floating;
    var s' := PageInsert(s, d, pp, va, perm).0;
    if Trans(s, d, va).None? { ZeroStep(s, n); }
    var old_, new_ := Refs(s, pp), Refs(s', pp);
    var slot := InsertSlot(s, d, pp, va, perm);
    NotZero(s, pp);
    CountOf(s, pp);
    ArrivedIsData(s', d, va, pp);
    CountOf(s', pp);
    assert new_ == old_ + {slot};
    if slot in old_ {
      assert new_ == old_;
    }
  }

  /** The slot of va after page_insert, which counted for pp before exactly
      when pp was mapped there. */
  lemma InsertSlot(s: Phys, d: nat, pp: nat, va: Va, perm: bv12) returns (slot: (nat, nat))
    requires Inv(s) && UserVa(va) && LiveDir(s, d) && ZeroSafe(s, d, va)
    requires pp < |s.role| && s.role[pp] == Data && s.pages[pp].ref < REF_MOD - 1
    requires PageInsert(s, d, pp, va, perm).1 == Ok
    ensures Refs(PageInsert(s, d, pp, va, perm).0, pp) == Refs(s, pp) + {slot}
    ensures slot in Refs(s, pp) <==> Trans(s, d, va).Some? && Trans(s, d, va).value.frame == pp
  {
    hide TreeOk, FreeListOk, CountsOk, OnlyAt, PgdirWalk, InsertWord;
    ZeroIsReserved(s);
    WalkKeepsInv(s, d, va);
    WalkTrans(s, d, va);
    WalkKeepsPage(s, d, va, d);
    WalkKeepsPage(s, d, va, pp);
    WalkKeepsPage(s, d, va, 0);
    WalkRefs(s, d, va, pp);
    var (s1, w) := PgdirWalk(s, d, va, true);
    InsertAtRefs(s1, d, pp, va, perm, w.table, pp);
    slot := (w.table, va.ptx);
    SlotRef(s1, d, va, pp);
  }

  lemma SlotRef(s: Phys, d: nat, va: Va, pp: nat)
    requires Inv(s) && LiveDir(s, d) && UserVa(va) && s.mem[d][va.pdx] != EMPTY
    ensures (s.mem[d][va.pdx].frame, va.ptx) in Refs(s, pp) <==>
            Trans(s, d, va).Some? && Trans(s, d, va).value.frame == pp
  {
    MappedSlot(s, d, va);
    var t := s.mem[d][va.pdx].frame;
    assert (t, va.ptx) in Refs(s, pp) <==> IsRef(s, t, va.ptx, pp);
  }

  lemma ArrivedIsData(s: Phys, d: nat, va: Va, pp: nat)
    requires Inv(s) && LiveDir(s, d) && UserVa(va) && Trans(s, d, va).Some? && Trans(s, d, va).value.frame == pp
    ensures pp < |s.role| && s.role[pp] == Data
  {
    MappedSlot(s, d, va);
  }
}
