/** The memory system calls (kern/syscall.c) on every live environment and
  every permission argument: exactly when they keep the kernel's invariant,
  and over every run of them.
 */
module CallCases {
  import opened Pmap
  import opened Teardown
  import opened EnvMemory
  import opened InsertCases

  // ------------------------------------------------------------------
  // sys_page_alloc
  // ------------------------------------------------------------------

  ghost predicate LiveAlloc(s: Phys, op: Op)
    requires Sized(s)
  {
    op.Alloc? && LiveDir(s, op.dst) && UserVa(op.dstva)
  }

  function Allocated(s: Phys, op: Op): (r: (Phys, Result))
    requires Sized(s) && LiveAlloc(s, op)
    ensures Sized(r.0) && |r.0.role| == |s.role|
  {
    SysPageAlloc(s, op.dst, op.dstva, op.perm)
  }

  /** Refused, or no memory, or the bits above the permissions leave the
      number of the page it is given as it is. */
  predicate AllocIsSafe(s: Phys, op: Op, n: nat)
    requires Sized(s) && LiveAlloc(s, op)
  {
    !AllocWrites(s, op.dst, op.dstva, op.perm)
    || (Fits(s.list[0], op.perm) && (Trans(s, op.dst, op.dstva).None? ==> n + 1 < REF_MOD))
  }

  lemma AllocExactly(s: Phys, op: Op, n: nat)
    requires Kernel(s, n) && LiveAlloc(s, op)
    ensures Inv(Allocated(s, op).0) <==> AllocIsSafe(s, op, n)
    ensures Allocated(s, op).1 != Halted
    ensures AllocWrites(s, op.dst, op.dstva, op.perm) ==> Allocated(s, op).1 == Done
  {
    hide TreeOk, CountsOk, FreeListOk, Settled, SysPageAlloc, Trans, Or;
    if !AllocWrites(s, op.dst, op.dstva, op.perm) {
      AllocIdle(s, op, n);
    } else {
      AllocWritten(s, op, n);
    }
  }

  lemma AllocWritten(s: Phys, op: Op, n: nat)
    requires Kernel(s, n) && LiveAlloc(s, op) && AllocWrites(s, op.dst, op.dstva, op.perm)
    ensures Inv(Allocated(s, op).0) <==>
            Fits(s.list[0], op.perm) && (Trans(s, op.dst, op.dstva).None? ==> n + 1 < REF_MOD)
    ensures Allocated(s, op).1 == Done
  {
    hide TreeOk, CountsOk, FreeListOk, Settled, PageInsertWord, SysPageAlloc, PageAlloc, Or, Trans, RoomAt, WordFor,
      UserPerm;
    var s1 := PageAlloc(s, true).0;
    var pp := s.list[0];
    AllocFresh(s, op, n);
    hide InsertIsSafe, Fits, Kernel;
    InsertWithPerm(s1, op.dst, pp, op.dstva, op.perm);
    AllocInserts(s, op, pp);
    FreshIsSafe(s, s1, op, pp, n);
  }

  lemma FreshIsSafe(s: Phys, s1: Phys, op: Op, pp: nat, n: nat)
    requires Sized(s) && Sized(s1) && LiveAlloc(s, op) && op.dst < |s1.role| && 0 < pp < |s1.pages|
    requires s1.pages[pp].ref == 0 && !Maps(s1, op.dst, op.dstva, pp) && s1.pages[0] == s.pages[0]
    requires Trans(s1, op.dst, op.dstva) == Trans(s, op.dst, op.dstva)
    requires n < REF_MOD && s.pages[0].ref == (REF_MOD - n) % REF_MOD
    ensures InsertIsSafe(s1, op.dst, pp, op.dstva, Or(pp, op.perm.high))
            <==> Fits(pp, op.perm) && (Trans(s, op.dst, op.dstva).None? ==> n + 1 < REF_MOD)
  {
    hide Trans, Or, Sized;
    LastCount(s, n);
  }

  /** sys_page_alloc once it has its page. */
  lemma AllocFresh(s: Phys, op: Op, n: nat)
    requires Kernel(s, n) && LiveAlloc(s, op) && AllocWrites(s, op.dst, op.dstva, op.perm)
    ensures
      var (s1, p) := PageAlloc(s, true); var pp := s.list[0];
      && p == To(pp) && Inv(s1) && LiveDir(s1, op.dst) && RoomAt(s1, op.dst, op.dstva)
      && 0 < pp < |s1.role| && s1.role[pp] == Data && s1.pages[pp].ref == 0 && !Maps(s1, op.dst, op.dstva, pp)
      && Trans(s1, op.dst, op.dstva) == Trans(s, op.dst, op.dstva) && s1.pages[0] == s.pages[0]
  {
    hide TreeOk, CountsOk, FreeListOk, Settled, Trans, PageAlloc;
    AllocTaken(s, op.dst, op.dstva, n);
    NotMapped(PageAlloc(s, true).0, op.dst, op.dstva, s.list[0]);
  }

  /** What sys_page_alloc does that stops before it writes. */
  lemma AllocIdle(s: Phys, op: Op, n: nat)
    requires Kernel(s, n) && LiveAlloc(s, op) && !AllocWrites(s, op.dst, op.dstva, op.perm)
    ensures Kernel(Allocated(s, op).0, n) && Allocated(s, op).1 != Halted
  {
    hide TreeOk, CountsOk, FreeListOk, Settled, PageInsertWord;
    assert Admissible(s, op);
    AllocKeeps(s, op.dst, op.dstva, op.perm, n);
  }

  lemma AllocInserts(s: Phys, op: Op, pp: nat)
    requires Sized(s) && LiveAlloc(s, op) && UserPerm(op.perm) && PageAlloc(s, true).1 == To(pp)
    requires PageInsertWord(PageAlloc(s, true).0, op.dst, pp, op.dstva, WordFor(pp, op.perm)).1 == Ok
    ensures Allocated(s, op) ==
              (PageInsertWord(PageAlloc(s, true).0, op.dst, pp, op.dstva, WordFor(pp, op.perm)).0, Done)
  {
    hide PageInsertWord, PageAlloc, Or;
  }

  /** A page with no references is mapped nowhere. */
  lemma NotMapped(s: Phys, d: nat, va: Va, p: nat)
    requires Inv(s) && LiveDir(s, d) && UserVa(va) && 0 < p < |s.role| && s.role[p] == Data && s.pages[p].ref == 0
    ensures !Maps(s, d, va, p)
  {
    if Maps(s, d, va, p) {
      MappedSlot(s, d, va);
      PositiveRef(s, Null, s.mem[d][va.pdx].frame, va.ptx, p);
    }
  }

  lemma LastCount(s: Phys, n: nat)
    requires Sized(s) && n < REF_MOD && s.pages[0].ref == (REF_MOD - n) % REF_MOD
    ensures s.pages[0].ref == 1 <==> n + 1 == REF_MOD
  {
  }

  /** The argument 0x1007: present, writable, user, and one bit above. */
  const WIDE: Perm := Perm(1, PTE_P | PTE_U | PTE_W)

  lemma {:induction false} OrOne(p: nat)
    ensures Or(p, 1) == if p % 2 == 0 then p + 1 else p
  {
    if p > 0 {
      assert Or(p, 1) == 2 * Or(p / 2, 0) + 1;
    }
  }

  /** sys_page_alloc with 0x1007 on a page of even number returns 0 and maps
      the page after it: the page taken is held by nothing, its count is one,
      and no call gives it back. */
  lemma WideAlloc(s: Phys, op: Op, n: nat)
    requires Kernel(s, n) && LiveAlloc(s, op) && op.perm == WIDE && AllocWrites(s, op.dst, op.dstva, WIDE)
    ensures
      var (s', r) := Allocated(s, op); var pp := s.list[0];
      && r == Done && (pp % 2 == 0 ==> !Inv(s') && Leaked(s', pp) && Maps(s', op.dst, op.dstva, pp + 1))
      && (pp % 2 == 1 && n + 1 < REF_MOD ==> Inv(s'))
  {
    hide TreeOk, CountsOk, FreeListOk, Settled, PageInsertWord, SysPageAlloc, PageAlloc, Swapped;
    var pp := s.list[0];
    OrOne(pp);
    AllocExactly(s, op, n);
    AllocFresh(s, op, n);
    if pp % 2 == 0 {
      var s0 := PageAlloc(s, true).0;
      var e := WordFor(pp, WIDE);
      var s1, t := InsertSwaps(s0, op.dst, pp, op.dstva, e);
      AllocInserts(s, op, pp);
      SwapLeaks(s1, Allocated(s, op).0, op.dst, op.dstva, t, pp, e);
    }
  }

  /** In use, counted once, and named by no table. */
  ghost predicate Leaked(s: Phys, p: nat)
    requires Sized(s)
  {
    p < |s.role| && s.role[p] == Data && s.pages[p].ref == 1 && Refs(s, p) == {}
  }

  lemma SwapLeaks(s: Phys, s': Phys, d: nat, va: Va, t: nat, pp: nat, e: Pte)
    requires Inv(s) && Sized(s') && |s'.role| == |s.role| && LiveDir(s, d) && UserVa(va) && 0 < pp < |s.role|
    requires t < |s.role| && s.role[t].Table? && s.mem[d][va.pdx] != EMPTY && s.mem[d][va.pdx].frame == t
    requires s.role[pp] == Data && s.pages[pp].ref == 0 && e.frame != pp && Present(e)
    requires Swapped(s, s', t, va.ptx, pp, e)
    ensures Leaked(s', pp) && Maps(s', d, va, e.frame)
  {
    hide TreeOk, CountsOk, FreeListOk, Refs;
    var o := s.mem[t][va.ptx].frame;
    CountIs(s, pp);
    InRefs(s, t, va.ptx, pp);
    SlotFrame(s, d, va, t);
    assert o != pp;
    NoRefsAfter(s, s', t, va.ptx, pp, e);
  }

  lemma NoRefsAfter(s: Phys, s': Phys, t: nat, j: nat, pp: nat, e: Pte)
    requires Inv(s) && Sized(s') && |s'.role| == |s.role| && t < |s.role| && j < NPTENTRIES && s.role[t].Table?
    requires Swapped(s, s', t, j, pp, e) && e.frame != pp && Refs(s, pp) == {}
    ensures Refs(s', pp) == {}
  {
    forall u: nat, k: nat | u < |s.role| && k < NPTENTRIES
      ensures !IsRef(s', u, k, pp)
    {
      SwapTables(s, s', t, j, pp, e, u);
      assert (u, k) !in Refs(s, pp);
    }
  }

  // ------------------------------------------------------------------
  // sys_page_map
  // ------------------------------------------------------------------

  ghost predicate LiveShare(s: Phys, op: Op)
    requires Sized(s)
  {
    op.Share? && LiveDir(s, op.src) && LiveDir(s, op.dst) && UserVa(op.srcva) && UserVa(op.dstva)
  }

  /** The call reaches page_insert: with the source slot's page, or with page
      0 when the table is there and the slot is empty. */
  predicate Reaches(s: Phys, op: Op)
    requires Sized(s) && op.Share? && op.src < |s.role| && UserVa(op.srcva)
  {
    && UserPerm(op.perm) && s.mem[op.src][op.srcva.pdx] != EMPTY
    && (op.perm.low & PTE_W == 0
        || (Trans(s, op.src, op.srcva).Some? && Trans(s, op.src, op.srcva).value.perm & PTE_W != 0))
  }

  /** The page the call goes on with. */
  function SourcePage(s: Phys, op: Op): nat
    requires Sized(s) && op.Share? && op.src < |s.role| && UserVa(op.srcva)
  {
    match Trans(s, op.src, op.srcva)
    case None => 0
    case Some(e) => e.frame
  }

  /** What a caller would have to know beforehand. Without room the call
      panics in page_free, unless it has page 0 and nothing was counted off
      it: then page 0 is freed. */
  predicate ShareIsSafe(s: Phys, op: Op, n: nat)
    requires Sized(s) && LiveShare(s, op)
  {
    !Reaches(s, op)
    || if SourcePage(s, op) >= |s.pages| then false
       else if RoomAt(s, op.dst, op.dstva)
       then InsertIsSafe(s, op.dst, SourcePage(s, op), op.dstva, Or(SourcePage(s, op), op.perm.high))
       else Trans(s, op.src, op.srcva).Some? || n > 0
  }

  function Shared(s: Phys, op: Op): (r: (Phys, Result))
    requires Sized(s) && LiveShare(s, op)
    ensures Sized(r.0) && |r.0.role| == |s.role|
  {
    SysPageMap(s, op.src, op.srcva, op.dst, op.dstva, op.perm)
  }

  lemma NoBits()
    ensures 0 as bv12 & PTE_W == 0
  {
  }

  /** The word sys_page_map reads, and what it does with it. */
  lemma ShareReads(s: Phys, op: Op)
    requires Inv(s) && LiveShare(s, op)
    ensures !Reaches(s, op) ==> Shared(s, op) == (s, Einval)
    ensures Reaches(s, op) ==> SourcePage(s, op) < |s.role|
    ensures Reaches(s, op) ==> if Trans(s, op.src, op.srcva).None? then SourcePage(s, op) == 0
                               else SourcePage(s, op) > 0 && s.role[SourcePage(s, op)] == Data
    ensures
      Reaches(s, op) ==>
        var pp := SourcePage(s, op);
        var (s2, o) := PageInsertWord(s, op.dst, pp, op.dstva, WordFor(pp, op.perm));
        Shared(s, op) ==
          match o
          case Ok => (s2, Done)
          case Panic => (s2, Halted)
          case NoMem =>
            match PageFree(s2, pp)
            case None => (s2, Halted)
            case Some(s3) => (s3, Enomem)
  {
    hide PageInsertWord, FreeListOk, Or;
    NoBits();
    if s.mem[op.src][op.srcva.pdx] != EMPTY {
      MappedSlot(s, op.src, op.srcva);
    }
    ZeroIsReserved(s);
  }

  /** sys_page_map between live environments keeps the kernel's invariant
      exactly when it is safe. */
  lemma ShareExactly(s: Phys, op: Op, n: nat)
    requires Kernel(s, n) && LiveShare(s, op)
    ensures Inv(Shared(s, op).0) <==> ShareIsSafe(s, op, n)
    ensures Reaches(s, op) && RoomAt(s, op.dst, op.dstva) ==> Shared(s, op).1 == Done
  {
    hide TreeOk, CountsOk, FreeListOk, Settled, SysPageMap, Trans, InsertIsSafe, Or, Reaches, RoomAt;
    ShareReads(s, op);
    if Reaches(s, op) {
      if RoomAt(s, op.dst, op.dstva) {
        ShareWrites(s, op);
      } else {
        ShareNoRoom(s, op, n);
      }
    }
  }

  lemma ShareWrites(s: Phys, op: Op)
    requires Inv(s) && LiveShare(s, op) && Reaches(s, op) && RoomAt(s, op.dst, op.dstva)
             && SourcePage(s, op) < |s.pages|
    ensures Shared(s, op).1 == Done
    ensures Inv(Shared(s, op).0) <==>
              InsertIsSafe(s, op.dst, SourcePage(s, op), op.dstva, Or(SourcePage(s, op), op.perm.high))
  {
    hide TreeOk, CountsOk, FreeListOk, PageInsertWord, SysPageMap, Trans, InsertIsSafe, Or, Reaches, RoomAt,
      SourcePage, WordFor;
    ShareReads(s, op);
    InsertWithPerm(s, op.dst, SourcePage(s, op), op.dstva, op.perm);
  }

  /** No table and no page to make one: page_free on the source page. */
  lemma ShareNoRoom(s: Phys, op: Op, n: nat)
    requires Kernel(s, n) && LiveShare(s, op) && Reaches(s, op) && !RoomAt(s, op.dst, op.dstva)
    requires SourcePage(s, op) < |s.pages|
    ensures
      var (s', r) := Shared(s, op);
      && (Inv(s') <==> Trans(s, op.src, op.srcva).Some? || n > 0)
      && (if Trans(s, op.src, op.srcva).Some? || n > 0 then r == Halted && s' == s else r == Enomem && s'.free == To(0))
  {
    hide TreeOk, FreeListOk, Settled, PageInsertWord, Reaches, Trans, Or, SysPageMap;
    ShareReads(s, op);
    var pp := SourcePage(s, op);
    InsertNoMem(s, op.dst, pp, op.dstva, WordFor(pp, op.perm));
    ZeroIsReserved(s);
    if Trans(s, op.src, op.srcva).Some? {
      SourceCounted(s, op);
    }
  }

  lemma SourceCounted(s: Phys, op: Op)
    requires Inv(s) && LiveShare(s, op) && Trans(s, op.src, op.srcva).Some?
    ensures SourcePage(s, op) < |s.pages| && s.pages[SourcePage(s, op)].ref != 0
  {
    ShareReaches(s, op.src, op.srcva);
  }

  /** An empty source slot of an existing table, asked for without write
      access: the call maps page 0, or frees it when there is no memory. */
  lemma EmptySource(s: Phys, op: Op, n: nat)
    requires Kernel(s, n) && LiveShare(s, op) && Reaches(s, op) && Trans(s, op.src, op.srcva).None?
    ensures
      var (s', r) := Shared(s, op);
      && (Inv(s') <==> !RoomAt(s, op.dst, op.dstva) && n > 0)
      && (RoomAt(s, op.dst, op.dstva) ==> r == Done)
      && (!RoomAt(s, op.dst, op.dstva) && n == 0 ==> r == Enomem && s'.free == To(0))
  {
    hide TreeOk, CountsOk, FreeListOk, Settled, SysPageMap, Reaches;
    ShareReads(s, op);
    ShareExactly(s, op, n);
    if !RoomAt(s, op.dst, op.dstva) {
      ShareNoRoom(s, op, n);
    }
  }

  /** A source page whose count is already the largest one wraps to zero,
      unless the page was mapped there already. */
  lemma FullCount(s: Phys, op: Op, n: nat)
    requires Kernel(s, n) && LiveShare(s, op) && Reaches(s, op) && Trans(s, op.src, op.srcva).Some?
    requires RoomAt(s, op.dst, op.dstva) && SourcePage(s, op) < |s.pages| && Fits(SourcePage(s, op), op.perm)
    requires s.pages[SourcePage(s, op)].ref == REF_MOD - 1
    ensures Shared(s, op).1 == Done
    ensures Inv(Shared(s, op).0) <==> Maps(s, op.dst, op.dstva, SourcePage(s, op))
  {
    hide Settled, SysPageMap, Reaches, RoomAt, Trans, Or, TreeOk, CountsOk, FreeListOk;
    ShareReads(s, op);
    ShareExactly(s, op, n);
  }

  // ------------------------------------------------------------------
  // Every call and every run of the environments
  // ------------------------------------------------------------------

  /** The environments named exist and the addresses are below UTOP; nothing
      else is asked of the caller. */
  ghost predicate Live(s: Phys, op: Op)
    requires Sized(s)
  {
    match op
    case Alloc(_, _, _) => LiveAlloc(s, op)
    case Share(_, _, _, _, _) => LiveShare(s, op)
    case _ => Admissible(s, op)
  }

  function Call(s: Phys, op: Op): (r: (Phys, Result))
    requires Sized(s) && Live(s, op)
    ensures Sized(r.0) && |r.0.role| == |s.role|
  {
    match op
    case Alloc(_, _, _) => Allocated(s, op)
    case Share(_, _, _, _, _) => Shared(s, op)
    case _ => Step(s, op)
  }

  ghost function Takes(s: Phys, op: Op): nat
    requires Sized(s) && Live(s, op)
  {
    if Admissible(s, op) then Empties(s, op) else 0
  }

  /** Can be told before the call, from n and the state. */
  ghost predicate Safe(s: Phys, op: Op, n: nat)
    requires Sized(s) && Live(s, op)
  {
    match op
    case Alloc(_, _, _) => AllocIsSafe(s, op, n)
    case Share(_, _, _, _, _) => ShareIsSafe(s, op, n)
    case _ => n + Empties(s, op) < REF_MOD
  }

  lemma CallExactly(s: Phys, op: Op, n: nat)
    requires Kernel(s, n) && Live(s, op)
    ensures Inv(Call(s, op).0) <==> Safe(s, op, n)
    ensures Safe(s, op, n) ==> Kernel(Call(s, op).0, n + Takes(s, op))
  {
    hide TreeOk, CountsOk, FreeListOk, Settled, Step, Empties, SysPageMap, SysPageAlloc, ShareIsSafe, AllocIsSafe;
    if op.Share? {
      ShareExactly(s, op, n);
      if Safe(s, op, n) {
        SafeShareKeeps(s, op, n);
      }
    } else if op.Alloc? {
      AllocExactly(s, op, n);
      if Safe(s, op, n) {
        SafeAllocKeeps(s, op, n);
      }
    } else {
      PageZeroIsFreed(s, op, n);
      if Safe(s, op, n) {
        StepKeeps(s, op, n);
      }
    }
  }

  lemma SafeAllocKeeps(s: Phys, op: Op, n: nat)
    requires Kernel(s, n) && LiveAlloc(s, op) && AllocIsSafe(s, op, n)
    ensures Live(s, op) && Kernel(Allocated(s, op).0, n + Takes(s, op))
  {
    hide TreeOk, CountsOk, FreeListOk, Settled, Trans, Or, SysPageAlloc;
    assert Admissible(s, op);
    StepKeeps(s, op, n);
    assert Step(s, op) == Allocated(s, op);
  }

  lemma SafeShareKeeps(s: Phys, op: Op, n: nat)
    requires Kernel(s, n) && LiveShare(s, op) && ShareIsSafe(s, op, n)
    ensures Live(s, op) && Kernel(Shared(s, op).0, n + Takes(s, op))
  {
    hide TreeOk, CountsOk, FreeListOk, Settled, SysPageMap, PageInsertWord, Or;
    ShareReads(s, op);
    if Admissible(s, op) {
      AdmissibleTakes(s, op, n);
      StepKeeps(s, op, n);
      assert Step(s, op) == Shared(s, op);
    } else if !Reaches(s, op) {
    } else if !RoomAt(s, op.dst, op.dstva) {
      ShareNoRoom(s, op, n);
    } else {
      SafeRewrite(s, op);
    }
  }

  lemma AdmissibleTakes(s: Phys, op: Op, n: nat)
    requires Kernel(s, n) && op.Share? && Admissible(s, op) && ShareIsSafe(s, op, n)
    ensures n + Empties(s, op) < REF_MOD
  {
    hide TreeOk, CountsOk, FreeListOk, Settled, Or;
    LastCount(s, n);
  }

  /** Safe though not admissible: the page was mapped there already. */
  lemma SafeRewrite(s: Phys, op: Op)
    requires Inv(s) && Settled(s) && LiveShare(s, op) && Reaches(s, op) && RoomAt(s, op.dst, op.dstva)
    requires !Admissible(s, op) && SourcePage(s, op) < |s.pages|
    requires InsertIsSafe(s, op.dst, SourcePage(s, op), op.dstva, Or(SourcePage(s, op), op.perm.high))
    ensures Inv(Shared(s, op).0) && Settled(Shared(s, op).0) && Shared(s, op).0.pages == s.pages
  {
    hide TreeOk, CountsOk, FreeListOk, Settled, SysPageMap, PageInsertWord, Or, WordFor, UserPerm;
    ShareReads(s, op);
    RewriteWithPerm(s, op.dst, SourcePage(s, op), op.dstva, op.perm);
  }

  ghost predicate LiveRun(s: Phys, ops: seq<Op>)
    requires Sized(s)
    decreases |ops|
  {
    ops == [] || (Live(s, ops[0]) && LiveRun(Call(s, ops[0]).0, ops[1..]))
  }

  /** The invariant holds before, between and after the calls. */
  ghost predicate AllInv(s: Phys, ops: seq<Op>)
    requires Sized(s) && LiveRun(s, ops)
    decreases |ops|
  {
    Inv(s) && (ops == [] || AllInv(Call(s, ops[0]).0, ops[1..]))
  }

  ghost predicate SafeRun(s: Phys, ops: seq<Op>, n: nat)
    requires Sized(s) && LiveRun(s, ops)
    decreases |ops|
  {
    ops == [] || (Safe(s, ops[0], n) && SafeRun(Call(s, ops[0]).0, ops[1..], n + Takes(s, ops[0])))
  }

  /** Over every run of calls by live environments the kernel's invariant
      holds throughout exactly when every call is safe as it is made. */
  lemma {:induction false} RunsExactly(s: Phys, ops: seq<Op>, n: nat)
    requires Kernel(s, n) && LiveRun(s, ops)
    ensures AllInv(s, ops) <==> SafeRun(s, ops, n)
    decreases |ops|
  {
    hide TreeOk, CountsOk, FreeListOk, Settled, Call, Takes, Safe, Live;
    if ops != [] {
      CallExactly(s, ops[0], n);
      if Safe(s, ops[0], n) {
        RunsExactly(Call(s, ops[0]).0, ops[1..], n + Takes(s, ops[0]));
      } else {
        assert !Inv(Call(s, ops[0]).0);
      }
    }
  }

  // ------------------------------------------------------------------
  // What the calls answer
  // ------------------------------------------------------------------

  /** The permission argument lacks PTE_U or PTE_P. */
  predicate LacksBits(perm: Perm) {
    perm.low & PTE_U == 0 || perm.low & PTE_P == 0
  }

  lemma BitsAsked(perm: Perm)
    ensures UserPerm(perm) <==> !LacksBits(perm)
  {
    var low := perm.low;
    assert low & (PTE_U | PTE_P) == PTE_U | PTE_P <==> low & PTE_U != 0 && low & PTE_P != 0;
  }

  /** sys_page_alloc answers -E_INVAL exactly when PTE_U or PTE_P is missing,
      and changes nothing then; -E_NO_MEM when no page is left, or one that
      would be needed for the table; and 0 otherwise. */
  lemma AllocAnswers(s: Phys, op: Op, n: nat)
    requires Kernel(s, n) && LiveAlloc(s, op)
    ensures
      var (s', r) := Allocated(s, op);
      var pages := if s.mem[op.dst][op.dstva.pdx] == EMPTY then 2 else 1;
      && (r == Einval <==> LacksBits(op.perm)) && (r == Einval ==> s' == s)
      && (r == Enomem <==> !LacksBits(op.perm) && |s.list| < pages)
      && (r == Done <==> !LacksBits(op.perm) && |s.list| >= pages)
  {
    hide TreeOk, CountsOk, FreeListOk, Settled, SysPageAlloc, UserPerm, LacksBits;
    BitsAsked(op.perm);
    if AllocWrites(s, op.dst, op.dstva, op.perm) {
      AllocExactly(s, op, n);
    } else {
      AllocRefuses(s, op, n);
    }
  }

  lemma AllocRefuses(s: Phys, op: Op, n: nat)
    requires Kernel(s, n) && LiveAlloc(s, op) && !AllocWrites(s, op.dst, op.dstva, op.perm)
    ensures Allocated(s, op).1 == if UserPerm(op.perm) then Enomem else Einval
    ensures !UserPerm(op.perm) ==> Allocated(s, op).0 == s
  {
    hide TreeOk, CountsOk, Settled, PageInsertWord, UserPerm;
    if UserPerm(op.perm) && |s.list| == 1 {
      AllocFails(s, op.dst, op.dstva, op.perm, n);
    }
  }

  /** sys_page_map answers -E_INVAL exactly when PTE_U or PTE_P is missing, or
      the source has no page table there, or its word does not have the write
      access that is asked for; then nothing has changed. */
  lemma ShareAnswers(s: Phys, op: Op, n: nat)
    requires Kernel(s, n) && LiveShare(s, op)
    ensures
      var (s', r) := Shared(s, op);
      var src := Trans(s, op.src, op.srcva);
      var refused := LacksBits(op.perm) || s.mem[op.src][op.srcva.pdx] == EMPTY
                     || (op.perm.low & PTE_W != 0 && (src.None? || src.value.perm & PTE_W == 0));
      var room := s.mem[op.dst][op.dstva.pdx] != EMPTY || s.list != [];
      && (r == Einval <==> refused) && (r == Einval ==> s' == s)
      && (r == Done <==> !refused && room)
      && (r == Halted <==> !refused && !room && (src.Some? || n > 0))
      && (r == Enomem <==> !refused && !room && src.None? && n == 0)
  {
    hide TreeOk, CountsOk, FreeListOk, Settled, SysPageMap, UserPerm, LacksBits, Trans, Shared, ShareIsSafe, SourcePage;
    BitsAsked(op.perm);
    ShareReads(s, op);
    if Reaches(s, op) {
      if RoomAt(s, op.dst, op.dstva) {
        ShareExactly(s, op, n);
      } else {
        ShareNoRoom(s, op, n);
      }
    }
  }
}
