/** The words of page directories over whole runs (kern/pmap.c, kern/env.c),
  and with them what the MMU makes of the tables, the UVPT window included.
 */
module DirWords {
  import opened Pmap
  import opened Teardown
  import opened EnvMemory
  import opened InsertCases
  import opened CallCases

  // ------------------------------------------------------------------
  // What every run keeps of the directories
  // ------------------------------------------------------------------

  /** Above UTOP every directory has kern_pgdir's words, but for the one that
      names the directory itself. */
  ghost predicate KernelHalf(s: Phys)
    requires Sized(s)
  {
    forall d: nat, i: nat | d < |s.role| && s.role[d] == Dir && UPDE <= i < NPTENTRIES && i != UVPT_PDE ::
      s.mem[d][i] == s.mem[s.kern][i]
  }

  /** What pgdir_walk writes into a directory: the table's own words decide. */
  const OPEN: bv12 := PTE_P | PTE_W | PTE_U

  ghost predicate TablesOpen(s: Phys)
    requires Sized(s)
  {
    forall d: nat, i: nat | d < |s.role| && s.role[d] == Dir && i < UPDE ::
      s.mem[d][i] == EMPTY || s.mem[d][i].perm == OPEN
  }

  /** Every directory is its own page table at UVPT, to be read by the user. */
  ghost predicate SelfMapped(s: Phys)
    requires Sized(s)
  {
    forall d: nat | d < |s.role| && s.role[d] == Dir :: s.mem[d][UVPT_PDE] == Pte(d, PTE_P | PTE_U)
  }

  ghost predicate DirsOk(s: Phys)
    requires Sized(s)
  {
    KernelHalf(s) && TablesOpen(s) && SelfMapped(s)
  }

  /** Directories are kept, but for words below UTOP that name a table now, and
      none is new. */
  ghost predicate WordsKept(s: Phys, s': Phys)
    requires Sized(s) && Sized(s') && |s'.role| == |s.role|
  {
    && s'.kern == s.kern && s'.mem[s.kern] == s.mem[s.kern]
    && (forall d: nat | d < |s.role| && s'.role[d] == Dir :: s.role[d] == Dir)
    && (forall d: nat, i: nat | d < |s.role| && s'.role[d] == Dir && i < NPTENTRIES ::
          s'.mem[d][i] == s.mem[d][i] || (i < UPDE && s'.mem[d][i].perm == OPEN))
  }

  lemma WordsThen(s: Phys, s1: Phys, s': Phys)
    requires Sized(s) && Sized(s1) && Sized(s') && |s1.role| == |s'.role| == |s.role|
    requires WordsKept(s, s1) && WordsKept(s1, s')
    ensures WordsKept(s, s')
  {
    forall d: nat, i: nat | d < |s.role| && s'.role[d] == Dir && i < NPTENTRIES
      ensures s'.mem[d][i] == s.mem[d][i] || (i < UPDE && s'.mem[d][i].perm == OPEN)
    {
      assert s'.mem[d][i] == s1.mem[d][i] || (i < UPDE && s'.mem[d][i].perm == OPEN);
    }
  }

  lemma WordsStay(s: Phys, s': Phys)
    requires Sized(s) && Sized(s') && |s'.role| == |s.role| && DirsOk(s) && WordsKept(s, s')
    ensures DirsOk(s')
  {
  }

  lemma TakenWords(s: Phys, s': Phys, p: nat)
    requires Sized(s) && Sized(s') && Taken(s, s', p, true) && s.role[p] == Free && s.role[s.kern] == Reserved
    ensures WordsKept(s, s')
  {
  }

  lemma HungWords(s: Phys, s': Phys, d: nat, i: nat, t: nat)
    requires Sized(s) && Sized(s') && |s'.role| == |s.role| && Hung(s, s', d, i, t)
    requires s.role[d] == Dir && s.role[s.kern] == Reserved
    ensures WordsKept(s, s')
  {
  }

  lemma WalkWords(s: Phys, d: nat, va: Va)
    requires Inv(s) && LiveDir(s, d) && UserVa(va)
    ensures WordsKept(s, PgdirWalk(s, d, va, true).0)
  {
    hide TreeOk, CountsOk, FreeListOk, PgdirWalk, PageAlloc, WordsKept, Taken, Hung;
    WalkCases(s, d, va);
    KernReserved(s);
    var s' := PgdirWalk(s, d, va, true).0;
    if s' == s {
      WordsRefl(s);
    } else {
      var (s1, p) := PageAlloc(s, true);
      KernReserved(s1);
      TakenWords(s, s1, p.page);
      HungWords(s1, s', d, va.pdx, p.page);
      WordsThen(s, s1, s');
    }
  }

  lemma WordsRefl(s: Phys)
    requires Sized(s)
    ensures WordsKept(s, s)
  {
  }

  lemma SwapWords(s: Phys, s': Phys, t: nat, j: nat, pp: nat, e: Pte)
    requires Sized(s) && Sized(s') && |s'.role| == |s.role| && t < |s.role| && j < NPTENTRIES && s.role[t].Table?
    requires Swapped(s, s', t, j, pp, e) && s'.kern == s.kern && s.role[s.kern] == Reserved
    ensures WordsKept(s, s')
  {
  }

  lemma InsertKern(s: Phys, d: nat, pp: nat, va: Va, e: Pte)
    requires Sized(s) && AnyVa(va) && d < |s.role| && pp < |s.role|
    ensures PageInsertWord(s, d, pp, va, e).0.kern == s.kern
  {
  }

  lemma InsertWords(s: Phys, d: nat, pp: nat, va: Va, e: Pte)
    requires Inv(s) && LiveDir(s, d) && UserVa(va) && pp < |s.role| && s.role[pp] != Free
    ensures WordsKept(s, PageInsertWord(s, d, pp, va, e).0)
  {
    hide PageInsertWord, TreeOk, CountsOk, FreeListOk, PgdirWalk, WordsKept, Swapped;
    if RoomAt(s, d, va) {
      WalkWords(s, d, va);
      var s1, t := InsertSwaps(s, d, pp, va, e);
      var s' := PageInsertWord(s, d, pp, va, e).0;
      InsertKern(s, d, pp, va, e);
      WordsKern(s, s1);
      KernReserved(s1);
      SwapWords(s1, s', t, va.ptx, pp, e);
      WordsThen(s, s1, s');
    } else {
      InsertNoMem(s, d, pp, va, e);
      WordsRefl(s);
    }
  }

  lemma WordsKern(s: Phys, s': Phys)
    requires Sized(s) && Sized(s') && |s'.role| == |s.role| && WordsKept(s, s')
    ensures s'.kern == s.kern
  {
  }

  /** page_free changes no word; the page it frees is no directory then. */
  lemma FreeWords(s: Phys, p: nat)
    requires Sized(s) && p < |s.pages| && PageFree(s, p).Some?
    ensures WordsKept(s, PageFree(s, p).value)
  {
  }

  lemma AllocWords(s: Phys, op: Op)
    requires Inv(s) && LiveAlloc(s, op)
    ensures WordsKept(s, Allocated(s, op).0)
  {
    hide TreeOk, CountsOk, FreeListOk, PageAlloc, PageInsertWord, PageFree, WordsKept, Or, UserPerm, Taken;
    if UserPerm(op.perm) {
      AllocKeepsInv(s, true);
      var (s1, p) := PageAlloc(s, true);
      if p.To? {
        KernReserved(s);
        TakenWords(s, s1, p.page);
        TakenLive(s, s1, p.page, op.dst);
        InsertWords(s1, op.dst, p.page, op.dstva, WordFor(p.page, op.perm));
        var s2 := PageInsertWord(s1, op.dst, p.page, op.dstva, WordFor(p.page, op.perm)).0;
        WordsThen(s, s1, s2);
        if PageFree(s2, p.page).Some? {
          FreeWords(s2, p.page);
          WordsThen(s, s2, PageFree(s2, p.page).value);
        }
      } else {
        WordsRefl(s);
      }
    } else {
      WordsRefl(s);
    }
  }

  lemma TakenLive(s: Phys, s1: Phys, p: nat, d: nat)
    requires Sized(s) && Taken(s, s1, p, true) && s.role[p] == Free && LiveDir(s, d)
    ensures LiveDir(s1, d) && s1.role[p] == Data
  {
  }

  lemma ShareWords(s: Phys, op: Op)
    requires Inv(s) && LiveShare(s, op)
    ensures WordsKept(s, Shared(s, op).0)
  {
    hide TreeOk, CountsOk, FreeListOk, PageInsertWord, PageFree, WordsKept, Or, Shared, Reaches;
    ShareReads(s, op);
    if Reaches(s, op) {
      var pp := SourcePage(s, op);
      ZeroIsReserved(s);
      InsertWords(s, op.dst, pp, op.dstva, WordFor(pp, op.perm));
      var s2 := PageInsertWord(s, op.dst, pp, op.dstva, WordFor(pp, op.perm)).0;
      if PageFree(s2, pp).Some? {
        FreeWords(s2, pp);
        WordsThen(s, s2, PageFree(s2, pp).value);
      }
    } else {
      WordsRefl(s);
    }
  }

  lemma UnmapWords(s: Phys, d: nat, va: Va)
    requires Inv(s) && LiveDir(s, d) && UserVa(va) && PageRemove(s, d, va).Some?
    ensures WordsKept(s, PageRemove(s, d, va).value)
  {
    hide CountsOk, FreeListOk;
    KernReserved(s);
    if s.mem[d][va.pdx] != EMPTY {
      MappedSlot(s, d, va);
    }
  }

  lemma WriteWords(s: Phys, d: nat, va: Va, j: nat, word: Pte)
    requires Inv(s) && LiveDir(s, d) && UserVa(va) && j < NPTENTRIES
    ensures WordsKept(s, Store(s, d, va, j, word))
  {
    hide CountsOk, FreeListOk;
    KernReserved(s);
    if Trans(s, d, va).Some? {
      MappedSlot(s, d, va);
    }
  }

  lemma DestroyWords(s: Phys, d: nat)
    requires Inv(s) && LiveDir(s, d)
    ensures EnvFree(s, d).Some? && WordsKept(s, EnvFree(s, d).value)
  {
    hide EnvFree, TreeOk, CountsOk, FreeListOk;
    KernReserved(s);
    EnvFreeGone(s, d);
  }

  lemma CreateWords(s: Phys, n: nat)
    requires Kernel(s, n) && DirsOk(s)
    ensures DirsOk(EnvSetupVm(s).0)
  {
    hide TreeOk, CountsOk, FreeListOk, Settled;
    KernReserved(s);
    KernLow(s);
    CreateKeeps(s, n);
  }

  lemma KernLow(s: Phys)
    requires Inv(s)
    ensures forall i: nat | i < UPDE :: s.mem[s.kern][i] == EMPTY
  {
  }

  lemma CallWords(s: Phys, op: Op, n: nat)
    requires Kernel(s, n) && Live(s, op) && DirsOk(s)
    ensures DirsOk(Call(s, op).0)
  {
    hide TreeOk, CountsOk, FreeListOk, Settled, PageRemove, EnvSetupVm, EnvFree, Store, SysPageAlloc, SysPageMap,
      WordsKept, DirsOk;
    WordsRefl(s);
    match op
    case Create => CreateWords(s, n);
    case Alloc(_, _, _) =>
      AllocWords(s, op);
      WordsStay(s, Call(s, op).0);
    case Share(_, _, _, _, _) =>
      ShareWords(s, op);
      WordsStay(s, Call(s, op).0);
    case Unmap(d, va) =>
      if PageRemove(s, d, va).Some? { UnmapWords(s, d, va); }
      WordsStay(s, Call(s, op).0);
    case Write(d, va, j, word) =>
      WriteWords(s, d, va, j, word);
      WordsStay(s, Call(s, op).0);
    case Destroy(d) =>
      DestroyWords(s, d);
      WordsStay(s, Call(s, op).0);
  }

  /** Over every run of calls by live environments that keeps the invariant. */
  lemma {:induction false} RunWords(s: Phys, ops: seq<Op>, n: nat)
    requires Kernel(s, n) && LiveRun(s, ops) && SafeRun(s, ops, n) && DirsOk(s)
    ensures Inv(After(s, ops)) && DirsOk(After(s, ops))
    decreases |ops|
  {
    hide TreeOk, CountsOk, FreeListOk, Settled, Call, Takes, Safe, Live, DirsOk;
    if ops != [] {
      CallWords(s, ops[0], n);
      CallExactly(s, ops[0], n);
      RunWords(Call(s, ops[0]).0, ops[1..], n + Takes(s, ops[0]));
    }
  }

  function After(s: Phys, ops: seq<Op>): (r: Phys)
    requires Sized(s) && LiveRun(s, ops)
    ensures Sized(r)
    decreases |ops|
  {
    if ops == [] then s else After(Call(s, ops[0]).0, ops[1..])
  }

  // ------------------------------------------------------------------
  // The MMU
  // ------------------------------------------------------------------

  /** What a translation grants: the frame, and whether stores and user mode
      are allowed by both words. */
  datatype Grant = Grant(frame: nat, writable: bool, user: bool)

  /** The hardware's walk from directory d, for 4 KB pages. */
  function Mmu(s: Phys, d: nat, va: Va): Option<Grant>
    requires Sized(s) && d < |s.role| && AnyVa(va)
  {
    var pde := s.mem[d][va.pdx];
    if !Present(pde) || pde.frame >= |s.mem| then None
    else
      var pte := s.mem[pde.frame][va.ptx];
      if !Present(pte) then None
      else Some(Grant(pte.frame, pde.perm & pte.perm & PTE_W != 0, pde.perm & pte.perm & PTE_U != 0))
  }

  lemma OpenGrants(perm: bv12)
    ensures OPEN & perm & PTE_W == perm & PTE_W && OPEN & perm & PTE_U == perm & PTE_U
    ensures OPEN & PTE_P != 0 && (0 as bv12) & PTE_P == 0
  {
  }

  /** Below UTOP the words of the page tables alone say what the MMU grants. */
  lemma MmuGrants(s: Phys, d: nat, va: Va)
    requires Inv(s) && DirsOk(s) && LiveDir(s, d) && UserVa(va)
    ensures Mmu(s, d, va) ==
              match Trans(s, d, va)
              case None => None
              case Some(e) => Some(Grant(e.frame, e.perm & PTE_W != 0, e.perm & PTE_U != 0))
  {
    hide CountsOk, FreeListOk, KernelHalf, SelfMapped;
    var pde := s.mem[d][va.pdx];
    OpenGrants(0);
    if pde != EMPTY {
      MappedSlot(s, d, va);
      OpenGrants(s.mem[pde.frame][va.ptx].perm);
      TableWordPresent(s, pde.frame, va.ptx);
    }
  }

  lemma BothBits(perm: bv12)
    ensures perm & (PTE_W | PTE_U) == PTE_W | PTE_U <==> perm & PTE_W != 0 && perm & PTE_U != 0
  {
  }

  /** A store by a program changes memory exactly where the MMU lets the user
      write, and then one word of the page it translates to. */
  lemma StoreObeysMmu(s: Phys, d: nat, va: Va, j: nat, word: Pte)
    requires Inv(s) && DirsOk(s) && LiveDir(s, d) && UserVa(va) && j < NPTENTRIES
    ensures Store(s, d, va, j, word) ==
              match Mmu(s, d, va)
              case None => s
              case Some(g) => if g.writable && g.user && g.frame < |s.mem| then SetWord(s, g.frame, j, word) else s
  {
    hide TreeOk, CountsOk, FreeListOk, DirsOk, Mmu;
    MmuGrants(s, d, va);
    if Trans(s, d, va).Some? {
      BothBits(Trans(s, d, va).value.perm);
    }
  }

  lemma TableWordPresent(s: Phys, t: nat, j: nat)
    requires Inv(s) && t < |s.role| && j < NPTENTRIES && s.role[t].Table?
    ensures s.mem[t][j] == EMPTY || Present(s.mem[t][j])
  {
  }

  lemma SelfGrants(perm: bv12)
    ensures (PTE_P | PTE_U) & perm & PTE_W == 0
    ensures (PTE_P | PTE_U) & OPEN & PTE_U != 0 && (PTE_P | PTE_U) & (PTE_P | PTE_U) & PTE_U != 0
    ensures (PTE_P | PTE_U) & PTE_P != 0
  {
  }

  /** What fork reads as uvpd and uvpt: through UVPT an environment sees its
      own directory, and the page table behind any address of its own, and can
      write neither. */
  lemma UvptReads(s: Phys, d: nat, va: Va)
    requires Inv(s) && DirsOk(s) && LiveDir(s, d) && UserVa(va)
    ensures Mmu(s, d, Va(UVPT_PDE, UVPT_PDE)) == Some(Grant(d, false, true))
    ensures Mmu(s, d, Va(UVPT_PDE, va.pdx)).Some? <==> s.mem[d][va.pdx] != EMPTY
    ensures
      s.mem[d][va.pdx] != EMPTY ==>
        var t := s.mem[d][va.pdx].frame;
        && Mmu(s, d, Va(UVPT_PDE, va.pdx)) == Some(Grant(t, false, true))
        && t < |s.mem| && Trans(s, d, va) == if s.mem[t][va.ptx] == EMPTY then None else Some(s.mem[t][va.ptx])
  {
    hide CountsOk, FreeListOk, KernelHalf;
    OpenGrants(0);
    SelfGrants(PTE_P | PTE_U);
    SelfGrants(OPEN);
    assert s.mem[d][UVPT_PDE] == Pte(d, PTE_P | PTE_U);
    if s.mem[d][va.pdx] != EMPTY {
      MappedSlot(s, d, va);
    }
  }
}
