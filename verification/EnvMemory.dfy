/** The memory system calls of one kernel (kern/env.c, kern/syscall.c) as
  steps, and what every run of them keeps.
 */
module EnvMemory {
  import opened Pmap
  import opened Teardown

  // ------------------------------------------------------------------
  // Frames: what one operation on directory d leaves alone
  // ------------------------------------------------------------------

  predicate Fixed(r: Role) {
    r == Reserved || r.KernTable? || r == Dir
  }

  /** Fixed pages stay as they are and other directories keep their words. */
  ghost predicate Frames(s: Phys, s': Phys, d: nat)
    requires Sized(s) && Sized(s') && |s'.role| == |s.role|
  {
    && (forall p: nat | p < |s.role| && (Fixed(s.role[p]) || Fixed(s'.role[p])) :: s'.role[p] == s.role[p])
    && (forall q: nat | q < |s.role| && q != d && s.role[q] == Dir :: s'.mem[q] == s.mem[q])
    && s'.kern == s.kern
  }

  lemma FramesTrans(s: Phys, s1: Phys, s2: Phys, d: nat)
    requires Sized(s) && Sized(s1) && Sized(s2) && |s.role| == |s1.role| == |s2.role|
    requires Frames(s, s1, d) && Frames(s1, s2, d)
    ensures Frames(s, s2, d)
  {
  }

  lemma RemoveFrames(s: Phys, s': Phys, pend: Link, d: nat, va: Va)
    requires InvPending(s, pend) && UserVa(va) && d < |s.role| && s.role[d] == Dir
    requires ZeroSafe(s, d, va) && PageRemove(s, d, va) == Some(s') && Sized(s') && |s'.role| == |s.role|
    ensures Frames(s, s', d) && NoNewFloating(s, s')
    ensures s'.pages[0] ==
              if Trans(s, d, va).None? && s.mem[d][va.pdx] != EMPTY
              then s.pages[0].(ref := (s.pages[0].ref + REF_MOD - 1) % REF_MOD) else s.pages[0]
  {
    if Trans(s, d, va).Some? {
      RemoveMapped(s, pend, d, va);
      var t := s.mem[d][va.pdx].frame;
      var p := s.mem[t][va.ptx].frame;
      MappedSlot(s, d, va);
      PositiveRef(s, pend, t, va.ptx, p);
      ClearedFrames(s, s', d, t, va.ptx, p);
    } else {
      RemoveUnmapped(s, pend, d, va);
      ZeroFrames(s, d, (s.pages[0].ref + REF_MOD - 1) % REF_MOD);
    }
  }

  lemma ClearedFrames(s: Phys, s': Phys, d: nat, t: nat, j: nat, p: nat)
    requires Sized(s) && Sized(s') && |s'.role| == |s.role| && Cleared(s, s', t, j, p)
    requires p != 0 && s.role[p] == Data && s.role[t].Table?
    ensures Frames(s, s', d) && NoNewFloating(s, s') && s'.pages[0] == s.pages[0]
  {
    ClearedShrinks(s, s', t, j, p);
  }

  lemma ZeroFrames(s: Phys, d: nat, ref: nat)
    requires Sized(s) && s.role[0] == Reserved && ref < REF_MOD
    ensures Sized(SetRef(s, 0, ref)) && Frames(s, SetRef(s, 0, ref), d) && NoNewFloating(s, SetRef(s, 0, ref))
    ensures Frames(s, s, d) && NoNewFloating(s, s)
  {
    forall p: nat | p < |s.role| && Floating(SetRef(s, 0, ref), p) ensures Floating(s, p) {
    }
  }

  lemma WalkFrames(s: Phys, d: nat, va: Va)
    requires Inv(s) && UserVa(va) && d < |s.role| && s.role[d] == Dir
    ensures
      var s' := PgdirWalk(s, d, va, true).0;
      Frames(s, s', d) && NoNewFloating(s, s')
  {
    WalkCases(s, d, va);
    var s' := PgdirWalk(s, d, va, true).0;
    if s' != s {
      var (s1, r) := PageAlloc(s, true);
      HungFrames(s, s1, s', d, va.pdx, r.page);
    }
  }

  lemma HungFrames(s: Phys, s1: Phys, s': Phys, d: nat, i: nat, t: nat)
    requires Sized(s) && Sized(s1) && Sized(s') && |s'.role| == |s.role| == |s1.role|
    requires Taken(s, s1, t, true) && Hung(s1, s', d, i, t)
    requires s.role[t] == Free && s.role[d] == Dir
    ensures Frames(s, s', d) && NoNewFloating(s, s')
  {
    forall p: nat | p < |s.role| && Floating(s', p) ensures Floating(s, p) {
    }
  }

  // ------------------------------------------------------------------
  // page_insert: frame, floating pages and page 0
  // ------------------------------------------------------------------

  ghost predicate Inserted(s: Phys, s': Phys, d: nat, pp: nat, va: Va, perm: bv12)
    requires Sized(s) && Sized(s') && |s'.role| == |s.role| && d < |s.role| && UserVa(va) && pp < |s.role|
  {
    && Inv(s') && OnlyAt(s, s', d, va) && Trans(s', d, va) == Some(Pte(pp, perm | PTE_P))
    && Frames(s, s', d)
    && (forall p: nat | p < |s.role| && Floating(s', p) :: Floating(s, p) && p != pp)
    && s'.pages[0] == if Trans(s, d, va).None?
                      then s.pages[0].(ref := (s.pages[0].ref + REF_MOD - 1) % REF_MOD) else s.pages[0]
  }

  lemma BumpFrames(s: Phys, d: nat, pp: nat)
    requires Sized(s) && pp < |s.role| && pp != 0 && s.role[pp] == Data && s.pages[pp].ref + 1 < REF_MOD
    ensures
      var s2 := SetRef(s, pp, s.pages[pp].ref + 1);
      Sized(s2) && Frames(s, s2, d) && s2.pages[0] == s.pages[0]
      && (forall p: nat | p < |s.role| && Floating(s2, p) :: Floating(s, p) && p != pp)
  {
  }

  lemma WriteFrames(s: Phys, d: nat, t: nat, j: nat, e: Pte)
    requires Sized(s) && t < |s.role| && j < NPTENTRIES && s.role[t].Table?
    ensures
      var s' := SetWord(s, t, j, e);
      Sized(s') && Frames(s, s', d) && NoNewFloating(s, s') && s'.pages == s.pages
  {
    var s' := SetWord(s, t, j, e);
    forall p: nat | p < |s.role| && Floating(s', p) ensures Floating(s, p) {
    }
  }

  lemma InsertAtFrames(s: Phys, d: nat, pp: nat, va: Va, perm: bv12, t: nat)
    requires Inv(s) && UserVa(va) && d < |s.role| && s.role[d] == Dir
    requires pp < |s.role| && s.role[pp] == Data && s.pages[pp].ref < REF_MOD - 1
    requires s.mem[d][va.pdx] != EMPTY && s.mem[d][va.pdx].frame == t < |s.role| && ZeroSafe(s, d, va)
    ensures
      var s' := InsertAt(s, d, pp, va, perm, t).0;
      && Frames(s, s', d)
      && (forall p: nat | p < |s.role| && Floating(s', p) :: Floating(s, p) && p != pp)
      && s'.pages[0] == if Trans(s, d, va).None?
                        then s.pages[0].(ref := (s.pages[0].ref + REF_MOD - 1) % REF_MOD) else s.pages[0]
  {
    hide TreeOk, CountsOk, FreeListOk, InsertWord, PageRemove, Frames;
    BumpPending(s, pp);
    var s2 := SetRef(s, pp, s.pages[pp].ref + 1);
    BumpFrames(s, d, pp);
    SameMemTrans(s, s2, d, va);
    RemoveSucceeds(s2, To(pp), d, va);
    var s3 := PageRemove(s2, d, va).value;
    RemoveFrames(s2, s3, To(pp), d, va);
    RemoveEffects(s2, s3, To(pp), d, va);
    InsertAtSteps(s, d, pp, va, perm, t, s3);
    InsertAtFramesEnd(s, s2, s3, d, pp, va, perm, t);
  }

  lemma InsertAtFramesEnd(s: Phys, s2: Phys, s3: Phys, d: nat, pp: nat, va: Va, perm: bv12, t: nat)
    requires Sized(s) && Sized(s2) && UserVa(va) && |s.role| == |s2.role| == |s3.role| && d < |s.role|
    requires InvPending(s3, To(pp)) && s3.role[d] == Dir
    requires s3.mem[d][va.pdx] != EMPTY && s3.mem[d][va.pdx].frame == t < |s3.role|
    requires Frames(s, s2, d) && Frames(s2, s3, d) && NoNewFloating(s2, s3)
    requires forall p: nat | p < |s.role| && Floating(s2, p) :: Floating(s, p) && p != pp
    ensures
      var s4 := SetWord(s3, t, va.ptx, Pte(pp, perm | PTE_P));
      && Sized(s4) && Frames(s, s4, d) && s4.pages == s3.pages
      && (forall p: nat | p < |s.role| && Floating(s4, p) :: Floating(s, p) && p != pp)
  {
    MappedSlot(s3, d, va);
    WriteFrames(s3, d, t, va.ptx, Pte(pp, perm | PTE_P));
    FramesTrans(s, s2, s3, d);
    FramesTrans(s, s3, SetWord(s3, t, va.ptx, Pte(pp, perm | PTE_P)), d);
  }

  /** page_insert when it succeeds, in full. */
  lemma InsertInserted(s: Phys, d: nat, pp: nat, va: Va, perm: bv12)
    requires Inv(s) && UserVa(va) && d < |s.role| && s.role[d] == Dir
    requires pp < |s.role| && s.role[pp] == Data && s.pages[pp].ref < REF_MOD - 1
    requires ZeroSafe(s, d, va)
    requires s.mem[d][va.pdx] != EMPTY || s.list != []
    ensures
      var (s', r) := PageInsert(s, d, pp, va, perm);
      r == Ok && Inserted(s, s', d, pp, va, perm)
  {
    hide TreeOk, FreeListOk, CountsOk, InsertWord, PgdirWalk, OnlyAt;
    ZeroIsReserved(s);
    PageInsertRefines(s, d, pp, va, perm);
    var (s1, w) := PgdirWalk(s, d, va, true);
    WalkKeepsInv(s, d, va);
    WalkTrans(s, d, va);
    WalkKeepsPage(s, d, va, d);
    WalkKeepsPage(s, d, va, pp);
    WalkKeepsPage(s, d, va, 0);
    WalkFrames(s, d, va);
    InsertAtFrames(s1, d, pp, va, perm, w.table);
    FramesTrans(s, s1, PageInsert(s, d, pp, va, perm).0, d);
  }

  // ------------------------------------------------------------------
  // The system calls
  // ------------------------------------------------------------------

  datatype Result = Done | Created(dir: nat) | Einval | Enomem | Halted

  /** The permission argument of a system call, an int: its low twelve bits,
      and the bits above as a number. */
  datatype Perm = Perm(high: nat, low: bv12)

  function LowPerm(low: bv12): Perm {
    Perm(0, low)
  }

  /** The bitwise or of two numbers. */
  function Or(a: nat, b: nat): (r: nat)
    ensures b == 0 ==> r == a
    ensures a == 0 ==> r == b
    decreases a + b
  {
    if a == 0 then b
    else if b == 0 then a
    else 2 * Or(a / 2, b / 2) + (if a % 2 == 1 || b % 2 == 1 then 1 else 0)
  }

  /** page2pa(pp) | perm | PTE_P. */
  function WordFor(pp: nat, perm: Perm): Pte {
    Pte(Or(pp, perm.high), perm.low | PTE_P)
  }

  /** The word names pp all the same. */
  predicate Fits(pp: nat, perm: Perm) {
    Or(pp, perm.high) == pp
  }

  predicate UserPerm(perm: Perm) {
    perm.low & (PTE_U | PTE_P) == PTE_U | PTE_P
  }

  /** env_setup_vm: a directory that shares the kernel half and maps itself. */
  function EnvSetupVm(s: Phys): (r: (Phys, Result))
    requires Sized(s)
    ensures Sized(r.0) && |r.0.role| == |s.role|
  {
    var (s1, p) := PageAlloc(s, true);
    match p
    case Null => (s1, Enomem)
    case To(d) =>
      var s2 := SetRef(s1, d, (s1.pages[d].ref + 1) % REF_MOD);
      var words := s2.mem[s2.kern][UVPT_PDE := Pte(d, PTE_P | PTE_U)];
      (SetRole(s2.(mem := s2.mem[d := words]), d, Dir), Created(d))
  }

  function SysPageAlloc(s: Phys, d: nat, va: Va, perm: Perm): (r: (Phys, Result))
    requires Sized(s) && d < |s.role| && UserVa(va)
    ensures Sized(r.0) && |r.0.role| == |s.role|
  {
    if !UserPerm(perm) then (s, Einval)
    else
      var (s1, p) := PageAlloc(s, true);
      match p
      case Null => (s1, Enomem)
      case To(pp) =>
        var (s2, o) := PageInsertWord(s1, d, pp, va, WordFor(pp, perm));
        match o
        case Ok => (s2, Done)
        case Panic => (s2, Halted)
        case NoMem =>
          match PageFree(s2, pp)
          case None => (s2, Halted)
          case Some(s3) => (s3, Enomem)
  }

  /** sys_page_map. Out of memory it calls page_free on the source page,
      which is still referenced: a panic. */
  function SysPageMap(s: Phys, src: nat, srcva: Va, dst: nat, dstva: Va, perm: Perm): (r: (Phys, Result))
    requires Sized(s) && src < |s.role| && dst < |s.role| && UserVa(srcva) && UserVa(dstva)
    ensures Sized(r.0) && |r.0.role| == |s.role|
  {
    if !UserPerm(perm) then (s, Einval)
    else
      match PgdirWalk(s, src, srcva, false).1
      case NoSlot => (s, Einval)
      case BadFrame => (s, Halted)
      case Slot(t) =>
        var pte := s.mem[t][srcva.ptx];
        if pte.frame >= |s.pages| then (s, Halted)
        else if perm.low & PTE_W != 0 && pte.perm & PTE_W == 0 then (s, Einval)
        else
          var (s2, o) := PageInsertWord(s, dst, pte.frame, dstva, WordFor(pte.frame, perm));
          match o
          case Ok => (s2, Done)
          case Panic => (s2, Halted)
          case NoMem =>
            match PageFree(s2, pte.frame)
            case None => (s2, Halted)
            case Some(s3) => (s3, Enomem)
  }

  /** A user store through a writable mapping: any word of the page. */
  function Store(s: Phys, d: nat, va: Va, j: nat, word: Pte): (s': Phys)
    requires Sized(s) && d < |s.role| && UserVa(va) && j < NPTENTRIES
    ensures Sized(s') && |s'.role| == |s.role|
  {
    match Trans(s, d, va)
    case Some(e) =>
      if e.frame < |s.mem| && e.perm & (PTE_W | PTE_U) == PTE_W | PTE_U then SetWord(s, e.frame, j, word) else s
    case None => s
  }

  datatype Op =
    | Create
    | Alloc(dst: nat, dstva: Va, perm: Perm)
    | Share(src: nat, srcva: Va, dst: nat, dstva: Va, perm: Perm)
    | Unmap(dst: nat, dstva: Va)
    | Write(dst: nat, dstva: Va, index: nat, word: Pte)
    | Destroy(dst: nat)

  ghost predicate LiveDir(s: Phys, d: nat) {
    d < |s.role| && s.role[d] == Dir
  }

  /** sys_page_alloc is not refused, and has a page to map and one for a table
      if it needs it. */
  predicate AllocWrites(s: Phys, d: nat, va: Va, perm: Perm)
    requires Sized(s) && d < |s.role| && UserVa(va)
  {
    UserPerm(perm) && |s.list| >= (if s.mem[d][va.pdx] == EMPTY then 2 else 1)
  }

  /** What the kernel's callers are held to: live environments, addresses
      below UTOP, a mapped source, a count that fits sixteen bits, and
      permissions that do not change the frame number. */
  ghost predicate Admissible(s: Phys, op: Op)
    requires Sized(s)
  {
    match op
    case Create => true
    case Alloc(d, va, perm) => LiveDir(s, d) && UserVa(va) && (AllocWrites(s, d, va, perm) ==> Fits(s.list[0], perm))
    case Share(src, srcva, dst, dstva, perm) =>
      && LiveDir(s, src) && LiveDir(s, dst) && UserVa(srcva) && UserVa(dstva)
      && (s.mem[src][srcva.pdx] != EMPTY ==> Trans(s, src, srcva).Some?)
      && (Trans(s, src, srcva).Some? ==>
            Trans(s, src, srcva).value.frame < |s.pages| && s.pages[Trans(s, src, srcva).value.frame].ref < REF_MOD - 1
            && Fits(Trans(s, src, srcva).value.frame, perm))
    case Unmap(d, va) => LiveDir(s, d) && UserVa(va)
    case Write(d, va, j, _) => LiveDir(s, d) && UserVa(va) && j < NPTENTRIES
    case Destroy(d) => LiveDir(s, d)
  }

  function Step(s: Phys, op: Op): (r: (Phys, Result))
    requires Sized(s) && Admissible(s, op)
    ensures Sized(r.0) && |r.0.role| == |s.role|
  {
    match op
    case Create => EnvSetupVm(s)
    case Alloc(d, va, perm) => SysPageAlloc(s, d, va, perm)
    case Share(src, srcva, dst, dstva, perm) => SysPageMap(s, src, srcva, dst, dstva, perm)
    case Unmap(d, va) =>
      (match PageRemove(s, d, va)
       case None => (s, Halted)
       case Some(s1) => (s1, Done))
    case Write(d, va, j, word) => (Store(s, d, va, j, word), Done)
    case Destroy(d) =>
      match EnvFree(s, d)
      case None => (s, Halted)
      case Some(s1) => (s1, Done)
  }

  /** How many times the step takes a count from page 0: once when it
      reaches page_remove at an empty slot of an existing table. Inserting
      creates the table first. */
  function Empties(s: Phys, op: Op): (n: nat)
    requires Sized(s) && Admissible(s, op)
    ensures n <= 1
  {
    match op
    case Alloc(d, va, perm) =>
      if AllocWrites(s, d, va, perm) && Trans(s, d, va).None? then 1 else 0
    case Share(src, srcva, d, va, perm) =>
      if UserPerm(perm) && Trans(s, src, srcva).Some?
         && (perm.low & PTE_W == 0 || Trans(s, src, srcva).value.perm & PTE_W != 0)
         && Trans(s, d, va).None? && (s.mem[d][va.pdx] != EMPTY || s.list != [])
      then 1 else 0
    case Unmap(d, va) => if Trans(s, d, va).None? && s.mem[d][va.pdx] != EMPTY then 1 else 0
    case _ => 0
  }

  /** No page is out of the free list without a use. */
  ghost predicate Settled(s: Phys)
    requires Sized(s)
  {
    forall p: nat | p < |s.role| :: !Floating(s, p)
  }

  /** The kernel between system calls, n empty-slot removals after boot. */
  ghost predicate Kernel(s: Phys, n: nat) {
    && Inv(s) && Settled(s)
    && n < REF_MOD && s.pages[0].ref == (REF_MOD - n) % REF_MOD
  }

  // ------------------------------------------------------------------
  // Each step keeps the kernel's invariant
  // ------------------------------------------------------------------

  lemma ZeroStep(s: Phys, n: nat)
    requires Sized(s) && n + 1 < REF_MOD && s.pages[0].ref == (REF_MOD - n) % REF_MOD
    ensures s.pages[0].ref != 1
    ensures (s.pages[0].ref + REF_MOD - 1) % REF_MOD == (REF_MOD - (n + 1)) % REF_MOD
  {
  }

  lemma InsertNoMem(s: Phys, d: nat, pp: nat, va: Va, e: Pte)
    requires Inv(s) && UserVa(va) && LiveDir(s, d) && pp < |s.role|
    requires s.mem[d][va.pdx] == EMPTY && s.list == []
    ensures PageInsertWord(s, d, pp, va, e) == (s, NoMem)
  {
    WalkKeepsInv(s, d, va);
  }

  /** After a successful page_insert of page pp, floating at most. */
  lemma InsertedKernel(s: Phys, d: nat, pp: nat, va: Va, perm: bv12, n: nat)
    requires Inv(s) && UserVa(va) && LiveDir(s, d)
    requires pp < |s.role| && s.role[pp] == Data && s.pages[pp].ref < REF_MOD - 1
    requires s.mem[d][va.pdx] != EMPTY || s.list != []
    requires forall p: nat | p < |s.role| && p != pp :: !Floating(s, p)
    requires n < REF_MOD && s.pages[0].ref == (REF_MOD - n) % REF_MOD
    requires n + (if Trans(s, d, va).None? then 1 else 0) < REF_MOD
    ensures
      var (s', r) := PageInsert(s, d, pp, va, perm);
      && r == Ok && Inserted(s, s', d, pp, va, perm)
      && Kernel(s', n + (if Trans(s, d, va).None? then 1 else 0))
  {
    hide TreeOk, CountsOk, FreeListOk, PageInsert, Floating, Frames, OnlyAt, Settled;
    if Trans(s, d, va).None? { ZeroStep(s, n); }
    InsertInserted(s, d, pp, va, perm);
    InsertedSettles(s, PageInsert(s, d, pp, va, perm).0, d, pp, va, perm);
  }

  lemma InsertedSettles(s: Phys, s': Phys, d: nat, pp: nat, va: Va, perm: bv12)
    requires Sized(s) && Sized(s') && |s'.role| == |s.role| && d < |s.role| && UserVa(va) && pp < |s.role|
    requires Inserted(s, s', d, pp, va, perm) && forall p: nat | p < |s.role| && p != pp :: !Floating(s, p)
    ensures Settled(s')
  {
    hide Floating, Inv, OnlyAt, Frames;
    forall p: nat | p < |s'.role| ensures !Floating(s', p) {
    }
  }

  /** Freeing the page that was just taken gives the list back. */
  lemma AllocThenFree(s: Phys, s1: Phys, pp: nat)
    requires Inv(s) && Sized(s1) && Taken(s, s1, pp, true) && Inv(s1)
    requires s1.role[pp] == Data && s1.pages[pp] == PageInfo(0, Null) && pp != 0
    ensures PageFree(s1, pp).Some? && PageFree(s1, pp).value == s.(mem := s.mem[pp := ZeroFrame()])
  {
    assert s.list[0] == pp && s.role[pp] == Free;
    assert s.pages[pp].link == At(s.list, 1);
    var s2 := PageFree(s1, pp).value;
    assert [pp] + s.list[1..] == s.list;
    assert s2.list == s.list;
    assert s2.role == s.role;
    assert s.pages[pp].ref == 0;
    assert s2.pages == s.pages;
  }

  lemma ZeroedKeepsInv(s: Phys, p: nat, n: nat)
    requires Kernel(s, n) && p < |s.role| && s.role[p] == Free
    ensures Kernel(s.(mem := s.mem[p := ZeroFrame()]), n)
  {
    var s' := s.(mem := s.mem[p := ZeroFrame()]);
    assert Sized(s');
    MemOfUnused(s, s', p);
    forall q: nat | q < |s'.role| ensures !Floating(s', q) {
      assert !Floating(s, q);
    }
  }

  /** The words of a page that is neither directory nor table do not matter. */
  lemma MemOfUnused(s: Phys, s': Phys, p: nat)
    requires Inv(s) && Sized(s') && p < |s.role| && (s.role[p] == Free || s.role[p] == Data)
    requires |s'.mem| == |s.mem| && s' == s.(mem := s'.mem)
    requires forall q: nat | q < |s.mem| && q != p :: s'.mem[q] == s.mem[q]
    ensures Inv(s')
  {
    forall q: nat ensures Refs(s', q) == Refs(s, q) {
      assert forall u: nat, k: nat | u < |s.role| && k < NPTENTRIES :: IsRef(s', u, k, q) <==> IsRef(s, u, k, q);
    }
    assert FreeListOk(s');
    assert TreeOk(s') by { MemOfUnusedTree(s, s', p); }
  }

  lemma MemOfUnusedTree(s: Phys, s': Phys, p: nat)
    requires Sized(s) && TreeOk(s) && Sized(s') && p < |s.role| && (s.role[p] == Free || s.role[p] == Data)
    requires |s'.mem| == |s.mem| && s' == s.(mem := s'.mem) && s.role[s.kern] == Reserved
    requires forall q: nat | q < |s.mem| && q != p :: s'.mem[q] == s.mem[q]
    ensures TreeOk(s')
  {
  }

  lemma TakenFloating(s: Phys, s1: Phys, pp: nat)
    requires Inv(s) && Settled(s) && Sized(s1) && Taken(s, s1, pp, true) && pp != 0
    ensures forall p: nat | p < |s1.role| && p != pp :: !Floating(s1, p)
    ensures s1.pages[0] == s.pages[0]
  {
    forall p: nat | p < |s1.role| && p != pp ensures !Floating(s1, p) {
      assert !Floating(s, p);
    }
  }

  /** sys_page_alloc after page_alloc. */
  lemma AllocTaken(s: Phys, d: nat, va: Va, n: nat)
    requires Kernel(s, n) && LiveDir(s, d) && UserVa(va) && s.list != []
    ensures
      var (s1, r) := PageAlloc(s, true);
      && r.To? && Inv(s1) && LiveDir(s1, d) && Taken(s, s1, r.page, true)
      && s.role[r.page] == Free && s1.role[r.page] == Data && s1.pages[r.page] == PageInfo(0, Null) && r.page != 0
      && Trans(s1, d, va) == Trans(s, d, va) && s1.mem[d] == s.mem[d]
      && (forall p: nat | p < |s1.role| && p != r.page :: !Floating(s1, p))
      && s1.pages[0] == s.pages[0]
  {
    AllocKeepsInv(s, true);
    var (s1, r) := PageAlloc(s, true);
    TakenTrans(s, s1, r.page, true);
    TakenFloating(s, s1, r.page);
  }

  lemma AllocFails(s: Phys, d: nat, va: Va, perm: Perm, n: nat)
    requires Kernel(s, n) && LiveDir(s, d) && UserVa(va) && UserPerm(perm)
    requires |s.list| == 1 && s.mem[d][va.pdx] == EMPTY
    ensures Kernel(SysPageAlloc(s, d, va, perm).0, n)
    ensures SysPageAlloc(s, d, va, perm).1 == Enomem
    ensures
      var s' := SysPageAlloc(s, d, va, perm).0;
      s' == s.(mem := s'.mem) && |s'.mem| == |s.mem|
      && (forall q: nat | q < |s.role| && s.role[q] != Free :: s'.mem[q] == s.mem[q])
  {
    AllocTaken(s, d, va, n);
    var (s1, r) := PageAlloc(s, true);
    InsertNoMem(s1, d, r.page, va, WordFor(r.page, perm));
    AllocThenFree(s, s1, r.page);
    ZeroedKeepsInv(s, r.page, n);
  }

  /** sys_page_alloc past its checks, when page_insert returns 0. */
  lemma AllocComputes(s: Phys, d: nat, va: Va, perm: Perm, pp: nat)
    requires Sized(s) && d < |s.role| && UserVa(va) && UserPerm(perm) && PageAlloc(s, true).1 == To(pp)
             && Fits(pp, perm)
    requires PageInsert(PageAlloc(s, true).0, d, pp, va, perm.low).1 == Ok
    ensures SysPageAlloc(s, d, va, perm) == (PageInsert(PageAlloc(s, true).0, d, pp, va, perm.low).0, Done)
  {
    hide PageInsertWord, PageAlloc, Or;
  }

  lemma AllocSucceeds(s: Phys, d: nat, va: Va, perm: Perm, n: nat)
    requires Kernel(s, n) && LiveDir(s, d) && UserVa(va) && AllocWrites(s, d, va, perm) && Fits(s.list[0], perm)
    requires n + Empties(s, Alloc(d, va, perm)) < REF_MOD
    ensures
      var (s', r) := SysPageAlloc(s, d, va, perm);
      var (s1, p) := PageAlloc(s, true);
      && r == Done && Kernel(s', n + Empties(s, Alloc(d, va, perm)))
      && p.To? && Sized(s1) && Taken(s, s1, p.page, true) && LiveDir(s1, d)
      && Inserted(s1, s', d, p.page, va, perm.low)
  {
    hide PageInsert, TreeOk, CountsOk, FreeListOk, PageAlloc, SysPageAlloc;
    AllocTaken(s, d, va, n);
    var (s1, r) := PageAlloc(s, true);
    InsertedKernel(s1, d, r.page, va, perm.low, n);
    AllocComputes(s, d, va, perm, r.page);
  }

  lemma AllocKeeps(s: Phys, d: nat, va: Va, perm: Perm, n: nat)
    requires Kernel(s, n) && Admissible(s, Alloc(d, va, perm))
    requires n + Empties(s, Alloc(d, va, perm)) < REF_MOD
    ensures Kernel(SysPageAlloc(s, d, va, perm).0, n + Empties(s, Alloc(d, va, perm)))
    ensures SysPageAlloc(s, d, va, perm).1 != Halted
  {
    hide TreeOk, CountsOk, Settled, PageInsert;
    if UserPerm(perm) {
      if |s.list| == 1 && s.mem[d][va.pdx] == EMPTY {
        AllocFails(s, d, va, perm, n);
      } else if s.list != [] {
        AllocSucceeds(s, d, va, perm, n);
      }
    }
  }

  // sys_page_map

  lemma ShareReaches(s: Phys, src: nat, srcva: Va)
    requires Inv(s) && LiveDir(s, src) && UserVa(srcva) && Trans(s, src, srcva).Some?
    ensures
      var t := s.mem[src][srcva.pdx].frame;
      && PgdirWalk(s, src, srcva, false).1 == Slot(t) && t < |s.role|
      && s.mem[t][srcva.ptx] == Trans(s, src, srcva).value
      && s.mem[t][srcva.ptx].frame < |s.role| && s.role[s.mem[t][srcva.ptx].frame] == Data
      && s.pages[s.mem[t][srcva.ptx].frame].ref != 0
  {
    MappedSlot(s, src, srcva);
    var t := s.mem[src][srcva.pdx].frame;
    PositiveRef(s, Null, t, srcva.ptx, s.mem[t][srcva.ptx].frame);
  }

  /** The checks of sys_page_map before it inserts. */
  predicate ShareAllowed(s: Phys, src: nat, srcva: Va, perm: Perm)
    requires Sized(s) && src < |s.role| && UserVa(srcva)
  {
    UserPerm(perm) && Trans(s, src, srcva).Some?
    && (perm.low & PTE_W == 0 || Trans(s, src, srcva).value.perm & PTE_W != 0)
  }

  /** sys_page_map past its checks, when page_insert returns 0. */
  lemma ShareComputes(s: Phys, op: Op, t: nat)
    requires Sized(s) && op.Share? && Admissible(s, op) && ShareAllowed(s, op.src, op.srcva, op.perm)
    requires PgdirWalk(s, op.src, op.srcva, false).1 == Slot(t) && t < |s.role|
    requires s.mem[t][op.srcva.ptx] == Trans(s, op.src, op.srcva).value
    requires PageInsert(s, op.dst, Trans(s, op.src, op.srcva).value.frame, op.dstva, op.perm.low).1 == Ok
    ensures Step(s, op) == (PageInsert(s, op.dst, Trans(s, op.src, op.srcva).value.frame, op.dstva, op.perm.low).0,
            Done)
  {
    hide PageInsertWord, PgdirWalk, Trans, Or;
  }

  lemma ShareSucceeds(s: Phys, op: Op, n: nat)
    requires Kernel(s, n) && op.Share? && Admissible(s, op) && ShareAllowed(s, op.src, op.srcva, op.perm)
    requires s.mem[op.dst][op.dstva.pdx] != EMPTY || s.list != []
    requires n + Empties(s, op) < REF_MOD
    ensures
      var (s', r) := Step(s, op);
      var pp := Trans(s, op.src, op.srcva).value.frame;
      && r == Done && Kernel(s', n + Empties(s, op))
      && pp < |s.role| && Inserted(s, s', op.dst, pp, op.dstva, op.perm.low)
  {
    hide PageInsert, TreeOk, CountsOk, FreeListOk, SysPageMap, PgdirWalk;
    ShareReaches(s, op.src, op.srcva);
    InsertedKernel(s, op.dst, Trans(s, op.src, op.srcva).value.frame, op.dstva, op.perm.low, n);
    ShareComputes(s, op, s.mem[op.src][op.srcva.pdx].frame);
  }

  /** Out of memory, sys_page_map panics in page_free. */
  lemma ShareHalts(s: Phys, op: Op)
    requires Inv(s) && op.Share? && Admissible(s, op) && ShareAllowed(s, op.src, op.srcva, op.perm)
    requires s.mem[op.dst][op.dstva.pdx] == EMPTY && s.list == []
    ensures Step(s, op) == (s, Halted)
  {
    ShareReaches(s, op.src, op.srcva);
    var pp := Trans(s, op.src, op.srcva).value.frame;
    InsertNoMem(s, op.dst, pp, op.dstva, WordFor(pp, op.perm));
  }

  lemma ShareRefused(s: Phys, op: Op)
    requires Inv(s) && op.Share? && Admissible(s, op) && !ShareAllowed(s, op.src, op.srcva, op.perm)
    ensures Step(s, op) == (s, Einval)
  {
    if UserPerm(op.perm) && Trans(s, op.src, op.srcva).Some? {
      ShareReaches(s, op.src, op.srcva);
    }
  }

  lemma ShareKeeps(s: Phys, op: Op, n: nat)
    requires Kernel(s, n) && op.Share? && Admissible(s, op) && n + Empties(s, op) < REF_MOD
    ensures Kernel(Step(s, op).0, n + Empties(s, op))
  {
    hide TreeOk, FreeListOk, CountsOk, Settled, Step;
    if !ShareAllowed(s, op.src, op.srcva, op.perm) {
      ShareRefused(s, op);
    } else if s.mem[op.dst][op.dstva.pdx] == EMPTY && s.list == [] {
      ShareHalts(s, op);
    } else {
      ShareSucceeds(s, op, n);
    }
  }

  // page_remove, stores

  lemma UnmapKeeps(s: Phys, d: nat, va: Va, n: nat)
    requires Kernel(s, n) && LiveDir(s, d) && UserVa(va)
    requires n + Empties(s, Unmap(d, va)) < REF_MOD
    ensures PageRemove(s, d, va).Some?
    ensures
      var s' := PageRemove(s, d, va).value;
      && Kernel(s', n + Empties(s, Unmap(d, va))) && Frames(s, s', d)
      && OnlyAt(s, s', d, va) && Trans(s', d, va) == None
  {
    hide TreeOk, CountsOk, FreeListOk, Settled;
    if Trans(s, d, va).None? && s.mem[d][va.pdx] == EMPTY {
      FramesRefl(s, d, va);
    } else {
      if Trans(s, d, va).None? { ZeroStep(s, n); }
      PageRemoveRefines(s, d, va);
      var s' := PageRemove(s, d, va).value;
      RemoveFrames(s, s', Null, d, va);
      SettledStays(s, s');
    }
  }

  lemma FramesRefl(s: Phys, d: nat, va: Va)
    requires Sized(s) && d < |s.role| && UserVa(va)
    ensures Frames(s, s, d) && OnlyAt(s, s, d, va)
  {
  }

  lemma SettledStays(s: Phys, s': Phys)
    requires Sized(s) && Sized(s') && |s'.role| == |s.role| && Settled(s) && NoNewFloating(s, s')
    ensures Settled(s')
  {
    forall p: nat | p < |s'.role| ensures !Floating(s', p) {
      assert !Floating(s, p);
    }
  }

  /** A user store reaches only user data: no table, directory or free page. */
  lemma StoreKeeps(s: Phys, d: nat, va: Va, j: nat, word: Pte, n: nat)
    requires Kernel(s, n) && LiveDir(s, d) && UserVa(va) && j < NPTENTRIES
    ensures Kernel(Store(s, d, va, j, word), n) && Frames(s, Store(s, d, va, j, word), d)
    ensures
      var s' := Store(s, d, va, j, word);
      forall q: nat, v: Va | q < |s.role| && s.role[q] == Dir && UserVa(v) :: Trans(s', q, v) == Trans(s, q, v)
  {
    var s' := Store(s, d, va, j, word);
    if s' == s {
      FramesRefl(s, d, va);
    } else {
      MappedSlot(s, d, va);
      var p := Trans(s, d, va).value.frame;
      MemOfUnused(s, s', p);
      SettledMem(s, s');
      StoreTrans(s, s', p);
    }
  }

  lemma SettledMem(s: Phys, s': Phys)
    requires Sized(s) && Sized(s') && s' == s.(mem := s'.mem) && Settled(s)
    ensures Settled(s')
  {
    forall p: nat | p < |s'.role| ensures !Floating(s', p) {
      assert !Floating(s, p);
    }
  }

  lemma StoreTrans(s: Phys, s': Phys, p: nat)
    requires Sized(s) && TreeOk(s) && Sized(s') && p < |s.role| && s.role[p] == Data
    requires |s'.mem| == |s.mem| && s' == s.(mem := s'.mem)
    requires forall q: nat | q < |s.mem| && q != p :: s'.mem[q] == s.mem[q]
    ensures forall q: nat, v: Va | q < |s.role| && s.role[q] == Dir && UserVa(v) :: Trans(s', q, v) == Trans(s, q, v)
  {
    forall q: nat, v: Va | q < |s.role| && s.role[q] == Dir && UserVa(v)
      ensures Trans(s', q, v) == Trans(s, q, v)
    {
      if s.mem[q][v.pdx] != EMPTY {
        assert s.role[s.mem[q][v.pdx].frame] == Table(q, v.pdx);
      }
    }
  }

  // env_setup_vm

  ghost predicate Born(s: Phys, s': Phys, d: nat)
    requires Sized(s)
  {
    && d < |s.role| && s'.role == s.role[d := Dir]
    && s'.pages == s.pages[d := s.pages[d].(ref := 1)]
    && s'.mem == s.mem[d := s.mem[s.kern][UVPT_PDE := Pte(d, PTE_P | PTE_U)]]
    && s'.kern == s.kern && s'.free == s.free && s'.list == s.list
  }

  lemma BornTree(s: Phys, s': Phys, d: nat)
    requires Sized(s) && TreeOk(s) && Sized(s') && Born(s, s', d)
    requires s.role[d] == Data && Refs(s, d) == {} && s.role[s.kern] == Reserved
    ensures TreeOk(s')
  {
    forall u: nat, j: nat | u < |s.role| && j < NPTENTRIES && s.role[u].Table?
      ensures s.mem[u][j] == EMPTY || s.mem[u][j].frame != d
    {
      assert (u, j) !in Refs(s, d);
    }
  }

  lemma BornKeepsInv(s: Phys, s': Phys, d: nat)
    requires Inv(s) && Sized(s') && Born(s, s', d) && s.role[d] == Data && Refs(s, d) == {} && d != 0
    ensures Inv(s')
  {
    hide TreeOk, FreeListOk, CountsOk;
    KernReserved(s);
    BornTree(s, s', d);
    BornList(s, s', d);
    BornCounts(s, s', d);
  }

  lemma BornList(s: Phys, s': Phys, d: nat)
    requires Sized(s) && FreeListOk(s) && Sized(s') && Born(s, s', d) && s.role[d] == Data
    ensures FreeListOk(s')
  {
    forall k | 0 <= k < |s.list| ensures s.list[k] != d {
      assert s.list[k] in s.list;
    }
  }

  lemma BornRefs(s: Phys, s': Phys, d: nat, q: nat)
    requires Sized(s) && Sized(s') && Born(s, s', d) && s.role[d] == Data
    ensures Refs(s', q) == Refs(s, q)
  {
    assert forall u: nat, k: nat | u < |s.role| && k < NPTENTRIES :: IsRef(s', u, k, q) <==> IsRef(s, u, k, q);
  }

  lemma BornCounts(s: Phys, s': Phys, d: nat)
    requires Inv(s) && Sized(s') && Born(s, s', d) && s.role[d] == Data && d != 0
    ensures CountsOk(s', Null)
  {
    hide TreeOk, FreeListOk, Refs;
    forall q: nat ensures Refs(s', q) == Refs(s, q) { BornRefs(s, s', d, q); }
  }

  /** env_setup_vm: a new directory with no user mapping; no other
      directory changes. */
  lemma CreateKeeps(s: Phys, n: nat)
    requires Kernel(s, n)
    ensures
      var (s', r) := EnvSetupVm(s);
      && Kernel(s', n)
      && (r == Enomem <==> s.list == []) && (r == Enomem ==> s' == s)
      && (r != Enomem ==>
            && r.Created? && r.dir < |s.role| && s.role[r.dir] == Free && s'.role == s.role[r.dir := Dir]
            && (forall v: Va | UserVa(v) :: Trans(s', r.dir, v) == None)
            && (forall q: nat | q < |s.mem| && q != r.dir :: s'.mem[q] == s.mem[q]) && s'.kern == s.kern)
  {
    AllocKeepsInv(s, true);
    var (s1, p) := PageAlloc(s, true);
    if p.To? {
      var s' := EnvSetupVm(s).0;
      var d := p.page;
      TakenFloating(s, s1, d);
      assert Born(s1, s', d);
      BornKeepsInv(s1, s', d);
      forall q: nat | q < |s'.role| ensures !Floating(s', q) {
        assert q != d ==> !Floating(s1, q);
      }
      forall v: Va | UserVa(v) ensures Trans(s', d, v) == None {
        assert s.mem[s.kern][v.pdx] == EMPTY;
      }
    }
  }

  // env_free

  lemma DestroyKeeps(s: Phys, d: nat, n: nat)
    requires Kernel(s, n) && LiveDir(s, d)
    ensures EnvFree(s, d).Some? && Kernel(EnvFree(s, d).value, n)
    ensures Gone(s, EnvFree(s, d).value, d)
  {
    EnvFreeGone(s, d);
    SettledStays(s, EnvFree(s, d).value);
  }

  lemma AllocStep(s: Phys, op: Op, n: nat)
    requires Kernel(s, n) && op.Alloc? && Admissible(s, op) && n + Empties(s, op) < REF_MOD
    ensures Kernel(Step(s, op).0, n + Empties(s, op))
  {
    AllocKeeps(s, op.dst, op.dstva, op.perm, n);
  }

  lemma UnmapStep(s: Phys, op: Op, n: nat)
    requires Kernel(s, n) && op.Unmap? && Admissible(s, op) && n + Empties(s, op) < REF_MOD
    ensures Kernel(Step(s, op).0, n + Empties(s, op))
  {
    UnmapKeeps(s, op.dst, op.dstva, n);
  }

  lemma OtherStep(s: Phys, op: Op, n: nat)
    requires Kernel(s, n) && (op.Create? || op.Write? || op.Destroy?) && Admissible(s, op)
    ensures Kernel(Step(s, op).0, n) && Empties(s, op) == 0
  {
    if op.Create? {
      CreateKeeps(s, n);
    } else if op.Write? {
      StoreKeeps(s, op.dst, op.dstva, op.index, op.word, n);
    } else {
      DestroyKeeps(s, op.dst, n);
    }
  }

  lemma StepKeeps(s: Phys, op: Op, n: nat)
    requires Kernel(s, n) && Admissible(s, op) && n + Empties(s, op) < REF_MOD
    ensures Kernel(Step(s, op).0, n + Empties(s, op))
  {
    hide TreeOk, CountsOk, FreeListOk, Settled, Step, Empties;
    if op.Alloc? {
      AllocStep(s, op, n);
    } else if op.Share? {
      ShareKeeps(s, op, n);
    } else if op.Unmap? {
      UnmapStep(s, op, n);
    } else {
      OtherStep(s, op, n);
    }
  }

  // ------------------------------------------------------------------
  // Runs
  // ------------------------------------------------------------------

  ghost predicate AdmissibleRun(s: Phys, ops: seq<Op>)
    requires Sized(s)
    decreases |ops|
  {
    ops == [] || (Admissible(s, ops[0]) && AdmissibleRun(Step(s, ops[0]).0, ops[1..]))
  }

  function Run(s: Phys, ops: seq<Op>): (s': Phys)
    requires Sized(s) && AdmissibleRun(s, ops)
    ensures Sized(s') && |s'.role| == |s.role|
    decreases |ops|
  {
    if ops == [] then s else Run(Step(s, ops[0]).0, ops[1..])
  }

  /** Removals at empty slots over a whole run. */
  function RunEmpties(s: Phys, ops: seq<Op>): nat
    requires Sized(s) && AdmissibleRun(s, ops)
    decreases |ops|
  {
    if ops == [] then 0 else Empties(s, ops[0]) + RunEmpties(Step(s, ops[0]).0, ops[1..])
  }

  lemma RunUnfold(s: Phys, ops: seq<Op>)
    requires Sized(s) && AdmissibleRun(s, ops) && ops != []
    ensures Admissible(s, ops[0]) && AdmissibleRun(Step(s, ops[0]).0, ops[1..])
    ensures Run(s, ops) == Run(Step(s, ops[0]).0, ops[1..])
    ensures RunEmpties(s, ops) == Empties(s, ops[0]) + RunEmpties(Step(s, ops[0]).0, ops[1..])
  {
  }

  lemma RunEnd(s: Phys)
    requires Sized(s)
    ensures AdmissibleRun(s, []) && Run(s, []) == s && RunEmpties(s, []) == 0
  {
  }

  /** Safety over all runs: while fewer than 65536 removals have hit an empty
      slot, the free list, the page tables and every count but page 0's stay
      exact, and page 0's count is minus the number of those removals. */
  lemma {:induction false} RunKeeps(s: Phys, ops: seq<Op>, n: nat)
    requires Kernel(s, n) && AdmissibleRun(s, ops) && n + RunEmpties(s, ops) < REF_MOD
    ensures Kernel(Run(s, ops), n + RunEmpties(s, ops))
    decreases |ops|
  {
    hide TreeOk, CountsOk, FreeListOk, Settled, Step, Empties, Admissible;
    if ops == [] {
      RunEnd(s);
    } else {
      RunUnfold(s, ops);
      StepKeeps(s, ops[0], n);
      RunKeeps(Step(s, ops[0]).0, ops[1..], n + Empties(s, ops[0]));
    }
  }

  lemma RemoveFreesZero(s: Phys, d: nat, va: Va, t: nat)
    requires Sized(s) && UserVa(va) && d < |s.role| && s.mem[d][va.pdx] != EMPTY
             && s.mem[d][va.pdx].frame == t < |s.role|
    requires s.mem[t][va.ptx] == EMPTY && 0 < |s.role| && s.pages[0] == PageInfo(1, Null)
    ensures PageRemove(s, d, va).Some?
    ensures var s' := PageRemove(s, d, va).value; s'.free == To(0) && s'.role[0] == Free
  {
  }

  lemma InsertAtFreesZero(s: Phys, d: nat, pp: nat, va: Va, perm: bv12, t: nat)
    requires Sized(s) && UserVa(va) && d < |s.role| && s.mem[d][va.pdx] != EMPTY
             && s.mem[d][va.pdx].frame == t < |s.role|
    requires s.mem[t][va.ptx] == EMPTY && s.pages[0] == PageInfo(1, Null) && 0 < pp < |s.role|
    ensures InsertAt(s, d, pp, va, perm, t).1 == Ok && InsertAt(s, d, pp, va, perm, t).0.role[0] == Free
    ensures InsertAt(s, d, pp, va, perm, t).0.free == To(0)
  {
    RemoveFreesZero(SetRef(s, pp, (s.pages[pp].ref + 1) % REF_MOD), d, va, t);
  }

  lemma ZeroIsReserved(s: Phys)
    requires Inv(s)
    ensures 0 < |s.role| && s.role[0] == Reserved && s.pages[0].link == Null
  {
  }

  /** page_insert at an unmapped address when page 0's count is 1. */
  lemma InsertFreesZero(s: Phys, d: nat, pp: nat, va: Va, perm: bv12)
    requires Inv(s) && LiveDir(s, d) && UserVa(va) && 0 < |s.role| && s.pages[0].ref == 1 && Trans(s, d, va).None?
    requires 0 < pp < |s.role| && (s.mem[d][va.pdx] != EMPTY || s.list != [])
    ensures PageInsert(s, d, pp, va, perm).1 == Ok && PageInsert(s, d, pp, va, perm).0.role[0] == Free
    ensures PageInsert(s, d, pp, va, perm).0.free == To(0)
  {
    ZeroIsReserved(s);
    WalkKeepsInv(s, d, va);
    WalkTrans(s, d, va);
    WalkKeepsPage(s, d, va, 0);
    WalkKeepsPage(s, d, va, d);
    var (s1, w) := PgdirWalk(s, d, va, true);
    MappedSlot(s1, d, va);
    InsertAtFreesZero(s1, d, pp, va, perm, w.table);
  }

  lemma AllocFreesZero(s: Phys, op: Op)
    requires Kernel(s, REF_MOD - 1) && op.Alloc? && Admissible(s, op) && Empties(s, op) == 1
    ensures Step(s, op).1 == Done && Step(s, op).0.role[0] == Free && Step(s, op).0.free == To(0)
  {
    hide TreeOk, CountsOk, FreeListOk, Settled, PageInsert, PageAlloc, SysPageAlloc, Or;
    AllocTaken(s, op.dst, op.dstva, REF_MOD - 1);
    var (s1, r) := PageAlloc(s, true);
    ZeroIsReserved(s1);
    InsertFreesZero(s1, op.dst, r.page, op.dstva, op.perm.low);
    AllocComputes(s, op.dst, op.dstva, op.perm, r.page);
  }

  lemma ShareFreesZero(s: Phys, op: Op)
    requires Kernel(s, REF_MOD - 1) && op.Share? && Admissible(s, op) && Empties(s, op) == 1
    ensures Step(s, op).1 == Done && Step(s, op).0.role[0] == Free && Step(s, op).0.free == To(0)
  {
    hide TreeOk, CountsOk, FreeListOk, Settled, PageInsert, SysPageMap, PgdirWalk, Or;
    ShareReaches(s, op.src, op.srcva);
    ZeroIsReserved(s);
    InsertFreesZero(s, op.dst, Trans(s, op.src, op.srcva).value.frame, op.dstva, op.perm.low);
    ShareComputes(s, op, s.mem[op.src][op.srcva.pdx].frame);
  }

  lemma UnmapFreesZero(s: Phys, op: Op)
    requires Kernel(s, REF_MOD - 1) && op.Unmap? && Admissible(s, op) && Empties(s, op) == 1
    ensures Step(s, op).1 == Done && Step(s, op).0.role[0] == Free && Step(s, op).0.free == To(0)
  {
    MappedSlot(s, op.dst, op.dstva);
    ZeroIsReserved(s);
    RemoveFreesZero(s, op.dst, op.dstva, s.mem[op.dst][op.dstva.pdx].frame);
  }

  /** The bound is exact for every operation: the step that reaches an empty
      slot for the 65536th time drops page 0's count to zero, puts page 0 on
      the free list, and returns as if nothing had happened. */
  lemma PageZeroIsFreed(s: Phys, op: Op, n: nat)
    requires Kernel(s, n) && Admissible(s, op)
    ensures Inv(Step(s, op).0) <==> n + Empties(s, op) < REF_MOD
    ensures n + Empties(s, op) >= REF_MOD ==>
              var (s', r) := Step(s, op); r == Done && s'.free == To(0) && s'.role[0] == Free
  {
    hide TreeOk, FreeListOk, Settled, Step, Empties;
    if n + Empties(s, op) < REF_MOD {
      StepKeeps(s, op, n);
    } else {
      OnlyThree(s, op);
      if op.Alloc? {
        AllocFreesZero(s, op);
      } else if op.Share? {
        ShareFreesZero(s, op);
      } else {
        UnmapFreesZero(s, op);
      }
    }
  }

  lemma OnlyThree(s: Phys, op: Op)
    requires Sized(s) && Admissible(s, op) && Empties(s, op) != 0
    ensures op.Alloc? || op.Share? || op.Unmap?
  {
  }

  // ------------------------------------------------------------------
  // Every reference of every page
  // ------------------------------------------------------------------

  /** The three kinds of reference pp_ref counts: the environment's hold on
      its directory, a directory word, and a page-table word. */
  datatype Ref = Root(dir: nat) | PdeRef(dir: nat, pdx: nat) | PteRef(table: nat, ptx: nat)

  ghost predicate PdeNames(s: Phys, d: nat, i: nat, p: nat)
    requires Sized(s) && d < |s.role| && i < NPTENTRIES
  {
    && s.mem[d][i] != EMPTY && s.mem[d][i].frame == p
    && ((s.role[d] == Dir && i < UPDE) || (d == s.kern && p < |s.role| && s.role[p] == KernTable(i)))
  }

  ghost function PdeRefs(s: Phys, p: nat): set<Ref>
    requires Sized(s)
  {
    set d: nat, i: nat | d < |s.role| && i < NPTENTRIES && PdeNames(s, d, i, p) :: PdeRef(d, i)
  }

  ghost function PteRefs(s: Phys, p: nat): set<Ref>
    requires Sized(s)
  {
    set x | x in Refs(s, p) :: PteRef(x.0, x.1)
  }

  ghost function AllRefs(s: Phys, p: nat): set<Ref>
    requires Sized(s)
  {
    (if p < |s.role| && s.role[p] == Dir then {Root(p)} else {}) + PdeRefs(s, p) + PteRefs(s, p)
  }

  lemma {:induction false} ImageSize(xs: set<(nat, nat)>)
    ensures |set x | x in xs :: PteRef(x.0, x.1)| == |xs|
  {
    if xs != {} {
      var y :| y in xs;
      ImageSize(xs - {y});
      assert (set x | x in xs :: PteRef(x.0, x.1)) == (set x | x in xs - {y} :: PteRef(x.0, x.1)) + {PteRef(y.0, y.1)};
    }
  }

  /** pp_ref is exact: for every page but page 0, the count is the number of
      table words, directory words and environments that hold the page, and
      the pages on the free list are held by none. */
  lemma CountsAreExact(s: Phys, p: nat)
    requires Inv(s) && 0 < p < |s.role|
    ensures s.pages[p].ref == |AllRefs(s, p)|
    ensures p in s.list ==> AllRefs(s, p) == {}
  {
    if s.role[p].Table? || s.role[p].KernTable? {
      TableRefs(s, p);
    } else if s.role[p] == Dir {
      DirRefs(s, p);
    } else {
      LeafRefs(s, p);
    }
  }

  lemma TableRefs(s: Phys, p: nat)
    requires Inv(s) && 0 < p < |s.role| && (s.role[p].Table? || s.role[p].KernTable?)
    ensures s.pages[p].ref == |AllRefs(s, p)| && p !in s.list
  {
    hide TreeOk, CountsOk, FreeListOk, Refs, PdeRefs;
    NoRefsToNonData(s, p);
    TablePde(s, p);
    OneReference(s, p);
    var d := if s.role[p].Table? then s.role[p].dir else s.kern;
    NoPteRefs(s, p);
    assert AllRefs(s, p) == {PdeRef(d, s.role[p].pdx)};
  }

  lemma OneReference(s: Phys, p: nat)
    requires Inv(s) && 0 < p < |s.role| && (s.role[p].Table? || s.role[p].KernTable? || s.role[p] == Dir)
    ensures s.pages[p].ref == 1 && p !in s.list
  {
  }

  lemma NoPteRefs(s: Phys, p: nat)
    requires Sized(s) && Refs(s, p) == {}
    ensures PteRefs(s, p) == {}
  {
    hide Refs;
  }

  lemma DirRefs(s: Phys, p: nat)
    requires Inv(s) && 0 < p < |s.role| && s.role[p] == Dir
    ensures s.pages[p].ref == |AllRefs(s, p)| && p !in s.list
  {
    hide TreeOk, CountsOk, FreeListOk, Refs, PdeRefs;
    NoRefsToNonData(s, p);
    NoPde(s, p);
    OneReference(s, p);
    NoPteRefs(s, p);
    assert AllRefs(s, p) == {Root(p)};
  }

  lemma LeafRefs(s: Phys, p: nat)
    requires Inv(s) && 0 < p < |s.role| && (s.role[p] == Data || s.role[p] == Free || s.role[p] == Reserved)
    ensures s.pages[p].ref == |AllRefs(s, p)|
    ensures s.role[p] == Free ==> AllRefs(s, p) == {}
  {
    hide TreeOk, FreeListOk, Refs, PdeRefs;
    if s.role[p] != Data { NoRefsToNonData(s, p); }
    NoPde(s, p);
    ImageSize(Refs(s, p));
    assert AllRefs(s, p) == PteRefs(s, p);
    if Refs(s, p) == {} {
      NoPteRefs(s, p);
    }
  }

  lemma TablePde(s: Phys, p: nat)
    requires Sized(s) && TreeOk(s) && p < |s.role| && (s.role[p].Table? || s.role[p].KernTable?)
    ensures PdeRefs(s, p) == {PdeRef(if s.role[p].Table? then s.role[p].dir else s.kern, s.role[p].pdx)}
  {
    var d := if s.role[p].Table? then s.role[p].dir else s.kern;
    assert forall q: nat, i: nat | q < |s.role| && i < NPTENTRIES ::
        PdeNames(s, q, i, p) <==> q == d && i == s.role[p].pdx;
  }

  lemma NoPde(s: Phys, p: nat)
    requires Sized(s) && TreeOk(s) && p < |s.role| && !s.role[p].Table? && !s.role[p].KernTable?
    ensures PdeRefs(s, p) == {}
  {
    assert forall q: nat, i: nat | q < |s.role| && i < NPTENTRIES :: !PdeNames(s, q, i, p);
  }
}
