/** Create, populate, free: an environment's whole life leaves the set of
  free pages as it found it (kern/env.c, kern/syscall.c).
 */
module Populate {
  import opened Pmap
  import opened Teardown
  import opened EnvMemory

  /** Nothing but directory d and the pages it maps differs. */
  ghost predicate Apart(s: Phys, s': Phys, d: nat)
    requires Sized(s) && Sized(s') && |s'.role| == |s.role|
  {
    && Frames(s, s', d)
    && (forall q: nat, v: Va | q < |s.role| && s.role[q] == Dir && UserVa(v) && q != d ::
      Trans(s', q, v) == Trans(s, q, v))
  }

  lemma ApartTrans(s: Phys, s1: Phys, s2: Phys, d: nat)
    requires Sized(s) && Sized(s1) && Sized(s2) && |s.role| == |s1.role| == |s2.role|
    requires Apart(s, s1, d) && Apart(s1, s2, d)
    ensures Apart(s, s2, d)
  {
    FramesTrans(s, s1, s2, d);
    forall q: nat, v: Va | q < |s.role| && s.role[q] == Dir && UserVa(v) && q != d
      ensures Trans(s2, q, v) == Trans(s, q, v)
    {
      assert Trans(s1, q, v) == Trans(s, q, v);
    }
  }

  lemma ApartRefl(s: Phys, d: nat)
    requires Sized(s)
    ensures Apart(s, s, d)
  {
  }

  lemma OnlyAtApart(s: Phys, s': Phys, d: nat, va: Va)
    requires Sized(s) && Sized(s') && |s'.role| == |s.role|
    requires OnlyAt(s, s', d, va) && Frames(s, s', d)
    ensures Apart(s, s', d)
  {
  }

  lemma TakenApart(s: Phys, s1: Phys, pp: nat, d: nat)
    requires Inv(s) && Sized(s1) && Taken(s, s1, pp, true)
    ensures Apart(s, s1, d)
  {
    assert s.role[pp] == Free by { assert pp in s.list; }
    TakenTrans(s, s1, pp, true);
  }

  /** The words of free pages do not matter to any translation. */
  lemma UnusedApart(s: Phys, s': Phys, d: nat)
    requires Sized(s) && TreeOk(s) && Sized(s') && s' == s.(mem := s'.mem) && |s'.mem| == |s.mem|
    requires forall q: nat | q < |s.role| && s.role[q] != Free :: s'.mem[q] == s.mem[q]
    ensures Apart(s, s', d)
  {
    forall q: nat, v: Va | q < |s.role| && s.role[q] == Dir && UserVa(v)
      ensures Trans(s', q, v) == Trans(s, q, v)
    {
      if s.mem[q][v.pdx] != EMPTY {
        assert s.role[s.mem[q][v.pdx].frame] == Table(q, v.pdx);
      }
    }
  }

  /** A system call that changes only directory d. */
  predicate Populates(op: Op, d: nat) {
    !op.Create? && !op.Destroy? && op.dst == d
  }

  lemma AllocApart(s: Phys, d: nat, va: Va, perm: Perm, n: nat)
    requires Kernel(s, n) && Admissible(s, Alloc(d, va, perm))
    requires n + Empties(s, Alloc(d, va, perm)) < REF_MOD
    ensures Apart(s, SysPageAlloc(s, d, va, perm).0, d)
  {
    var s' := SysPageAlloc(s, d, va, perm).0;
    if !UserPerm(perm) || s.list == [] {
      if UserPerm(perm) { AllocKeepsInv(s, true); }
      ApartRefl(s, d);
    } else if |s.list| == 1 && s.mem[d][va.pdx] == EMPTY {
      AllocFails(s, d, va, perm, n);
      UnusedApart(s, s', d);
    } else {
      AllocSucceeds(s, d, va, perm, n);
      var (s1, p) := PageAlloc(s, true);
      TakenApart(s, s1, p.page, d);
      OnlyAtApart(s1, s', d, va);
      ApartTrans(s, s1, s', d);
    }
  }

  lemma ShareApart(s: Phys, op: Op, n: nat)
    requires Kernel(s, n) && op.Share? && Admissible(s, op) && n + Empties(s, op) < REF_MOD
    ensures Apart(s, Step(s, op).0, op.dst)
  {
    if !ShareAllowed(s, op.src, op.srcva, op.perm) {
      ShareRefused(s, op);
      ApartRefl(s, op.dst);
    } else if s.mem[op.dst][op.dstva.pdx] == EMPTY && s.list == [] {
      ShareHalts(s, op);
      ApartRefl(s, op.dst);
    } else {
      ShareSucceeds(s, op, n);
      OnlyAtApart(s, Step(s, op).0, op.dst, op.dstva);
    }
  }

  lemma StepApart(s: Phys, op: Op, d: nat, n: nat)
    requires Kernel(s, n) && Admissible(s, op) && Populates(op, d) && n + Empties(s, op) < REF_MOD
    ensures Apart(s, Step(s, op).0, d)
  {
    if op.Alloc? {
      AllocApart(s, d, op.dstva, op.perm, n);
    } else if op.Share? {
      ShareApart(s, op, n);
    } else if op.Unmap? {
      UnmapKeeps(s, d, op.dstva, n);
      OnlyAtApart(s, Step(s, op).0, d, op.dstva);
    } else {
      StoreKeeps(s, d, op.dstva, op.index, op.word, n);
    }
  }

  lemma {:induction false} RunApart(s: Phys, ops: seq<Op>, d: nat, n: nat)
    requires Kernel(s, n) && AdmissibleRun(s, ops) && n + RunEmpties(s, ops) < REF_MOD
    requires forall k | 0 <= k < |ops| :: Populates(ops[k], d)
    ensures Apart(s, Run(s, ops), d)
    decreases |ops|, 1
  {
    if ops == [] {
      RunEnd(s);
      ApartRefl(s, d);
    } else {
      RunApartStep(s, ops, d, n);
    }
  }

  lemma {:induction false} RunApartStep(s: Phys, ops: seq<Op>, d: nat, n: nat)
    requires Kernel(s, n) && AdmissibleRun(s, ops) && n + RunEmpties(s, ops) < REF_MOD
    requires ops != [] && forall k | 0 <= k < |ops| :: Populates(ops[k], d)
    ensures Apart(s, Run(s, ops), d)
    decreases |ops|, 0
  {
    hide TreeOk, FreeListOk, CountsOk, Settled, Step, Empties, Admissible, Apart;
    RunUnfold(s, ops);
    StepKeeps(s, ops[0], n);
    RunApart(Step(s, ops[0]).0, ops[1..], d, n + Empties(s, ops[0]));
    StepThenRun(s, ops, d, n);
  }

  lemma StepThenRun(s: Phys, ops: seq<Op>, d: nat, n: nat)
    requires Kernel(s, n) && ops != [] && Admissible(s, ops[0]) && n + Empties(s, ops[0]) < REF_MOD
    requires AdmissibleRun(Step(s, ops[0]).0, ops[1..]) && Populates(ops[0], d)
    requires Apart(Step(s, ops[0]).0, Run(Step(s, ops[0]).0, ops[1..]), d)
    ensures Apart(s, Run(Step(s, ops[0]).0, ops[1..]), d)
  {
    hide TreeOk, FreeListOk, CountsOk, Settled, Step, Empties, Apart;
    StepApart(s, ops[0], d, n);
    ApartTrans(s, Step(s, ops[0]).0, Run(Step(s, ops[0]).0, ops[1..]), d);
  }

  // ------------------------------------------------------------------
  // The free pages are determined by the directories
  // ------------------------------------------------------------------

  /** The two kernels have the same directories with the same contents. */
  ghost predicate SameTrees(s: Phys, s': Phys)
    requires Sized(s) && Sized(s') && |s'.role| == |s.role|
  {
    && (forall p: nat | p < |s.role| && (Fixed(s.role[p]) || Fixed(s'.role[p])) :: s'.role[p] == s.role[p])
    && (forall q: nat, i: nat | q < |s.role| && i < UPDE && s.role[q] == Dir :: s'.mem[q][i] == s.mem[q][i])
    && (forall q: nat, v: Va | q < |s.role| && s.role[q] == Dir && UserVa(v) :: Trans(s', q, v) == Trans(s, q, v))
  }

  lemma UsedSame(s: Phys, s': Phys, p: nat)
    requires Inv(s) && Inv(s') && Settled(s) && |s'.role| == |s.role| && SameTrees(s, s')
    requires p < |s.role| && s.role[p] != Free
    ensures s'.role[p] != Free
  {
    if s.role[p].Table? {
      TableSame(s, s', p);
    } else if s.role[p] == Data {
      MappedSomewhere(s, p);
      var t, j :| (t, j) in Refs(s, p) && t < |s.role| && j < NPTENTRIES;
      DataSame(s, s', p, t, j);
    }
  }

  lemma TableSame(s: Phys, s': Phys, p: nat)
    requires Sized(s) && TreeOk(s) && Sized(s') && TreeOk(s') && |s'.role| == |s.role| && SameTrees(s, s')
    requires p < |s.role| && s.role[p].Table?
    ensures s'.role[p] == s.role[p]
  {
    var d, i := s.role[p].dir, s.role[p].pdx;
    assert s'.mem[d][i] == s.mem[d][i];
    assert s'.role[s'.mem[d][i].frame] == Table(d, i);
  }

  lemma DataSame(s: Phys, s': Phys, p: nat, t: nat, j: nat)
    requires Sized(s) && TreeOk(s) && Sized(s') && TreeOk(s') && |s'.role| == |s.role| && SameTrees(s, s')
    requires p < |s.role| && s.role[p] == Data && (t, j) in Refs(s, p) && t < |s.role| && j < NPTENTRIES
    ensures s'.role[p] == Data
  {
    var d, i := s.role[t].dir, s.role[t].pdx;
    assert Trans(s, d, Va(i, j)) == Some(s.mem[t][j]);
    assert Trans(s', d, Va(i, j)) == Some(s.mem[t][j]);
    MappedSlot(s', d, Va(i, j));
  }

  lemma MappedSomewhere(s: Phys, p: nat)
    requires Inv(s) && Settled(s) && p < |s.role| && s.role[p] == Data
    ensures exists t: nat, j: nat :: (t, j) in Refs(s, p) && t < |s.role| && j < NPTENTRIES
  {
    NotZero(s, p);
    CountOf(s, p);
    assert !Floating(s, p);
    assert Refs(s, p) != {};
    var x :| x in Refs(s, p);
    assert (x.0, x.1) in Refs(s, p);
  }

  /** Same directories, same free pages: nothing can leak. */
  lemma SameFreePages(s: Phys, s': Phys)
    requires Inv(s) && Inv(s') && Settled(s) && Settled(s') && |s'.role| == |s.role|
    requires SameTrees(s, s') && SameTrees(s', s)
    ensures forall p: nat :: p in s'.list <==> p in s.list
  {
    forall p: nat | p < |s.role| ensures s'.role[p] == Free <==> s.role[p] == Free {
      if s.role[p] != Free { UsedSame(s, s', p); }
      if s'.role[p] != Free { UsedSame(s', s, p); }
    }
  }

  lemma GoneTrans(s: Phys, s': Phys, d: nat)
    requires Sized(s) && TreeOk(s) && Sized(s') && |s'.role| == |s.role| && Gone(s, s', d)
    requires LiveDir(s, d)
    ensures forall q: nat, v: Va | q < |s.role| && s.role[q] == Dir && UserVa(v) && q != d ::
            Trans(s', q, v) == Trans(s, q, v)
    ensures forall q: nat | q < |s.role| && s.role[q] == Dir && q != d :: s'.mem[q] == s.mem[q]
  {
    forall q: nat, v: Va | q < |s.role| && s.role[q] == Dir && UserVa(v) && q != d
      ensures Trans(s', q, v) == Trans(s, q, v)
    {
      if s.mem[q][v.pdx] != EMPTY {
        assert s.role[s.mem[q][v.pdx].frame] == Table(q, v.pdx);
      }
    }
  }

  lemma BornTrans(s: Phys, s': Phys, d: nat)
    requires Sized(s) && TreeOk(s) && Sized(s') && |s'.role| == |s.role|
    requires d < |s.role| && s.role[d] == Free
    requires forall q: nat | q < |s.mem| && q != d :: s'.mem[q] == s.mem[q]
    ensures forall q: nat, v: Va | q < |s.role| && s.role[q] == Dir && UserVa(v) :: Trans(s', q, v) == Trans(s, q, v)
  {
    forall q: nat, v: Va | q < |s.role| && s.role[q] == Dir && UserVa(v)
      ensures Trans(s', q, v) == Trans(s, q, v)
    {
      if s.mem[q][v.pdx] != EMPTY {
        assert s.role[s.mem[q][v.pdx].frame] == Table(q, v.pdx);
      }
    }
  }

  /** A directory that is born in s0, filled by s1 and gone in s2. */
  lemma LifeTrees(s: Phys, s0: Phys, s1: Phys, s2: Phys, d: nat)
    requires Sized(s) && TreeOk(s) && Sized(s0) && Sized(s1) && TreeOk(s1) && Sized(s2)
    requires |s.role| == |s0.role| == |s1.role| == |s2.role|
    requires d < |s.role| && s.role[d] == Free && s0.role == s.role[d := Dir]
    requires forall q: nat | q < |s.mem| && q != d :: s0.mem[q] == s.mem[q]
    requires Apart(s0, s1, d) && Gone(s1, s2, d)
    ensures SameTrees(s, s2)
  {
    BornTrans(s, s0, d);
    GoneTrans(s1, s2, d);
    forall q: nat, v: Va | q < |s.role| && s.role[q] == Dir && UserVa(v)
      ensures Trans(s2, q, v) == Trans(s, q, v)
    {
      assert s0.role[q] == Dir && s1.role[q] == Dir;
      assert Trans(s1, q, v) == Trans(s0, q, v);
    }
  }

  lemma SameTreesSym(s: Phys, s': Phys)
    requires Sized(s) && Sized(s') && |s'.role| == |s.role| && SameTrees(s, s')
    ensures SameTrees(s', s)
  {
  }

  /** sys_exofork's directory, any sequence of memory system calls on it
      (allocating, mapping from anywhere, unmapping, storing, succeeding or
      failing), then env_free: exactly the pages that were free before are
      free again. */
  lemma LifeRestoresFreePages(s: Phys, d: nat, ops: seq<Op>, n: nat)
    requires Kernel(s, n) && Step(s, Create).1 == Created(d)
    requires AdmissibleRun(Step(s, Create).0, ops)
    requires n + RunEmpties(Step(s, Create).0, ops) < REF_MOD
    requires forall k | 0 <= k < |ops| :: Populates(ops[k], d)
    ensures
      var s1 := Run(Step(s, Create).0, ops);
      && LiveDir(s1, d) && EnvFree(s1, d).Some?
      && (forall p: nat :: p in EnvFree(s1, d).value.list <==> p in s.list)
  {
    hide TreeOk, CountsOk, FreeListOk, Settled, EnvFree, Run, RunEmpties, AdmissibleRun, EnvSetupVm;
    CreateKeeps(s, n);
    LifeFrom(s, EnvSetupVm(s).0, d, ops, n);
  }

  /** The same from the new environment on. */
  lemma LifeFrom(s: Phys, s0: Phys, d: nat, ops: seq<Op>, n: nat)
    requires Sized(s) && Sized(s0) && Kernel(s, n) && Kernel(s0, n) && d < |s.role| && s.role[d] == Free
             && s0.role == s.role[d := Dir]
    requires forall q: nat | q < |s.mem| && q != d :: s0.mem[q] == s.mem[q]
    requires AdmissibleRun(s0, ops) && n + RunEmpties(s0, ops) < REF_MOD
    requires forall k | 0 <= k < |ops| :: Populates(ops[k], d)
    ensures
      var s1 := Run(s0, ops);
      && LiveDir(s1, d) && EnvFree(s1, d).Some?
      && (forall p: nat :: p in EnvFree(s1, d).value.list <==> p in s.list)
  {
    hide Kernel, EnvFree, Run, RunEmpties, AdmissibleRun, Apart, Populates, Step, Admissible, Empties, TreeOk, CountsOk,
      FreeListOk, Settled, Inv;
    RunApart(s0, ops, d, n);
    RunKeeps(s0, ops, n);
    ApartLive(s0, Run(s0, ops), d);
    LifeEnds(s, s0, Run(s0, ops), d, n, n + RunEmpties(s0, ops));
  }

  lemma ApartLive(s: Phys, s': Phys, d: nat)
    requires Sized(s) && Sized(s') && |s'.role| == |s.role| && Apart(s, s', d) && LiveDir(s, d)
    ensures LiveDir(s', d)
  {
  }

  lemma LifeEnds(s: Phys, s0: Phys, s1: Phys, d: nat, n: nat, n1: nat)
    requires Kernel(s, n) && Sized(s0) && Kernel(s1, n1) && |s.role| == |s0.role| == |s1.role|
    requires LiveDir(s1, d) && s.role[d] == Free && s0.role == s.role[d := Dir]
    requires forall q: nat | q < |s.mem| && q != d :: s0.mem[q] == s.mem[q]
    requires Apart(s0, s1, d)
    ensures EnvFree(s1, d).Some?
    ensures forall p: nat :: p in EnvFree(s1, d).value.list <==> p in s.list
  {
    DestroyKeeps(s1, d, n1);
    var s2 := EnvFree(s1, d).value;
    LifeTrees(s, s0, s1, s2, d);
    SameTreesSym(s, s2);
    SameFreePages(s, s2);
  }
}
