/** A page sent to a receiver that asked for none (sys_ipc_try_send in
  kern/syscall.c). The comment above the call promises that no mapping is
  transferred then; the code looks at srcva only and maps the page at whatever
  address the receiver left, which for ipc_recv(.., NULL, ..) is UTOP, that is
  Va(UPDE, 0): a word of a kernel table that every environment shares.
 */
module UnaskedPage {
  import opened Pmap
  import opened Teardown
  import opened EnvMemory
  import opened InsertCases
  import opened CallCases
  import opened PageSend
  import opened DirWords
  import BootTables

  /** Directory d has the kernel's table t at va. */
  ghost predicate SharesTable(s: Phys, d: nat, va: Va, t: nat)
    requires Sized(s)
  {
    && d < |s.role| && AnyVa(va) && t < |s.role| && s.role[t] == KernTable(va.pdx)
    && s.mem[d][va.pdx] != EMPTY && s.mem[d][va.pdx].frame == t
  }

  /** page_insert at a slot of a kernel table. */
  lemma KernelSlot(s: Phys, d: nat, pp: nat, va: Va, e: Pte, t: nat)
    requires Inv(s) && LiveDir(s, d) && SharesTable(s, d, va, t)
    requires pp < |s.role| && s.role[pp] == Data && s.mem[t][va.ptx].frame < |s.pages|
    ensures
      var (s', r) := PageInsertWord(s, d, pp, va, e);
      r == Ok && Swapped(s, s', t, va.ptx, pp, e)
  {
    hide PageRemove, TreeOk, CountsOk, FreeListOk, Swapped, InsertCases.Dropped;
    var o := s.mem[t][va.ptx].frame;
    var s2 := SetRef(s, pp, (s.pages[pp].ref + 1) % REF_MOD);
    NoLinkOrRef(s, o);
    RemoveDrops(s2, d, va, t, o);
    DropSwaps(s, PageRemove(s2, d, va).value, t, va.ptx, pp, o, e);
  }

  lemma NoLinkOrRef(s: Phys, q: nat)
    requires Inv(s) && q < |s.pages|
    ensures s.pages[q].link == Null || (s.role[q] == Free && s.pages[q].ref == 0)
  {
    ZeroIsReserved(s);
  }

  /** The slot names the page already: its count goes up and down again. */
  lemma SameSlot(s: Phys, d: nat, pp: nat, va: Va, e: Pte, t: nat)
    requires Sized(s) && d < |s.role| && AnyVa(va) && s.mem[d][va.pdx] != EMPTY
    requires s.mem[d][va.pdx].frame == t < |s.role| && s.mem[t][va.ptx].frame == pp < |s.role|
    requires s.pages[pp].ref != 0
    ensures PageInsertWord(s, d, pp, va, e) == (SetWord(s, t, va.ptx, e), Ok)
  {
    hide PageRemove;
    SameRemoved(s, d, pp, va, t);
    var cleared := s.mem[t][va.ptx := EMPTY];
    assert cleared[va.ptx := e] == s.mem[t][va.ptx := e];
    assert s.mem[t := cleared][t := s.mem[t][va.ptx := e]] == s.mem[t := s.mem[t][va.ptx := e]];
  }

  lemma SameRemoved(s: Phys, d: nat, pp: nat, va: Va, t: nat)
    requires Sized(s) && d < |s.role| && AnyVa(va) && s.mem[d][va.pdx] != EMPTY
    requires s.mem[d][va.pdx].frame == t < |s.role| && s.mem[t][va.ptx].frame == pp < |s.role|
    requires s.pages[pp].ref != 0
    ensures PageRemove(SetRef(s, pp, (s.pages[pp].ref + 1) % REF_MOD), d, va) == Some(SetWord(s, t, va.ptx, EMPTY))
  {
    var ref := s.pages[pp].ref;
    CountedTwice(ref);
    var s2 := SetRef(s, pp, (ref + 1) % REF_MOD);
    assert SetRef(s2, pp, ref).pages == s.pages;
    assert SetRef(s2, pp, ref) == s;
  }

  /** The send with its checks: it is page_insert of the source page. */
  lemma SendInserts(s: Phys, src: nat, srcva: Va, dst: nat, dstva: Va, perm: Perm)
    requires Inv(s) && LiveDir(s, src) && UserVa(srcva) && dst < |s.role| && AnyVa(dstva)
    requires Trans(s, src, srcva).Some?
    ensures
      var pp := Trans(s, src, srcva).value.frame;
      && pp < |s.role| && s.role[pp] == Data && s.pages[pp].ref != 0
      && (!SendAllowed(s, src, srcva, perm) ==> SendPage(s, src, srcva, dst, dstva, perm) == (s, Einval))
      && (SendAllowed(s, src, srcva, perm) ==>
            var (s2, o) := PageInsertWord(s, dst, pp, dstva, Pte(pp, perm.low | PTE_P));
            o == Ok ==> SendPage(s, src, srcva, dst, dstva, perm) == (s2, Done))
  {
    hide TreeOk, CountsOk, FreeListOk, PageInsertWord, Or, SyscallPerm;
    ShareReaches(s, src, srcva);
    if SyscallPerm(perm) { SyscallFits(perm, Trans(s, src, srcva).value.frame); }
  }

  lemma SyscallFits(perm: Perm, pp: nat)
    requires SyscallPerm(perm)
    ensures WordFor(pp, perm) == Pte(pp, perm.low | PTE_P)
  {
  }

  /** The word of a kernel table does not matter to the invariant. */
  lemma KernelStore(s: Phys, t: nat, j: nat, e: Pte)
    requires Inv(s) && t < |s.role| && s.role[t].KernTable? && j < NPTENTRIES
    ensures Inv(SetWord(s, t, j, e))
  {
    hide CountsOk, FreeListOk;
    KernReserved(s);
    BootTables.KernWordsKeep(s, SetWord(s, t, j, e), t);
  }

  /** Another page than the one the slot named is counted, but no user table
      names it once more. */
  lemma Miscounted(s: Phys, s': Phys, t: nat, j: nat, pp: nat, e: Pte)
    requires Inv(s) && Sized(s') && |s'.role| == |s.role| && t < |s.role| && j < NPTENTRIES && s.role[t].KernTable?
    requires Swapped(s, s', t, j, pp, e) && 0 < pp < |s.role| && s.role[pp] == Data && s.mem[t][j].frame != pp
    ensures !Inv(s')
  {
    hide TreeOk, CountsOk, FreeListOk, Refs;
    CountIs(s, pp);
    if TableFreed(s, s', s.mem[t][j].frame) {
      LostTable(s, s', t, j, pp, e);
    } else {
      SameRefs(s, s', t, j, pp, e);
      if Inv(s') { CountIs(s', pp); }
    }
  }

  ghost predicate TableFreed(s: Phys, s': Phys, q: nat)
    requires Sized(s) && Sized(s') && |s'.role| == |s.role|
  {
    q < |s.role| && s.role[q].Table? && s'.role[q] == Free
  }

  lemma LostTable(s: Phys, s': Phys, t: nat, j: nat, pp: nat, e: Pte)
    requires Inv(s) && Sized(s') && |s'.role| == |s.role| && t < |s.role| && j < NPTENTRIES && s.role[t].KernTable?
    requires Swapped(s, s', t, j, pp, e) && TableFreed(s, s', s.mem[t][j].frame)
    ensures !Inv(s')
  {
    hide CountsOk, FreeListOk;
    var q := s.mem[t][j].frame;
    var d, i := s.role[q].dir, s.role[q].pdx;
    assert s.role[d] == Dir && s'.role[d] == Dir && s'.mem[d][i] == s.mem[d][i] && s.mem[d][i].frame == q;
  }

  lemma SameRefs(s: Phys, s': Phys, t: nat, j: nat, pp: nat, e: Pte)
    requires Sized(s) && Sized(s') && |s'.role| == |s.role| && t < |s.role| && j < NPTENTRIES && s.role[t].KernTable?
    requires Swapped(s, s', t, j, pp, e) && !TableFreed(s, s', s.mem[t][j].frame)
    ensures Refs(s', pp) == Refs(s, pp)
  {
    assert forall u: nat, k: nat | u < |s.role| && k < NPTENTRIES :: IsRef(s', u, k, pp) <==> IsRef(s, u, k, pp);
  }

  /** The promise kept and broken: a page sent to an address in a kernel table
      leaves the kernel as it was exactly when the send is refused or that
      word is there already. Otherwise the call returns 0, every environment
      that shares the table, and kern_pgdir, has the page there, and what was
      mapped there loses a count; and the invariant survives exactly where the
      word named that very page. */
  lemma UnaskedExactly(s: Phys, src: nat, srcva: Va, dst: nat, dstva: Va, perm: Perm, t: nat)
    requires Inv(s) && LiveDir(s, src) && LiveDir(s, dst) && UserVa(srcva) && SharesTable(s, dst, dstva, t)
    requires Trans(s, src, srcva).Some? && s.mem[t][dstva.ptx].frame < |s.pages|
    ensures
      var (s', r) := SendPage(s, src, srcva, dst, dstva, perm);
      var pp, q := Trans(s, src, srcva).value.frame, s.mem[t][dstva.ptx].frame;
      var e := Pte(pp, perm.low | PTE_P);
      && (s' == s <==> !SendAllowed(s, src, srcva, perm) || s.mem[t][dstva.ptx] == e)
      && (!SendAllowed(s, src, srcva, perm) ==> r == Einval)
      && (SendAllowed(s, src, srcva, perm) ==>
            && r == Done && pp < |s.pages| && (Inv(s') <==> q == pp)
            && (forall d: nat | SharesTable(s, d, dstva, t) && d != t :: Trans(s', d, dstva) == Some(e))
            && (q != pp ==> s'.pages[q].ref == (s.pages[q].ref + REF_MOD - 1) % REF_MOD))
  {
    hide TreeOk, CountsOk, FreeListOk, PageInsertWord, SendPage, SendAllowed, Swapped;
    SendInserts(s, src, srcva, dst, dstva, perm);
    if SendAllowed(s, src, srcva, perm) {
      var pp, j := Trans(s, src, srcva).value.frame, dstva.ptx;
      var e := Pte(pp, perm.low | PTE_P);
      KernelSlot(s, dst, pp, dstva, e, t);
      var s' := PageInsertWord(s, dst, pp, dstva, e).0;
      Seen(s, s', t, dstva, pp, e);
      ZeroIsReserved(s);
      if s.mem[t][j].frame == pp {
        SameSlot(s, dst, pp, dstva, e, t);
        KernelStore(s, t, j, e);
        if s.mem[t][j] == e {
          assert s.mem[t][j := e] == s.mem[t] && s.mem[t := s.mem[t]] == s.mem;
        }
      } else {
        Miscounted(s, s', t, j, pp, e);
      }
    }
  }

  lemma Seen(s: Phys, s': Phys, t: nat, va: Va, pp: nat, e: Pte)
    requires Sized(s) && Sized(s') && |s'.role| == |s.role| && t < |s.role| && AnyVa(va) && pp < |s.role|
    requires Swapped(s, s', t, va.ptx, pp, e) && Present(e)
    ensures s'.mem[t][va.ptx] == e
    ensures forall d: nat | SharesTable(s, d, va, t) && d != t :: Trans(s', d, va) == Some(e)
    ensures var q := s.mem[t][va.ptx].frame;
            q < |s.pages| && q != pp ==> s'.pages[q].ref == (s.pages[q].ref + REF_MOD - 1) % REF_MOD
  {
  }

  /** After any such run, a page sent to a receiver that asked for none is seen
      by every environment at the same address, with the sender's permissions,
      as long as the kernel has a table there. */
  lemma EveryoneSees(s: Phys, ops: seq<Op>, n: nat, src: nat, srcva: Va, dst: nat, dstva: Va, perm: Perm, t: nat)
    requires Kernel(s, n) && LiveRun(s, ops) && SafeRun(s, ops, n) && DirsOk(s)
    requires LiveDir(After(s, ops), src) && LiveDir(After(s, ops), dst) && UserVa(srcva)
    requires AnyVa(dstva) && UPDE <= dstva.pdx != UVPT_PDE
    requires t < |After(s, ops).role| && After(s, ops).role[t] == KernTable(dstva.pdx)
    requires After(s, ops).mem[t][dstva.ptx].frame < |After(s, ops).pages|
    requires SendAllowed(After(s, ops), src, srcva, perm)
    ensures
      var s0 := After(s, ops);
      var (s', r) := SendPage(s0, src, srcva, dst, dstva, perm);
      var e := Pte(Trans(s0, src, srcva).value.frame, perm.low | PTE_P);
      && r == Done
      && (forall d: nat | LiveDir(s0, d) || d == s0.kern :: d < |s'.role| && Trans(s', d, dstva) == Some(e))
  {
    hide TreeOk, CountsOk, FreeListOk, Settled, LiveRun, SafeRun, After, SyscallPerm, SendPage, DirsOk;
    RunWords(s, ops, n);
    var s0 := After(s, ops);
    AllShare(s0, dstva, t);
    UnaskedExactly(s0, src, srcva, dst, dstva, perm, t);
  }

  lemma AllShare(s: Phys, va: Va, t: nat)
    requires Inv(s) && DirsOk(s) && AnyVa(va) && UPDE <= va.pdx != UVPT_PDE
    requires t < |s.role| && s.role[t] == KernTable(va.pdx)
    ensures forall d: nat | LiveDir(s, d) || d == s.kern :: SharesTable(s, d, va, t) && d != t
  {
    KernReserved(s);
  }
}
