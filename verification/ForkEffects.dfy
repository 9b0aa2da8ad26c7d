/** What duppage does to the two page tables (lib/fork.c), page by page and
  word by word, and what becomes of pages that nobody may write.
 */
module ForkEffects {
  import opened Pmap
  import opened Teardown
  import opened EnvMemory
  import opened MemoryView
  import Cow = CowFork

  // ------------------------------------------------------------------
  // Entries
  // ------------------------------------------------------------------

  /** A page that is shared, or that its owner can neither write nor get a
      copy of, is handed on as it is and the parent's entry stays. Any other
      becomes read-only and copy-on-write on both sides. */
  lemma DupEntries(m: Cow.Machine, e: nat, c: nat, v: nat)
    requires Cow.Inv(m) && Cow.Enabled(m, Cow.Dup(e, c, v))
    ensures
      var m' := Cow.Step(m, Cow.Dup(e, c, v)); var was := Cow.At(m, e, v);
      && Cow.Maps(m', e, v) && Cow.Maps(m', c, v)
      && (was.flags.share || (!was.flags.w && !was.flags.cow) ==> Cow.At(m', e, v) == Cow.At(m', c, v) == was)
      && (!was.flags.share && (was.flags.w || was.flags.cow) ==>
            Cow.At(m', e, v) == Cow.At(m', c, v) == Cow.Entry(was.frame, Cow.Flags(false, true, false)))
  {
  }

  /** Neither writable nor copy-on-write. */
  predicate ReadOnly(m: Cow.Machine, e: nat, v: nat) {
    Cow.Maps(m, e, v) && v != Cow.PFTEMP && v != Cow.XSTACK && !Cow.At(m, e, v).flags.w && !Cow.At(m, e, v).flags.cow
  }

  predicate Exits(op: Cow.Op, e: nat) {
    op.Exit? && op.e == e
  }

  /** A store there ends the environment; it is never copied. */
  lemma StoreIsFatal(m: Cow.Machine, e: nat, v: nat, off: nat, b: Cow.Byte)
    requires Cow.Inv(m) && Cow.Enabled(m, Cow.Store(e, v, off, b)) && ReadOnly(m, e, v)
    ensures var m' := Cow.Step(m, Cow.Store(e, v, off, b));
            m'.envs[e].phase == Cow.Dead && m'.data == m.data && ReadOnly(m', e, v)
  {
  }

  lemma StepStaysReadOnly(m: Cow.Machine, op: Cow.Op, e: nat, v: nat)
    requires Cow.Inv(m) && Cow.Enabled(m, op) && ReadOnly(m, e, v) && !Exits(op, e)
    ensures var m' := Cow.Step(m, op); ReadOnly(m', e, v) && Cow.At(m', e, v) == Cow.At(m, e, v)
  {
    if op.FaultMap? {
      assert Cow.PhaseOk(m, op.e);
    }
  }

  /** Over every run: a page its owner may only read stays that page, with
      those permissions, through any number of forks by anybody; and its owner
      is never in the fault handler for it. */
  lemma {:induction false} RunStaysReadOnly(m: Cow.Machine, ops: seq<Cow.Op>, e: nat, v: nat)
    requires Cow.Inv(m) && Cow.Allowed(m, ops) && ReadOnly(m, e, v)
    requires forall k | 0 <= k < |ops| :: !Exits(ops[k], e)
    ensures var r := Cow.Run(m, ops);
            ReadOnly(r, e, v) && Cow.At(r, e, v) == Cow.At(m, e, v) && r.envs[e].phase != Cow.Faulting(v)
    decreases |ops|
  {
    hide Cow.Step, Cow.Enabled, Cow.AliasOk;
    if ops == [] {
      assert Cow.PhaseOk(m, e);
    } else {
      StepStaysReadOnly(m, ops[0], e, v);
      RunStaysReadOnly(Cow.Step(m, ops[0]), ops[1..], e, v);
    }
  }

  // ------------------------------------------------------------------
  // Words
  // ------------------------------------------------------------------

  lemma WordPassedOn(pte: bv12)
    ensures pte & Cow.PTE_SHARE != 0 || pte & (PTE_W | Cow.PTE_COW) == 0 ==>
              Cow.DupPerm(pte) == pte & Cow.PTE_SYSCALL
    ensures pte & Cow.PTE_SHARE == 0 && pte & (PTE_W | Cow.PTE_COW) != 0 ==>
              Cow.DupPerm(pte) == (pte & Cow.PTE_SYSCALL & !PTE_W) | Cow.PTE_COW
    ensures pte & (PTE_W | Cow.PTE_COW) != 0 <==> pte & PTE_W != 0 || pte & Cow.PTE_COW != 0
  {
  }

  /** The words of the page tables after duppage, when its calls return 0. */
  lemma DupWords(s: Phys, m: Cow.Machine, e: nat, c: nat, v: nat, n: nat)
    requires Kernel(s, n) && View(s, m) && Cow.Inv(m) && Cow.Enabled(m, Cow.Dup(e, c, v))
    requires AdmissibleRun(s, Calls(s, m, Cow.Dup(e, c, v))) && AllReturn(s, Calls(s, m, Cow.Dup(e, c, v)))
    requires n + RunEmpties(s, Calls(s, m, Cow.Dup(e, c, v))) < REF_MOD
    ensures LiveDir(s, e) && LiveDir(s, c) && v < Cow.UTOP_PAGE && Trans(s, e, VaOf(v)).Some?
    ensures
      var s' := Run(s, Calls(s, m, Cow.Dup(e, c, v)));
      var was := Trans(s, e, VaOf(v)).value;
      var cow := Pte(was.frame, (was.perm & Cow.PTE_SYSCALL & !PTE_W) | Cow.PTE_COW | PTE_P);
      && Inv(s') && LiveDir(s', e) && LiveDir(s', c)
      && (was.perm & Cow.PTE_SHARE != 0 || was.perm & (PTE_W | Cow.PTE_COW) == 0 ==>
            Trans(s', e, VaOf(v)) == Some(was)
            && Trans(s', c, VaOf(v)) == Some(Pte(was.frame, (was.perm & Cow.PTE_SYSCALL) | PTE_P)))
      && (was.perm & Cow.PTE_SHARE == 0 && was.perm & (PTE_W | Cow.PTE_COW) != 0 ==>
            Trans(s', e, VaOf(v)) == Some(cow) && Trans(s', c, VaOf(v)) == Some(cow))
  {
    hide TreeOk, CountsOk, FreeListOk, Settled, View, RunEmpties, Run, AllReturn, AdmissibleRun, Cow.Inv, Cow.DupPerm,
      Empties, Step, Admissible;
    Behind(s, m, e, v);
    LiveOf(s, m, c);
    var was := Trans(s, e, VaOf(v)).value;
    var perm := Perm(0, Cow.DupPerm(was.perm));
    WordPassedOn(was.perm);
    var a, b := Share(e, VaOf(v), c, VaOf(v), perm), Share(e, VaOf(v), e, VaOf(v), perm);
    if was.perm & Cow.PTE_SHARE != 0 || was.perm & (PTE_W | Cow.PTE_COW) == 0 {
      OneCall(s, a);
      ShareDone(s, a, n);
    } else {
      TwoCalls(s, a, b);
      ShareDone(s, a, n);
      var s1 := Step(s, a).0;
      OneCall(s1, b);
      ShareDone(s1, b, n + Empties(s, a));
    }
  }
}
