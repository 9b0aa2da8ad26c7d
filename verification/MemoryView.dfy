/** The page maps of copy-on-write fork are those of the kernel: on the page
  tables of module Pmap, the system calls that lib/fork.c makes for one step
  of the machine of module CowFork leave exactly that step's page maps.

  Environments are named by their page directory, and page number v is the
  address v * PGSIZE. Page contents stay a matter of CowFork.
 */
module MemoryView {
  import opened Pmap
  import opened Teardown
  import opened EnvMemory
  import RegionAlloc
  import Cow = CowFork

  const USER_BITS: bv12 := PTE_P | PTE_U | PTE_W
  const USER_WORD: Perm := Perm(0, USER_BITS)

  function VaOf(v: nat): (va: Va)
    ensures v < Cow.UTOP_PAGE ==> UserVa(va)
  {
    Va(v / NPTENTRIES, v % NPTENTRIES)
  }

  lemma VaOfInjective(u: nat, v: nat)
    requires VaOf(u) == VaOf(v)
    ensures u == v
  {
  }

  predicate UserSees(e: Pte) {
    e.perm & PTE_U != 0
  }

  /** The word page_insert writes for these permissions. */
  function PteFor(frame: nat, low: bv12): Pte {
    Pte(frame, low | PTE_P)
  }

  function EntryOf(e: Pte): Cow.Entry {
    Cow.Entry(e.frame, Cow.FlagsOf(e.perm))
  }

  /** What directory e lets the user see at page v. */
  function Shown(s: Phys, e: nat, v: nat): Option<Cow.Entry>
    requires Sized(s) && e < |s.role|
  {
    if v >= Cow.UTOP_PAGE then None
    else
      match Trans(s, e, VaOf(v))
      case None => None
      case Some(pte) => if UserSees(pte) then Some(EntryOf(pte)) else None
  }

  predicate Agrees(pages: map<nat, Cow.Entry>, v: nat, shown: Option<Cow.Entry>) {
    if v in pages then shown == Some(pages[v]) else shown == None
  }

  /** The machine's environments are live directories with these mappings. */
  ghost predicate View(s: Phys, m: Cow.Machine)
    requires Sized(s)
  {
    && (forall e: nat | e in m.envs :: LiveDir(s, e))
    && (forall e: nat, v: nat | e in m.envs :: Agrees(m.envs[e].pages, v, Shown(s, e, v)))
  }

  lemma UserWord()
    ensures Cow.FlagsOf(USER_BITS) == Cow.WRITABLE && UserPerm(USER_WORD)
  {
  }

  /** The entry a word with user permissions makes. */
  lemma EntryFor(frame: nat, perm: Perm)
    requires UserPerm(perm)
    ensures UserSees(PteFor(frame, perm.low))
            && EntryOf(PteFor(frame, perm.low)) == Cow.Entry(frame, Cow.FlagsOf(perm.low))
  {
  }

  /** sys_page_map's check for write access. */
  lemma WriteChecked(low: bv12, src: bv12)
    requires low & PTE_W == 0 || src & PTE_W != 0
    ensures Cow.FlagsOf(low).w ==> Cow.FlagsOf(src).w
  {
  }

  // ------------------------------------------------------------------
  // One slot of one directory
  // ------------------------------------------------------------------

  ghost predicate SamePages(m: Cow.Machine, m': Cow.Machine) {
    m'.envs.Keys == m.envs.Keys && forall e | e in m.envs :: m'.envs[e].pages == m.envs[e].pages
  }

  lemma SamePagesView(s: Phys, m: Cow.Machine, m': Cow.Machine)
    requires Sized(s) && View(s, m) && SamePages(m, m')
    ensures View(s, m')
  {
    hide Shown, Agrees;
    forall e: nat, v: nat | e in m'.envs
      ensures Agrees(m'.envs[e].pages, v, Shown(s, e, v))
    {
      assert Agrees(m.envs[e].pages, v, Shown(s, e, v));
    }
  }

  lemma ElsewhereShown(s: Phys, s': Phys, d: nat, v: nat, e: nat, u: nat)
    requires Sized(s) && Sized(s') && |s'.role| == |s.role| && LiveDir(s, e) && v < Cow.UTOP_PAGE
    requires OnlyAt(s, s', d, VaOf(v)) && (e, u) != (d, v)
    ensures LiveDir(s', e) && Shown(s', e, u) == Shown(s, e, u)
  {
    if u < Cow.UTOP_PAGE && VaOf(u) == VaOf(v) {
      VaOfInjective(u, v);
    }
  }

  lemma StaysLive(s: Phys, s': Phys, m: Cow.Machine, d: nat, v: nat)
    requires Sized(s) && Sized(s') && |s'.role| == |s.role| && View(s, m) && OnlyAt(s, s', d, VaOf(v))
    ensures forall e: nat | e in m.envs :: LiveDir(s', e)
  {
  }

  /** A mapping written at va is an entry set at its page. */
  lemma SetView(s: Phys, s': Phys, m: Cow.Machine, d: nat, v: nat, entry: Cow.Entry)
    requires Sized(s) && Sized(s') && |s'.role| == |s.role| && View(s, m) && d in m.envs && v < Cow.UTOP_PAGE
    requires OnlyAt(s, s', d, VaOf(v)) && Shown(s', d, v) == Some(entry)
    ensures View(s', Cow.SetEntry(m, d, v, entry))
  {
    hide Shown, OnlyAt;
    StaysLive(s, s', m, d, v);
    var m' := Cow.SetEntry(m, d, v, entry);
    forall e: nat, u: nat | e in m'.envs
      ensures Agrees(m'.envs[e].pages, u, Shown(s', e, u))
    {
      assert Agrees(m.envs[e].pages, u, Shown(s, e, u));
      if (e, u) != (d, v) {
        ElsewhereShown(s, s', d, v, e, u);
      }
    }
  }

  /** A mapping removed is an entry dropped. */
  lemma DropView(s: Phys, s': Phys, m: Cow.Machine, m': Cow.Machine, d: nat, v: nat)
    requires Sized(s) && Sized(s') && |s'.role| == |s.role| && View(s, m) && d in m.envs && v < Cow.UTOP_PAGE
    requires OnlyAt(s, s', d, VaOf(v)) && Shown(s', d, v) == None
    requires m'.envs.Keys == m.envs.Keys && m'.envs[d].pages == m.envs[d].pages - {v}
    requires forall e | e in m.envs && e != d :: m'.envs[e].pages == m.envs[e].pages
    ensures View(s', m')
  {
    hide Shown, OnlyAt;
    StaysLive(s, s', m, d, v);
    forall e: nat, u: nat | e in m'.envs
      ensures Agrees(m'.envs[e].pages, u, Shown(s', e, u))
    {
      assert Agrees(m.envs[e].pages, u, Shown(s, e, u));
      if (e, u) != (d, v) {
        ElsewhereShown(s, s', d, v, e, u);
      }
    }
  }

  // ------------------------------------------------------------------
  // The system calls
  // ------------------------------------------------------------------

  /** sys_page_alloc that returns 0: the page it gives was mapped nowhere, and
      it is now at v. */
  lemma AllocView(s: Phys, m: Cow.Machine, d: nat, v: nat, perm: Perm, n: nat)
    requires Kernel(s, n) && View(s, m) && d in m.envs && v < Cow.UTOP_PAGE && Admissible(s, Alloc(d, VaOf(v), perm))
    requires n + Empties(s, Alloc(d, VaOf(v), perm)) < REF_MOD
    requires SysPageAlloc(s, d, VaOf(v), perm).1 == Done
    ensures s.list != [] && Cow.FreeFrame(m, s.list[0])
    ensures var s' := SysPageAlloc(s, d, VaOf(v), perm).0;
            View(s', Cow.SetEntry(m, d, v, Cow.Entry(s.list[0], Cow.FlagsOf(perm.low))))
  {
    hide TreeOk, FreeListOk, CountsOk, Settled, SysPageAlloc, View, Agrees, Shown, UserPerm, UserSees, PteFor,
      Cow.FlagsOf, EntryOf;
    LiveOf(s, m, d);
    AllocDone(s, d, VaOf(v), perm, n);
    FreeIsUnmapped(s, m);
    var s' := SysPageAlloc(s, d, VaOf(v), perm).0;
    EntryFor(s.list[0], perm);
    ShownIs(s', d, v, PteFor(s.list[0], perm.low));
    SetView(s, s', m, d, v, Cow.Entry(s.list[0], Cow.FlagsOf(perm.low)));
  }

  lemma LiveOf(s: Phys, m: Cow.Machine, d: nat)
    requires Sized(s) && View(s, m) && d in m.envs
    ensures LiveDir(s, d)
  {
  }

  lemma ShownIs(s: Phys, d: nat, v: nat, pte: Pte)
    requires Sized(s) && d < |s.role| && v < Cow.UTOP_PAGE && Trans(s, d, VaOf(v)) == Some(pte) && UserSees(pte)
    ensures Shown(s, d, v) == Some(EntryOf(pte))
  {
  }

  lemma AllocDone(s: Phys, d: nat, va: Va, perm: Perm, n: nat)
    requires Kernel(s, n) && Admissible(s, Alloc(d, va, perm)) && n + Empties(s, Alloc(d, va, perm)) < REF_MOD
    requires SysPageAlloc(s, d, va, perm).1 == Done
    ensures UserPerm(perm) && s.list != []
    ensures var s' := SysPageAlloc(s, d, va, perm).0;
            && Kernel(s', n + Empties(s, Alloc(d, va, perm))) && OnlyAt(s, s', d, va)
            && Trans(s', d, va) == Some(PteFor(s.list[0], perm.low))
  {
    hide TreeOk, CountsOk, Settled, PageInsert;
    if |s.list| == 1 && s.mem[d][va.pdx] == EMPTY && UserPerm(perm) {
      AllocFails(s, d, va, perm, n);
    }
    AllocNeedsPage(s);
    AllocSucceeds(s, d, va, perm, n);
    RegionAlloc.TakenOnlyAt(s, d, va, n);
    OnlyAtTrans(s, PageAlloc(s, true).0, SysPageAlloc(s, d, va, perm).0, d, va);
  }

  lemma AllocNeedsPage(s: Phys)
    requires Inv(s)
    ensures PageAlloc(s, true).1 == Null <==> s.list == []
  {
    AllocKeepsInv(s, true);
  }

  /** A page on the free list is in no environment's map. */
  lemma FreeIsUnmapped(s: Phys, m: Cow.Machine)
    requires Inv(s) && View(s, m) && s.list != []
    ensures Cow.FreeFrame(m, s.list[0])
  {
    hide CountsOk;
    forall e: nat, v: nat | Cow.Maps(m, e, v)
      ensures Cow.At(m, e, v).frame != s.list[0]
    {
      assert Agrees(m.envs[e].pages, v, Shown(s, e, v));
      MappedSlot(s, e, VaOf(v));
      assert s.list[0] in s.list;
    }
  }

  /** sys_page_map of a page the user has returns 0 only if it is writable
      when that is asked; then the destination has the source's page. */
  lemma ShareView(s: Phys, m: Cow.Machine, src: nat, srcv: nat, dst: nat, dstv: nat, perm: Perm, n: nat)
    requires Kernel(s, n) && View(s, m) && src in m.envs && dst in m.envs
    requires srcv < Cow.UTOP_PAGE && dstv < Cow.UTOP_PAGE && Cow.Maps(m, src, srcv)
    requires Admissible(s, Share(src, VaOf(srcv), dst, VaOf(dstv), perm))
    requires n + Empties(s, Share(src, VaOf(srcv), dst, VaOf(dstv), perm)) < REF_MOD
    requires Step(s, Share(src, VaOf(srcv), dst, VaOf(dstv), perm)).1 == Done
    ensures Cow.FlagsOf(perm.low).w ==> Cow.At(m, src, srcv).flags.w
    ensures var s' := Step(s, Share(src, VaOf(srcv), dst, VaOf(dstv), perm)).0;
            View(s', Cow.SetEntry(m, dst, dstv, Cow.Entry(Cow.At(m, src, srcv).frame, Cow.FlagsOf(perm.low))))
  {
    hide TreeOk, FreeListOk, CountsOk, Settled, Step, Empties, OnlyAt, Shown, UserPerm, UserSees, PteFor, Cow.FlagsOf,
      EntryOf, ShareAllowed;
    var op := Share(src, VaOf(srcv), dst, VaOf(dstv), perm);
    Behind(s, m, src, srcv);
    LiveOf(s, m, dst);
    ShareDone(s, op, n);
    var pte := Trans(s, src, VaOf(srcv)).value;
    SharedEntry(s, op);
    var s' := Step(s, op).0;
    ShownIs(s', dst, dstv, PteFor(pte.frame, perm.low));
    hide View, Agrees;
    SetView(s, s', m, dst, dstv, Cow.Entry(pte.frame, Cow.FlagsOf(perm.low)));
  }

  lemma SharedEntry(s: Phys, op: Op)
    requires Sized(s) && op.Share? && Admissible(s, op) && ShareAllowed(s, op.src, op.srcva, op.perm)
    ensures
      var pte := Trans(s, op.src, op.srcva).value;
      && UserSees(PteFor(pte.frame, op.perm.low))
      && EntryOf(PteFor(pte.frame, op.perm.low)) == Cow.Entry(pte.frame, Cow.FlagsOf(op.perm.low))
      && EntryOf(pte).frame == pte.frame && (Cow.FlagsOf(op.perm.low).w ==> EntryOf(pte).flags.w)
  {
    var pte := Trans(s, op.src, op.srcva).value;
    EntryFor(pte.frame, op.perm);
    WriteChecked(op.perm.low, pte.perm);
  }

  lemma ShareDone(s: Phys, op: Op, n: nat)
    requires Kernel(s, n) && op.Share? && Admissible(s, op) && n + Empties(s, op) < REF_MOD && Step(s, op).1 == Done
    ensures ShareAllowed(s, op.src, op.srcva, op.perm)
    ensures var s' := Step(s, op).0;
            && Kernel(s', n + Empties(s, op)) && OnlyAt(s, s', op.dst, op.dstva)
            && Trans(s', op.dst, op.dstva) == Some(PteFor(Trans(s, op.src, op.srcva).value.frame, op.perm.low))
  {
    hide TreeOk, FreeListOk, CountsOk, Settled, Step, Empties, OnlyAt;
    if !ShareAllowed(s, op.src, op.srcva, op.perm) {
      ShareRefused(s, op);
    } else if s.mem[op.dst][op.dstva.pdx] == EMPTY && s.list == [] {
      ShareHalts(s, op);
    }
    ShareSucceeds(s, op, n);
  }

  lemma UnmapView(s: Phys, m: Cow.Machine, m': Cow.Machine, d: nat, v: nat, n: nat)
    requires Kernel(s, n) && View(s, m) && d in m.envs && v < Cow.UTOP_PAGE
    requires LiveDir(s, d) && n + Empties(s, Unmap(d, VaOf(v))) < REF_MOD
    requires m'.envs.Keys == m.envs.Keys && m'.envs[d].pages == m.envs[d].pages - {v}
    requires forall e | e in m.envs && e != d :: m'.envs[e].pages == m.envs[e].pages
    ensures View(Step(s, Unmap(d, VaOf(v))).0, m')
  {
    hide TreeOk, FreeListOk, CountsOk, Settled, OnlyAt, View, PageRemove, Empties;
    UnmapKeeps(s, d, VaOf(v), n);
    DropView(s, PageRemove(s, d, VaOf(v)).value, m, m', d, v);
  }

  /** env_setup_vm: a directory nobody had, with nothing below UTOP. */
  lemma CreateView(s: Phys, m: Cow.Machine, m': Cow.Machine, n: nat)
    requires Kernel(s, n) && View(s, m) && EnvSetupVm(s).1.Created?
    requires var c := EnvSetupVm(s).1.dir;
             m' == NewEnv(m, c)
    ensures EnvSetupVm(s).1.dir !in m.envs && View(EnvSetupVm(s).0, m')
  {
    hide CountsOk, FreeListOk, Settled, EnvSetupVm;
    CreateKeeps(s, n);
    var (s', r) := EnvSetupVm(s);
    LiveIsNotFree(s, m, r.dir);
    forall e: nat, v: nat | e in m'.envs
      ensures Agrees(m'.envs[e].pages, v, Shown(s', e, v))
    {
      if e != r.dir {
        assert Agrees(m.envs[e].pages, v, Shown(s, e, v));
        SameTables(s, s', e, v);
      }
    }
  }

  lemma LiveIsNotFree(s: Phys, m: Cow.Machine, p: nat)
    requires Sized(s) && View(s, m) && p < |s.role| && s.role[p] == Free
    ensures p !in m.envs
  {
    if p in m.envs {
      LiveOf(s, m, p);
    }
  }

  /** A directory whose words and tables stay shows what it showed. */
  lemma SameTables(s: Phys, s': Phys, e: nat, v: nat)
    requires Sized(s) && TreeOk(s) && Sized(s') && |s'.role| == |s.role| && LiveDir(s, e) && s'.mem[e] == s.mem[e]
    requires forall t: nat | t < |s.role| && s.role[t].Table? && s.role[t].dir == e :: s'.mem[t] == s.mem[t]
    ensures Shown(s', e, v) == Shown(s, e, v)
  {
    if v < Cow.UTOP_PAGE && s.mem[e][VaOf(v).pdx] != EMPTY {
      MappedSlot(s, e, VaOf(v));
    }
  }

  lemma DestroyView(s: Phys, m: Cow.Machine, e: nat, n: nat)
    requires Kernel(s, n) && View(s, m) && e in m.envs
    ensures LiveDir(s, e) && EnvFree(s, e).Some? && View(EnvFree(s, e).value, m.(envs := m.envs - {e}))
  {
    hide CountsOk, FreeListOk, Settled, EnvFree;
    LiveOf(s, m, e);
    DestroyKeeps(s, e, n);
    var s' := EnvFree(s, e).value;
    var m' := m.(envs := m.envs - {e});
    forall d: nat, v: nat | d in m'.envs
      ensures Agrees(m'.envs[d].pages, v, Shown(s', d, v))
    {
      LiveOf(s, m, d);
      assert Agrees(m.envs[d].pages, v, Shown(s, d, v));
      SameTables(s, s', d, v);
    }
  }

  // ------------------------------------------------------------------
  // Each step of the fork machine
  // ------------------------------------------------------------------

  // ------------------------------------------------------------------
  // Bytes in words
  // ------------------------------------------------------------------

  function Push(q: bv12, b: bool): bv12 {
    (q << 1) | (if b then 1 else 0)
  }

  function Pop(p: bv12): bv12 {
    p >> 1
  }

  predicate LowBit(p: bv12) {
    p & 1 != 0
  }

  /** The low n bits of a word as a number, and back. */
  function NumberOf(p: bv12, n: nat): nat {
    if n == 0 then 0 else (if LowBit(p) then 1 else 0) + 2 * NumberOf(Pop(p), n - 1)
  }

  function BitsOf(x: nat, n: nat): bv12 {
    if n == 0 then 0 else Push(BitsOf(x / 2, n - 1), x % 2 == 1)
  }

  /** The 32-bit value of a word of memory, and the word of a value. */
  function ValueOf(e: Pte): nat {
    e.frame * 0x1000 + NumberOf(e.perm, 12)
  }

  function WordOf(v: nat): Pte {
    Pte(v / 0x1000, BitsOf(v % 0x1000, 12))
  }

  function Shift(k: nat): nat {
    if k == 0 then 1 else if k == 1 then 0x100 else if k == 2 then 0x1_0000 else 0x100_0000
  }

  /** A word with byte k replaced, as a byte store leaves it. */
  function WithByte(e: Pte, k: nat, b: Cow.Byte): Pte {
    var v := ValueOf(e);
    var rest := v - v / Shift(k) % 0x100 * Shift(k);
    WordOf(if rest >= 0 then rest + b * Shift(k) else 0)
  }

  /** memmove of a page through the handler's window, word by word. */
  function CopyWords(e: nat, words: Frame, j: nat): (r: seq<Op>)
    requires |words| == NPTENTRIES && j <= NPTENTRIES
    ensures forall k | 0 <= k < |r| ::
              r[k].Write? && r[k].dst == e && r[k].dstva == VaOf(Cow.PFTEMP) && r[k].index < NPTENTRIES
    decreases NPTENTRIES - j
  {
    if j == NPTENTRIES then [] else [Write(e, VaOf(Cow.PFTEMP), j, words[j])] + CopyWords(e, words, j + 1)
  }

  /** The system calls and the writes to memory one step is made of; Start
      changes a status. */
  function Calls(s: Phys, m: Cow.Machine, op: Cow.Op): seq<Op>
    requires Sized(s)
  {
    match op
    case Install(e, _) => [Alloc(e, VaOf(Cow.XSTACK), USER_WORD)]
    case Exofork(_, c, _) => [Create, Alloc(c, VaOf(Cow.XSTACK), USER_WORD)]
    case Dup(e, c, v) =>
      if e < |s.role| && v < Cow.UTOP_PAGE && Trans(s, e, VaOf(v)).Some? then
        var pte := Trans(s, e, VaOf(v)).value.perm;
        var perm := Cow.DupPerm(pte);
        var f := Cow.FlagsOf(pte);
        if (f.w || f.cow) && !f.share
        then [Share(e, VaOf(v), c, VaOf(v), Perm(0, perm)), Share(e, VaOf(v), e, VaOf(v), Perm(0, perm))]
        else [Share(e, VaOf(v), c, VaOf(v), Perm(0, perm))]
      else []
    case FaultAlloc(e, _) => [Alloc(e, VaOf(Cow.PFTEMP), USER_WORD)]
    case FaultMap(e) =>
      if e in m.envs && m.envs[e].phase.Copied?
      then [Share(e, VaOf(Cow.PFTEMP), e, VaOf(m.envs[e].phase.v), USER_WORD)] else []
    case FaultUnmap(e) => [Unmap(e, VaOf(Cow.PFTEMP))]
    case Exit(e) => [Destroy(e)]
    case Store(e, v, off, b) =>
      if e < |s.role| && v < Cow.UTOP_PAGE && off < Cow.PGSIZE && Trans(s, e, VaOf(v)).Some? then
        var pte := Trans(s, e, VaOf(v)).value;
        if Cow.FlagsOf(pte.perm).w && pte.frame < |s.mem|
        then [Write(e, VaOf(v), off / 4, WithByte(s.mem[pte.frame][off / 4], off % 4, b))] else []
      else []
    case FaultCopy(e) =>
      if e < |s.role| && e in m.envs && m.envs[e].phase.Allocated? && m.envs[e].phase.v < Cow.UTOP_PAGE
         && Trans(s, e, VaOf(m.envs[e].phase.v)).Some? && Trans(s, e, VaOf(m.envs[e].phase.v)).value.frame < |s.mem|
      then CopyWords(e, s.mem[Trans(s, e, VaOf(m.envs[e].phase.v)).value.frame], 0) else []
    case Start(_) => []
  }

  /** Page_alloc takes the head of the list, for directories too. */
  predicate Names(s: Phys, op: Cow.Op) {
    match op
    case Install(_, f) => s.list != [] && f == s.list[0]
    case FaultAlloc(_, f) => s.list != [] && f == s.list[0]
    case Exofork(_, c, f) => |s.list| >= 2 && c == s.list[0] && f == s.list[1]
    case _ => true
  }

  /** No call returns an error or panics. */
  ghost predicate AllReturn(s: Phys, ops: seq<Op>)
    requires Sized(s) && AdmissibleRun(s, ops)
    decreases |ops|
  {
    ops == [] || (Returns(ops[0], Step(s, ops[0]).1) && AllReturn(Step(s, ops[0]).0, ops[1..]))
  }

  predicate Returns(op: Op, r: Result) {
    if op.Create? then r.Created? else r == Done
  }

  lemma OneCall(s: Phys, op: Op)
    requires Sized(s) && AdmissibleRun(s, [op]) && AllReturn(s, [op])
    ensures Admissible(s, op) && Run(s, [op]) == Step(s, op).0 && RunEmpties(s, [op]) == Empties(s, op)
    ensures Returns(op, Step(s, op).1)
  {
    hide Step, Empties, Admissible;
    assert [op][1..] == [];
    RunEnd(Step(s, op).0);
  }

  lemma TwoCalls(s: Phys, a: Op, b: Op)
    requires Sized(s) && AdmissibleRun(s, [a, b]) && AllReturn(s, [a, b])
    ensures Admissible(s, a) && Returns(a, Step(s, a).1)
    ensures var s1 := Step(s, a).0;
            && AdmissibleRun(s1, [b]) && AllReturn(s1, [b]) && Run(s, [a, b]) == Run(s1, [b])
            && RunEmpties(s, [a, b]) == Empties(s, a) + RunEmpties(s1, [b])
  {
    hide Step, Empties, Admissible;
    assert [a, b][1..] == [b];
  }

  lemma AllocStepView(s: Phys, m: Cow.Machine, m': Cow.Machine, d: nat, v: nat, n: nat)
    requires Kernel(s, n) && View(s, m) && d in m.envs && v < Cow.UTOP_PAGE && s.list != []
    requires AdmissibleRun(s, [Alloc(d, VaOf(v), USER_WORD)]) && AllReturn(s, [Alloc(d, VaOf(v), USER_WORD)])
    requires n + RunEmpties(s, [Alloc(d, VaOf(v), USER_WORD)]) < REF_MOD
    requires SamePages(Cow.SetEntry(m, d, v, Cow.Entry(s.list[0], Cow.WRITABLE)), m')
    ensures Cow.FreeFrame(m, s.list[0]) && View(Run(s, [Alloc(d, VaOf(v), USER_WORD)]), m')
  {
    hide TreeOk, FreeListOk, CountsOk, Settled, SysPageAlloc, View, SamePages, Empties, Run, AllReturn, AdmissibleRun;
    var op := Alloc(d, VaOf(v), USER_WORD);
    OneCall(s, op);
    AllocView(s, m, d, v, USER_WORD, n);
    UserWord();
    SamePagesView(Step(s, op).0, Cow.SetEntry(m, d, v, Cow.Entry(s.list[0], Cow.WRITABLE)), m');
  }

  /** sys_exofork and the child's exception stack. */
  lemma ExoforkCalls(s: Phys, m: Cow.Machine, m': Cow.Machine, c: nat, n: nat)
    requires Kernel(s, n) && View(s, m) && |s.list| >= 2 && c == s.list[0]
    requires var ops := [Create, Alloc(c, VaOf(Cow.XSTACK), USER_WORD)];
             AdmissibleRun(s, ops) && AllReturn(s, ops) && n + RunEmpties(s, ops) < REF_MOD
    requires SamePages(Cow.SetEntry(NewEnv(m, c), c, Cow.XSTACK, Cow.Entry(s.list[1], Cow.WRITABLE)), m')
    ensures View(Run(s, [Create, Alloc(c, VaOf(Cow.XSTACK), USER_WORD)]), m')
  {
    hide TreeOk, CountsOk, FreeListOk, Settled, View, Empties, Run, AllReturn, AdmissibleRun, SamePages, EnvSetupVm;
    var a, b := Create, Alloc(c, VaOf(Cow.XSTACK), USER_WORD);
    TwoCalls(s, a, b);
    CreateKeeps(s, n);
    CreateNames(s);
    CreateView(s, m, NewEnv(m, c), n);
    AllocStepView(Step(s, a).0, NewEnv(m, c), m', c, Cow.XSTACK, n);
  }

  /** The machine with an environment that has no page yet. */
  function NewEnv(m: Cow.Machine, c: nat): Cow.Machine {
    m.(envs := m.envs[c := Cow.Env(map[], Cow.Embryo)])
  }

  lemma ExoforkPages(m: Cow.Machine, op: Cow.Op)
    requires Cow.Inv(m) && Cow.Enabled(m, op) && op.Exofork?
    ensures SamePages(Cow.SetEntry(NewEnv(m, op.child), op.child, Cow.XSTACK, Cow.Entry(op.f, Cow.WRITABLE)),
            Cow.Step(m, op))
  {
    hide Cow.Inv;
  }

  lemma ExoforkView(s: Phys, m: Cow.Machine, op: Cow.Op, n: nat)
    requires Kernel(s, n) && View(s, m) && Cow.Inv(m) && Cow.Enabled(m, op) && op.Exofork? && Names(s, op)
    requires AdmissibleRun(s, Calls(s, m, op)) && AllReturn(s, Calls(s, m, op))
    requires n + RunEmpties(s, Calls(s, m, op)) < REF_MOD
    ensures View(Run(s, Calls(s, m, op)), Cow.Step(m, op))
  {
    hide Kernel, View, RunEmpties, Run, AllReturn, AdmissibleRun, Cow.Inv, Cow.Step, SamePages;
    ExoforkPages(m, op);
    ExoforkCalls(s, m, Cow.Step(m, op), op.child, n);
  }

  lemma CreateNames(s: Phys)
    requires Inv(s) && s.list != []
    ensures EnvSetupVm(s).1 == Created(s.list[0]) && EnvSetupVm(s).0.list == s.list[1..]
  {
  }

  /** The calls of duppage on a page that becomes copy-on-write. */
  lemma DupTwice(s: Phys, m: Cow.Machine, e: nat, c: nat, v: nat, perm: bv12, n: nat)
    requires Kernel(s, n) && View(s, m) && e in m.envs && c in m.envs && e != c && Cow.Maps(m, e, v)
             && v < Cow.UTOP_PAGE
    requires var ops := [Share(e, VaOf(v), c, VaOf(v), Perm(0, perm)), Share(e, VaOf(v), e, VaOf(v), Perm(0, perm))];
             AdmissibleRun(s, ops) && AllReturn(s, ops) && n + RunEmpties(s, ops) < REF_MOD
    ensures var ops := [Share(e, VaOf(v), c, VaOf(v), Perm(0, perm)), Share(e, VaOf(v), e, VaOf(v), Perm(0, perm))];
            var entry := Cow.Entry(Cow.At(m, e, v).frame, Cow.FlagsOf(perm));
            View(Run(s, ops), Cow.SetEntry(Cow.SetEntry(m, c, v, entry), e, v, entry))
  {
    hide TreeOk, CountsOk, FreeListOk, Settled, Empties, Step, Run, AllReturn, AdmissibleRun, Admissible, View;
    var a, b := Share(e, VaOf(v), c, VaOf(v), Perm(0, perm)), Share(e, VaOf(v), e, VaOf(v), Perm(0, perm));
    TwoCalls(s, a, b);
    var s1 := Step(s, a).0;
    ShareView(s, m, e, v, c, v, Perm(0, perm), n);
    ShareDone(s, a, n);
    OneCall(s1, b);
    var entry := Cow.Entry(Cow.At(m, e, v).frame, Cow.FlagsOf(perm));
    ShareView(s1, Cow.SetEntry(m, c, v, entry), e, v, e, v, Perm(0, perm), n + Empties(s, a));
  }

  lemma DupOnce(s: Phys, m: Cow.Machine, e: nat, c: nat, v: nat, perm: bv12, n: nat)
    requires Kernel(s, n) && View(s, m) && e in m.envs && c in m.envs && e != c && Cow.Maps(m, e, v)
             && v < Cow.UTOP_PAGE
    requires var ops := [Share(e, VaOf(v), c, VaOf(v), Perm(0, perm))];
             AdmissibleRun(s, ops) && AllReturn(s, ops) && n + RunEmpties(s, ops) < REF_MOD
    requires Cow.At(m, e, v).flags == Cow.FlagsOf(perm)
    ensures var entry := Cow.At(m, e, v);
            View(Run(s, [Share(e, VaOf(v), c, VaOf(v), Perm(0, perm))]),
              Cow.SetEntry(Cow.SetEntry(m, c, v, entry), e, v, entry))
  {
    hide TreeOk, CountsOk, FreeListOk, Settled, Empties, Step, Run, AllReturn, AdmissibleRun, Admissible, View;
    var a := Share(e, VaOf(v), c, VaOf(v), Perm(0, perm));
    var entry := Cow.At(m, e, v);
    OneCall(s, a);
    ShareView(s, m, e, v, c, v, Perm(0, perm), n);
    var m1 := Cow.SetEntry(m, c, v, entry);
    SamePagesView(Step(s, a).0, m1, Cow.SetEntry(m1, e, v, entry));
  }

  /** The word behind an entry. */
  lemma Behind(s: Phys, m: Cow.Machine, e: nat, v: nat)
    requires Sized(s) && View(s, m) && Cow.Maps(m, e, v)
    ensures LiveDir(s, e) && v < Cow.UTOP_PAGE && Trans(s, e, VaOf(v)).Some?
    ensures UserSees(Trans(s, e, VaOf(v)).value)
    ensures Cow.At(m, e, v) == EntryOf(Trans(s, e, VaOf(v)).value)
  {
    assert Agrees(m.envs[e].pages, v, Shown(s, e, v));
  }

  lemma DupView(s: Phys, m: Cow.Machine, op: Cow.Op, n: nat)
    requires Kernel(s, n) && View(s, m) && Cow.Inv(m) && Cow.Enabled(m, op) && op.Dup?
    requires AdmissibleRun(s, Calls(s, m, op)) && AllReturn(s, Calls(s, m, op))
    requires n + RunEmpties(s, Calls(s, m, op)) < REF_MOD
    ensures View(Run(s, Calls(s, m, op)), Cow.Step(m, op))
  {
    hide TreeOk, CountsOk, FreeListOk, Settled, View, RunEmpties, Run, AllReturn, AdmissibleRun, Cow.Inv, Cow.FlagsOf,
      Cow.DupPerm;
    var e, c, v := op.e, op.child, op.v;
    Behind(s, m, e, v);
    var pte := Trans(s, e, VaOf(v)).value;
    Cow.DupPermIsDupFlags(pte.perm);
    var f := Cow.FlagsOf(pte.perm);
    if (f.w || f.cow) && !f.share {
      DupTwice(s, m, e, c, v, Cow.DupPerm(pte.perm), n);
    } else {
      DupOnce(s, m, e, c, v, Cow.DupPerm(pte.perm), n);
    }
  }

  lemma FaultMapView(s: Phys, m: Cow.Machine, op: Cow.Op, n: nat)
    requires Kernel(s, n) && View(s, m) && Cow.Inv(m) && Cow.Enabled(m, op) && op.FaultMap?
    requires AdmissibleRun(s, Calls(s, m, op)) && AllReturn(s, Calls(s, m, op))
    requires n + RunEmpties(s, Calls(s, m, op)) < REF_MOD
    ensures View(Run(s, Calls(s, m, op)), Cow.Step(m, op))
  {
    hide TreeOk, CountsOk, FreeListOk, Settled, Empties, Step, Run, AllReturn, AdmissibleRun, Admissible;
    var e, u := op.e, m.envs[op.e].phase.v;
    assert Cow.PhaseOk(m, e);
    LiveOf(s, m, e);
    assert Agrees(m.envs[e].pages, u, Shown(s, e, u));
    assert Cow.Maps(m, e, Cow.PFTEMP);
    hide View, Shown, Agrees, Cow.Inv;
    var a := Share(e, VaOf(Cow.PFTEMP), e, VaOf(u), USER_WORD);
    OneCall(s, a);
    UserWord();
    ShareView(s, m, e, Cow.PFTEMP, e, u, USER_WORD, n);
    SamePagesView(Step(s, a).0, Cow.SetEntry(m, e, u, Cow.Entry(Cow.At(m, e, Cow.PFTEMP).frame, Cow.WRITABLE)),
      Cow.Step(m, op));
  }

  lemma FaultUnmapView(s: Phys, m: Cow.Machine, op: Cow.Op, n: nat)
    requires Kernel(s, n) && View(s, m) && Cow.Inv(m) && Cow.Enabled(m, op) && op.FaultUnmap?
    requires AdmissibleRun(s, Calls(s, m, op)) && AllReturn(s, Calls(s, m, op))
    requires n + RunEmpties(s, Calls(s, m, op)) < REF_MOD
    ensures View(Run(s, Calls(s, m, op)), Cow.Step(m, op))
  {
    hide TreeOk, CountsOk, FreeListOk, Settled, Empties, Step, Run, AllReturn, AdmissibleRun, View, Cow.Inv;
    LiveOf(s, m, op.e);
    OneCall(s, Unmap(op.e, VaOf(Cow.PFTEMP)));
    UnmapView(s, m, Cow.Step(m, op), op.e, Cow.PFTEMP, n);
  }

  /** Writes through one address of one environment. */
  ghost predicate Writes(s: Phys, ops: seq<Op>, e: nat, va: Va)
    requires Sized(s)
  {
    LiveDir(s, e) && UserVa(va)
    && forall k | 0 <= k < |ops| :: ops[k].Write? && ops[k].dst == e && ops[k].dstva == va && ops[k].index < NPTENTRIES
  }

  /** They change no mapping and take no count. */
  lemma {:induction false} WritesView(s: Phys, m: Cow.Machine, ops: seq<Op>, e: nat, va: Va, n: nat)
    requires Kernel(s, n) && View(s, m) && Writes(s, ops, e, va)
    ensures AdmissibleRun(s, ops) && RunEmpties(s, ops) == 0 && AllReturn(s, ops)
    ensures Kernel(Run(s, ops), n) && View(Run(s, ops), m)
    decreases |ops|
  {
    hide TreeOk, CountsOk, FreeListOk, Settled, Store, View;
    if ops != [] {
      var s1 := Step(s, ops[0]).0;
      StoreKeeps(s, e, va, ops[0].index, ops[0].word, n);
      StoreRoles(s, e, va, ops[0].index, ops[0].word);
      StoreView(s, s1, m);
      WritesView(s1, m, ops[1..], e, va, n);
    }
  }

  lemma StoreRoles(s: Phys, d: nat, va: Va, j: nat, word: Pte)
    requires Sized(s) && d < |s.role| && UserVa(va) && j < NPTENTRIES
    ensures Store(s, d, va, j, word).role == s.role
  {
  }

  lemma StoreView(s: Phys, s': Phys, m: Cow.Machine)
    requires Sized(s) && Sized(s') && View(s, m) && s'.role == s.role
    requires forall q: nat, v: Va | q < |s.role| && s.role[q] == Dir && UserVa(v) :: Trans(s', q, v) == Trans(s, q, v)
    ensures View(s', m)
  {
    forall e: nat, v: nat | e in m.envs
      ensures Agrees(m.envs[e].pages, v, Shown(s', e, v))
    {
      assert Agrees(m.envs[e].pages, v, Shown(s, e, v));
    }
  }

  /** A store, or the handler's copy. */
  lemma MemoryStepView(s: Phys, m: Cow.Machine, op: Cow.Op, n: nat)
    requires Kernel(s, n) && View(s, m) && Cow.Inv(m) && Cow.Enabled(m, op) && (op.Store? || op.FaultCopy?)
    requires AdmissibleRun(s, Calls(s, m, op))
    ensures View(Run(s, Calls(s, m, op)), Cow.Step(m, op))
  {
    hide TreeOk, CountsOk, FreeListOk, Settled, Empties, Step, Run, AllReturn, AdmissibleRun, View, Cow.Inv, WithByte;
    var calls := Calls(s, m, op);
    LiveOf(s, m, op.e);
    var va := if op.Store? && op.v < Cow.UTOP_PAGE then VaOf(op.v) else VaOf(Cow.PFTEMP);
    WritesView(s, m, calls, op.e, va, n);
    SamePagesView(Run(s, calls), m, Cow.Step(m, op));
  }

  /** Every step of the copy-on-write machine is, on the page tables, the
      system calls it is made of: when they return 0 the new page maps are
      the step's, and the kernel's invariant holds. */
  lemma StepInMemory(s: Phys, m: Cow.Machine, op: Cow.Op, n: nat)
    requires Kernel(s, n) && View(s, m) && Cow.Inv(m) && Cow.Enabled(m, op) && Names(s, op)
    requires AdmissibleRun(s, Calls(s, m, op)) && AllReturn(s, Calls(s, m, op))
    requires n + RunEmpties(s, Calls(s, m, op)) < REF_MOD
    ensures var s' := Run(s, Calls(s, m, op));
            View(s', Cow.Step(m, op)) && Kernel(s', n + RunEmpties(s, Calls(s, m, op)))
  {
    hide TreeOk, CountsOk, FreeListOk, Settled, Empties, Step, Run, AllReturn, AdmissibleRun, Admissible, View, Cow.Inv;
    RunKeeps(s, Calls(s, m, op), n);
    match op
    case Install(e, f) => AllocStepView(s, m, Cow.Step(m, op), e, Cow.XSTACK, n);
    case FaultAlloc(e, f) => AllocStepView(s, m, Cow.Step(m, op), e, Cow.PFTEMP, n);
    case Exofork(_, _, _) => ExoforkView(s, m, op, n);
    case Dup(_, _, _) => DupView(s, m, op, n);
    case FaultMap(_) => FaultMapView(s, m, op, n);
    case FaultUnmap(_) => FaultUnmapView(s, m, op, n);
    case Exit(e) =>
      DestroyView(s, m, e, n);
      ExitCall(s, e);
    case Store(_, _, _, _) => MemoryStepView(s, m, op, n);
    case FaultCopy(_) => MemoryStepView(s, m, op, n);
    case Start(_) =>
      RunEnd(s);
      SamePagesView(s, m, Cow.Step(m, op));
  }

  lemma ExitCall(s: Phys, e: nat)
    requires Sized(s) && AdmissibleRun(s, [Destroy(e)]) && AllReturn(s, [Destroy(e)]) && e < |s.role|
    ensures EnvFree(s, e).Some? ==> Run(s, [Destroy(e)]) == EnvFree(s, e).value
  {
    hide EnvFree;
    OneCall(s, Destroy(e));
  }

  // ------------------------------------------------------------------
  // Whole runs
  // ------------------------------------------------------------------

  /** Memory s' after the calls of all the steps: each can be made and returns
      0, and page 0's count bears the removals at empty slots. */
  ghost predicate Leads(s: Phys, m: Cow.Machine, ops: seq<Cow.Op>, n: nat, s': Phys)
    requires Sized(s) && Cow.Inv(m) && Cow.Allowed(m, ops)
    decreases |ops|
  {
    if ops == [] then s' == s
    else
      var calls := Calls(s, m, ops[0]);
      && Names(s, ops[0]) && AdmissibleRun(s, calls) && AllReturn(s, calls)
      && n + RunEmpties(s, calls) < REF_MOD
      && Leads(Run(s, calls), Cow.Step(m, ops[0]), ops[1..], n + RunEmpties(s, calls), s')
  }

  /** Over every run of the fork machine, with any number of environments, the
      page tables in memory show exactly what the machine holds. */
  lemma {:induction false} RunInMemory(s: Phys, m: Cow.Machine, ops: seq<Cow.Op>, n: nat, s': Phys)
    requires Kernel(s, n) && View(s, m) && Cow.Inv(m) && Cow.Allowed(m, ops) && Leads(s, m, ops, n, s')
    ensures Inv(s') && View(s', Cow.Run(m, ops))
    decreases |ops|
  {
    hide TreeOk, CountsOk, FreeListOk, Settled, View, Run, AllReturn, AdmissibleRun, RunEmpties, Calls, Names,
      Cow.Inv, Cow.Step, Cow.Enabled;
    if ops != [] {
      var calls := Calls(s, m, ops[0]);
      StepInMemory(s, m, ops[0], n);
      RunInMemory(Run(s, calls), Cow.Step(m, ops[0]), ops[1..], n + RunEmpties(s, calls), s');
    }
  }
}
