/** Copy-on-write fork (lib/fork.c over kern/syscall.c).

  Environments are maps from virtual page numbers to (frame, flags), the view
  that page_insert and page_remove are proved to keep (module Pmap). A run
  interleaves, in any order and over any number of environments: exofork,
  one duppage at a time, stores, the four steps of the page-fault handler,
  and exit. The eager machine is a map from (environment, page) to contents
  in which duppage copies the page on the spot.
 */
module CowFork {

  const PGSIZE: nat := 4096
  // Page numbers of UTOP, UXSTACKTOP - PGSIZE and PFTEMP.
  const UTOP_PAGE: nat := 0xEEC00
  const XSTACK: nat := 0xEEC00 - 1
  const PFTEMP: nat := 0x7FF

  type Byte = b: int | 0 <= b < 256
  type Content = c: seq<Byte> | |c| == PGSIZE witness seq(PGSIZE, _ => 0)

  function Zeros(): Content {
    seq(PGSIZE, _ => 0)
  }

  /** PTE_W, PTE_COW and PTE_SHARE of a present user mapping. */
  datatype Flags = Flags(w: bool, cow: bool, share: bool)

  const WRITABLE := Flags(true, false, false)

  datatype Entry = Entry(frame: nat, flags: Flags)

  /** Embryo: made by exofork and not yet runnable. The middle four are the
      stages of pgfault on page v: entered, PFTEMP allocated, contents
      copied, copy mapped at v. Dead: pgfault panicked. */
  datatype Phase =
    | Embryo | Running | Dead
    | Faulting(v: nat) | Allocated(v: nat) | Copied(v: nat) | Remapped(v: nat)

  datatype Env = Env(pages: map<nat, Entry>, phase: Phase)

  datatype Machine = Machine(envs: map<nat, Env>, data: map<nat, Content>)

  // ------------------------------------------------------------------
  // Page permissions, bit by bit
  // ------------------------------------------------------------------

  const PTE_P: bv12 := 0x001
  const PTE_W: bv12 := 0x002
  const PTE_U: bv12 := 0x004
  const PTE_SHARE: bv12 := 0x400
  const PTE_COW: bv12 := 0x800
  const PTE_SYSCALL: bv12 := 0xE07

  function FlagsOf(pte: bv12): Flags {
    Flags(pte & PTE_W != 0, pte & PTE_COW != 0, pte & PTE_SHARE != 0)
  }

  /** The permission word duppage passes to sys_page_map. */
  function DupPerm(pte: bv12): bv12 {
    var perm := pte & PTE_SYSCALL;
    if (perm & PTE_W != 0 || perm & PTE_COW != 0) && !(perm & PTE_SHARE != 0) then (perm & !PTE_W) | PTE_COW else perm
  }

  /** duppage on the flags: writable or copy-on-write becomes copy-on-write. */
  function DupFlags(f: Flags): Flags {
    if (f.w || f.cow) && !f.share then Flags(false, true, f.share) else f
  }

  /** The flags follow the word, and a present user page stays one. */
  lemma DupPermIsDupFlags(pte: bv12)
    ensures FlagsOf(DupPerm(pte)) == DupFlags(FlagsOf(pte))
    ensures pte & PTE_P != 0 && pte & PTE_U != 0 ==> DupPerm(pte) & (PTE_U | PTE_P) == PTE_U | PTE_P
    ensures DupPerm(pte) & PTE_W != 0 ==> pte & PTE_W != 0
  {
  }

  // ------------------------------------------------------------------
  // The lazy machine
  // ------------------------------------------------------------------

  predicate Maps(m: Machine, e: nat, v: nat) {
    e in m.envs && v in m.envs[e].pages
  }

  function At(m: Machine, e: nat, v: nat): Entry
    requires Maps(m, e, v)
  {
    m.envs[e].pages[v]
  }

  /** A frame page_alloc may return: mapped nowhere. */
  ghost predicate FreeFrame(m: Machine, f: nat) {
    forall e: nat, v: nat | Maps(m, e, v) :: At(m, e, v).frame != f
  }

  function SetEntry(m: Machine, e: nat, v: nat, entry: Entry): Machine
    requires e in m.envs
  {
    m.(envs := m.envs[e := m.envs[e].(pages := m.envs[e].pages[v := entry])])
  }

  function SetPhase(m: Machine, e: nat, p: Phase): Machine
    requires e in m.envs
  {
    m.(envs := m.envs[e := m.envs[e].(phase := p)])
  }

  datatype Op =
    | Install(e: nat, f: nat)            // set_pgfault_handler's exception stack
    | Exofork(e: nat, child: nat, f: nat)
    | Dup(e: nat, child: nat, v: nat)    // duppage
    | Start(child: nat)                  // sys_env_set_status(child, ENV_RUNNABLE)
    | Store(e: nat, v: nat, off: nat, b: Byte)
    | FaultAlloc(e: nat, f: nat)         // the four statements of pgfault
    | FaultCopy(e: nat)
    | FaultMap(e: nat)
    | FaultUnmap(e: nat)
    | Exit(e: nat)

  predicate IsRunning(m: Machine, e: nat) {
    e in m.envs && m.envs[e].phase == Running
  }

  ghost predicate Enabled(m: Machine, op: Op) {
    match op
    case Install(e, f) => IsRunning(m, e) && FreeFrame(m, f)
    case Exofork(e, c, f) => IsRunning(m, e) && c !in m.envs && FreeFrame(m, f)
    case Dup(e, c, v) =>
      IsRunning(m, e) && c in m.envs && m.envs[c].phase == Embryo && v != XSTACK && Maps(m, e, v) && !Maps(m, c, v)
    case Start(c) => c in m.envs && m.envs[c].phase == Embryo
    case Store(e, v, off, _) => IsRunning(m, e) && Maps(m, e, v) && off < PGSIZE && v != PFTEMP
    case FaultAlloc(e, f) => e in m.envs && m.envs[e].phase.Faulting? && FreeFrame(m, f)
    case FaultCopy(e) => e in m.envs && m.envs[e].phase.Allocated?
    case FaultMap(e) => e in m.envs && m.envs[e].phase.Copied?
    case FaultUnmap(e) => e in m.envs && m.envs[e].phase.Remapped?
    case Exit(e) => IsRunning(m, e)
  }

  /** Where the handler stands, its pages are mapped. */
  ghost predicate PhaseOk(m: Machine, e: nat)
    requires e in m.envs
  {
    var env := m.envs[e];
    match env.phase
    case Faulting(u) =>
      u != PFTEMP && u != XSTACK && u in env.pages && env.pages[u].flags.cow && !env.pages[u].flags.w
    case Allocated(u) =>
      u != PFTEMP && u != XSTACK && u in env.pages && env.pages[u].flags.cow && !env.pages[u].flags.w
      && PFTEMP in env.pages && env.pages[PFTEMP].flags == WRITABLE
    case Copied(u) =>
      u != PFTEMP && u != XSTACK && u in env.pages && env.pages[u].flags.cow && !env.pages[u].flags.w
      && PFTEMP in env.pages && env.pages[PFTEMP].flags == WRITABLE
      && env.pages[u].frame in m.data && env.pages[PFTEMP].frame in m.data
      && m.data[env.pages[PFTEMP].frame] == m.data[env.pages[u].frame]
    case Remapped(u) =>
      u != PFTEMP && u != XSTACK && u in env.pages && env.pages[u].flags == WRITABLE
      && PFTEMP in env.pages && env.pages[PFTEMP] == env.pages[u]
    case _ => true
  }

  /** The one alias a writable private frame may have: the handler's window
      onto the page it is replacing. */
  predicate HandlerPair(m: Machine, e: nat, v: nat, e': nat, v': nat) {
    e == e' && e in m.envs && m.envs[e].phase.Remapped?
    && ((v == PFTEMP && v' == m.envs[e].phase.v) || (v' == PFTEMP && v == m.envs[e].phase.v))
  }

  predicate PrivateWritable(f: Flags) {
    f.w && !f.share
  }

  ghost predicate EntryOk(m: Machine, entry: Entry) {
    entry.frame in m.data && !(entry.flags.cow && entry.flags.share)
  }

  /** Two mappings of one frame: both shared or neither, and a writable
      private frame has no other mapping. */
  ghost predicate AliasOk(m: Machine, e: nat, v: nat, e': nat, v': nat)
    requires Maps(m, e, v) && Maps(m, e', v')
  {
    At(m, e, v).frame == At(m, e', v').frame ==>
      && At(m, e, v).flags.share == At(m, e', v').flags.share
      && (PrivateWritable(At(m, e, v).flags) ==> (e, v) == (e', v') || HandlerPair(m, e, v, e', v'))
  }

  ghost predicate Inv(m: Machine) {
    && (forall e: nat, v: nat | Maps(m, e, v) :: EntryOk(m, At(m, e, v)))
    && (forall e: nat | e in m.envs :: PhaseOk(m, e))
    && (forall e: nat, v: nat, e': nat, v': nat | Maps(m, e, v) && Maps(m, e', v') :: AliasOk(m, e, v, e', v'))
  }

  /** What a program must look like before its first fork: each frame mapped
      writable is mapped once, or only through PTE_SHARE entries. */
  ghost predicate StartsClean(m: Machine) {
    && (forall e: nat | e in m.envs :: m.envs[e].phase == Running)
    && (forall e: nat, v: nat | Maps(m, e, v) ::
          At(m, e, v).frame in m.data && !(At(m, e, v).flags.cow && At(m, e, v).flags.share))
    && (forall e: nat, v: nat, e': nat, v': nat |
          Maps(m, e, v) && Maps(m, e', v') && At(m, e, v).frame == At(m, e', v').frame ::
          && At(m, e, v).flags.share == At(m, e', v').flags.share
          && (PrivateWritable(At(m, e, v).flags) ==> (e, v) == (e', v')))
  }

  function Step(m: Machine, op: Op): Machine
    requires Enabled(m, op) && Inv(m)
  {
    match op
    case Install(e, f) => SetEntry(m.(data := m.data[f := Zeros()]), e, XSTACK, Entry(f, WRITABLE))
    case Exofork(_, c, f) =>
      m.(data := m.data[f := Zeros()], envs := m.envs[c := Env(map[XSTACK := Entry(f, WRITABLE)], Embryo)])
    case Dup(e, c, v) =>
      var entry := Entry(At(m, e, v).frame, DupFlags(At(m, e, v).flags));
      SetEntry(SetEntry(m, c, v, entry), e, v, entry)
    case Start(c) => SetPhase(m, c, Running)
    case Store(e, v, off, b) =>
      var entry := At(m, e, v);
      if entry.flags.w then m.(data := m.data[entry.frame := m.data[entry.frame][off := b]])
      else if entry.flags.cow && v != XSTACK then SetPhase(m, e, Faulting(v))
      else SetPhase(m, e, Dead)
    case FaultAlloc(e, f) =>
      SetPhase(SetEntry(m.(data := m.data[f := Zeros()]), e, PFTEMP, Entry(f, WRITABLE)), e,
        Allocated(m.envs[e].phase.v))
    case FaultCopy(e) =>
      var u := m.envs[e].phase.v;
      assert PhaseOk(m, e);
      assert Maps(m, e, u) && Maps(m, e, PFTEMP);
      SetPhase(m.(data := m.data[At(m, e, PFTEMP).frame := m.data[At(m, e, u).frame]]), e, Copied(u))
    case FaultMap(e) =>
      var u := m.envs[e].phase.v;
      assert PhaseOk(m, e);
      SetPhase(SetEntry(m, e, u, Entry(At(m, e, PFTEMP).frame, WRITABLE)), e, Remapped(u))
    case FaultUnmap(e) =>
      m.(envs := m.envs[e := Env(m.envs[e].pages - {PFTEMP}, Running)])
    case Exit(e) => m.(envs := m.envs - {e})
  }

  // ------------------------------------------------------------------
  // The eager machine
  // ------------------------------------------------------------------

  type Pages = map<(nat, nat), Content>

  /** What environments see at their private pages. */
  ghost predicate InView(m: Machine, e: nat, v: nat) {
    Maps(m, e, v) && v != PFTEMP && v != XSTACK && !At(m, e, v).flags.share
  }

  /** The eager machine's pages are exactly what the environments see. */
  ghost predicate Sees(m: Machine, d: Pages) {
    && (forall e: nat, v: nat :: InView(m, e, v) <==> (e, v) in d)
    && (forall e: nat, v: nat | InView(m, e, v) ::
          At(m, e, v).frame in m.data && d[(e, v)] == m.data[At(m, e, v).frame])
  }

  /** What the eager machine is told: copy one page, store one byte, drop an
      environment. */
  datatype Event = Copy(e: nat, child: nat, v: nat) | Write(e: nat, v: nat, off: nat, b: Byte) | Gone(e: nat)

  /** The eager machine: duppage copies the page on the spot and a store
      goes to the environment's own copy. */
  function EagerStep(d: Pages, ev: Event): Pages {
    match ev
    case Copy(e, c, v) => if (e, v) in d then d[(c, v) := d[(e, v)]] else d
    case Write(e, v, off, b) => if (e, v) in d && off < PGSIZE then d[(e, v) := d[(e, v)][off := b]] else d
    case Gone(e) => map k | k in d && k.0 != e :: d[k]
  }

  function EagerRun(d: Pages, evs: seq<Event>): Pages
    decreases |evs|
  {
    if evs == [] then d else EagerRun(EagerStep(d, evs[0]), evs[1..])
  }

  /** The eager event of a lazy step. The handler and the bookkeeping calls
      have none, nor has a store that faults: the program retries it. */
  function Visible(m: Machine, op: Op): seq<Event>
    requires Enabled(m, op)
  {
    match op
    case Dup(e, c, v) => [Copy(e, c, v)]
    case Store(e, v, off, b) => if At(m, e, v).flags.w then [Write(e, v, off, b)] else []
    case Exit(e) => [Gone(e)]
    case _ => []
  }

  // ------------------------------------------------------------------
  // Every step keeps the invariant
  // ------------------------------------------------------------------

  /** The mappings after one entry is written. */
  lemma Entries(m: Machine, e: nat, v: nat, entry: Entry)
    requires e in m.envs
    ensures forall e': nat, v': nat :: Maps(SetEntry(m, e, v, entry), e', v') <==> Maps(m, e', v') || (e', v') == (e, v)
    ensures forall e': nat, v': nat | Maps(SetEntry(m, e, v, entry), e', v') ::
              At(SetEntry(m, e, v, entry), e', v') == if (e', v') == (e, v) then entry else At(m, e', v')
  {
  }

  /** One writable private entry on a fresh frame: the exception stack, or
      the handler's window. */
  lemma FreshEntryKeeps(m: Machine, m': Machine, e: nat, v: nat, f: nat, p: Phase)
    requires Inv(m) && e in m.envs && FreeFrame(m, f)
    requires m.envs[e].phase.Running? || m.envs[e].phase.Faulting?
    requires m' == SetPhase(SetEntry(m.(data := m.data[f := Zeros()]), e, v, Entry(f, WRITABLE)), e, p)
    requires PhaseOk(m', e) && !p.Remapped?
    ensures Inv(m')
  {
    Entries(m.(data := m.data[f := Zeros()]), e, v, Entry(f, WRITABLE));
    forall e': nat, v': nat ensures Maps(m', e', v') <==> Maps(m, e', v') || (e', v') == (e, v) {
    }
    forall e': nat, v': nat | Maps(m', e', v')
      ensures At(m', e', v') == if (e', v') == (e, v) then Entry(f, WRITABLE) else At(m, e', v')
      ensures EntryOk(m', At(m', e', v'))
    {
    }
    forall e': nat | e' in m'.envs ensures PhaseOk(m', e') {
      if e' != e {
        OtherPhase(m, m', e');
      }
    }
    forall e1: nat, v1: nat, e2: nat, v2: nat | Maps(m', e1, v1) && Maps(m', e2, v2)
      ensures AliasOk(m', e1, v1, e2, v2)
    {
      if (e1, v1) != (e, v) && (e2, v2) != (e, v) {
        assert AliasOk(m, e1, v1, e2, v2);
      }
    }
  }

  /** An environment that is not touched, whose mapped frames keep their
      contents, keeps its handler condition. */
  lemma OtherPhase(m: Machine, m': Machine, e: nat)
    requires e in m.envs && e in m'.envs && m'.envs[e] == m.envs[e] && PhaseOk(m, e)
    requires forall v: nat | Maps(m, e, v) ::
               At(m, e, v).frame in m.data ==>
               At(m, e, v).frame in m'.data && m'.data[At(m, e, v).frame] == m.data[At(m, e, v).frame]
    ensures PhaseOk(m', e)
  {
    if m.envs[e].phase.Copied? {
      assert Maps(m, e, PFTEMP) && Maps(m, e, m.envs[e].phase.v);
    }
  }

  lemma InstallKeeps(m: Machine, op: Op)
    requires Inv(m) && Enabled(m, op) && op.Install?
    ensures Inv(Step(m, op))
  {
    var m' := Step(m, op);
    assert m' == SetPhase(m', op.e, Running);
    FreshEntryKeeps(m, m', op.e, XSTACK, op.f, Running);
  }

  lemma FaultAllocKeeps(m: Machine, op: Op)
    requires Inv(m) && Enabled(m, op) && op.FaultAlloc?
    ensures Inv(Step(m, op))
  {
    assert PhaseOk(m, op.e);
    FreshEntryKeeps(m, Step(m, op), op.e, PFTEMP, op.f, Allocated(m.envs[op.e].phase.v));
  }

  lemma ExoforkKeeps(m: Machine, op: Op)
    requires Inv(m) && Enabled(m, op) && op.Exofork?
    ensures Inv(Step(m, op))
  {
    var m' := Step(m, op);
    var c := op.child;
    forall e: nat, v: nat ensures Maps(m', e, v) <==> Maps(m, e, v) || (e, v) == (c, XSTACK) {
    }
    forall e: nat, v: nat | Maps(m', e, v)
      ensures At(m', e, v) == if (e, v) == (c, XSTACK) then Entry(op.f, WRITABLE) else At(m, e, v)
      ensures EntryOk(m', At(m', e, v))
    {
    }
    forall e: nat | e in m'.envs ensures PhaseOk(m', e) {
      if e != c { OtherPhase(m, m', e); }
    }
    forall e1: nat, v1: nat, e2: nat, v2: nat | Maps(m', e1, v1) && Maps(m', e2, v2)
      ensures AliasOk(m', e1, v1, e2, v2)
    {
      if e1 != c && e2 != c {
        assert AliasOk(m, e1, v1, e2, v2);
      }
    }
  }

  lemma DupKeeps(m: Machine, op: Op)
    requires Inv(m) && Enabled(m, op) && op.Dup?
    ensures Inv(Step(m, op))
  {
    var Dup(e, c, v) := op;
    var m' := Step(m, op);
    var src := At(m, e, v);
    var entry := Entry(src.frame, DupFlags(src.flags));
    Entries(m, c, v, entry);
    Entries(SetEntry(m, c, v, entry), e, v, entry);
    forall e': nat, v': nat | Maps(m', e', v')
      ensures At(m', e', v') == if (e', v') == (e, v) || (e', v') == (c, v) then entry else At(m, e', v')
      ensures EntryOk(m', At(m', e', v'))
    {
    }
    forall e': nat | e' in m'.envs ensures PhaseOk(m', e') {
      if e' != e && e' != c { OtherPhase(m, m', e'); }
    }
    forall e1: nat, v1: nat, e2: nat, v2: nat | Maps(m', e1, v1) && Maps(m', e2, v2)
      ensures AliasOk(m', e1, v1, e2, v2)
    {
      var o1 := if (e1, v1) == (c, v) then e else e1;
      var o2 := if (e2, v2) == (c, v) then e else e2;
      assert AliasOk(m, o1, v1, o2, v2);
      assert AliasOk(m, o2, v2, o1, v1);
    }
  }

  lemma StoreKeeps(m: Machine, op: Op)
    requires Inv(m) && Enabled(m, op) && op.Store?
    ensures Inv(Step(m, op))
  {
    var Store(e, v, off, b) := op;
    var m' := Step(m, op);
    var f := At(m, e, v).frame;
    forall e': nat, v': nat | Maps(m', e', v')
      ensures Maps(m, e', v') && At(m', e', v') == At(m, e', v') && EntryOk(m', At(m', e', v'))
    {
    }
    forall e': nat | e' in m'.envs ensures PhaseOk(m', e') {
      if e' != e {
        assert PhaseOk(m, e');
        StoreElsewhere(m, m', op, e');
      }
    }
    forall e1: nat, v1: nat, e2: nat, v2: nat | Maps(m', e1, v1) && Maps(m', e2, v2)
      ensures AliasOk(m', e1, v1, e2, v2)
    {
      assert AliasOk(m, e1, v1, e2, v2);
    }
  }

  /** A store does not reach the pages another environment's handler is
      working on. */
  lemma StoreElsewhere(m: Machine, m': Machine, op: Op, e': nat)
    requires Inv(m) && Enabled(m, op) && op.Store? && m' == Step(m, op)
    requires e' in m.envs && e' != op.e && PhaseOk(m, e')
    ensures PhaseOk(m', e')
  {
    var f := At(m, op.e, op.v).frame;
    if m.envs[e'].phase.Copied? {
      var u := m.envs[e'].phase.v;
      assert Maps(m, e', PFTEMP) && Maps(m, e', u);
      assert AliasOk(m, op.e, op.v, e', PFTEMP) && AliasOk(m, e', PFTEMP, op.e, op.v);
      assert AliasOk(m, op.e, op.v, e', u) && AliasOk(m, e', u, op.e, op.v);
      assert EntryOk(m, At(m, e', u));
    }
  }

  lemma FaultCopyKeeps(m: Machine, op: Op)
    requires Inv(m) && Enabled(m, op) && op.FaultCopy?
    ensures Inv(Step(m, op))
  {
    var e := op.e;
    var m' := Step(m, op);
    assert PhaseOk(m, e);
    var u := m.envs[e].phase.v;
    assert Maps(m, e, PFTEMP) && Maps(m, e, u);
    forall e': nat, v': nat | Maps(m', e', v')
      ensures Maps(m, e', v') && At(m', e', v') == At(m, e', v') && EntryOk(m', At(m', e', v'))
    {
    }
    assert AliasOk(m, e, PFTEMP, e, u);
    forall e': nat | e' in m'.envs ensures PhaseOk(m', e') {
      if e' != e {
        assert PhaseOk(m, e');
        forall v: nat | Maps(m, e', v) ensures At(m, e', v).frame != At(m, e, PFTEMP).frame {
          assert AliasOk(m, e, PFTEMP, e', v);
        }
        OtherPhase(m, m', e');
      }
    }
    forall e1: nat, v1: nat, e2: nat, v2: nat | Maps(m', e1, v1) && Maps(m', e2, v2)
      ensures AliasOk(m', e1, v1, e2, v2)
    {
      assert AliasOk(m, e1, v1, e2, v2);
    }
  }

  lemma FaultMapKeeps(m: Machine, op: Op)
    requires Inv(m) && Enabled(m, op) && op.FaultMap?
    ensures Inv(Step(m, op))
  {
    var e := op.e;
    var m' := Step(m, op);
    assert PhaseOk(m, e);
    var u := m.envs[e].phase.v;
    assert Maps(m, e, PFTEMP) && Maps(m, e, u);
    var window := At(m, e, PFTEMP);
    Entries(m, e, u, Entry(window.frame, WRITABLE));
    forall e': nat, v': nat | Maps(m', e', v')
      ensures Maps(m, e', v')
      ensures At(m', e', v') == if (e', v') == (e, u) then Entry(window.frame, WRITABLE) else At(m, e', v')
      ensures EntryOk(m', At(m', e', v'))
    {
      assert EntryOk(m, At(m, e', v')) && EntryOk(m, window);
    }
    forall e': nat | e' in m'.envs ensures PhaseOk(m', e') {
      if e' != e { OtherPhase(m, m', e'); }
    }
    forall e1: nat, v1: nat, e2: nat, v2: nat | Maps(m', e1, v1) && Maps(m', e2, v2)
      ensures AliasOk(m', e1, v1, e2, v2)
    {
      var w1 := if (e1, v1) == (e, u) then PFTEMP else v1;
      var w2 := if (e2, v2) == (e, u) then PFTEMP else v2;
      assert AliasOk(m, e1, w1, e2, w2);
      assert AliasOk(m, e2, w2, e1, w1);
    }
  }

  lemma FaultUnmapKeeps(m: Machine, op: Op)
    requires Inv(m) && Enabled(m, op) && op.FaultUnmap?
    ensures Inv(Step(m, op))
  {
    var m' := Step(m, op);
    forall e': nat, v': nat | Maps(m', e', v')
      ensures Maps(m, e', v') && (e', v') != (op.e, PFTEMP) && At(m', e', v') == At(m, e', v')
      ensures EntryOk(m', At(m', e', v'))
    {
      assert EntryOk(m, At(m, e', v'));
    }
    forall e': nat | e' in m'.envs ensures PhaseOk(m', e') {
      if e' != op.e { OtherPhase(m, m', e'); }
    }
    forall e1: nat, v1: nat, e2: nat, v2: nat | Maps(m', e1, v1) && Maps(m', e2, v2)
      ensures AliasOk(m', e1, v1, e2, v2)
    {
      assert AliasOk(m, e1, v1, e2, v2);
    }
  }

  lemma StartExitKeeps(m: Machine, op: Op)
    requires Inv(m) && Enabled(m, op) && (op.Start? || op.Exit?)
    ensures Inv(Step(m, op))
  {
    var m' := Step(m, op);
    forall e': nat, v': nat | Maps(m', e', v')
      ensures Maps(m, e', v') && At(m', e', v') == At(m, e', v') && EntryOk(m', At(m', e', v'))
    {
      assert EntryOk(m, At(m, e', v'));
    }
    forall e': nat | e' in m'.envs ensures PhaseOk(m', e') {
      if m'.envs[e'] == m.envs[e'] { OtherPhase(m, m', e'); }
    }
    forall e1: nat, v1: nat, e2: nat, v2: nat | Maps(m', e1, v1) && Maps(m', e2, v2)
      ensures AliasOk(m', e1, v1, e2, v2)
    {
      assert AliasOk(m, e1, v1, e2, v2);
    }
  }

  lemma StepKeeps(m: Machine, op: Op)
    requires Inv(m) && Enabled(m, op)
    ensures Inv(Step(m, op))
  {
    match op
    case Install(_, _) => InstallKeeps(m, op);
    case Exofork(_, _, _) => ExoforkKeeps(m, op);
    case Dup(_, _, _) => DupKeeps(m, op);
    case Store(_, _, _, _) => StoreKeeps(m, op);
    case FaultAlloc(_, _) => FaultAllocKeeps(m, op);
    case FaultCopy(_) => FaultCopyKeeps(m, op);
    case FaultMap(_) => FaultMapKeeps(m, op);
    case FaultUnmap(_) => FaultUnmapKeeps(m, op);
    case _ => StartExitKeeps(m, op);
  }

  // ------------------------------------------------------------------
  // Every step refines the eager machine
  // ------------------------------------------------------------------

  /** What a program reads at a private page. */
  lemma SeesAt(m: Machine, d: Pages, e: nat, v: nat)
    requires Sees(m, d) && InView(m, e, v)
    ensures (e, v) in d && At(m, e, v).frame in m.data && d[(e, v)] == m.data[At(m, e, v).frame]
  {
  }

  lemma FreshEntrySees(m: Machine, m': Machine, d: Pages, e: nat, v: nat, f: nat, p: Phase)
    requires Inv(m) && e in m.envs && FreeFrame(m, f) && Sees(m, d) && (v == PFTEMP || v == XSTACK)
    requires m' == SetPhase(SetEntry(m.(data := m.data[f := Zeros()]), e, v, Entry(f, WRITABLE)), e, p)
    ensures Sees(m', d)
  {
    Entries(m.(data := m.data[f := Zeros()]), e, v, Entry(f, WRITABLE));
    forall e': nat, v': nat
      ensures InView(m', e', v') <==> InView(m, e', v')
      ensures InView(m, e', v') ==> At(m', e', v') == At(m, e', v') && At(m, e', v').frame != f
    {
      assert Maps(m', e', v') <==> Maps(m, e', v') || (e', v') == (e, v);
    }
    forall e': nat, v': nat | InView(m', e', v')
      ensures At(m', e', v').frame in m'.data && d[(e', v')] == m'.data[At(m', e', v').frame]
    {
      SeesAt(m, d, e', v');
    }
  }

  lemma ExoforkSees(m: Machine, d: Pages, op: Op)
    requires Inv(m) && Enabled(m, op) && op.Exofork? && Sees(m, d)
    ensures Sees(Step(m, op), d)
  {
    var m' := Step(m, op);
    forall e: nat, v: nat
      ensures InView(m', e, v) <==> InView(m, e, v)
      ensures InView(m, e, v) ==> At(m', e, v) == At(m, e, v) && At(m, e, v).frame != op.f
    {
    }
    forall e: nat, v: nat | InView(m', e, v)
      ensures At(m', e, v).frame in m'.data && d[(e, v)] == m'.data[At(m', e, v).frame]
    {
      SeesAt(m, d, e, v);
    }
  }

  lemma DupSees(m: Machine, d: Pages, op: Op)
    requires Inv(m) && Enabled(m, op) && op.Dup? && Sees(m, d)
    ensures Sees(Step(m, op), EagerStep(d, Copy(op.e, op.child, op.v)))
  {
    var Dup(e, c, v) := op;
    var m' := Step(m, op);
    var d' := EagerStep(d, Copy(e, c, v));
    var entry := Entry(At(m, e, v).frame, DupFlags(At(m, e, v).flags));
    Entries(m, c, v, entry);
    Entries(SetEntry(m, c, v, entry), e, v, entry);
    forall e': nat, v': nat
      ensures InView(m', e', v') <==> InView(m, e', v') || ((e', v') == (c, v) && InView(m, e, v))
    {
    }
    forall e': nat, v': nat | InView(m', e', v')
      ensures At(m', e', v').frame in m'.data && d'[(e', v')] == m'.data[At(m', e', v').frame]
    {
      SeesAt(m, d, if (e', v') == (c, v) then e else e', v');
    }
  }

  lemma StoreSees(m: Machine, d: Pages, op: Op)
    requires Inv(m) && Enabled(m, op) && op.Store? && Sees(m, d) && At(m, op.e, op.v).flags.w
    ensures Sees(Step(m, op), EagerStep(d, Write(op.e, op.v, op.off, op.b)))
  {
    var Store(e, v, off, b) := op;
    var m' := Step(m, op);
    var d' := EagerStep(d, Write(e, v, off, b));
    forall e': nat, v': nat
      ensures InView(m', e', v') <==> InView(m, e', v')
      ensures InView(m, e', v') ==> At(m', e', v') == At(m, e', v')
    {
    }
    forall e': nat, v': nat | InView(m', e', v')
      ensures At(m', e', v').frame in m'.data && d'[(e', v')] == m'.data[At(m', e', v').frame]
    {
      SeesAt(m, d, e', v');
      assert AliasOk(m, e, v, e', v');
      assert AliasOk(m, e', v', e, v);
    }
  }

  lemma StoreFaultSees(m: Machine, d: Pages, op: Op)
    requires Inv(m) && Enabled(m, op) && op.Store? && Sees(m, d) && !At(m, op.e, op.v).flags.w
    ensures Sees(Step(m, op), d)
  {
    var m' := Step(m, op);
    forall e': nat, v': nat
      ensures InView(m', e', v') <==> InView(m, e', v')
      ensures InView(m, e', v') ==> At(m', e', v') == At(m, e', v')
    {
    }
    forall e': nat, v': nat | InView(m', e', v')
      ensures At(m', e', v').frame in m'.data && d[(e', v')] == m'.data[At(m', e', v').frame]
    {
      SeesAt(m, d, e', v');
    }
  }

  lemma FaultCopySees(m: Machine, d: Pages, op: Op)
    requires Inv(m) && Enabled(m, op) && op.FaultCopy? && Sees(m, d)
    ensures Sees(Step(m, op), d)
  {
    var m' := Step(m, op);
    assert PhaseOk(m, op.e);
    assert Maps(m, op.e, PFTEMP);
    forall e': nat, v': nat
      ensures InView(m', e', v') <==> InView(m, e', v')
      ensures InView(m, e', v') ==> At(m', e', v') == At(m, e', v')
    {
    }
    forall e': nat, v': nat | InView(m', e', v')
      ensures At(m', e', v').frame in m'.data && d[(e', v')] == m'.data[At(m', e', v').frame]
    {
      SeesAt(m, d, e', v');
      assert AliasOk(m, op.e, PFTEMP, e', v');
    }
  }

  lemma FaultMapSees(m: Machine, d: Pages, op: Op)
    requires Inv(m) && Enabled(m, op) && op.FaultMap? && Sees(m, d)
    ensures Sees(Step(m, op), d)
  {
    var e := op.e;
    var m' := Step(m, op);
    assert PhaseOk(m, e);
    var u := m.envs[e].phase.v;
    assert Maps(m, e, PFTEMP) && Maps(m, e, u);
    Entries(m, e, u, Entry(At(m, e, PFTEMP).frame, WRITABLE));
    assert EntryOk(m, At(m, e, u));
    assert AliasOk(m, e, u, e, u);
    forall e': nat, v': nat
      ensures InView(m', e', v') <==> InView(m, e', v')
    {
      assert Maps(m', e', v') <==> Maps(m, e', v');
    }
    forall e': nat, v': nat | InView(m', e', v')
      ensures At(m', e', v').frame in m'.data && d[(e', v')] == m'.data[At(m', e', v').frame]
    {
      SeesAt(m, d, e', v');
    }
  }

  lemma FaultUnmapSees(m: Machine, d: Pages, op: Op)
    requires Inv(m) && Enabled(m, op) && op.FaultUnmap? && Sees(m, d)
    ensures Sees(Step(m, op), d)
  {
    var m' := Step(m, op);
    forall e': nat, v': nat
      ensures InView(m', e', v') <==> InView(m, e', v')
      ensures InView(m, e', v') ==> At(m', e', v') == At(m, e', v')
    {
    }
    forall e': nat, v': nat | InView(m', e', v')
      ensures At(m', e', v').frame in m'.data && d[(e', v')] == m'.data[At(m', e', v').frame]
    {
      SeesAt(m, d, e', v');
    }
  }

  lemma StartExitSees(m: Machine, d: Pages, op: Op)
    requires Inv(m) && Enabled(m, op) && (op.Start? || op.Exit?) && Sees(m, d)
    ensures Sees(Step(m, op), if op.Exit? then EagerStep(d, Gone(op.e)) else d)
  {
    var m' := Step(m, op);
    forall e': nat, v': nat
      ensures InView(m', e', v') <==> InView(m, e', v') && !(op.Exit? && e' == op.e)
      ensures InView(m', e', v') ==> At(m', e', v') == At(m, e', v')
    {
    }
    forall e': nat, v': nat | InView(m', e', v')
      ensures At(m', e', v').frame in m'.data && d[(e', v')] == m'.data[At(m', e', v').frame]
    {
      SeesAt(m, d, e', v');
    }
  }

  lemma StepSees(m: Machine, d: Pages, op: Op)
    requires Inv(m) && Enabled(m, op) && Sees(m, d)
    ensures Sees(Step(m, op), EagerRun(d, Visible(m, op)))
  {
    match op
    case Install(e, f) => FreshEntrySees(m, Step(m, op), d, e, XSTACK, f, Running);
    case Exofork(_, _, _) => ExoforkSees(m, d, op);
    case Dup(e, c, v) => DupSees(m, d, op); OneEvent(d, Copy(e, c, v));
    case Store(e, v, off, b) =>
      if At(m, e, v).flags.w {
        StoreSees(m, d, op);
        OneEvent(d, Write(e, v, off, b));
      } else {
        StoreFaultSees(m, d, op);
      }
    case FaultAlloc(e, f) => FreshEntrySees(m, Step(m, op), d, e, PFTEMP, f, Allocated(m.envs[e].phase.v));
    case FaultCopy(_) => FaultCopySees(m, d, op);
    case FaultMap(_) => FaultMapSees(m, d, op);
    case FaultUnmap(_) => FaultUnmapSees(m, d, op);
    case Start(_) => StartExitSees(m, d, op);
    case Exit(e) => StartExitSees(m, d, op); OneEvent(d, Gone(e));
  }

  lemma OneEvent(d: Pages, ev: Event)
    ensures EagerRun(d, [ev]) == EagerStep(d, ev)
  {
    assert [ev][1..] == [];
  }

  // ------------------------------------------------------------------
  // Runs
  // ------------------------------------------------------------------

  ghost predicate Allowed(m: Machine, ops: seq<Op>)
    requires Inv(m)
    decreases |ops|
  {
    ops == [] || (Enabled(m, ops[0]) && Inv(Step(m, ops[0])) && Allowed(Step(m, ops[0]), ops[1..]))
  }

  function Run(m: Machine, ops: seq<Op>): Machine
    requires Inv(m) && Allowed(m, ops)
    decreases |ops|
  {
    if ops == [] then m else Run(Step(m, ops[0]), ops[1..])
  }

  /** The stores, copies and exits a run performs, in order. */
  function Trace(m: Machine, ops: seq<Op>): seq<Event>
    requires Inv(m) && Allowed(m, ops)
    decreases |ops|
  {
    if ops == [] then [] else Visible(m, ops[0]) + Trace(Step(m, ops[0]), ops[1..])
  }

  /** `Allowed` asks only that each step is enabled when it is taken. */
  lemma AllowedStep(m: Machine, op: Op, rest: seq<Op>)
    requires Inv(m) && Enabled(m, op)
    ensures Inv(Step(m, op))
    ensures Allowed(m, [op] + rest) <==> Allowed(Step(m, op), rest)
  {
    StepKeeps(m, op);
    assert ([op] + rest)[1..] == rest;
  }

  lemma {:induction false} EagerConcat(d: Pages, a: seq<Event>, b: seq<Event>)
    ensures EagerRun(d, a + b) == EagerRun(EagerRun(d, a), b)
    decreases |a|
  {
    if a == [] {
      assert a + b == b;
    } else {
      assert (a + b)[1..] == a[1..] + b;
      EagerConcat(EagerStep(d, a[0]), a[1..], b);
    }
  }

  /** Copy-on-write fork refines fork by copying: after every run, each
      environment sees at each of its private pages what it would see had
      every duppage copied the page on the spot. */
  lemma {:induction false} LazyRefinesEager(m: Machine, d: Pages, ops: seq<Op>)
    requires Inv(m) && Sees(m, d) && Allowed(m, ops)
    ensures Inv(Run(m, ops)) && Sees(Run(m, ops), EagerRun(d, Trace(m, ops)))
    decreases |ops|
  {
    if ops != [] {
      StepSees(m, d, ops[0]);
      var d1 := EagerRun(d, Visible(m, ops[0]));
      LazyRefinesEager(Step(m, ops[0]), d1, ops[1..]);
      EagerConcat(d, Visible(m, ops[0]), Trace(Step(m, ops[0]), ops[1..]));
    }
  }

  /** The contents of page v of e, where it is in view. */
  function ContentAt(m: Machine, e: nat, v: nat): Content
    requires Maps(m, e, v) && At(m, e, v).frame in m.data
  {
    m.data[At(m, e, v).frame]
  }

  /** The eager machine that shows what the environments see now. */
  lemma ViewOf(m: Machine) returns (d: Pages)
    requires Inv(m)
    ensures Sees(m, d)
  {
    forall e: nat, v: nat | Maps(m, e, v)
      ensures At(m, e, v).frame in m.data
    {
      assert EntryOk(m, At(m, e, v));
    }
    d := map e: nat, v: nat | e in m.envs && v in m.envs[e].pages && InView(m, e, v) :: (e, v) := ContentAt(m, e, v);
  }

  /** A machine as programs are loaded, before any fork, satisfies the
      invariant and has a view to start from. */
  lemma CleanStart(m: Machine) returns (d: Pages)
    requires StartsClean(m)
    ensures Inv(m) && Sees(m, d)
  {
    d := ViewOf(m);
  }

  /** From a clean start, every run shows what copying would show. */
  lemma EveryRunIsCopying(m: Machine, ops: seq<Op>) returns (d: Pages)
    requires StartsClean(m) && Inv(m) && Allowed(m, ops)
    ensures Sees(m, d) && Sees(Run(m, ops), EagerRun(d, Trace(m, ops)))
  {
    d := CleanStart(m);
    LazyRefinesEager(m, d, ops);
  }

  predicate Disturbs(op: Op, e: nat, v: nat) {
    (op.Store? && op.e == e && op.v == v) || (op.Exit? && op.e == e)
  }

  lemma StepStaysPrivate(m: Machine, op: Op, e: nat, v: nat)
    requires Inv(m) && Enabled(m, op) && InView(m, e, v) && !Disturbs(op, e, v)
    ensures InView(Step(m, op), e, v)
    ensures At(m, e, v).frame in m.data && At(Step(m, op), e, v).frame in Step(m, op).data
    ensures ContentAt(Step(m, op), e, v) == ContentAt(m, e, v)
  {
    var d := ViewOf(m);
    StepSees(m, d, op);
    SeesAt(m, d, e, v);
    var evs := Visible(m, op);
    var d' := EagerRun(d, evs);
    hide Step, Inv;
    if evs != [] {
      OneEvent(d, evs[0]);
      assert evs == [evs[0]];
    }
    assert (e, v) in d' && d'[(e, v)] == d[(e, v)];
    SeesAt(Step(m, op), d', e, v);
  }

  /** No write reaches another environment's view: in any run, with whatever
      the others do, what e sees at a page stays as it is until e itself
      stores there or exits. */
  lemma {:induction false} StoresStayPrivate(m: Machine, ops: seq<Op>, e: nat, v: nat)
    requires Inv(m) && Allowed(m, ops) && InView(m, e, v)
    requires forall k | 0 <= k < |ops| :: !Disturbs(ops[k], e, v)
    ensures InView(Run(m, ops), e, v)
    ensures At(m, e, v).frame in m.data && At(Run(m, ops), e, v).frame in Run(m, ops).data
    ensures ContentAt(Run(m, ops), e, v) == ContentAt(m, e, v)
    decreases |ops|
  {
    hide Step, Inv, Enabled, InView;
    if ops == [] {
      var d := ViewOf(m);
      SeesAt(m, d, e, v);
    } else {
      StepStaysPrivate(m, ops[0], e, v);
      StoresStayPrivate(Step(m, ops[0]), ops[1..], e, v);
    }
  }

  lemma RunNil(m: Machine)
    requires Inv(m)
    ensures Allowed(m, []) && Run(m, []) == m && Trace(m, []) == []
  {
  }

  lemma RunCons(m: Machine, op: Op, rest: seq<Op>)
    requires Inv(m) && Enabled(m, op) && Inv(Step(m, op)) && Allowed(Step(m, op), rest)
    ensures Allowed(m, [op] + rest)
    ensures Run(m, [op] + rest) == Run(Step(m, op), rest)
    ensures Trace(m, [op] + rest) == Visible(m, op) + Trace(Step(m, op), rest)
  {
    assert ([op] + rest)[1..] == rest;
  }

  /** The four statements of pgfault, one after the other: the faulting page
      ends up private and writable with the contents it had. */
  lemma HandlerSteps(m: Machine, e: nat, f: nat) returns (m2: Machine, m3: Machine, m4: Machine, m5: Machine)
    requires Inv(m) && e in m.envs && m.envs[e].phase.Faulting? && FreeFrame(m, f)
    ensures Enabled(m, FaultAlloc(e, f)) && m2 == Step(m, FaultAlloc(e, f)) && Inv(m2)
    ensures Enabled(m2, FaultCopy(e)) && m3 == Step(m2, FaultCopy(e)) && Inv(m3)
    ensures Enabled(m3, FaultMap(e)) && m4 == Step(m3, FaultMap(e)) && Inv(m4)
    ensures Enabled(m4, FaultUnmap(e)) && m5 == Step(m4, FaultUnmap(e)) && Inv(m5)
    ensures
      var v := m.envs[e].phase.v;
      && IsRunning(m5, e) && Maps(m, e, v) && Maps(m5, e, v) && At(m5, e, v) == Entry(f, WRITABLE)
      && At(m, e, v).frame in m.data && f in m5.data && m5.data[f] == m.data[At(m, e, v).frame]
  {
    var v := m.envs[e].phase.v;
    assert PhaseOk(m, e);
    assert Maps(m, e, v);
    assert EntryOk(m, At(m, e, v));
    StepKeeps(m, FaultAlloc(e, f));
    m2 := Step(m, FaultAlloc(e, f));
    StepKeeps(m2, FaultCopy(e));
    m3 := Step(m2, FaultCopy(e));
    StepKeeps(m3, FaultMap(e));
    m4 := Step(m3, FaultMap(e));
    StepKeeps(m4, FaultUnmap(e));
    m5 := Step(m4, FaultUnmap(e));
  }

  lemma HandlerRuns(m: Machine, e: nat, f: nat, last: Op) returns (m5: Machine)
    requires Inv(m) && e in m.envs && m.envs[e].phase.Faulting? && FreeFrame(m, f)
    requires last.Store? && last.e == e && last.v == m.envs[e].phase.v && last.off < PGSIZE
    ensures
      var ops := [FaultAlloc(e, f)] + ([FaultCopy(e)] + ([FaultMap(e)] + ([FaultUnmap(e)] + ([last] + []))));
      && Allowed(m, ops) && IsRunning(Run(m, ops), e)
      && Trace(m, ops) == [Write(e, last.v, last.off, last.b)]
  {
    var m2, m3, m4;
    assert PhaseOk(m, e);
    m2, m3, m4, m5 := HandlerSteps(m, e, f);
    StepKeeps(m5, last);
    var m6 := Step(m5, last);
    RunNil(m6);
    RunCons(m5, last, []);
    RunCons(m4, FaultUnmap(e), [last] + []);
    RunCons(m3, FaultMap(e), [FaultUnmap(e)] + ([last] + []));
    RunCons(m2, FaultCopy(e), [FaultMap(e)] + ([FaultUnmap(e)] + ([last] + [])));
    RunCons(m, FaultAlloc(e, f), [FaultCopy(e)] + ([FaultMap(e)] + ([FaultUnmap(e)] + ([last] + []))));
  }

  /** A store that faults is performed after all: the four handler steps end
      with a private writable page, and the retried store is the one event
      the eager machine gets. */
  lemma FaultedStoreIsPerformed(m: Machine, e: nat, v: nat, off: nat, b: Byte, f: nat)
    requires Inv(m) && Enabled(m, Store(e, v, off, b)) && FreeFrame(m, f)
    requires At(m, e, v).flags.cow && !At(m, e, v).flags.w && v != XSTACK
    ensures
      var st := Store(e, v, off, b);
      var ops := [st, FaultAlloc(e, f), FaultCopy(e), FaultMap(e), FaultUnmap(e), st];
      && Allowed(m, ops)
      && Trace(m, ops) == [Write(e, v, off, b)]
      && IsRunning(Run(m, ops), e)
  {
    var st := Store(e, v, off, b);
    StepKeeps(m, st);
    var m1 := Step(m, st);
    FreeAfterFault(m, m1, e, v, f);
    var m5 := HandlerRuns(m1, e, f, st);
    var rest := [FaultAlloc(e, f)] + ([FaultCopy(e)] + ([FaultMap(e)] + ([FaultUnmap(e)] + ([st] + []))));
    RunCons(m, st, rest);
    assert [st] + rest == [st, FaultAlloc(e, f), FaultCopy(e), FaultMap(e), FaultUnmap(e), st];
  }

  lemma FreeAfterFault(m: Machine, m1: Machine, e: nat, v: nat, f: nat)
    requires FreeFrame(m, f) && e in m.envs && m1 == SetPhase(m, e, Faulting(v))
    ensures FreeFrame(m1, f)
  {
    forall e': nat, v': nat | Maps(m1, e', v') ensures At(m1, e', v').frame != f {
      assert Maps(m, e', v') && At(m, e', v') == At(m1, e', v');
    }
  }
}
