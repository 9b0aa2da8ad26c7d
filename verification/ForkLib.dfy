/** lib/fork.c as it runs: pgfault, duppage and fork update the page maps of
  two environments through system calls, against the steps of CowFork.
 */
module ForkLib {
  import opened CowFork

  /** d' is d with a copy of the pages of e below `limit` given to c. */
  ghost predicate Forked(d: Pages, d': Pages, e: nat, c: nat, limit: nat) {
    && (forall e': nat, v: nat :: (e', v) in d' <==> (e', v) in d || (e' == c && v < limit && (e, v) in d))
    && (forall e': nat, v: nat | (e', v) in d :: d'[(e', v)] == d[(e', v)])
    && (forall v: nat | v < limit && (e, v) in d :: d'[(c, v)] == d[(e, v)])
  }

  lemma ForkedNext(d: Pages, d1: Pages, e: nat, c: nat, v: nat)
    requires Forked(d, d1, e, c, v) && e != c && forall u: nat :: (c, u) !in d
    ensures Forked(d, EagerStep(d1, Copy(e, c, v)), e, c, v + 1)
  {
    var d2 := EagerStep(d1, Copy(e, c, v));
    forall e': nat, u: nat
      ensures (e', u) in d2 <==> (e', u) in d || (e' == c && u < v + 1 && (e, u) in d)
    {
    }
  }

  /** Page v was skipped: not mapped, or the exception stack. */
  lemma ForkedSkip(d: Pages, d1: Pages, e: nat, c: nat, v: nat)
    requires Forked(d, d1, e, c, v) && (e, v) !in d
    ensures Forked(d, d1, e, c, v + 1)
  {
    forall e': nat, u: nat
      ensures (e', u) in d1 <==> (e', u) in d || (e' == c && u < v + 1 && (e, u) in d)
    {
    }
  }

  /** The machine after pgfault on page v: a private copy at v. */
  function Handled(m: Machine, e: nat, v: nat, f: nat): Machine
    requires Maps(m, e, v) && At(m, e, v).frame in m.data
  {
    Machine(m.envs[e := Env(m.envs[e].pages[v := Entry(f, WRITABLE)] - {PFTEMP}, Running)],
            m.data[f := m.data[At(m, e, v).frame]])
  }

  lemma HandlerSees(m: Machine, m2: Machine, m3: Machine, m4: Machine, m5: Machine, e: nat, f: nat, d: Pages)
    requires Inv(m) && Enabled(m, FaultAlloc(e, f)) && m2 == Step(m, FaultAlloc(e, f)) && Inv(m2)
    requires Enabled(m2, FaultCopy(e)) && m3 == Step(m2, FaultCopy(e)) && Inv(m3)
    requires Enabled(m3, FaultMap(e)) && m4 == Step(m3, FaultMap(e)) && Inv(m4)
    requires Enabled(m4, FaultUnmap(e)) && m5 == Step(m4, FaultUnmap(e)) && Inv(m5)
    requires Sees(m, d)
    ensures Sees(m5, d)
  {
    StepSees(m, d, FaultAlloc(e, f));
    StepSees(m2, d, FaultCopy(e));
    StepSees(m3, d, FaultMap(e));
    StepSees(m4, d, FaultUnmap(e));
  }

  /** The four handler steps in a row, as one. */
  lemma HandlerEnds(m: Machine, e: nat, v: nat, f: nat, d: Pages)
    requires Inv(m) && e in m.envs && m.envs[e].phase == Faulting(v) && FreeFrame(m, f) && Sees(m, d)
    ensures v != PFTEMP && Maps(m, e, v) && At(m, e, v).frame in m.data && At(m, e, v).frame != f
    ensures Inv(Handled(m, e, v, f)) && Sees(Handled(m, e, v, f), d)
  {
    assert PhaseOk(m, e);
    assert Maps(m, e, v);
    assert EntryOk(m, At(m, e, v));
    var m2, m3, m4, m5 := HandlerSteps(m, e, f);
    HandlerSees(m, m2, m3, m4, m5, e, f, d);
    HandledIs(m, e, v, f, m2, m3, m4, m5);
  }

  lemma HandledIs(m: Machine, e: nat, v: nat, f: nat, m2: Machine, m3: Machine, m4: Machine, m5: Machine)
    requires Inv(m) && Maps(m, e, v) && m.envs[e].phase == Faulting(v) && v != PFTEMP && FreeFrame(m, f)
    requires At(m, e, v).frame in m.data && At(m, e, v).frame != f
    requires m2 == SetPhase(SetEntry(m.(data := m.data[f := Zeros()]), e, PFTEMP, Entry(f, WRITABLE)), e, Allocated(v))
    requires m3 == SetPhase(m2.(data := m2.data[f := m2.data[At(m, e, v).frame]]), e, Copied(v))
    requires m4 == SetPhase(SetEntry(m3, e, v, Entry(f, WRITABLE)), e, Remapped(v))
    requires m5 == m4.(envs := m4.envs[e := Env(m4.envs[e].pages - {PFTEMP}, Running)])
    ensures m5 == Handled(m, e, v, f)
  {
    assert m5.envs[e].pages == Handled(m, e, v, f).envs[e].pages;
    assert m5.envs == Handled(m, e, v, f).envs;
    assert m5.data == Handled(m, e, v, f).data;
  }

  lemma SetSame(m: Machine, e: nat, v: nat)
    requires Maps(m, e, v)
    ensures SetEntry(m, e, v, At(m, e, v)) == m
  {
    assert m.envs[e].pages[v := At(m, e, v)] == m.envs[e].pages;
    assert m.envs[e := m.envs[e]] == m.envs;
  }

  // ------------------------------------------------------------------
  // The loop of fork
  // ------------------------------------------------------------------

  /** A parent's page before and after: shared, or neither writable nor
      copy-on-write, it stays as it is; otherwise it is copy-on-write now. */
  predicate PassedOn(was: Entry, now: Entry) {
    if was.flags.share || (!was.flags.w && !was.flags.cow) then now == was
    else now == Entry(was.frame, Flags(false, true, false))
  }

  /** Where the loop stands before page v: m0 is the state it started in. */
  ghost predicate ForkingTo(m0: Machine, m: Machine, e: nat, c: nat, v: nat) {
    && Inv(m) && e != c && e in m0.envs && c in m0.envs
    && IsRunning(m, e) && c in m.envs && m.envs[c].phase == Embryo
    && (forall u: nat :: Maps(m, e, u) <==> Maps(m0, e, u))
    && (forall u: nat | v <= u && Maps(m0, e, u) :: At(m, e, u) == At(m0, e, u))
    && (forall u: nat :: Maps(m, c, u) <==> u == XSTACK || (u < v && Maps(m0, e, u)))
    && (forall u: nat | u < v && Maps(m0, e, u) && u != XSTACK ::
          At(m, c, u) == At(m, e, u) && PassedOn(At(m0, e, u), At(m, e, u)))
    && (forall e' | e' in m0.envs && e' != e && e' != c :: e' in m.envs && m.envs[e'] == m0.envs[e'])
  }

  lemma ForkingNext(m0: Machine, m: Machine, e: nat, c: nat, v: nat)
    requires ForkingTo(m0, m, e, c, v) && Maps(m, e, v) && v != XSTACK
    ensures Enabled(m, Dup(e, c, v))
    ensures ForkingTo(m0, Step(m, Dup(e, c, v)), e, c, v + 1)
  {
    StepKeeps(m, Dup(e, c, v));
    var m' := Step(m, Dup(e, c, v));
    var entry := Entry(At(m, e, v).frame, DupFlags(At(m, e, v).flags));
    Entries(m, c, v, entry);
    Entries(SetEntry(m, c, v, entry), e, v, entry);
  }

  lemma DupPasses(m: Machine, e: nat, c: nat, v: nat)
    requires Inv(m) && Enabled(m, Dup(e, c, v))
    ensures var m' := Step(m, Dup(e, c, v));
            Maps(m', e, v) && Maps(m', c, v) && At(m', c, v) == At(m', e, v) && PassedOn(At(m, e, v), At(m', e, v))
  {
  }

  lemma ForkingSkip(m0: Machine, m: Machine, e: nat, c: nat, v: nat)
    requires ForkingTo(m0, m, e, c, v) && (!Maps(m, e, v) || v == XSTACK)
    ensures ForkingTo(m0, m, e, c, v + 1)
  {
  }

  class Kernel {
    var envs: map<nat, Env>
    var data: map<nat, Content>

    constructor (m: Machine)
      ensures State() == m
    {
      envs := m.envs;
      data := m.data;
    }

    ghost function State(): Machine
      reads this
    {
      Machine(envs, data)
    }

    /** sys_page_alloc of a writable page; f is the page page_alloc returns. */
    method SysPageAlloc(e: nat, v: nat, f: nat)
      requires e in envs
      modifies this
      ensures State() == SetEntry(old(State()).(data := old(data)[f := Zeros()]), e, v, Entry(f, WRITABLE))
    {
      data := data[f := Zeros()];
      envs := envs[e := envs[e].(pages := envs[e].pages[v := Entry(f, WRITABLE)])];
    }

    /** sys_page_map; false is -E_INVAL: no source, or write access the
        source does not have. */
    method SysPageMap(src: nat, srcv: nat, dst: nat, dstv: nat, flags: Flags) returns (ok: bool)
      requires src in envs && dst in envs
      modifies this
      ensures ok <==> old(Maps(State(), src, srcv)) && (flags.w ==> old(At(State(), src, srcv)).flags.w)
      ensures ok ==> State() == SetEntry(old(State()), dst, dstv, Entry(old(At(State(), src, srcv)).frame, flags))
      ensures !ok ==> State() == old(State())
    {
      if srcv !in envs[src].pages {
        return false;
      }
      var entry := envs[src].pages[srcv];
      if flags.w && !entry.flags.w {
        return false;
      }
      envs := envs[dst := envs[dst].(pages := envs[dst].pages[dstv := Entry(entry.frame, flags)])];
      ok := true;
    }

    method SysPageUnmap(e: nat, v: nat)
      requires e in envs
      modifies this
      ensures State() == old(State()).(envs := old(envs)[e := old(envs)[e].(pages := old(envs)[e].pages - {v})])
    {
      envs := envs[e := envs[e].(pages := envs[e].pages - {v})];
    }

    /** pgfault on page v of e: three system calls and a memmove. */
    method PgFault(e: nat, v: nat, f: nat, ghost d: Pages) returns (ok: bool)
      requires Inv(State()) && e in envs && envs[e].phase == Faulting(v) && FreeFrame(State(), f) && Sees(State(), d)
      modifies this
      ensures ok && Maps(old(State()), e, v) && At(old(State()), e, v).frame in old(data)
      ensures State() == Handled(old(State()), e, v, f)
      ensures Inv(State()) && Sees(State(), d)
    {
      ghost var m := State();
      HandlerEnds(m, e, v, f, d);
      SysPageAlloc(e, PFTEMP, f);
      data := data[envs[e].pages[PFTEMP].frame := data[envs[e].pages[v].frame]];
      ok := SysPageMap(e, PFTEMP, e, v, WRITABLE);
      assert ok;
      SysPageUnmap(e, PFTEMP);
      envs := envs[e := envs[e].(phase := Running)];
      assert envs[e].pages == Handled(m, e, v, f).envs[e].pages;
      assert envs == Handled(m, e, v, f).envs;
      assert data == Handled(m, e, v, f).data;
    }

    /** duppage: false is a panic, which cannot happen. */
    method DupPage(e: nat, c: nat, v: nat) returns (ok: bool)
      requires Inv(State()) && Enabled(State(), Dup(e, c, v))
      modifies this
      ensures ok && Inv(State()) && State() == Step(old(State()), Dup(e, c, v))
      ensures Maps(State(), e, v) && Maps(State(), c, v) && At(State(), c, v) == At(State(), e, v)
      ensures PassedOn(old(At(State(), e, v)), At(State(), e, v))
    {
      ghost var m := State();
      StepKeeps(m, Dup(e, c, v));
      DupPasses(m, e, c, v);
      var flags := envs[e].pages[v].flags;
      if (flags.w || flags.cow) && !flags.share {
        flags := Flags(false, true, flags.share);
        ok := SysPageMap(e, v, c, v, flags);
        if ok {
          ok := SysPageMap(e, v, e, v, flags);
        }
      } else {
        ok := SysPageMap(e, v, c, v, flags);
        SetSame(State(), e, v);
      }
    }

    /** The loop of fork: duppage on every mapped page but the exception
        stack. */
    method DupAll(e: nat, c: nat, ghost d: Pages) returns (ok: bool, ghost d': Pages)
      requires Inv(State()) && Sees(State(), d) && e != c && IsRunning(State(), e)
      requires c in envs && envs[c].phase == Embryo && envs[c].pages.Keys == {XSTACK}
      requires forall u: nat :: (c, u) !in d
      modifies this
      ensures ok && Sees(State(), d') && Forked(d, d', e, c, UTOP_PAGE)
      ensures ForkingTo(old(State()), State(), e, c, UTOP_PAGE)
    {
      ghost var m0 := State();
      d' := d;
      ok := true;
      var v := 0;
      while v < UTOP_PAGE
        invariant 0 <= v <= UTOP_PAGE && ok
        invariant ForkingTo(m0, State(), e, c, v)
        invariant Sees(State(), d') && Forked(d, d', e, c, v)
      {
        if v in envs[e].pages && v != XSTACK {
          ForkingNext(m0, State(), e, c, v);
          StepSees(State(), d', Dup(e, c, v));
          OneEvent(d', Copy(e, c, v));
          ForkedNext(d, d', e, c, v);
          d' := EagerStep(d', Copy(e, c, v));
          ok := DupPage(e, c, v);
        } else {
          ForkingSkip(m0, State(), e, c, v);
          SkippedPage(State(), d', e, v);
          ForkedSkip(d, d', e, c, v);
        }
        v := v + 1;
      }
    }

    /** set_pgfault_handler, sys_exofork and the child's exception stack. fs
        is the page for the parent's own stack, used the first time only. */
    method NewChild(e: nat, c: nat, first: bool, fs: nat, fc: nat, ghost d: Pages)
      requires Inv(State()) && Sees(State(), d) && IsRunning(State(), e) && c !in envs
      requires FreeFrame(State(), fs) && FreeFrame(State(), fc) && fs != fc
      modifies this
      ensures Inv(State()) && Sees(State(), d) && IsRunning(State(), e) && e != c
      ensures c in envs && envs[c] == Env(map[XSTACK := Entry(fc, WRITABLE)], Embryo)
      ensures forall v: nat | v != XSTACK :: v in envs[e].pages <==> v in old(envs)[e].pages
      ensures forall v: nat | v != XSTACK && v in old(envs)[e].pages :: envs[e].pages[v] == old(envs)[e].pages[v]
      ensures forall e' | e' in old(envs) && e' != e :: e' in envs && envs[e'] == old(envs)[e']
    {
      ghost var m := State();
      if first {
        StepKeeps(m, Install(e, fs));
        StepSees(m, d, Install(e, fs));
        SysPageAlloc(e, XSTACK, fs);
        FreeAfterInstall(m, State(), e, fs, fc);
      }
      ghost var m0 := State();
      StepKeeps(m0, Exofork(e, c, fc));
      StepSees(m0, d, Exofork(e, c, fc));
      envs := envs[c := Env(map[], Embryo)];
      SysPageAlloc(c, XSTACK, fc);
      assert State() == Step(m0, Exofork(e, c, fc));
    }

    /** fork with no interruption: the child gets every page of the parent
        but the exception stack, copy-on-write where it was writable, and
        sees a copy of everything the parent sees. */
    method Fork(e: nat, c: nat, first: bool, fs: nat, fc: nat, ghost d: Pages) returns (ok: bool, ghost d': Pages)
      requires Inv(State()) && Sees(State(), d) && IsRunning(State(), e) && c !in envs
      requires FreeFrame(State(), fs) && FreeFrame(State(), fc) && fs != fc
      modifies this
      ensures ok && Inv(State()) && IsRunning(State(), e) && IsRunning(State(), c)
      ensures Sees(State(), d') && Forked(d, d', e, c, UTOP_PAGE)
      ensures forall v: nat | v < UTOP_PAGE && v != XSTACK :: v in envs[c].pages <==> v in old(envs)[e].pages
      ensures forall v: nat | v < UTOP_PAGE && v != XSTACK && v in old(envs)[e].pages ::
                && v in envs[e].pages && envs[c].pages[v] == envs[e].pages[v]
                && PassedOn(old(envs)[e].pages[v], envs[e].pages[v])
      ensures forall e' | e' in old(envs) && e' != e :: e' in envs && envs[e'] == old(envs)[e']
    {
      NoViewOfNew(State(), d, c);
      NewChild(e, c, first, fs, fc, d);
      ghost var m1 := State();
      ok, d' := DupAll(e, c, d);
      ghost var m2 := State();
      StepKeeps(m2, Start(c));
      StepSees(m2, d', Start(c));
      ForkedPages(m1, m2, e, c);
      envs := envs[c := envs[c].(phase := Running)];
    }
  }

  lemma ForkedPages(m1: Machine, m2: Machine, e: nat, c: nat)
    requires ForkingTo(m1, m2, e, c, UTOP_PAGE)
    ensures forall v: nat | v < UTOP_PAGE && v != XSTACK :: v in m2.envs[c].pages <==> v in m1.envs[e].pages
    ensures forall v: nat | v < UTOP_PAGE && v != XSTACK && v in m1.envs[e].pages ::
              && v in m2.envs[e].pages && m2.envs[c].pages[v] == m2.envs[e].pages[v]
              && PassedOn(m1.envs[e].pages[v], m2.envs[e].pages[v])
  {
    forall v: nat | v < UTOP_PAGE && v != XSTACK
      ensures v in m2.envs[c].pages <==> v in m1.envs[e].pages
      ensures v in m1.envs[e].pages ==>
                && v in m2.envs[e].pages && m2.envs[c].pages[v] == m2.envs[e].pages[v]
                && PassedOn(m1.envs[e].pages[v], m2.envs[e].pages[v])
    {
      assert Maps(m2, c, v) <==> Maps(m1, e, v);
      if Maps(m1, e, v) {
        assert At(m2, c, v) == At(m2, e, v) && PassedOn(At(m1, e, v), At(m2, e, v));
      }
    }
  }

  lemma FreeAfterInstall(m: Machine, m1: Machine, e: nat, fs: nat, fc: nat)
    requires FreeFrame(m, fc) && fs != fc && e in m.envs
    requires m1 == SetEntry(m.(data := m.data[fs := Zeros()]), e, XSTACK, Entry(fs, WRITABLE))
    ensures FreeFrame(m1, fc)
  {
    forall e': nat, v': nat | Maps(m1, e', v') ensures At(m1, e', v').frame != fc {
      if (e', v') != (e, XSTACK) {
        assert Maps(m, e', v') && At(m, e', v') == At(m1, e', v');
      }
    }
  }

  lemma NoViewOfNew(m: Machine, d: Pages, c: nat)
    requires Sees(m, d) && c !in m.envs
    ensures forall v: nat :: (c, v) !in d
  {
    forall v: nat ensures (c, v) !in d {
      assert !InView(m, c, v);
    }
  }

  lemma SkippedPage(m: Machine, d: Pages, e: nat, v: nat)
    requires Sees(m, d) && (!Maps(m, e, v) || v == XSTACK)
    ensures (e, v) !in d
  {
    assert !InView(m, e, v);
  }
}
