/** From page_init to the first environment (mem_init in kern/pmap.c): the calls
  of boot_map_region on kern_pgdir take pages for the kernel's own tables, and
  the invariant that every later run starts from survives them.
 */
module BootTables {
  import opened Pmap
  import opened Teardown
  import opened EnvMemory
  import B = BootMap

  function BootOf(s: Phys): B.Boot {
    B.Boot(s.mem, s.list)
  }

  ghost predicate Fit(s: Phys) {
    Sized(s) && forall k | 0 <= k < |s.list| :: s.list[k] < |s.pages|
  }

  /** pgdir_walk with create on kern_pgdir: a page of the free list becomes
      the table of word i, with one reference. */
  function TakeTable(s: Phys, i: nat): (r: Phys)
    requires Fit(s) && s.list != [] && i < NPTENTRIES
    ensures Fit(r) && |r.role| == |s.role| && r.kern == s.kern
  {
    var t := s.list[0];
    var zeroed := s.mem[t := ZeroFrame()];
    s.(pages := s.pages[t := PageInfo(1, Null)],
       free := s.pages[t].link,
       mem := zeroed[s.kern := zeroed[s.kern][i := Pte(t, PTE_P | PTE_W | PTE_U)]],
       role := s.role[t := KernTable(i)],
       list := s.list[1..])
  }

  /** One small page. */
  function Small(s: Phys, v: nat, p: nat, perm: bv12): (r: Option<Phys>)
    requires Fit(s) && v < B.VPAGES
    ensures r.Some? ==> Fit(r.value) && |r.value.role| == |s.role| && r.value.kern == s.kern
  {
    var i := v / NPTENTRIES;
    if s.mem[s.kern][i] != EMPTY then
      if s.mem[s.kern][i].frame >= |s.mem| then None
      else Some(SetWord(s, s.mem[s.kern][i].frame, v % NPTENTRIES, Pte(p, perm | PTE_P)))
    else if s.list == [] then None
    else
      var s1 := TakeTable(s, i);
      Some(SetWord(s1, s.list[0], v % NPTENTRIES, Pte(p, perm | PTE_P)))
  }

  function BigPage(s: Phys, v: nat, p: nat, perm: bv12): (r: Phys)
    requires Fit(s) && v < B.VPAGES
    ensures Fit(r) && |r.role| == |s.role| && r.kern == s.kern && r.list == s.list
  {
    SetWord(s, s.kern, v / NPTENTRIES, Pte(p, perm | PTE_P | B.PTE_PS))
  }

  /** The words of kern_pgdir that hold tables hold the kernel's tables. */
  ghost predicate KernLinked(s: Phys)
    requires Sized(s)
  {
    forall i: nat | i < NPTENTRIES && s.mem[s.kern][i] != EMPTY && !B.Large(s.mem[s.kern][i])
                    && !(i == UVPT_PDE && s.mem[s.kern][i] == B.SelfMap(s.kern)) ::
      UPDE <= i && s.mem[s.kern][i].frame < |s.role| && s.role[s.mem[s.kern][i].frame] == KernTable(i)
  }

  /** The kernel's memory while it boots. */
  ghost predicate BootKernel(s: Phys) {
    Kernel(s, 0) && B.BootOk(BootOf(s), s.kern) && KernLinked(s)
  }

  /** The page map of a boot step is that of BootMap. */
  lemma SmallIs(s: Phys, v: nat, p: nat, perm: bv12)
    requires Fit(s) && v < B.VPAGES && B.BootSized(BootOf(s), s.kern) && s.kern !in s.list
    ensures Small(s, v, p, perm).Some? <==> B.MapSmall(BootOf(s), s.kern, v, p, perm).Some?
    ensures Small(s, v, p, perm).Some? ==>
              BootOf(Small(s, v, p, perm).value) == B.MapSmall(BootOf(s), s.kern, v, p, perm).value
  {
  }

  // ------------------------------------------------------------------
  // A table for the kernel
  // ------------------------------------------------------------------

  ghost predicate KernHung(s: Phys, s': Phys, i: nat, t: nat)
    requires Sized(s) && Sized(s')
  {
    && t < |s.role| && t != s.kern && i < NPTENTRIES
    && s'.role == s.role[t := KernTable(i)] && s'.kern == s.kern && s'.free == s.free && s'.list == s.list
    && s'.pages == s.pages[t := s.pages[t].(ref := 1)]
    && s'.mem == s.mem[s.kern := s.mem[s.kern][i := Pte(t, PTE_P | PTE_W | PTE_U)]]
  }

  lemma KernHungTree(s: Phys, s': Phys, i: nat, t: nat)
    requires Inv(s) && Sized(s') && KernHung(s, s', i, t) && UPDE <= i && s.mem[s.kern][i] == EMPTY
    requires s.role[t] == Data && Refs(s, t) == {}
    ensures TreeOk(s')
  {
    hide CountsOk, FreeListOk, TableWordsOk, KernWordsOk;
    KernPage(s);
    KernHungWords(s, s', i, t);
    KernHungAbove(s, s', i, t);
  }

  lemma KernHungWords(s: Phys, s': Phys, i: nat, t: nat)
    requires Sized(s) && TableWordsOk(s) && Sized(s') && KernHung(s, s', i, t)
    requires s.role[t] == Data && Refs(s, t) == {} && s.role[s.kern] == Reserved
    ensures TableWordsOk(s')
  {
    forall u: nat, j: nat | u < |s.role| && j < NPTENTRIES && s.role[u].Table?
      ensures s.mem[u][j] == EMPTY || s.mem[u][j].frame != t
    {
      assert (u, j) !in Refs(s, t);
    }
  }

  lemma KernHungAbove(s: Phys, s': Phys, i: nat, t: nat)
    requires Sized(s) && KernWordsOk(s) && Sized(s') && KernHung(s, s', i, t)
    requires UPDE <= i && s.mem[s.kern][i] == EMPTY && s.role[s.kern] == Reserved
    ensures KernWordsOk(s')
  {
  }

  lemma KernHungRefs(s: Phys, s': Phys, i: nat, t: nat, q: nat)
    requires Inv(s) && Sized(s') && KernHung(s, s', i, t) && s.role[t] == Data && s.role[s.kern] == Reserved
    ensures Refs(s', q) == Refs(s, q)
  {
    forall u: nat, j: nat | u < |s.role| && j < NPTENTRIES
      ensures IsRef(s', u, j, q) <==> IsRef(s, u, j, q)
    {
    }
  }

  lemma KernHungKeeps(s: Phys, s': Phys, i: nat, t: nat)
    requires Inv(s) && Sized(s') && KernHung(s, s', i, t) && UPDE <= i && s.mem[s.kern][i] == EMPTY
    requires s.role[t] == Data && Refs(s, t) == {} && t != 0
    ensures Inv(s')
  {
    hide TreeOk, FreeListOk, CountsOk;
    KernHungTree(s, s', i, t);
    KernHungList(s, s', i, t);
    KernHungCounts(s, s', i, t);
  }

  lemma KernHungList(s: Phys, s': Phys, i: nat, t: nat)
    requires Sized(s) && Sized(s') && FreeListOk(s) && KernHung(s, s', i, t) && s.role[t] == Data
    ensures FreeListOk(s')
  {
    forall k | 0 <= k < |s.list| ensures s.list[k] != t {
      assert s.list[k] in s.list;
    }
  }

  lemma KernHungCounts(s: Phys, s': Phys, i: nat, t: nat)
    requires Inv(s) && Sized(s') && KernHung(s, s', i, t) && s.role[t] == Data && t != 0
    ensures CountsOk(s', Null)
  {
    hide TreeOk, FreeListOk;
    forall q: nat
      ensures Refs(s', q) == Refs(s, q)
    {
      KernHungRefs(s, s', i, t, q);
    }
  }

  lemma TakeTableKeeps(s: Phys, i: nat)
    requires BootKernel(s) && s.list != [] && UPDE <= i < NPTENTRIES && s.mem[s.kern][i] == EMPTY
    ensures Fit(s) && s.list[0] != s.kern
    ensures Kernel(TakeTable(s, i), 0) && KernLinked(TakeTable(s, i))
  {
    var t := s.list[0];
    AllocKeepsInv(s, true);
    var (s1, r) := PageAlloc(s, true);
    TakenFloating(s, s1, t);
    var s' := TakeTable(s, i);
    TakeIsHung(s, s1, i);
    KernHungKeeps(s1, s', i, t);
    TakeSettles(s1, s', i, t);
    TakeLinks(s, i);
  }

  lemma TakeIsHung(s: Phys, s1: Phys, i: nat)
    requires Inv(s) && Fit(s) && s.list != [] && i < NPTENTRIES && (s1, To(s.list[0])) == PageAlloc(s, true)
    requires Sized(s1) && s.list[0] != s.kern && s1.pages[s.list[0]] == PageInfo(0, Null)
    ensures KernHung(s1, TakeTable(s, i), i, s.list[0])
  {
  }

  lemma TakeSettles(s1: Phys, s': Phys, i: nat, t: nat)
    requires Sized(s1) && Sized(s') && |s'.role| == |s1.role| && KernHung(s1, s', i, t)
    requires forall p: nat | p < |s1.role| && p != t :: !Floating(s1, p)
    ensures Settled(s')
  {
    forall p: nat | p < |s'.role| ensures !Floating(s', p) {
      assert p != t ==> !Floating(s1, p);
    }
  }

  lemma TakeLinks(s: Phys, i: nat)
    requires BootKernel(s) && Fit(s) && s.list != [] && UPDE <= i < NPTENTRIES && s.list[0] != s.kern
    requires s.mem[s.kern][i] == EMPTY
    ensures KernLinked(TakeTable(s, i))
  {
    assert s.role[s.list[0]] == Free by { assert s.list[0] in s.list; }
  }

  // ------------------------------------------------------------------
  // Writing a table, and a large page
  // ------------------------------------------------------------------

  lemma WriteTableKeeps(s: Phys, t: nat, j: nat, e: Pte)
    requires Kernel(s, 0) && KernLinked(s) && t < |s.role| && s.role[t].KernTable? && j < NPTENTRIES
    ensures Kernel(SetWord(s, t, j, e), 0) && KernLinked(SetWord(s, t, j, e))
  {
    hide TreeOk, CountsOk, FreeListOk, Settled, KernLinked;
    var s' := SetWord(s, t, j, e);
    KernPage(s);
    WriteTableTree(s, t, j, e);
    KernWordsKeep(s, s', t);
    SettledMem(s, s');
  }

  lemma KernPage(s: Phys)
    requires Inv(s)
    ensures s.role[s.kern] == Reserved && s.role[0] == Reserved
  {
  }

  lemma WriteTableTree(s: Phys, t: nat, j: nat, e: Pte)
    requires Sized(s) && TreeOk(s) && KernLinked(s) && t < |s.role| && s.role[t].KernTable? && j < NPTENTRIES
    requires s.role[s.kern] == Reserved
    ensures var s' := SetWord(s, t, j, e); Sized(s') && TreeOk(s') && KernLinked(s')
  {
    assert SetWord(s, t, j, e).mem[s.kern] == s.mem[s.kern];
  }

  /** Words of a page that is no directory and no user table do not matter. */
  lemma KernWordsKeep(s: Phys, s': Phys, t: nat)
    requires Inv(s) && t < |s.role| && (s.role[t].KernTable? || s.role[t] == Reserved) && Sized(s')
    requires s' == s.(mem := s'.mem) && |s'.mem| == |s.mem|
             && (forall q: nat | q < |s.mem| && q != t :: s'.mem[q] == s.mem[q])
    requires TreeOk(s')
    ensures Inv(s')
  {
    hide TreeOk;
    forall q: nat
      ensures Refs(s', q) == Refs(s, q)
    {
      assert forall u: nat, k: nat | u < |s.role| && k < NPTENTRIES :: IsRef(s', u, k, q) <==> IsRef(s, u, k, q);
    }
    SameList(s, s');
    SameCounts(s, s');
  }

  lemma SameList(s: Phys, s': Phys)
    requires Sized(s) && Sized(s') && s' == s.(mem := s'.mem) && FreeListOk(s)
    ensures FreeListOk(s')
  {
  }

  lemma SameCounts(s: Phys, s': Phys)
    requires Sized(s) && Sized(s') && s' == s.(mem := s'.mem) && CountsOk(s, Null)
    requires forall q: nat :: Refs(s', q) == Refs(s, q)
    ensures CountsOk(s', Null)
  {
  }

  lemma BigPageKeeps(s: Phys, v: nat, p: nat, perm: bv12)
    requires BootKernel(s) && Fit(s) && v < B.VPAGES && UPDE <= v / NPTENTRIES && s.mem[s.kern][v / NPTENTRIES] == EMPTY
    ensures Kernel(BigPage(s, v, p, perm), 0) && KernLinked(BigPage(s, v, p, perm))
  {
    hide TreeOk, CountsOk, FreeListOk, Settled, KernLinked, B.BootOk;
    var s' := BigPage(s, v, p, perm);
    KernPage(s);
    BigPageTree(s, v, p, perm);
    KernWordsKeep(s, s', s.kern);
    SettledMem(s, s');
  }

  lemma BigPageTree(s: Phys, v: nat, p: nat, perm: bv12)
    requires Fit(s) && TreeOk(s) && KernLinked(s) && s.role[s.kern] == Reserved
    requires v < B.VPAGES && UPDE <= v / NPTENTRIES && s.mem[s.kern][v / NPTENTRIES] == EMPTY
    ensures TreeOk(BigPage(s, v, p, perm)) && KernLinked(BigPage(s, v, p, perm))
  {
    B.Bits(perm);
    var s' := BigPage(s, v, p, perm);
    forall q | 0 <= q < |s.mem| && q != s.kern ensures s'.mem[q] == s.mem[q] {
    }
  }

  // ------------------------------------------------------------------
  // A whole region
  // ------------------------------------------------------------------

  /** boot_map_region on kern_pgdir. */
  function Region(s: Phys, v: nat, n: nat, p: nat, perm: bv12, pse: bool): (r: Option<Phys>)
    requires Fit(s) && v + n <= B.VPAGES
    ensures r.Some? ==> Fit(r.value) && |r.value.role| == |s.role| && r.value.kern == s.kern
    decreases n
  {
    if n == 0 then Some(s)
    else if B.UseLarge(pse, v, n, p) then
      Region(BigPage(s, v, p, perm), v + NPTENTRIES, n - NPTENTRIES, p + NPTENTRIES, perm, pse)
    else
      match Small(s, v, p, perm)
      case None => None
      case Some(s1) => Region(s1, v + 1, n - 1, p + 1, perm, pse)
  }

  /** A region above UTOP, outside the window; a large page takes no word that
      holds a table. */
  ghost predicate KernRegion(s: Phys, v: nat, n: nat, p: nat, pse: bool)
    requires Sized(s)
  {
    && UPDE * NPTENTRIES <= v && v + n <= B.VPAGES
    && B.BootOk(BootOf(s), s.kern) && B.RangeClear(BootOf(s), s.kern, v, n)
    && (forall i: nat | i < NPTENTRIES && B.TakesLarge(v, n, p, pse, i) :: s.mem[s.kern][i] == EMPTY)
  }

  /** boot_map_region keeps the kernel's invariant, so what page_init
      establishes still holds when the first environment is made; and on the
      words of memory and the free list it is the function of BootMap. */
  lemma {:induction false} RegionKeeps(s: Phys, v: nat, n: nat, p: nat, perm: bv12, pse: bool)
    requires BootKernel(s) && KernRegion(s, v, n, p, pse)
    ensures Fit(s)
    ensures
      var r, b := Region(s, v, n, p, perm, pse), B.MapRegion(BootOf(s), s.kern, v, n, p, perm, pse);
      && (r.Some? <==> b.Some?)
      && (r.Some? ==> BootKernel(r.value) && BootOf(r.value) == b.value)
    decreases n
  {
    hide Kernel, KernLinked, B.BootOk, KernRegion, Small, BigPage, B.MapSmall, B.MapLarge;
    BootFits(s, v, n, p, pse);
    if n > 0 {
      if B.UseLarge(pse, v, n, p) {
        BigStep(s, v, n, p, perm);
        RegionKeeps(BigPage(s, v, p, perm), v + NPTENTRIES, n - NPTENTRIES, p + NPTENTRIES, perm, pse);
      } else {
        SmallIs(s, v, p, perm);
        if Small(s, v, p, perm).Some? {
          SmallStep(s, v, n, p, perm, pse);
          RegionKeeps(Small(s, v, p, perm).value, v + 1, n - 1, p + 1, perm, pse);
        }
      }
    }
  }

  lemma BootFits(s: Phys, v: nat, n: nat, p: nat, pse: bool)
    requires BootKernel(s) && KernRegion(s, v, n, p, pse)
    ensures Fit(s) && s.kern !in s.list && v + n <= B.VPAGES && B.BootSized(BootOf(s), s.kern)
  {
  }

  lemma BigStep(s: Phys, v: nat, n: nat, p: nat, perm: bv12)
    requires BootKernel(s) && Fit(s) && KernRegion(s, v, n, p, true) && B.UseLarge(true, v, n, p) && n > 0
    ensures
      var s1 := BigPage(s, v, p, perm);
      && BootKernel(s1) && KernRegion(s1, v + NPTENTRIES, n - NPTENTRIES, p + NPTENTRIES, true)
      && BootOf(s1) == B.MapLarge(BootOf(s), s.kern, v, p, perm)
  {
    hide Kernel, KernLinked, B.BootOk, B.RangeClear;
    var q := v / NPTENTRIES;
    assert v == q * NPTENTRIES && B.TakesLarge(v, n, p, true, q);
    BigPageKeeps(s, v, p, perm);
    B.ClearAfterLarge(BootOf(s), s.kern, v, n, p, perm);
    forall i: nat | i < NPTENTRIES && B.TakesLarge(v + NPTENTRIES, n - NPTENTRIES, p + NPTENTRIES, true, i)
      ensures BigPage(s, v, p, perm).mem[s.kern][i] == EMPTY
    {
      assert i != q && B.TakesLarge(v, n, p, true, i);
    }
  }

  lemma SmallStep(s: Phys, v: nat, n: nat, p: nat, perm: bv12, pse: bool)
    requires BootKernel(s) && Fit(s) && KernRegion(s, v, n, p, pse) && !B.UseLarge(pse, v, n, p) && n > 0
    requires Small(s, v, p, perm).Some?
    ensures
      var s1 := Small(s, v, p, perm).value;
      BootKernel(s1) && KernRegion(s1, v + 1, n - 1, p + 1, pse)
  {
    hide Kernel, KernLinked, B.BootOk, B.RangeClear;
    BootFits(s, v, n, p, pse);
    SmallIs(s, v, p, perm);
    var s1 := Small(s, v, p, perm).value;
    B.ClearAfterSmall(BootOf(s), BootOf(s1), s.kern, v, n, p, perm);
    SmallKeeps(s, v, n, p, perm, pse);
    var q := v / NPTENTRIES;
    forall i: nat | i < NPTENTRIES && B.TakesLarge(v + 1, n - 1, p + 1, pse, i)
      ensures s1.mem[s.kern][i] == EMPTY
    {
      assert i != q;
      B.TakesLargeNext(v, n, p, pse, i);
      OtherWord(s, v, p, perm, i);
    }
  }

  lemma OtherWord(s: Phys, v: nat, p: nat, perm: bv12, i: nat)
    requires Fit(s) && v < B.VPAGES && i < NPTENTRIES && i != v / NPTENTRIES && s.kern !in s.list
    requires Small(s, v, p, perm).Some?
             && (s.mem[s.kern][v / NPTENTRIES].frame != s.kern || s.mem[s.kern][v / NPTENTRIES] == EMPTY)
    ensures Small(s, v, p, perm).value.mem[s.kern][i] == s.mem[s.kern][i]
  {
  }

  lemma SmallKeeps(s: Phys, v: nat, n: nat, p: nat, perm: bv12, pse: bool)
    requires BootKernel(s) && Fit(s) && KernRegion(s, v, n, p, pse) && n > 0 && Small(s, v, p, perm).Some?
    ensures Kernel(Small(s, v, p, perm).value, 0) && KernLinked(Small(s, v, p, perm).value)
    ensures s.mem[s.kern][v / NPTENTRIES].frame != s.kern || s.mem[s.kern][v / NPTENTRIES] == EMPTY
  {
    hide Kernel, B.BootOk;
    var q := v / NPTENTRIES;
    assert !B.Large(s.mem[s.kern][q]) && !B.InWindow(BootOf(s), s.kern, v);
    var e := Pte(p, perm | PTE_P);
    if s.mem[s.kern][q] == EMPTY {
      TakeTableKeeps(s, q);
      WriteTableKeeps(TakeTable(s, q), s.list[0], v % NPTENTRIES, e);
    } else {
      NotItself(s, s.mem[s.kern][q].frame);
      WriteTableKeeps(s, s.mem[s.kern][q].frame, v % NPTENTRIES, e);
    }
  }

  lemma NotItself(s: Phys, t: nat)
    requires Kernel(s, 0) && t < |s.role| && s.role[t].KernTable?
    ensures t != s.kern
  {
  }

  // ------------------------------------------------------------------
  // All of mem_init
  // ------------------------------------------------------------------

  datatype RegionCall = RegionCall(v: nat, n: nat, p: nat, perm: bv12, pse: bool)

  /** The calls lead from s to s'. */
  ghost predicate Booted(s: Phys, calls: seq<RegionCall>, s': Phys)
    requires Fit(s)
    decreases |calls|
  {
    if calls == [] then s' == s
    else
      var c := calls[0];
      && KernRegion(s, c.v, c.n, c.p, c.pse)
      && Region(s, c.v, c.n, c.p, c.perm, c.pse).Some?
      && Booted(Region(s, c.v, c.n, c.p, c.perm, c.pse).value, calls[1..], s')
  }

  lemma {:induction false} CallsKeep(s: Phys, calls: seq<RegionCall>, s': Phys)
    requires BootKernel(s) && Fit(s) && Booted(s, calls, s')
    ensures BootKernel(s')
    decreases |calls|
  {
    hide BootKernel, Region, B.BootOk, B.RangeClear;
    if calls != [] {
      var c := calls[0];
      RegionKeeps(s, c.v, c.n, c.p, c.perm, c.pse);
      CallsKeep(Region(s, c.v, c.n, c.p, c.perm, c.pse).value, calls[1..], s');
    }
  }

  /** From what page_init leaves, with nothing in kern_pgdir but its self-map,
      any calls of boot_map_region lead to a state from which the runs of
      environments start. */
  lemma BootToRuns(s: Phys, calls: seq<RegionCall>, s': Phys)
    requires Kernel(s, 0) && s.mem[s.kern] == ZeroFrame()[UVPT_PDE := B.SelfMap(s.kern)]
    requires Fit(s) && Booted(s, calls, s')
    ensures Kernel(s', 0)
  {
    hide TreeOk, CountsOk, Settled;
    KernelFits(s);
    B.FreshDirectory(BootOf(s), s.kern);
    CallsKeep(s, calls, s');
  }

  lemma KernelFits(s: Phys)
    requires Inv(s)
    ensures Fit(s) && s.kern !in s.list
  {
    KernPage(s);
    assert s.role[s.kern] != Free;
  }
}
