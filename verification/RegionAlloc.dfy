/** region_alloc (kern/env.c): a range of fresh pages, one page_alloc and one
  page_insert each. Addresses are counted in pages.
 */
module RegionAlloc {
  import opened Pmap
  import opened Teardown
  import opened EnvMemory
  import opened Populate

  const PGSIZE: nat := 4096

  // What region_alloc passes, as a system call would have to.
  const REGION: Perm := Perm(0, PTE_U | PTE_W | PTE_P)

  function PageVa(k: nat): (va: Va)
    ensures k < UPDE * NPTENTRIES ==> UserVa(va)
  {
    Va(k / NPTENTRIES, k % NPTENTRIES)
  }

  lemma PageVaInjective(j: nat, k: nat)
    requires PageVa(j) == PageVa(k)
    ensures j == k
  {
  }

  /** One turn of the loop; None is the panic. */
  function AllocOne(s: Phys, d: nat, va: Va): (r: Option<Phys>)
    requires Sized(s) && d < |s.role| && UserVa(va)
    ensures r.Some? ==> Sized(r.value) && |r.value.role| == |s.role|
  {
    var (s1, p) := PageAlloc(s, true);
    match p
    case Null => None
    case To(pp) =>
      var (s2, o) := PageInsert(s1, d, pp, va, PTE_U | PTE_W);
      if o == Ok then Some(s2) else None
  }

  /** Pages k..end of the region. */
  function Region(s: Phys, d: nat, k: nat, end: nat): (r: Option<Phys>)
    requires Sized(s) && d < |s.role| && end <= UPDE * NPTENTRIES
    ensures r.Some? ==> Sized(r.value) && |r.value.role| == |s.role|
    decreases end - k
  {
    if k >= end then Some(s)
    else
      match AllocOne(s, d, PageVa(k))
      case None => None
      case Some(s1) => Region(s1, d, k + 1, end)
  }

  /** ROUNDDOWN(va) and ROUNDUP(va + len), in pages. */
  function FirstPage(va: nat): nat {
    va / PGSIZE
  }

  function EndPage(va: nat, len: nat): nat {
    (va + len + PGSIZE - 1) / PGSIZE
  }

  /** The rounded range is the smallest that covers every byte; an empty
      region that starts inside a page still takes that page. */
  lemma RegionCovers(va: nat, len: nat, k: nat)
    ensures FirstPage(va) <= k < EndPage(va, len) <==>
              (exists b :: va <= b < va + len && b / PGSIZE == k)
              || (len == 0 && va % PGSIZE != 0 && k == va / PGSIZE)
  {
    if FirstPage(va) <= k < EndPage(va, len) && len > 0 {
      var b := if k == FirstPage(va) then va else k * PGSIZE;
      assert va <= b < va + len && b / PGSIZE == k;
    }
  }

  /** The same pages as a sequence of sys_page_alloc calls. */
  function AsCalls(d: nat, k: nat, end: nat): (ops: seq<Op>)
    ensures forall i | 0 <= i < |ops| :: Populates(ops[i], d)
    ensures |ops| == if k < end then end - k else 0
    decreases end - k
  {
    if k >= end then [] else [Alloc(d, PageVa(k), REGION)] + AsCalls(d, k + 1, end)
  }

  lemma UserWord()
    ensures UserPerm(REGION) && (PTE_U | PTE_W) | PTE_P == (PTE_U | PTE_W | PTE_P) | PTE_P
    ensures (PTE_U | PTE_W | PTE_P) | PTE_P == PTE_U | PTE_W | PTE_P
  {
  }

  lemma InsertSameWord(s: Phys, d: nat, pp: nat, va: Va)
    requires Sized(s) && d < |s.role| && pp < |s.role| && UserVa(va)
    ensures PageInsert(s, d, pp, va, PTE_U | PTE_W) == PageInsert(s, d, pp, va, PTE_U | PTE_W | PTE_P)
  {
    UserWord();
  }

  /** A turn of the loop is a sys_page_alloc that returns 0. */
  lemma AllocOneIsCall(s: Phys, d: nat, va: Va)
    requires Sized(s) && d < |s.role| && UserVa(va) && AllocOne(s, d, va).Some?
    ensures SysPageAlloc(s, d, va, REGION) == (AllocOne(s, d, va).value, Done)
  {
    hide PageInsert, PageAlloc;
    UserWord();
    var (s1, p) := PageAlloc(s, true);
    InsertSameWord(s1, d, p.page, va);
    AllocComputes(s, d, va, REGION, p.page);
  }

  /** After the turn va is mapped, writable by the user, and no other mapping
      of any directory has changed. */
  lemma AllocOneMaps(s: Phys, d: nat, va: Va, n: nat)
    requires Kernel(s, n) && LiveDir(s, d) && UserVa(va) && AllocOne(s, d, va).Some? && n + 1 < REF_MOD
    ensures var s' := AllocOne(s, d, va).value;
            && Kernel(s', n + Empties(s, Alloc(d, va, REGION))) && LiveDir(s', d)
            && OnlyAt(s, s', d, va)
            && Trans(s', d, va).Some? && Trans(s', d, va).value.perm == PTE_U | PTE_W | PTE_P
  {
    hide TreeOk, FreeListOk, CountsOk, Settled, AllocOne, SysPageAlloc;
    var perm := REGION;
    UserWord();
    AllocOneIsCall(s, d, va);
    ListNotEmpty(s, d, va, n);
    AllocSucceeds(s, d, va, perm, n);
    TakenOnlyAt(s, d, va, n);
  }

  lemma ListNotEmpty(s: Phys, d: nat, va: Va, n: nat)
    requires Kernel(s, n) && LiveDir(s, d) && UserVa(va)
    requires SysPageAlloc(s, d, va, REGION).1 == Done
    ensures s.list != [] && (|s.list| == 1 ==> s.mem[d][va.pdx] != EMPTY)
  {
    UserWord();
    if |s.list| == 1 && s.mem[d][va.pdx] == EMPTY {
      AllocFails(s, d, va, REGION, n);
    }
  }

  lemma TakenOnlyAt(s: Phys, d: nat, va: Va, n: nat)
    requires Kernel(s, n) && LiveDir(s, d) && UserVa(va) && s.list != []
    ensures OnlyAt(s, PageAlloc(s, true).0, d, va)
  {
    AllocTaken(s, d, va, n);
    var (s1, r) := PageAlloc(s, true);
    TakenTrans(s, s1, r.page, true);
  }

  /** region_alloc maps every page of its range, changes no other mapping, and
      is exactly that many sys_page_alloc calls that succeed; so what is
      proved of runs holds of it. */
  lemma {:induction false} RegionAllocates(s: Phys, d: nat, k: nat, end: nat, n: nat)
    requires Kernel(s, n) && LiveDir(s, d) && k <= end <= UPDE * NPTENTRIES && Region(s, d, k, end).Some?
    requires n + (end - k) < REF_MOD
    ensures var s' := Region(s, d, k, end).value;
            && AdmissibleRun(s, AsCalls(d, k, end)) && Run(s, AsCalls(d, k, end)) == s'
            && RunEmpties(s, AsCalls(d, k, end)) <= end - k
            && Kernel(s', n + RunEmpties(s, AsCalls(d, k, end))) && LiveDir(s', d)
            && (forall q: nat, v: Va | q < |s.role| && s.role[q] == Dir && UserVa(v)
                && !(q == d && exists j :: k <= j < end && v == PageVa(j)) ::
                  Trans(s', q, v) == Trans(s, q, v))
            && (forall j | k <= j < end :: Trans(s', d, PageVa(j)).Some?
                  && Trans(s', d, PageVa(j)).value.perm == PTE_U | PTE_W | PTE_P)
    decreases end - k
  {
    hide TreeOk, FreeListOk, CountsOk, Settled, AllocOne, SysPageAlloc, PageVa, Trans, Empties;
    if k == end {
      RunEnd(s);
    } else {
      var va := PageVa(k);
      AllocOneMaps(s, d, va, n);
      AllocOneIsCall(s, d, va);
      var s1 := AllocOne(s, d, va).value;
      var op := Alloc(d, va, REGION);
      RegionAllocates(s1, d, k + 1, end, n + Empties(s, op));
      var ops := AsCalls(d, k, end);
      assert ops[0] == op && ops[1..] == AsCalls(d, k + 1, end);
      assert Step(s, op).0 == s1;
      RunUnfold(s, ops);
      forall j | k <= j < end
        ensures Trans(Region(s, d, k, end).value, d, PageVa(j)).Some?
                && Trans(Region(s, d, k, end).value, d, PageVa(j)).value.perm == PTE_U | PTE_W | PTE_P
      {
        if j == k {
          forall i | k + 1 <= i < end ensures PageVa(i) != va {
            if PageVa(i) == PageVa(k) {
              PageVaInjective(i, k);
            }
          }
        }
      }
    }
  }
}
