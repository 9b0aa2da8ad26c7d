/** boot_map_region with and without 4 MB pages, against check_va2pa
  (kern/pmap.c). Addresses and sizes are counted in pages; a virtual page
  number wraps at 2^20, as a 32-bit address does at 2^32.
 */
module BootMap {
  import opened Pmap

  const PTE_PS: bv12 := 0x080
  const VPAGES: nat := 0x100000

  /** Memory while the kernel boots: the words of every page and the pages
      page_alloc can still hand out. */
  datatype Boot = Boot(mem: seq<Frame>, list: seq<nat>)

  predicate Large(e: Pte) {
    e.perm & PTE_PS != 0
  }

  ghost predicate BootSized(b: Boot, d: nat) {
    && d < |b.mem|
    && (forall p | 0 <= p < |b.mem| :: |b.mem[p]| == NPTENTRIES)
    && (forall k | 0 <= k < |b.list| :: b.list[k] < |b.mem|)
  }

  /** kern_pgdir[PDX(UVPT)]: the directory as its own page table. */
  function SelfMap(d: nat): Pte {
    Pte(d, PTE_P | PTE_U)
  }

  /** Page tables of directory d are distinct live pages that grant
      everything, so the entry decides the permission; the directory may also
      map itself at UVPT, as mem_init has it from the start. */
  ghost predicate BootOk(b: Boot, d: nat) {
    && BootSized(b, d) && d !in b.list
    && (forall j, k | 0 <= j < k < |b.list| :: b.list[j] != b.list[k])
    && (forall i | 0 <= i < NPTENTRIES :: TableOk(b, d, b.mem[d][i]) || (i == UVPT_PDE && b.mem[d][i] == SelfMap(d)))
    && (forall i, j | 0 <= i < j < NPTENTRIES ::
          b.mem[d][i] != EMPTY && b.mem[d][j] != EMPTY && !Large(b.mem[d][i]) && !Large(b.mem[d][j]) ==>
          b.mem[d][i].frame != b.mem[d][j].frame)
  }

  ghost predicate TableOk(b: Boot, d: nat, e: Pte) {
    e == EMPTY || Large(e) ||
    (e.perm == PTE_P | PTE_W | PTE_U && e.frame < |b.mem| && e.frame != d && e.frame !in b.list)
  }

  /** The 4 MB at UVPT, where the directory's own words show as mappings. */
  predicate InWindow(b: Boot, d: nat, w: nat)
    requires d < |b.mem| && |b.mem[d]| == NPTENTRIES
  {
    w / NPTENTRIES == UVPT_PDE && b.mem[d][UVPT_PDE] == SelfMap(d)
  }

  /** kern_pgdir when boot_map_region is first called. */
  lemma FreshDirectory(b: Boot, d: nat)
    requires BootSized(b, d) && d !in b.list
    requires forall j, k | 0 <= j < k < |b.list| :: b.list[j] != b.list[k]
    requires b.mem[d] == ZeroFrame()[UVPT_PDE := SelfMap(d)]
    ensures BootOk(b, d) && InWindow(b, d, UVPT_PDE * NPTENTRIES)
    ensures forall v, n | 0 <= v && 0 <= n && v + n <= VPAGES
              && (v + n <= UVPT_PDE * NPTENTRIES || (UVPT_PDE + 1) * NPTENTRIES <= v) :: RangeClear(b, d, v, n)
  {
    Bits(0);
  }

  /** What the MMU grants at a virtual page. */
  datatype View = View(frame: nat, writable: bool, user: bool)

  predicate Writable(perm: bv12) { perm & PTE_W != 0 }
  predicate User(perm: bv12) { perm & PTE_U != 0 }

  /** check_va2pa with the permissions of both levels; None is ~0. For a
      large page the frame is PGADDR(PDX(*pgdir), PTX(va), 0). */
  function CheckVa2pa(b: Boot, d: nat, v: nat): Option<View>
    requires BootOk(b, d) && v < VPAGES
  {
    var pde := b.mem[d][v / NPTENTRIES];
    if !Present(pde) then None
    else if Large(pde) then
      Some(View(pde.frame / NPTENTRIES * NPTENTRIES + v % NPTENTRIES, Writable(pde.perm), User(pde.perm)))
    else
      var pte := b.mem[pde.frame][v % NPTENTRIES];
      if !Present(pte) then None
      else Some(View(pte.frame, Writable(pde.perm) && Writable(pte.perm), User(pde.perm) && User(pte.perm)))
  }

  /** pgdir_walk with create, then the store of boot_map_region. None means
      no page for the table, or the panic of KADDR. */
  function MapSmall(b: Boot, d: nat, v: nat, p: nat, perm: bv12): (r: Option<Boot>)
    requires BootSized(b, d) && v < VPAGES
    ensures r.Some? ==> BootSized(r.value, d)
  {
    var i := v / NPTENTRIES;
    var pde := b.mem[d][i];
    if pde != EMPTY then
      if pde.frame >= |b.mem| then None
      else Some(b.(mem := b.mem[pde.frame := b.mem[pde.frame][v % NPTENTRIES := Pte(p, perm | PTE_P)]]))
    else if b.list == [] then None
    else
      var t := b.list[0];
      var zeroed := b.mem[t := ZeroFrame()];
      var linked := zeroed[d := zeroed[d][i := Pte(t, PTE_P | PTE_W | PTE_U)]];
      Some(Boot(linked[t := linked[t][v % NPTENTRIES := Pte(p, perm | PTE_P)]], b.list[1..]))
  }

  function MapLarge(b: Boot, d: nat, v: nat, p: nat, perm: bv12): (b': Boot)
    requires BootSized(b, d) && v < VPAGES
    ensures BootSized(b', d)
  {
    b.(mem := b.mem[d := b.mem[d][v / NPTENTRIES := Pte(p, perm | PTE_P | PTE_PS)]])
  }

  lemma Bits(perm: bv12)
    ensures (perm | PTE_P) & PTE_P != 0
    ensures (perm | PTE_P) & PTE_W == perm & PTE_W && (perm | PTE_P) & PTE_U == perm & PTE_U
    ensures (perm | PTE_P | PTE_PS) & PTE_P != 0 && (perm | PTE_P | PTE_PS) & PTE_PS != 0
    ensures (perm | PTE_P | PTE_PS) & PTE_W == perm & PTE_W && (perm | PTE_P | PTE_PS) & PTE_U == perm & PTE_U
    ensures (PTE_P | PTE_W | PTE_U) & PTE_PS == 0 && (PTE_P | PTE_W | PTE_U) & PTE_P != 0
    ensures (PTE_P | PTE_W | PTE_U) & PTE_W != 0 && (PTE_P | PTE_W | PTE_U) & PTE_U != 0
    ensures (0 as bv12) & PTE_P == 0 && (0 as bv12) & PTE_PS == 0
    ensures (PTE_P | PTE_U) & PTE_PS == 0 && (PTE_P | PTE_U) & PTE_P != 0
    ensures (PTE_P | PTE_U) & PTE_W == 0 && (PTE_P | PTE_U) & PTE_U != 0
  {
  }

  /** From b to b', outside the window, exactly the n pages from v on were
      mapped, to the n frames from p on. */
  ghost predicate Mapped(b: Boot, b': Boot, d: nat, v: nat, n: nat, p: nat, perm: bv12)
    requires BootOk(b, d) && BootOk(b', d)
  {
    && (b'.mem[d][UVPT_PDE] == SelfMap(d) <==> b.mem[d][UVPT_PDE] == SelfMap(d))
    && forall w: nat | w < VPAGES && !InWindow(b, d, w) ::
      CheckVa2pa(b', d, w) ==
        if v <= w < v + n then Some(View(p + (w - v), Writable(perm), User(perm))) else CheckVa2pa(b, d, w)
  }

  lemma SmallStep(b: Boot, d: nat, v: nat, p: nat, perm: bv12)
    requires BootOk(b, d) && v < VPAGES && !Large(b.mem[d][v / NPTENTRIES]) && !InWindow(b, d, v)
    requires MapSmall(b, d, v, p, perm).Some?
    ensures
      var b' := MapSmall(b, d, v, p, perm).value;
      BootOk(b', d) && Mapped(b, b', d, v, 1, p, perm)
      && (forall i | 0 <= i < NPTENTRIES && i != v / NPTENTRIES :: b'.mem[d][i] == b.mem[d][i])
      && !Large(b'.mem[d][v / NPTENTRIES])
  {
    Bits(perm);
    var b' := MapSmall(b, d, v, p, perm).value;
    var i := v / NPTENTRIES;
    assert BootOk(b', d);
    forall w: nat | w < VPAGES && !InWindow(b, d, w)
      ensures CheckVa2pa(b', d, w) ==
                if w == v then Some(View(p, Writable(perm), User(perm))) else CheckVa2pa(b, d, w)
    {
      if w / NPTENTRIES != i {
        assert b'.mem[d][w / NPTENTRIES] == b.mem[d][w / NPTENTRIES];
      }
    }
  }

  lemma LargeStep(b: Boot, d: nat, v: nat, p: nat, perm: bv12)
    requires BootOk(b, d) && v < VPAGES && v % NPTENTRIES == 0 && p % NPTENTRIES == 0 && !InWindow(b, d, v)
    ensures
      var b' := MapLarge(b, d, v, p, perm);
      BootOk(b', d) && Mapped(b, b', d, v, NPTENTRIES, p, perm)
      && (forall i | 0 <= i < NPTENTRIES && i != v / NPTENTRIES :: b'.mem[d][i] == b.mem[d][i])
  {
    Bits(perm);
    var b' := MapLarge(b, d, v, p, perm);
    assert BootOk(b', d);
    forall w: nat | w < VPAGES && !InWindow(b, d, w)
      ensures CheckVa2pa(b', d, w) ==
                if v <= w < v + NPTENTRIES then Some(View(p + (w - v), Writable(perm), User(perm)))
                else CheckVa2pa(b, d, w)
    {
    }
  }

  /** No page of [v, v+n) is covered by a large page yet, or lies in the window. */
  ghost predicate RangeClear(b: Boot, d: nat, v: nat, n: nat)
    requires BootOk(b, d) && v + n <= VPAGES
  {
    forall w | v <= w < v + n :: !Large(b.mem[d][w / NPTENTRIES]) && !InWindow(b, d, w)
  }

  predicate UseLarge(pse: bool, v: nat, n: nat, p: nat) {
    pse && n >= NPTENTRIES && p % NPTENTRIES == 0 && v % NPTENTRIES == 0
  }

  /** The loop of boot_map_region with n pages to go; `pse` is TP1_PSE. */
  function MapRegion(b: Boot, d: nat, v: nat, n: nat, p: nat, perm: bv12, pse: bool): (r: Option<Boot>)
    requires BootSized(b, d) && v + n <= VPAGES
    ensures r.Some? ==> BootSized(r.value, d)
    decreases n
  {
    if n == 0 then Some(b)
    else if UseLarge(pse, v, n, p) then
      MapRegion(MapLarge(b, d, v, p, perm), d, v + NPTENTRIES, n - NPTENTRIES, p + NPTENTRIES, perm, pse)
    else
      match MapSmall(b, d, v, p, perm)
      case None => None
      case Some(b1) => MapRegion(b1, d, v + 1, n - 1, p + 1, perm, pse)
  }

  /** r is b with exactly the n pages from v on mapped. */
  ghost predicate Maps(b: Boot, r: Option<Boot>, d: nat, v: nat, n: nat, p: nat, perm: bv12)
    requires BootOk(b, d)
  {
    r.Some? ==> BootOk(r.value, d) && Mapped(b, r.value, d, v, n, p, perm)
  }

  lemma MapsAfterLarge(b: Boot, r: Option<Boot>, d: nat, v: nat, n: nat, p: nat, perm: bv12)
    requires BootOk(b, d) && v + n <= VPAGES && NPTENTRIES <= n && v % NPTENTRIES == 0 && p % NPTENTRIES == 0
    requires !InWindow(b, d, v) && BootOk(MapLarge(b, d, v, p, perm), d)
    requires Maps(MapLarge(b, d, v, p, perm), r, d, v + NPTENTRIES, n - NPTENTRIES, p + NPTENTRIES, perm)
    ensures Maps(b, r, d, v, n, p, perm)
  {
    if r.Some? {
      LargeStep(b, d, v, p, perm);
      MappedChain(b, MapLarge(b, d, v, p, perm), r.value, d, v, NPTENTRIES, n - NPTENTRIES, p, perm);
    }
  }

  lemma MapsAfterSmall(b: Boot, b1: Boot, r: Option<Boot>, d: nat, v: nat, n: nat, p: nat, perm: bv12)
    requires BootOk(b, d) && v + n <= VPAGES && 0 < n && !Large(b.mem[d][v / NPTENTRIES]) && !InWindow(b, d, v)
    requires MapSmall(b, d, v, p, perm) == Some(b1) && BootOk(b1, d)
    requires Maps(b1, r, d, v + 1, n - 1, p + 1, perm)
    ensures Maps(b, r, d, v, n, p, perm)
  {
    if r.Some? {
      SmallStep(b, d, v, p, perm);
      MappedChain(b, b1, r.value, d, v, 1, n - 1, p, perm);
    }
  }

  lemma ClearAfterLarge(b: Boot, d: nat, v: nat, n: nat, p: nat, perm: bv12)
    requires BootOk(b, d) && v + n <= VPAGES && RangeClear(b, d, v, n)
    requires NPTENTRIES <= n && v % NPTENTRIES == 0 && p % NPTENTRIES == 0
    ensures !InWindow(b, d, v) && BootOk(MapLarge(b, d, v, p, perm), d)
    ensures RangeClear(MapLarge(b, d, v, p, perm), d, v + NPTENTRIES, n - NPTENTRIES)
  {
    LargeStep(b, d, v, p, perm);
  }

  lemma ClearAfterSmall(b: Boot, b1: Boot, d: nat, v: nat, n: nat, p: nat, perm: bv12)
    requires BootOk(b, d) && v + n <= VPAGES && RangeClear(b, d, v, n) && 0 < n
    requires MapSmall(b, d, v, p, perm) == Some(b1)
    ensures !Large(b.mem[d][v / NPTENTRIES]) && !InWindow(b, d, v)
    ensures BootOk(b1, d) && RangeClear(b1, d, v + 1, n - 1)
  {
    assert !Large(b.mem[d][v / NPTENTRIES]) && !InWindow(b, d, v);
    SmallStep(b, d, v, p, perm);
  }

  /** boot_map_region maps exactly its region, with either page size. */
  lemma {:induction false} MapRegionMaps(b: Boot, d: nat, v: nat, n: nat, p: nat, perm: bv12, pse: bool)
    requires BootOk(b, d) && v + n <= VPAGES && RangeClear(b, d, v, n)
    ensures Maps(b, MapRegion(b, d, v, n, p, perm, pse), d, v, n, p, perm)
    decreases n
  {
    if n == 0 {
      return;
    }
    if UseLarge(pse, v, n, p) {
      ClearAfterLarge(b, d, v, n, p, perm);
      var b1 := MapLarge(b, d, v, p, perm);
      MapRegionMaps(b1, d, v + NPTENTRIES, n - NPTENTRIES, p + NPTENTRIES, perm, pse);
      MapsAfterLarge(b, MapRegion(b, d, v, n, p, perm, pse), d, v, n, p, perm);
      return;
    }
    match MapSmall(b, d, v, p, perm)
    case None =>
    case Some(b1) =>
      ClearAfterSmall(b, b1, d, v, n, p, perm);
      MapRegionMaps(b1, d, v + 1, n - 1, p + 1, perm, pse);
      MapsAfterSmall(b, b1, MapRegion(b, d, v, n, p, perm, pse), d, v, n, p, perm);
  }

  lemma MappedChain(b: Boot, b1: Boot, b2: Boot, d: nat, v: nat, m: nat, n: nat, p: nat, perm: bv12)
    requires BootOk(b, d) && BootOk(b1, d) && BootOk(b2, d)
    requires Mapped(b, b1, d, v, m, p, perm) && Mapped(b1, b2, d, v + m, n, p + m, perm)
    ensures Mapped(b, b2, d, v, m + n, p, perm)
  {
    forall w: nat | w < VPAGES && !InWindow(b, d, w)
      ensures CheckVa2pa(b2, d, w) ==
                if v <= w < v + m + n then Some(View(p + (w - v), Writable(perm), User(perm))) else CheckVa2pa(b, d, w)
    {
      assert CheckVa2pa(b1, d, w) ==
          if v <= w < v + m then Some(View(p + (w - v), Writable(perm), User(perm))) else CheckVa2pa(b, d, w);
    }
  }

  // ------------------------------------------------------------------
  // The words of the directory, and so the window
  // ------------------------------------------------------------------

  /** The region has a page under word i. */
  predicate Touches(v: nat, n: nat, i: nat) {
    0 < n && v < (i + 1) * NPTENTRIES && i * NPTENTRIES < v + n
  }

  /** The region covers word i whole, and its frames are aligned there. */
  predicate TakesLarge(v: nat, n: nat, p: nat, pse: bool, i: nat) {
    pse && v <= i * NPTENTRIES && (i + 1) * NPTENTRIES <= v + n && (p + (i * NPTENTRIES - v)) % NPTENTRIES == 0
  }

  /** Word i of the directory after the region was mapped. */
  ghost predicate WordAfter(b: Boot, b': Boot, d: nat, v: nat, n: nat, p: nat, perm: bv12, pse: bool, i: nat)
    requires BootSized(b, d) && BootSized(b', d) && i < NPTENTRIES
  {
    var e, e' := b.mem[d][i], b'.mem[d][i];
    if TakesLarge(v, n, p, pse, i) then e' == Pte(p + (i * NPTENTRIES - v), perm | PTE_P | PTE_PS)
    else if Touches(v, n, i) && e == EMPTY then e'.perm == PTE_P | PTE_W | PTE_U && e'.frame in b.list
    else e' == e
  }

  lemma TakesLargeNext(v: nat, n: nat, p: nat, pse: bool, i: nat)
    requires 0 < n && i != v / NPTENTRIES
    ensures TakesLarge(v, n, p, pse, i) <==> TakesLarge(v + 1, n - 1, p + 1, pse, i)
    ensures Touches(v, n, i) <==> Touches(v + 1, n - 1, i)
  {
    var q := v / NPTENTRIES;
    assert q * NPTENTRIES <= v < (q + 1) * NPTENTRIES;
    if v <= i * NPTENTRIES {
      assert v != i * NPTENTRIES;
      assert p + (i * NPTENTRIES - v) == (p + 1) + (i * NPTENTRIES - (v + 1));
    }
  }

  lemma WordAfterSmall(b: Boot, b1: Boot, b2: Boot, d: nat, v: nat, n: nat, p: nat, perm: bv12, pse: bool, i: nat)
    requires BootSized(b, d) && BootSized(b1, d) && BootSized(b2, d) && i < NPTENTRIES
    requires v < VPAGES && 0 < n && !UseLarge(pse, v, n, p) && MapSmall(b, d, v, p, perm) == Some(b1)
    requires b.mem[d][v / NPTENTRIES].frame != d || b.mem[d][v / NPTENTRIES] == EMPTY
    requires d !in b.list
    requires WordAfter(b1, b2, d, v + 1, n - 1, p + 1, perm, pse, i)
    ensures WordAfter(b, b2, d, v, n, p, perm, pse, i)
  {
    Bits(perm);
    if i == v / NPTENTRIES {
      assert Touches(v, n, i) && !TakesLarge(v, n, p, pse, i) && !TakesLarge(v + 1, n - 1, p + 1, pse, i);
    } else {
      TakesLargeNext(v, n, p, pse, i);
    }
  }

  lemma WordAfterLarge(b: Boot, b2: Boot, d: nat, v: nat, n: nat, p: nat, perm: bv12, i: nat)
    requires BootSized(b, d) && BootSized(b2, d) && i < NPTENTRIES && v < VPAGES && UseLarge(true, v, n, p)
    requires WordAfter(MapLarge(b, d, v, p, perm), b2, d, v + NPTENTRIES, n - NPTENTRIES, p + NPTENTRIES, perm, true, i)
    ensures WordAfter(b, b2, d, v, n, p, perm, true, i)
  {
    var q := v / NPTENTRIES;
    assert v == q * NPTENTRIES;
    if i != q {
      assert TakesLarge(v, n, p, true, i) ==> i > q;
    }
  }

  /** boot_map_region leaves the words outside its region alone; a word it
      covers whole and aligned becomes a large page when pages may be large;
      any other word it needs becomes a table of its own unless it is one. */
  lemma {:induction false} MapRegionWords(b: Boot, d: nat, v: nat, n: nat, p: nat, perm: bv12, pse: bool, i: nat)
    requires BootOk(b, d) && v + n <= VPAGES && RangeClear(b, d, v, n) && i < NPTENTRIES
    requires MapRegion(b, d, v, n, p, perm, pse).Some?
    ensures WordAfter(b, MapRegion(b, d, v, n, p, perm, pse).value, d, v, n, p, perm, pse, i)
    decreases n
  {
    hide MapSmall, WordAfter, BootOk, RangeClear;
    FirstWord(b, d, v, n);
    if n == 0 {
      NoneTouched(b, d, v, p, perm, pse, i);
      return;
    }
    var r := MapRegion(b, d, v, n, p, perm, pse).value;
    if UseLarge(pse, v, n, p) {
      ClearAfterLarge(b, d, v, n, p, perm);
      MapRegionWords(MapLarge(b, d, v, p, perm), d, v + NPTENTRIES, n - NPTENTRIES, p + NPTENTRIES, perm, pse, i);
      WordAfterLarge(b, r, d, v, n, p, perm, i);
    } else {
      var b1 := MapSmall(b, d, v, p, perm).value;
      ClearAfterSmall(b, b1, d, v, n, p, perm);
      MapRegionWords(b1, d, v + 1, n - 1, p + 1, perm, pse, i);
      WordAfterSmall(b, b1, r, d, v, n, p, perm, pse, i);
    }
  }

  lemma NoneTouched(b: Boot, d: nat, v: nat, p: nat, perm: bv12, pse: bool, i: nat)
    requires BootSized(b, d) && i < NPTENTRIES
    ensures WordAfter(b, b, d, v, 0, p, perm, pse, i)
  {
  }

  /** A directory word seen through the window. */
  function Shown(e: Pte): Option<View> {
    if Present(e) then Some(View(e.frame, false, User(e.perm))) else None
  }

  /** Page i of the window shows word i. */
  lemma WindowShows(b: Boot, d: nat, i: nat)
    requires BootOk(b, d) && i < NPTENTRIES && b.mem[d][UVPT_PDE] == SelfMap(d)
    ensures CheckVa2pa(b, d, UVPT_PDE * NPTENTRIES + i) == Shown(b.mem[d][i])
  {
    Bits(0);
    var w := UVPT_PDE * NPTENTRIES + i;
    assert w / NPTENTRIES == UVPT_PDE && w % NPTENTRIES == i;
  }

  /** Large pages agree with small pages: when neither run is short of a
      table page, both give the same address and the same effective
      permission at every virtual page outside the window, inside the region
      and outside it. */
  lemma LargeAgreesWithSmall(b: Boot, d: nat, v: nat, n: nat, p: nat, perm: bv12, w: nat)
    requires BootOk(b, d) && v + n <= VPAGES && RangeClear(b, d, v, n) && w < VPAGES && !InWindow(b, d, w)
    requires MapRegion(b, d, v, n, p, perm, false).Some? && MapRegion(b, d, v, n, p, perm, true).Some?
    ensures
      var small := MapRegion(b, d, v, n, p, perm, false).value;
      var large := MapRegion(b, d, v, n, p, perm, true).value;
      && BootOk(small, d) && BootOk(large, d)
      && CheckVa2pa(large, d, w) == CheckVa2pa(small, d, w)
      && (v <= w < v + n ==> CheckVa2pa(small, d, w) == Some(View(p + (w - v), Writable(perm), User(perm))))
      && (!(v <= w < v + n) ==> CheckVa2pa(small, d, w) == CheckVa2pa(b, d, w))
  {
    MapRegionMaps(b, d, v, n, p, perm, false);
    MapRegionMaps(b, d, v, n, p, perm, true);
  }

  // ------------------------------------------------------------------
  // Which free page becomes which table
  // ------------------------------------------------------------------

  /** The region needs a table at word j and there is none. */
  predicate MakesTable(b: Boot, d: nat, v: nat, n: nat, p: nat, pse: bool, j: nat)
    requires BootSized(b, d) && j < NPTENTRIES
  {
    Touches(v, n, j) && !TakesLarge(v, n, p, pse, j) && b.mem[d][j] == EMPTY
  }

  /** How many tables are made before word i's. */
  function NewTables(b: Boot, d: nat, v: nat, n: nat, p: nat, pse: bool, i: nat): nat
    requires BootSized(b, d) && i <= NPTENTRIES
    decreases i
  {
    if i == 0 then 0
    else NewTables(b, d, v, n, p, pse, i - 1) + (if MakesTable(b, d, v, n, p, pse, i - 1) then 1 else 0)
  }

  /** One small page mapped: the tables still to be made. */
  lemma {:induction false} NewTablesSmall(b: Boot, b1: Boot, d: nat, v: nat, n: nat, p: nat, perm: bv12, pse: bool,
      i: nat)
    requires BootSized(b, d) && BootSized(b1, d) && i <= NPTENTRIES && d !in b.list
    requires v < VPAGES && 0 < n && !UseLarge(pse, v, n, p) && MapSmall(b, d, v, p, perm) == Some(b1)
    requires b.mem[d][v / NPTENTRIES].frame != d || b.mem[d][v / NPTENTRIES] == EMPTY
    ensures
      var q := v / NPTENTRIES;
      NewTables(b, d, v, n, p, pse, i) ==
        NewTables(b1, d, v + 1, n - 1, p + 1, pse, i) + (if q < i && b.mem[d][q] == EMPTY then 1 else 0)
    decreases i
  {
    if i > 0 {
      NewTablesSmall(b, b1, d, v, n, p, perm, pse, i - 1);
      MakesSmall(b, b1, d, v, n, p, perm, pse, i - 1);
    }
  }

  lemma MakesSmall(b: Boot, b1: Boot, d: nat, v: nat, n: nat, p: nat, perm: bv12, pse: bool, j: nat)
    requires BootSized(b, d) && BootSized(b1, d) && j < NPTENTRIES && d !in b.list
    requires v < VPAGES && 0 < n && !UseLarge(pse, v, n, p) && MapSmall(b, d, v, p, perm) == Some(b1)
    requires b.mem[d][v / NPTENTRIES].frame != d || b.mem[d][v / NPTENTRIES] == EMPTY
    ensures
      if j == v / NPTENTRIES
      then !MakesTable(b1, d, v + 1, n - 1, p + 1, pse, j)
           && (MakesTable(b, d, v, n, p, pse, j) <==> b.mem[d][j] == EMPTY) && b1.mem[d][j] != EMPTY
      else MakesTable(b, d, v, n, p, pse, j) == MakesTable(b1, d, v + 1, n - 1, p + 1, pse, j)
    ensures b1.list == if b.mem[d][v / NPTENTRIES] == EMPTY then b.list[1..] else b.list
    ensures b.mem[d][v / NPTENTRIES] == EMPTY ==> b.list != [] && b1.mem[d][v / NPTENTRIES].frame == b.list[0]
  {
    Bits(perm);
    if j == v / NPTENTRIES {
      assert Touches(v, n, j) && !TakesLarge(v, n, p, pse, j);
    } else {
      TakesLargeNext(v, n, p, pse, j);
    }
  }

  /** One large page mapped. */
  lemma {:induction false} NewTablesLarge(b: Boot, d: nat, v: nat, n: nat, p: nat, perm: bv12, i: nat)
    requires BootSized(b, d) && i <= NPTENTRIES && v < VPAGES && UseLarge(true, v, n, p)
    ensures NewTables(b, d, v, n, p, true, i) ==
              NewTables(MapLarge(b, d, v, p, perm), d, v + NPTENTRIES, n - NPTENTRIES, p + NPTENTRIES, true, i)
    decreases i
  {
    if i > 0 {
      NewTablesLarge(b, d, v, n, p, perm, i - 1);
      MakesLarge(b, d, v, n, p, perm, i - 1);
    }
  }

  lemma MakesLarge(b: Boot, d: nat, v: nat, n: nat, p: nat, perm: bv12, j: nat)
    requires BootSized(b, d) && j < NPTENTRIES && v < VPAGES && UseLarge(true, v, n, p)
    ensures MakesTable(b, d, v, n, p, true, j) ==
              MakesTable(MapLarge(b, d, v, p, perm), d, v + NPTENTRIES, n - NPTENTRIES, p + NPTENTRIES, true, j)
  {
    var q := v / NPTENTRIES;
    assert v == q * NPTENTRIES;
    if j != q {
      assert TakesLarge(v, n, p, true, j) ==> j > q;
    }
  }

  /** Nothing is made before the first word of the region. */
  lemma {:induction false} NoneBefore(b: Boot, d: nat, v: nat, n: nat, p: nat, pse: bool, i: nat)
    requires BootSized(b, d) && v < VPAGES && i <= v / NPTENTRIES
    ensures NewTables(b, d, v, n, p, pse, i) == 0
    decreases i
  {
    if i > 0 {
      NoneBefore(b, d, v, n, p, pse, i - 1);
    }
  }

  lemma FirstWord(b: Boot, d: nat, v: nat, n: nat)
    requires BootOk(b, d) && v + n <= VPAGES && RangeClear(b, d, v, n)
    ensures BootSized(b, d) && d !in b.list
    ensures n > 0 ==> b.mem[d][v / NPTENTRIES].frame != d || b.mem[d][v / NPTENTRIES] == EMPTY
  {
    assert n > 0 ==> !Large(b.mem[d][v / NPTENTRIES]) && !InWindow(b, d, v);
  }

  /** A table that is there stays. */
  lemma TableStays(b: Boot, d: nat, v: nat, n: nat, p: nat, perm: bv12, pse: bool, i: nat)
    requires BootOk(b, d) && v + n <= VPAGES && RangeClear(b, d, v, n) && i < NPTENTRIES
    requires MapRegion(b, d, v, n, p, perm, pse).Some? && b.mem[d][i] != EMPTY && v > i * NPTENTRIES
    ensures MapRegion(b, d, v, n, p, perm, pse).value.mem[d][i] == b.mem[d][i]
  {
    hide MapRegion, RangeClear, BootOk;
    MapRegionWords(b, d, v, n, p, perm, pse, i);
  }

  /** Tables come off the free list in the order of their words. */
  lemma {:induction false} TableFrame(b: Boot, d: nat, v: nat, n: nat, p: nat, perm: bv12, pse: bool, i: nat)
    requires BootOk(b, d) && v + n <= VPAGES && RangeClear(b, d, v, n) && i < NPTENTRIES
    requires MapRegion(b, d, v, n, p, perm, pse).Some? && MakesTable(b, d, v, n, p, pse, i)
    ensures
      var k := NewTables(b, d, v, n, p, pse, i);
      k < |b.list| && MapRegion(b, d, v, n, p, perm, pse).value.mem[d][i].frame == b.list[k]
    decreases n
  {
    hide NewTables, TakesLarge, MapSmall, RangeClear, WordAfter, BootOk;
    FirstWord(b, d, v, n);
    if UseLarge(pse, v, n, p) {
      ClearAfterLarge(b, d, v, n, p, perm);
      MakesLarge(b, d, v, n, p, perm, i);
      NewTablesLarge(b, d, v, n, p, perm, i);
      TableFrame(MapLarge(b, d, v, p, perm), d, v + NPTENTRIES, n - NPTENTRIES, p + NPTENTRIES, perm, pse, i);
    } else {
      var b1 := MapSmall(b, d, v, p, perm).value;
      ClearAfterSmall(b, b1, d, v, n, p, perm);
      MakesSmall(b, b1, d, v, n, p, perm, pse, i);
      NewTablesSmall(b, b1, d, v, n, p, perm, pse, i);
      if i == v / NPTENTRIES {
        NoneBefore(b, d, v, n, p, pse, i);
        TableStays(b1, d, v + 1, n - 1, p + 1, perm, pse, i);
      } else {
        TableFrame(b1, d, v + 1, n - 1, p + 1, perm, pse, i);
      }
    }
  }

  /** The run ends exactly when the list has a page for every table. */
  lemma {:induction false} RegionFits(b: Boot, d: nat, v: nat, n: nat, p: nat, perm: bv12, pse: bool)
    requires BootOk(b, d) && v + n <= VPAGES && RangeClear(b, d, v, n)
    ensures MapRegion(b, d, v, n, p, perm, pse).Some? <==> NewTables(b, d, v, n, p, pse, NPTENTRIES) <= |b.list|
    decreases n
  {
    hide NewTables, TakesLarge, MapSmall, RangeClear, BootOk;
    FirstWord(b, d, v, n);
    if n == 0 {
      NoneAtAll(b, d, v, p, pse, NPTENTRIES);
    } else if UseLarge(pse, v, n, p) {
      ClearAfterLarge(b, d, v, n, p, perm);
      NewTablesLarge(b, d, v, n, p, perm, NPTENTRIES);
      RegionFits(MapLarge(b, d, v, p, perm), d, v + NPTENTRIES, n - NPTENTRIES, p + NPTENTRIES, perm, pse);
    } else {
      SmallFits(b, d, v, n, p, perm, pse);
      if MapSmall(b, d, v, p, perm).Some? {
        var b1 := MapSmall(b, d, v, p, perm).value;
        ClearAfterSmall(b, b1, d, v, n, p, perm);
        MakesSmall(b, b1, d, v, n, p, perm, pse, v / NPTENTRIES);
        NewTablesSmall(b, b1, d, v, n, p, perm, pse, NPTENTRIES);
        RegionFits(b1, d, v + 1, n - 1, p + 1, perm, pse);
      }
    }
  }

  lemma {:induction false} NoneAtAll(b: Boot, d: nat, v: nat, p: nat, pse: bool, i: nat)
    requires BootSized(b, d) && i <= NPTENTRIES
    ensures NewTables(b, d, v, 0, p, pse, i) == 0
    decreases i
  {
    if i > 0 {
      NoneAtAll(b, d, v, p, pse, i - 1);
    }
  }

  /** One small page fails for lack of a table page alone. */
  lemma SmallFits(b: Boot, d: nat, v: nat, n: nat, p: nat, perm: bv12, pse: bool)
    requires BootOk(b, d) && v + n <= VPAGES && RangeClear(b, d, v, n) && 0 < n && !UseLarge(pse, v, n, p)
    ensures MapSmall(b, d, v, p, perm).None? ==> b.list == [] && NewTables(b, d, v, n, p, pse, NPTENTRIES) > 0
  {
    var q := v / NPTENTRIES;
    assert !Large(b.mem[d][q]) && !InWindow(b, d, v);
    if MapSmall(b, d, v, p, perm).None? {
      assert MakesTable(b, d, v, n, p, pse, q);
      NewTablesGrow(b, d, v, n, p, pse, q + 1, NPTENTRIES);
    }
  }

  lemma {:induction false} NewTablesGrow(b: Boot, d: nat, v: nat, n: nat, p: nat, pse: bool, i: nat, j: nat)
    requires BootSized(b, d) && i <= j <= NPTENTRIES
    ensures NewTables(b, d, v, n, p, pse, i) <= NewTables(b, d, v, n, p, pse, j)
    decreases j
  {
    if i < j {
      NewTablesGrow(b, d, v, n, p, pse, i, j - 1);
    }
  }

  /** The page a word's table is in after a run of small pages, from what is
      there before it. */
  function TablePage(b: Boot, d: nat, v: nat, n: nat, p: nat, pse: bool, i: nat): nat
    requires BootSized(b, d) && i < NPTENTRIES
  {
    var k := NewTables(b, d, v, n, p, pse, i);
    if b.mem[d][i] != EMPTY then b.mem[d][i].frame else if k < |b.list| then b.list[k] else 0
  }

  /** Where the two runs agree inside the window, told before either. */
  predicate WindowAgrees(b: Boot, d: nat, v: nat, n: nat, p: nat, perm: bv12, i: nat)
    requires BootSized(b, d) && i < NPTENTRIES
  {
    if TakesLarge(v, n, p, true, i) then
      User(perm) && TablePage(b, d, v, n, p, false, i) == p + (i * NPTENTRIES - v)
    else
      MakesTable(b, d, v, n, p, true, i) ==>
        NewTables(b, d, v, n, p, false, i) == NewTables(b, d, v, n, p, true, i)
  }

  /** Inside the window the two runs differ: page i shows the directory word.
      A word with no page in the region shows what it showed; a large page
      shows the region's own frame; any other word its table, for the user to
      read. So they agree exactly where, with a large page, the user may read
      the region and the small run's table is the region's own frame, and
      where a table is made, as many were made before it in both. */
  lemma WindowAfter(b: Boot, d: nat, v: nat, n: nat, p: nat, perm: bv12, i: nat)
    requires BootOk(b, d) && v + n <= VPAGES && RangeClear(b, d, v, n) && i < NPTENTRIES
    requires b.mem[d][UVPT_PDE] == SelfMap(d)
    requires MapRegion(b, d, v, n, p, perm, false).Some? && MapRegion(b, d, v, n, p, perm, true).Some?
    ensures
      var small := MapRegion(b, d, v, n, p, perm, false).value;
      var large := MapRegion(b, d, v, n, p, perm, true).value;
      var w := UVPT_PDE * NPTENTRIES + i;
      && BootOk(small, d) && BootOk(large, d)
      && CheckVa2pa(small, d, w) == InWindowAfter(b, d, v, n, p, perm, false, i)
      && CheckVa2pa(large, d, w) == InWindowAfter(b, d, v, n, p, perm, true, i)
      && (CheckVa2pa(large, d, w) == CheckVa2pa(small, d, w) <==> WindowAgrees(b, d, v, n, p, perm, i))
  {
    hide CheckVa2pa, MapRegion, NewTables, RangeClear, BootOk, Touches, TakesLarge;
    WindowRun(b, d, v, n, p, perm, false, i);
    WindowRun(b, d, v, n, p, perm, true, i);
    AgreesWhen(b, d, v, n, p, perm, i);
  }

  /** What page i of the window shows after a run. */
  function InWindowAfter(b: Boot, d: nat, v: nat, n: nat, p: nat, perm: bv12, pse: bool, i: nat): Option<View>
    requires BootSized(b, d) && i < NPTENTRIES
  {
    if TakesLarge(v, n, p, pse, i) then Some(View(p + (i * NPTENTRIES - v), false, User(perm)))
    else if Touches(v, n, i) then Some(View(TablePage(b, d, v, n, p, pse, i), false, true))
    else Shown(b.mem[d][i])
  }

  lemma AgreesWhen(b: Boot, d: nat, v: nat, n: nat, p: nat, perm: bv12, i: nat)
    requires BootOk(b, d) && v + n <= VPAGES && RangeClear(b, d, v, n) && i < NPTENTRIES
    requires MapRegion(b, d, v, n, p, perm, false).Some? && MapRegion(b, d, v, n, p, perm, true).Some?
    ensures InWindowAfter(b, d, v, n, p, perm, true, i) == InWindowAfter(b, d, v, n, p, perm, false, i)
            <==> WindowAgrees(b, d, v, n, p, perm, i)
  {
    hide CheckVa2pa, MapRegion, NewTables, RangeClear, Touches, TakesLarge;
    NoLargeSmall(v, n, p, i);
    if MakesTable(b, d, v, n, p, true, i) {
      TableFrame(b, d, v, n, p, perm, true, i);
      TableFrame(b, d, v, n, p, perm, false, i);
      OnePlace(b, d, NewTables(b, d, v, n, p, true, i), NewTables(b, d, v, n, p, false, i));
    }
  }

  lemma NoLargeSmall(v: nat, n: nat, p: nat, i: nat)
    ensures !TakesLarge(v, n, p, false, i)
    ensures TakesLarge(v, n, p, true, i) ==> Touches(v, n, i) && i * NPTENTRIES >= v
  {
  }

  lemma OnePlace(b: Boot, d: nat, j: nat, k: nat)
    requires BootOk(b, d) && j < |b.list| && k < |b.list|
    ensures b.list[j] == b.list[k] <==> j == k
  {
  }

  lemma {:induction false} WitnessTables(b: Boot, d: nat, i: nat)
    requires BootSized(b, d) && b.mem[d] == ZeroFrame()[UVPT_PDE := SelfMap(d)] && i <= NPTENTRIES
    ensures NewTables(b, d, 0, NPTENTRIES + 1, 0, false, i) == if i < 2 then i else 2
    ensures NewTables(b, d, 0, NPTENTRIES + 1, 0, true, i) == if i < 2 then 0 else 1
    decreases i
  {
    if i > 0 {
      WitnessTables(b, d, i - 1);
    }
  }

  /** The runs do differ there: on the directory boot_map_region is first
      called with, a region of 1025 pages from 0 to frame 0 makes two tables
      with small pages and one with large ones, and pages 0 and 1 of the
      window tell them apart. */
  lemma WindowDiffers(b: Boot, d: nat, perm: bv12)
    requires BootSized(b, d) && d !in b.list && |b.list| >= 2 && b.list[0] != 0
    requires forall j, k | 0 <= j < k < |b.list| :: b.list[j] != b.list[k]
    requires b.mem[d] == ZeroFrame()[UVPT_PDE := SelfMap(d)]
    ensures
      var small := MapRegion(b, d, 0, NPTENTRIES + 1, 0, perm, false);
      var large := MapRegion(b, d, 0, NPTENTRIES + 1, 0, perm, true);
      var window := UVPT_PDE * NPTENTRIES;
      && small.Some? && large.Some? && BootOk(small.value, d) && BootOk(large.value, d)
      && CheckVa2pa(large.value, d, window) != CheckVa2pa(small.value, d, window)
      && CheckVa2pa(large.value, d, window + 1) != CheckVa2pa(small.value, d, window + 1)
  {
    hide MapRegion, NewTables, CheckVa2pa, RangeClear;
    FreshDirectory(b, d);
    WitnessTables(b, d, 0);
    WitnessTables(b, d, 1);
    WitnessTables(b, d, NPTENTRIES);
    RegionFits(b, d, 0, NPTENTRIES + 1, 0, perm, false);
    RegionFits(b, d, 0, NPTENTRIES + 1, 0, perm, true);
    WindowAfter(b, d, 0, NPTENTRIES + 1, 0, perm, 0);
    WindowAfter(b, d, 0, NPTENTRIES + 1, 0, perm, 1);
  }

  /** One run, through the window. */
  lemma WindowRun(b: Boot, d: nat, v: nat, n: nat, p: nat, perm: bv12, pse: bool, i: nat)
    requires BootOk(b, d) && v + n <= VPAGES && RangeClear(b, d, v, n) && i < NPTENTRIES
    requires b.mem[d][UVPT_PDE] == SelfMap(d) && MapRegion(b, d, v, n, p, perm, pse).Some?
    ensures
      var r := MapRegion(b, d, v, n, p, perm, pse).value;
      BootOk(r, d) && CheckVa2pa(r, d, UVPT_PDE * NPTENTRIES + i) == InWindowAfter(b, d, v, n, p, perm, pse, i)
  {
    hide CheckVa2pa, MapRegion, NewTables, RangeClear;
    Bits(perm);
    MapRegionMaps(b, d, v, n, p, perm, pse);
    MapRegionWords(b, d, v, n, p, perm, pse, i);
    var r := MapRegion(b, d, v, n, p, perm, pse).value;
    WindowShows(r, d, i);
    if MakesTable(b, d, v, n, p, pse, i) {
      TableFrame(b, d, v, n, p, perm, pse, i);
    } else if Touches(v, n, i) {
      TouchedIsTable(b, d, v, n, i);
    }
  }

  lemma TouchedIsTable(b: Boot, d: nat, v: nat, n: nat, i: nat)
    requires BootOk(b, d) && v + n <= VPAGES && RangeClear(b, d, v, n) && i < NPTENTRIES && Touches(v, n, i)
    ensures b.mem[d][i] == EMPTY || b.mem[d][i].perm == PTE_P | PTE_W | PTE_U
  {
    var w := if v <= i * NPTENTRIES then i * NPTENTRIES else v;
    assert w / NPTENTRIES == i;
    assert v <= w < v + n;
    assert !Large(b.mem[d][w / NPTENTRIES]) && !InWindow(b, d, w);
  }

  /** At byte granularity the two disagree as soon as va is not page-aligned:
      check_va2pa adds the page offset for a large page only. */
  function CheckVa2paBytes(b: Boot, d: nat, va: nat): Option<nat>
    requires BootOk(b, d) && va / 4096 < VPAGES
  {
    match CheckVa2pa(b, d, va / 4096)
    case None => None
    case Some(view) =>
      Some(view.frame * 4096 + if Large(b.mem[d][va / 4096 / NPTENTRIES]) then va % 4096 else 0)
  }

  lemma ByteAgreement(small: Boot, large: Boot, d: nat, va: nat)
    requires BootOk(small, d) && BootOk(large, d) && va / 4096 < VPAGES
    requires CheckVa2pa(large, d, va / 4096) == CheckVa2pa(small, d, va / 4096) && CheckVa2pa(small, d, va / 4096).Some?
    requires Large(large.mem[d][va / 4096 / NPTENTRIES]) && !Large(small.mem[d][va / 4096 / NPTENTRIES])
    ensures CheckVa2paBytes(large, d, va) == CheckVa2paBytes(small, d, va) <==> va % 4096 == 0
  {
  }

  /** A 32-bit addition past the last page starts again at page 0. */
  function Wrap(v: nat): nat {
    if v < VPAGES then v else v - VPAGES
  }

  class BootDirectory {
    const mem: array<Frame>
    const pgdir: nat
    var list: seq<nat>

    constructor (mem: array<Frame>, pgdir: nat, list: seq<nat>)
      ensures this.mem == mem && this.pgdir == pgdir && this.list == list
    {
      this.mem := mem;
      this.pgdir := pgdir;
      this.list := list;
    }

    ghost function State(): Boot
      reads this, mem
    {
      Boot(mem[..], list)
    }

    /** pgdir_walk with create and the store through the slot it returns. */
    method MapPage(v: nat, p: nat, perm: bv12) returns (ok: bool)
      requires BootSized(State(), pgdir) && v < VPAGES
      modifies this`list, mem
      ensures ok <==> MapSmall(old(State()), pgdir, v, p, perm).Some?
      ensures ok ==> Some(State()) == MapSmall(old(State()), pgdir, v, p, perm)
    {
      var i := v / NPTENTRIES;
      var t := mem[pgdir][i].frame;
      if mem[pgdir][i] == EMPTY {
        if list == [] {
          return false;
        }
        t := list[0];
        list := list[1..];
        mem[t] := ZeroFrame();
        mem[pgdir] := mem[pgdir][i := Pte(t, PTE_P | PTE_W | PTE_U)];
      } else if t >= mem.Length {
        return false;
      }
      mem[t] := mem[t][v % NPTENTRIES := Pte(p, perm | PTE_P)];
      ok := true;
    }

    /** One pass of the loop of boot_map_region; k pages were mapped. */
    method MapSome(v: nat, n: nat, p: nat, perm: bv12, pse: bool) returns (ok: bool, k: nat)
      requires BootSized(State(), pgdir) && 0 < n && v + n <= VPAGES
      modifies this`list, mem
      ensures !ok ==> MapRegion(old(State()), pgdir, v, n, p, perm, pse) == None
      ensures ok ==> 0 < k <= n && BootSized(State(), pgdir)
      ensures ok ==> MapRegion(old(State()), pgdir, v, n, p, perm, pse) ==
                       MapRegion(State(), pgdir, v + k, n - k, p + k, perm, pse)
    {
      hide MapSmall;
      if pse && n >= NPTENTRIES && p % NPTENTRIES == 0 && v % NPTENTRIES == 0 {
        mem[pgdir] := mem[pgdir][v / NPTENTRIES := Pte(p, perm | PTE_P | PTE_PS)];
        assert State() == MapLarge(old(State()), pgdir, v, p, perm);
        return true, NPTENTRIES;
      }
      k := 1;
      ok := MapPage(v, p, perm);
    }

    /** boot_map_region: va wraps to 0 when the region ends at 2^32. False
        is the silent return when no table page is left. */
    method BootMapRegion(va: nat, size: nat, pa: nat, perm: bv12, pse: bool) returns (ok: bool)
      requires BootSized(State(), pgdir) && va < VPAGES && va + size <= VPAGES
      modifies this`list, mem
      ensures ok <==> MapRegion(old(State()), pgdir, va, size, pa, perm, pse).Some?
      ensures ok ==> Some(State()) == MapRegion(old(State()), pgdir, va, size, pa, perm, pse)
    {
      hide BootSized, MapSmall, MapLarge, UseLarge;
      ghost var goal := MapRegion(State(), pgdir, va, size, pa, perm, pse);
      ghost var page := va;
      var v, n, p := va, size, pa;
      while n > 0
        invariant 0 <= n && page + n == va + size && va <= page && v == Wrap(page) && 0 <= p
        invariant BootSized(State(), pgdir)
        invariant MapRegion(State(), pgdir, page, n, p, perm, pse) == goal
      {
        assert v == page;
        var k;
        ok, k := MapSome(v, n, p, perm, pse);
        if !ok {
          return;
        }
        page := page + k;
        v, p, n := Wrap(v + k), p + k, n - k;
      }
      ok := true;
    }
  }
}
