/** Physical pages, reference counts and two-level page tables (kern/pmap.c).

  The machine is a value: one `PageInfo` per physical page, the head of the
  free list, and the 1024 words of every page, so page directories and page
  tables live in the very pages that are being counted. `role` and `list` are
  bookkeeping that the code does not store: what a page is currently used
  for, and the free list spelled out. Every step function follows the C
  function of the same name, statement by statement.
 */
module Pmap {

  const NPTENTRIES: nat := 1024
  // PDX(UTOP): directory entries below this one belong to the user.
  const UPDE: nat := 955
  // PDX(UVPT): the directory maps itself here.
  const UVPT_PDE: nat := 957
  // pp_ref is a uint16_t.
  const REF_MOD: nat := 65536

  const PTE_P: bv12 := 0x001
  const PTE_W: bv12 := 0x002
  const PTE_U: bv12 := 0x004

  datatype Link = Null | To(page: nat)

  datatype PageInfo = PageInfo(ref: nat, link: Link)

  /** A page table or directory word: frame number and low twelve bits. */
  datatype Pte = Pte(frame: nat, perm: bv12)

  const EMPTY := Pte(0, 0)

  type Frame = seq<Pte>

  /** A page-aligned address, split as PDX and PTX split it. */
  datatype Va = Va(pdx: nat, ptx: nat)

  datatype Role =
    | Free                       // on the free list
    | Reserved                   // never handed out by the allocator
    | KernTable(pdx: nat)        // table of the kernel half of kern_pgdir
    | Dir                        // an environment's page directory
    | Table(dir: nat, pdx: nat)  // page table hung on one directory entry
    | Data                       // handed out; mapped by zero or more entries

  datatype Phys = Phys(
    pages: seq<PageInfo>,
    free: Link,
    mem: seq<Frame>,
    kern: nat,
    role: seq<Role>,
    list: seq<nat>)

  datatype Option<T> = None | Some(value: T)

  predicate Present(e: Pte) {
    e.perm & PTE_P != 0
  }

  ghost predicate AnyVa(va: Va) {
    va.pdx < NPTENTRIES && va.ptx < NPTENTRIES
  }

  ghost predicate UserVa(va: Va) {
    va.pdx < UPDE && va.ptx < NPTENTRIES
  }

  // ------------------------------------------------------------------
  // The invariant
  // ------------------------------------------------------------------

  /** What the C types give: array sizes, sixteen-bit counts, and pointers
      that are NULL or point into `pages`. */
  ghost predicate Sized(s: Phys) {
    && |s.pages| == |s.mem| == |s.role|
    && 0 < |s.pages|
    && s.kern < |s.mem|
    && (s.free.To? ==> s.free.page < |s.pages|)
    && (forall p | 0 <= p < |s.mem| :: |s.mem[p]| == NPTENTRIES)
    && (forall p | 0 <= p < |s.pages| ::
          s.pages[p].ref < REF_MOD && (s.pages[p].link.To? ==> s.pages[p].link.page < |s.pages|))
  }

  /** The linked free list is the sequence `list`: in range, duplicate-free,
      ended by NULL, and no page off the list has a link. */
  ghost predicate FreeListOk(s: Phys)
    requires Sized(s)
  {
    && s.free == At(s.list, 0)
    && (forall k | 0 <= k < |s.list| :: s.list[k] < |s.pages|)
    && (forall j, k | 0 <= j < k < |s.list| :: s.list[j] != s.list[k])
    && (forall k | 0 <= k < |s.list| :: s.pages[s.list[k]].link == At(s.list, k + 1))
    && (forall p: nat | p < |s.pages| && s.role[p] != Free :: s.pages[p].link == Null)
    && (forall p: nat | p < |s.pages| :: s.role[p] == Free <==> p in s.list)
  }

  /** Position k of the list as a pointer: NULL from the end on. */
  function At(list: seq<nat>, k: nat): Link {
    if k < |list| then To(list[k]) else Null
  }

  /** Page (t, j) is a slot of a live user page table that names page p. */
  ghost predicate IsRef(s: Phys, t: nat, j: nat, p: nat)
    requires Sized(s) && t < |s.role| && j < NPTENTRIES
  {
    s.role[t].Table? && s.mem[t][j] != EMPTY && s.mem[t][j].frame == p
  }

  /** Every page-table slot that maps page p. */
  ghost function Refs(s: Phys, p: nat): set<(nat, nat)>
    requires Sized(s)
  {
    set t: nat, j: nat | t < |s.role| && j < NPTENTRIES && IsRef(s, t, j, p) :: (t, j)
  }

  /** Directory words are empty or present and name the table hung there. */
  ghost predicate DirWordsOk(s: Phys)
    requires Sized(s)
  {
    forall d: nat, i: nat | d < |s.role| && i < UPDE && s.role[d] == Dir ::
      s.mem[d][i] == EMPTY ||
      (Present(s.mem[d][i]) && s.mem[d][i].frame < |s.role| && s.role[s.mem[d][i].frame] == Table(d, i))
  }

  /** Every table hangs on its directory word. */
  ghost predicate TablesHang(s: Phys)
    requires Sized(s)
  {
    forall t: nat | t < |s.role| && s.role[t].Table? ::
      && s.role[t].dir < |s.role| && s.role[t].pdx < UPDE
      && s.role[s.role[t].dir] == Dir
      && s.mem[s.role[t].dir][s.role[t].pdx] != EMPTY
      && s.mem[s.role[t].dir][s.role[t].pdx].frame == t
  }

  /** Table words are empty or present and name a page handed out. */
  ghost predicate TableWordsOk(s: Phys)
    requires Sized(s)
  {
    forall t: nat, j: nat | t < |s.role| && j < NPTENTRIES && s.role[t].Table? ::
      s.mem[t][j] == EMPTY ||
      (Present(s.mem[t][j]) && s.mem[t][j].frame < |s.role| && s.role[s.mem[t][j].frame] == Data)
  }

  /** kern_pgdir has nothing below UTOP, and the kernel's tables above. */
  ghost predicate KernWordsOk(s: Phys)
    requires Sized(s)
  {
    && (forall i: nat | i < UPDE :: s.mem[s.kern][i] == EMPTY)
    && (forall t: nat | t < |s.role| && s.role[t].KernTable? ::
          && UPDE <= s.role[t].pdx < NPTENTRIES
          && s.mem[s.kern][s.role[t].pdx] != EMPTY
          && s.mem[s.kern][s.role[t].pdx].frame == t)
  }

  ghost predicate TreeOk(s: Phys)
    requires Sized(s)
  {
    DirWordsOk(s) && TablesHang(s) && TableWordsOk(s) && KernWordsOk(s)
  }

  /** pp_ref of every page but page 0, with `pend` one reference ahead of the
      tables: page_insert counts the new mapping before it writes it. */
  ghost predicate CountsOk(s: Phys, pend: Link)
    requires Sized(s)
  {
    && s.role[0] == Reserved && s.role[s.kern] == Reserved
    && (forall p: nat | 0 < p < |s.role| ::
          match s.role[p]
          case Free => s.pages[p].ref == 0
          case Reserved => s.pages[p].ref == 0
          case KernTable(_) => s.pages[p].ref == 1
          case Dir => s.pages[p].ref == 1
          case Table(_, _) => s.pages[p].ref == 1
          case Data => s.pages[p].ref == |Refs(s, p)| + (if pend == To(p) then 1 else 0))
  }

  ghost predicate InvPending(s: Phys, pend: Link) {
    && Sized(s)
    && FreeListOk(s)
    && TreeOk(s)
    && CountsOk(s, pend)
    && (pend.To? ==> pend.page < |s.role| && s.role[pend.page] == Data)
  }

  ghost predicate Inv(s: Phys) {
    InvPending(s, Null)
  }

  // ------------------------------------------------------------------
  // The allocator
  // ------------------------------------------------------------------

  function ZeroFrame(): Frame {
    seq(NPTENTRIES, _ => EMPTY)
  }

  function SetRef(s: Phys, p: nat, ref: nat): Phys
    requires p < |s.pages|
  {
    s.(pages := s.pages[p := s.pages[p].(ref := ref)])
  }

  function SetRole(s: Phys, p: nat, r: Role): Phys
    requires p < |s.role|
  {
    s.(role := s.role[p := r])
  }

  function SetWord(s: Phys, t: nat, j: nat, e: Pte): Phys
    requires t < |s.mem| && j < |s.mem[t]|
  {
    s.(mem := s.mem[t := s.mem[t][j := e]])
  }

  function PageAlloc(s: Phys, zero: bool): (r: (Phys, Link))
    requires Sized(s)
    ensures Sized(r.0) && |r.0.role| == |s.role| && (r.1.To? ==> r.1.page < |s.role|)
  {
    match s.free
    case Null => (s, Null)
    case To(p) =>
      (s.(pages := s.pages[p := s.pages[p].(link := Null)],
          free := s.pages[p].link,
          mem := if zero then s.mem[p := ZeroFrame()] else s.mem,
          role := s.role[p := Data],
          list := if s.list == [] then [] else s.list[1..]),
       To(p))
  }

  /** None is the panic on a page still referenced or still linked. */
  function PageFree(s: Phys, p: nat): (r: Option<Phys>)
    requires Sized(s) && p < |s.pages|
    ensures r.Some? ==> Sized(r.value) && |r.value.role| == |s.role| && r.value.mem == s.mem
  {
    if s.pages[p].ref != 0 || s.pages[p].link != Null then None
    else
      Some(s.(pages := if s.free == Null then s.pages else s.pages[p := s.pages[p].(link := s.free)],
              free := To(p),
              role := s.role[p := Free],
              list := [p] + s.list))
  }

  function PageDecref(s: Phys, p: nat): (r: Option<Phys>)
    requires Sized(s) && p < |s.pages|
    ensures r.Some? ==> Sized(r.value) && |r.value.role| == |s.role| && r.value.mem == s.mem
  {
    var ref := (s.pages[p].ref + REF_MOD - 1) % REF_MOD;
    var s1 := SetRef(s, p, ref);
    if ref == 0 then PageFree(s1, p) else Some(s1)
  }

  // ------------------------------------------------------------------
  // Page tables
  // ------------------------------------------------------------------

  /** Slot(t) is the word va.ptx of page t, NoSlot is NULL, and BadFrame the
      panic of KADDR on a frame past the end of memory. */
  datatype Walk = Slot(table: nat) | NoSlot | BadFrame

  function PgdirWalk(s: Phys, d: nat, va: Va, create: bool): (r: (Phys, Walk))
    requires Sized(s) && d < |s.mem| && AnyVa(va)
    ensures Sized(r.0) && |r.0.role| == |s.role| && (r.1.Slot? ==> r.1.table < |s.role|)
  {
    var pde := s.mem[d][va.pdx];
    if pde != EMPTY then
      (s, if pde.frame < |s.mem| then Slot(pde.frame) else BadFrame)
    else if !create then (s, NoSlot)
    else
      var (s1, p) := PageAlloc(s, true);
      match p
      case Null => (s1, NoSlot)
      case To(t) =>
        var s2 := SetRef(s1, t, (s1.pages[t].ref + 1) % REF_MOD);
        (SetRole(SetWord(s2, d, va.pdx, Pte(t, PTE_P | PTE_W | PTE_U)), t, Table(d, va.pdx)), Slot(t))
  }

  /** page_remove; None is a panic. Where the table exists but the slot is
      empty, the code looks up page 0 and drops a reference from it. */
  function PageRemove(s: Phys, d: nat, va: Va): (r: Option<Phys>)
    requires Sized(s) && AnyVa(va) && d < |s.role|
    ensures r.Some? ==> Sized(r.value) && |r.value.role| == |s.role|
  {
    match PgdirWalk(s, d, va, false).1
    case NoSlot => Some(s)
    case BadFrame => None
    case Slot(t) =>
      var p := s.mem[t][va.ptx].frame;
      if p >= |s.pages| then None
      else
        match PageDecref(s, p)
        case None => None
        case Some(s1) => Some(SetWord(s1, t, va.ptx, EMPTY))
  }

  datatype Outcome = Ok | NoMem | Panic

  /** page_insert of page pp, writing the word e: the caller's permission
      argument is ored into the word whole, so e may name another page. */
  function PageInsertWord(s: Phys, d: nat, pp: nat, va: Va, e: Pte): (r: (Phys, Outcome))
    requires Sized(s) && AnyVa(va) && d < |s.role| && pp < |s.role|
    ensures Sized(r.0) && |r.0.role| == |s.role|
  {
    var (s1, slot) := PgdirWalk(s, d, va, true);
    match slot
    case NoSlot => (s1, NoMem)
    case BadFrame => (s1, Panic)
    case Slot(t) => InsertWord(s1, d, pp, va, e, t)
  }

  /** page_insert once its slot is known: count, remove, write. */
  function InsertWord(s: Phys, d: nat, pp: nat, va: Va, e: Pte, t: nat): (r: (Phys, Outcome))
    requires Sized(s) && AnyVa(va) && d < |s.role| && pp < |s.role| && t < |s.role|
    ensures Sized(r.0) && |r.0.role| == |s.role|
  {
    var s2 := SetRef(s, pp, (s.pages[pp].ref + 1) % REF_MOD);
    match PageRemove(s2, d, va)
    case None => (s2, Panic)
    case Some(s3) => (SetWord(s3, t, va.ptx, e), Ok)
  }

  /** page_insert with permissions of twelve bits: the word names pp. */
  function PageInsert(s: Phys, d: nat, pp: nat, va: Va, perm: bv12): (r: (Phys, Outcome))
    requires Sized(s) && UserVa(va) && d < |s.role| && pp < |s.role|
    ensures Sized(r.0) && |r.0.role| == |s.role|
  {
    PageInsertWord(s, d, pp, va, Pte(pp, perm | PTE_P))
  }

  function InsertAt(s: Phys, d: nat, pp: nat, va: Va, perm: bv12, t: nat): (r: (Phys, Outcome))
    requires Sized(s) && UserVa(va) && d < |s.role| && pp < |s.role| && t < |s.role|
    ensures Sized(r.0) && |r.0.role| == |s.role|
  {
    InsertWord(s, d, pp, va, Pte(pp, perm | PTE_P), t)
  }

  // ------------------------------------------------------------------
  // Lemmas: allocator
  // ------------------------------------------------------------------

  /** What page_alloc does to a state that keeps the invariant. */
  ghost predicate Taken(s: Phys, s': Phys, p: nat, zero: bool)
    requires Sized(s)
  {
    && p < |s.role| && s.list != [] && p == s.list[0]
    && s' == s.(pages := s.pages[p := s.pages[p].(link := Null)],
                free := s.pages[p].link,
                mem := if zero then s.mem[p := ZeroFrame()] else s.mem,
                role := s.role[p := Data],
                list := s.list[1..])
  }

  lemma TakenList(s: Phys, s': Phys, p: nat, zero: bool)
    requires Sized(s) && FreeListOk(s) && Sized(s') && Taken(s, s', p, zero)
    ensures FreeListOk(s')
  {
    TailMembers(s.list);
    TakenMembers(s, s', p, zero);
    forall k: nat | k < |s'.list| { TakenLink(s, s', p, zero, k); }
    TailDistinct(s.list);
  }

  lemma TakenLink(s: Phys, s': Phys, p: nat, zero: bool, k: nat)
    requires Sized(s) && FreeListOk(s) && Sized(s') && Taken(s, s', p, zero) && k < |s'.list|
    ensures s'.list[k] < |s'.pages| && s'.pages[s'.list[k]].link == At(s'.list, k + 1)
  {
    assert s.list[0] != s.list[k + 1] == s'.list[k];
    assert s.pages[s.list[k + 1]].link == At(s.list, k + 2);
  }

  lemma TailDistinct(list: seq<nat>)
    requires list != [] && forall j, k | 0 <= j < k < |list| :: list[j] != list[k]
    ensures forall j, k | 0 <= j < k < |list[1..]| :: list[1..][j] != list[1..][k]
  {
  }

  lemma TailMembers(list: seq<nat>)
    requires list != [] && forall j, k | 0 <= j < k < |list| :: list[j] != list[k]
    ensures forall q: nat :: q in list[1..] <==> q in list && q != list[0]
  {
    forall q: nat
      ensures q in list[1..] <==> q in list && q != list[0]
    {
      if q in list && q != list[0] {
        var k :| 0 <= k < |list| && list[k] == q;
        assert list[1..][k - 1] == q;
      }
    }
  }

  lemma TakenMembers(s: Phys, s': Phys, p: nat, zero: bool)
    requires Sized(s) && FreeListOk(s) && Sized(s') && Taken(s, s', p, zero)
    requires forall q: nat :: q in s'.list <==> q in s.list && q != p
    ensures forall q: nat | q < |s'.role| :: s'.role[q] == Free <==> q in s'.list
    ensures forall q: nat | q < |s'.role| && s'.role[q] != Free :: s'.pages[q].link == Null
  {
  }

  lemma TakenRefs(s: Phys, s': Phys, p: nat, zero: bool, q: nat)
    requires Inv(s) && Sized(s') && Taken(s, s', p, zero)
    ensures Refs(s', q) == Refs(s, q)
  {
    assert s.role[p] == Free by { assert p in s.list; }
    forall t: nat, j: nat | t < |s.role| && j < NPTENTRIES
      ensures IsRef(s', t, j, q) <==> IsRef(s, t, j, q)
    {
    }
  }

  lemma TakenTree(s: Phys, s': Phys, p: nat, zero: bool)
    requires Inv(s) && Sized(s') && Taken(s, s', p, zero)
    ensures TreeOk(s')
  {
    hide TreeOk, CountsOk;
    assert s.role[p] == Free by { assert p in s.list; }
    KernReserved(s);
    FreeHandedOut(s, s', p, zero);
  }

  lemma KernReserved(s: Phys)
    requires Inv(s)
    ensures s.role[s.kern] == Reserved
  {
  }

  lemma FreeHandedOut(s: Phys, s': Phys, p: nat, zero: bool)
    requires Sized(s) && TreeOk(s) && Sized(s') && Taken(s, s', p, zero) && s.role[p] == Free
             && s.role[s.kern] == Reserved
    ensures TreeOk(s')
  {
  }

  /** A free page is in no table. */
  lemma NoRefsToNonData(s: Phys, p: nat)
    requires Sized(s) && TreeOk(s) && p < |s.role| && s.role[p] != Data
    ensures Refs(s, p) == {}
  {
  }

  lemma AllocKeepsInv(s: Phys, zero: bool)
    requires Inv(s)
    ensures
      var (s', r) := PageAlloc(s, zero);
      && Inv(s')
      && (r == Null <==> s.list == [])
      && (r == Null ==> s' == s)
      && (r.To? ==> Taken(s, s', r.page, zero) && r.page != 0 && s.role[r.page] == Free
                    && s'.pages[r.page] == PageInfo(0, Null) && Refs(s', r.page) == {})
  {
    var (s', r) := PageAlloc(s, zero);
    if r.To? {
      var p := r.page;
      assert Taken(s, s', p, zero);
      TakenList(s, s', p, zero);
      TakenTree(s, s', p, zero);
      assert s.role[p] == Free by { assert p in s.list; }
      NoRefsToNonData(s, p);
      forall q: nat { TakenRefs(s, s', p, zero, q); }
      assert CountsOk(s', Null);
    }
  }

  // ------------------------------------------------------------------
  // Lemmas: page_free and page_decref
  // ------------------------------------------------------------------

  /** Pushing a page that is off the list. */
  ghost predicate Pushed(s: Phys, s': Phys, p: nat)
    requires Sized(s)
  {
    && p < |s.role| && s.role[p] != Free
    && s'.pages == s.pages[p := PageInfo(0, s.free)]
    && s'.free == To(p) && s'.list == [p] + s.list && s'.role == s.role[p := Free]
  }

  lemma PushedList(s: Phys, s': Phys, p: nat)
    requires Sized(s) && FreeListOk(s) && Sized(s') && Pushed(s, s', p)
    ensures FreeListOk(s')
  {
    assert p !in s.list;
    forall q: nat ensures q in s'.list <==> q == p || q in s.list {
    }
    forall k | 0 <= k < |s'.list|
      ensures s'.list[k] == (if k == 0 then p else s.list[k - 1])
      ensures s'.pages[s'.list[k]].link == At(s'.list, k + 1)
    {
      if k > 0 {
        assert s.list[k - 1] != p;
      }
    }
  }

  /** Where following pp_link k times from page p leads. */
  function Follow(s: Phys, p: nat, k: nat): Link {
    if k == 0 then To(p)
    else
      match Follow(s, p, k - 1)
      case Null => Null
      case To(q) => if q < |s.pages| then s.pages[q].link else Null
  }

  lemma GuardMisses(s: Phys, p: nat)
    requires Inv(s) && p < |s.role| && p in s.list
    ensures PageFree(s, p).Some? <==> p == s.list[|s.list| - 1]
  {
    hide TreeOk;
    var k :| 0 <= k < |s.list| && s.list[k] == p;
    assert s.pages[p].link == At(s.list, k + 1);
    assert s.role[p] == Free && p != 0;
  }

  /** The guard of page_free catches every double free but one: the page at
      the tail of the list has a NULL link, so it passes, and from then on
      following the links from it goes through the whole list and comes back
      to it. */
  lemma DoubleFreeGuard(s: Phys, p: nat)
    requires Inv(s) && p < |s.role| && p in s.list
    ensures PageFree(s, p).Some? <==> p == s.list[|s.list| - 1]
    ensures PageFree(s, p).Some? ==>
              var s' := PageFree(s, p).value;
              && !FreeListOk(s') && s'.free == To(p)
              && (forall k | 1 <= k <= |s.list| :: Follow(s', p, k) == To(s.list[k - 1]))
              && Follow(s', p, |s.list|) == To(p)
  {
    hide TreeOk, CountsOk;
    GuardMisses(s, p);
    if PageFree(s, p).Some? {
      var k := |s.list| - 1;
      var s' := PageFree(s, p).value;
      assert s'.list[0] == p && s'.list[k + 1] == p;
      forall j | 1 <= j <= |s.list|
        ensures Follow(s', p, j) == To(s.list[j - 1])
      {
        FollowsList(s, s', p, j);
      }
    }
  }

  lemma {:induction false} FollowsList(s: Phys, s': Phys, p: nat, k: nat)
    requires Sized(s) && FreeListOk(s) && p < |s.pages| && s.list != [] && s.list[|s.list| - 1] == p
    requires PageFree(s, p) == Some(s') && 1 <= k <= |s.list|
    ensures Follow(s', p, k) == To(s.list[k - 1])
  {
    if k == 1 {
      assert Follow(s', p, 0) == To(p);
    } else {
      FollowsList(s, s', p, k - 1);
      assert s.list[k - 2] != p && s.pages[s.list[k - 2]].link == At(s.list, k - 1);
    }
  }

  // ------------------------------------------------------------------
  // Lemmas: pgdir_walk
  // ------------------------------------------------------------------

  /** What creating the table of directory word (d, i) does. */
  ghost predicate Hung(s: Phys, s': Phys, d: nat, i: nat, t: nat)
    requires Sized(s)
  {
    && d < |s.role| && i < UPDE && t < |s.role| && t != d
    && s'.role == s.role[t := Table(d, i)]
    && s'.pages == s.pages[t := s.pages[t].(ref := 1)]
    && s'.mem == s.mem[d := s.mem[d][i := Pte(t, PTE_P | PTE_W | PTE_U)]]
    && s'.kern == s.kern && s'.free == s.free && s'.list == s.list
  }

  lemma HungTree(s: Phys, s': Phys, d: nat, i: nat, t: nat)
    requires Inv(s) && Sized(s') && Hung(s, s', d, i, t)
    requires s.role[d] == Dir && s.mem[d][i] == EMPTY
    requires s.role[t] == Data && Refs(s, t) == {} && s.mem[t] == ZeroFrame()
    ensures TreeOk(s')
  {
    hide FreeListOk, CountsOk, DirWordsOk, TablesHang, TableWordsOk, KernWordsOk;
    KernReserved(s);
    HungDirs(s, s', d, i, t);
    HungTables(s, s', d, i, t);
    HungWords(s, s', d, i, t);
    HungKern(s, s', d, i, t);
  }

  lemma HungDirs(s: Phys, s': Phys, d: nat, i: nat, t: nat)
    requires Sized(s) && DirWordsOk(s) && Sized(s') && Hung(s, s', d, i, t)
    requires s.role[d] == Dir && s.role[t] == Data
    ensures DirWordsOk(s')
  {
    assert Present(Pte(t, PTE_P | PTE_W | PTE_U));
  }

  lemma HungTables(s: Phys, s': Phys, d: nat, i: nat, t: nat)
    requires Sized(s) && TablesHang(s) && Sized(s') && Hung(s, s', d, i, t)
    requires s.role[d] == Dir && s.mem[d][i] == EMPTY && s.role[t] == Data
    ensures TablesHang(s')
  {
  }

  lemma HungWords(s: Phys, s': Phys, d: nat, i: nat, t: nat)
    requires Sized(s) && TableWordsOk(s) && Sized(s') && Hung(s, s', d, i, t)
    requires s.role[d] == Dir && s.role[t] == Data && Refs(s, t) == {} && s.mem[t] == ZeroFrame()
    ensures TableWordsOk(s')
  {
    forall u: nat, j: nat | u < |s.role| && j < NPTENTRIES && s.role[u].Table?
      ensures s.mem[u][j] == EMPTY || s.mem[u][j].frame != t
    {
      assert (u, j) !in Refs(s, t);
    }
  }

  lemma HungKern(s: Phys, s': Phys, d: nat, i: nat, t: nat)
    requires Sized(s) && KernWordsOk(s) && Sized(s') && Hung(s, s', d, i, t)
    requires s.role[d] == Dir && s.role[t] == Data && s.role[s.kern] == Reserved
    ensures KernWordsOk(s')
  {
  }

  lemma HungRefs(s: Phys, s': Phys, d: nat, i: nat, t: nat, q: nat)
    requires Inv(s) && Sized(s') && Hung(s, s', d, i, t)
    requires s.role[d] == Dir && s.role[t] == Data && s.mem[t] == ZeroFrame()
    ensures Refs(s', q) == Refs(s, q)
  {
    forall u: nat, j: nat | u < |s.role| && j < NPTENTRIES
      ensures IsRef(s', u, j, q) <==> IsRef(s, u, j, q)
    {
    }
  }

  lemma HungKeepsInv(s: Phys, s': Phys, d: nat, i: nat, t: nat)
    requires Inv(s) && Sized(s') && Hung(s, s', d, i, t)
    requires s.role[d] == Dir && s.mem[d][i] == EMPTY
    requires s.role[t] == Data && Refs(s, t) == {} && s.mem[t] == ZeroFrame() && t != 0
    ensures Inv(s')
  {
    hide TreeOk, FreeListOk, CountsOk;
    HungTree(s, s', d, i, t);
    HungList(s, s', d, i, t);
    HungCounts(s, s', d, i, t);
  }

  lemma HungList(s: Phys, s': Phys, d: nat, i: nat, t: nat)
    requires Sized(s) && FreeListOk(s) && Sized(s') && Hung(s, s', d, i, t) && s.role[t] == Data
    ensures FreeListOk(s')
  {
    forall k | 0 <= k < |s.list| ensures s.list[k] != t {
      assert s.list[k] in s.list;
    }
  }

  lemma HungCounts(s: Phys, s': Phys, d: nat, i: nat, t: nat)
    requires Inv(s) && Sized(s') && Hung(s, s', d, i, t)
    requires s.role[d] == Dir && s.role[t] == Data && Refs(s, t) == {} && s.mem[t] == ZeroFrame() && t != 0
    ensures CountsOk(s', Null)
  {
    hide TreeOk, FreeListOk, Refs;
    forall q: nat { HungRefs(s, s', d, i, t, q); }
  }

  /** pgdir_walk with `create`: the invariant, and which slot it returns. */
  lemma WalkKeepsInv(s: Phys, d: nat, va: Va)
    requires Inv(s) && UserVa(va) && d < |s.role| && s.role[d] == Dir
    ensures
      var (s', w) := PgdirWalk(s, d, va, true);
      && Inv(s')
      && !w.BadFrame?
      && (w == NoSlot <==> s.mem[d][va.pdx] == EMPTY && s.list == [])
      && (w == NoSlot ==> s' == s)
      && (w.Slot? ==> s'.role[w.table] == Table(d, va.pdx) && s'.mem[d][va.pdx] != EMPTY
                      && s'.mem[d][va.pdx].frame == w.table)
  {
    var (s', w) := PgdirWalk(s, d, va, true);
    if s.mem[d][va.pdx] == EMPTY && s.list != [] {
      WalkCreates(s, d, va);
    }
  }

  lemma WalkCreates(s: Phys, d: nat, va: Va)
    requires Inv(s) && UserVa(va) && d < |s.role| && s.role[d] == Dir
    requires s.mem[d][va.pdx] == EMPTY && s.list != []
    ensures
      var (s', w) := PgdirWalk(s, d, va, true);
      && Inv(s') && w.Slot? && s'.role[w.table] == Table(d, va.pdx) && s'.mem[d][va.pdx] != EMPTY
      && s'.mem[d][va.pdx].frame == w.table
  {
    AllocKeepsInv(s, true);
    var (s1, r) := PageAlloc(s, true);
    var s' := PgdirWalk(s, d, va, true).0;
    assert Hung(s1, s', d, va.pdx, r.page);
    HungKeepsInv(s1, s', d, va.pdx, r.page);
  }

  // ------------------------------------------------------------------
  // Lemmas: page_remove
  // ------------------------------------------------------------------

  /** What clearing the mapped slot (t, j) and dropping its page's count
      does; the page is pushed on the free list when the count reaches 0. */
  ghost predicate Cleared(s: Phys, s': Phys, t: nat, j: nat, p: nat)
    requires Sized(s)
  {
    && t < |s.role| && j < NPTENTRIES && p < |s.role|
    && s.mem[t][j] != EMPTY && s.mem[t][j].frame == p
    && 0 < s.pages[p].ref
    && s'.mem == s.mem[t := s.mem[t][j := EMPTY]]
    && s'.kern == s.kern
    && if s.pages[p].ref == 1 then
         && s'.pages == s.pages[p := PageInfo(0, s.free)]
         && s'.free == To(p) && s'.list == [p] + s.list && s'.role == s.role[p := Free]
       else
         && s'.pages == s.pages[p := s.pages[p].(ref := s.pages[p].ref - 1)]
         && s'.free == s.free && s'.list == s.list && s'.role == s.role
  }

  lemma ClearedRefs(s: Phys, s': Phys, t: nat, j: nat, p: nat, q: nat)
    requires Sized(s) && TreeOk(s) && Sized(s') && Cleared(s, s', t, j, p)
    requires s.role[t].Table? && s.role[p] == Data
    ensures Refs(s', q) == if q == p then Refs(s, p) - {(t, j)} else Refs(s, q)
    ensures (t, j) in Refs(s, p)
  {
    forall u: nat, k: nat | u < |s.role| && k < NPTENTRIES
      ensures IsRef(s', u, k, q) <==> IsRef(s, u, k, q) && (u, k) != (t, j)
    {
    }
  }

  /** A count of one with slot (t, j) in the set: (t, j) is the only slot. */
  lemma LastRef(s: Phys, pend: Link, t: nat, j: nat, p: nat)
    requires Sized(s) && CountsOk(s, pend) && 0 < p < |s.role| && s.role[p] == Data
    requires (t, j) in Refs(s, p) && s.pages[p].ref == 1
    ensures Refs(s, p) == {(t, j)} && pend != To(p)
  {
    assert Refs(s, p) == {(t, j)} + (Refs(s, p) - {(t, j)});
    assert |Refs(s, p) - {(t, j)}| == 0;
  }

  lemma ClearedTree(s: Phys, s': Phys, t: nat, j: nat, p: nat)
    requires Sized(s) && TreeOk(s) && Sized(s') && Cleared(s, s', t, j, p)
    requires s.role[t].Table? && s.role[p] == Data
    requires s.pages[p].ref == 1 ==> Refs(s, p) == {(t, j)}
    requires s.role[s.kern] == Reserved
    ensures TreeOk(s')
  {
    hide Refs, TableWordsOk;
    ClearedWords(s, s', t, j, p);
  }

  lemma ClearedWords(s: Phys, s': Phys, t: nat, j: nat, p: nat)
    requires Sized(s) && TableWordsOk(s) && Sized(s') && Cleared(s, s', t, j, p)
    requires s.role[t].Table? && s.role[p] == Data
    requires s.pages[p].ref == 1 ==> Refs(s, p) == {(t, j)}
    ensures TableWordsOk(s')
  {
    hide Refs;
    if s.pages[p].ref == 1 {
      OnlyRef(s, t, j, p);
    }
  }

  lemma OnlyRef(s: Phys, t: nat, j: nat, p: nat)
    requires Sized(s) && Refs(s, p) == {(t, j)}
    ensures forall u: nat, k: nat | u < |s.role| && k < NPTENTRIES && s.role[u].Table? && (u, k) != (t, j) ::
              s.mem[u][k] == EMPTY || s.mem[u][k].frame != p
  {
    forall u: nat, k: nat | u < |s.role| && k < NPTENTRIES && s.role[u].Table? && (u, k) != (t, j)
      ensures s.mem[u][k] == EMPTY || s.mem[u][k].frame != p
    {
      assert (u, k) !in Refs(s, p);
    }
  }

  lemma ClearedList(s: Phys, s': Phys, t: nat, j: nat, p: nat)
    requires Sized(s) && FreeListOk(s) && Sized(s') && Cleared(s, s', t, j, p)
    requires s.role[p] != Free
    ensures FreeListOk(s')
  {
    if s.pages[p].ref == 1 {
      PushedList(s, s', p);
    }
  }

  lemma ClearedCounts(s: Phys, s': Phys, pend: Link, t: nat, j: nat, p: nat)
    requires Sized(s) && CountsOk(s, pend) && Sized(s') && Cleared(s, s', t, j, p)
    requires 0 < p && s.role[p] == Data && (t, j) in Refs(s, p)
    requires Refs(s', p) == Refs(s, p) - {(t, j)}
    requires forall q: nat | q != p :: Refs(s', q) == Refs(s, q)
    ensures CountsOk(s', pend)
  {
    hide Refs;
    assert |Refs(s', p)| == |Refs(s, p)| - 1;
  }

  lemma ClearedKeepsInv(s: Phys, s': Phys, pend: Link, t: nat, j: nat, p: nat)
    requires InvPending(s, pend) && Sized(s') && Cleared(s, s', t, j, p)
    requires s.role[t].Table? && s.role[p] == Data && 0 < p
    ensures InvPending(s', pend)
    ensures Refs(s', p) == Refs(s, p) - {(t, j)}
    ensures forall q: nat | q != p :: Refs(s', q) == Refs(s, q)
  {
    forall q: nat
      ensures Refs(s', q) == if q == p then Refs(s, p) - {(t, j)} else Refs(s, q)
    {
      ClearedRefs(s, s', t, j, p, q);
    }
    ClearedRefs(s, s', t, j, p, p);
    if s.pages[p].ref == 1 { LastRef(s, pend, t, j, p); }
    ClearedTree(s, s', t, j, p);
    ClearedList(s, s', t, j, p);
    ClearedCounts(s, s', pend, t, j, p);
  }

  /** The mapping at va in directory d: what the MMU would find. */
  function Trans(s: Phys, d: nat, va: Va): Option<Pte>
    requires Sized(s) && d < |s.role| && AnyVa(va)
  {
    var pde := s.mem[d][va.pdx];
    if pde == EMPTY || pde.frame >= |s.mem| then None
    else
      var e := s.mem[pde.frame][va.ptx];
      if e == EMPTY then None else Some(e)
  }

  /** The slot that translates va, under the invariant. */
  lemma MappedSlot(s: Phys, d: nat, va: Va)
    requires Sized(s) && TreeOk(s) && UserVa(va) && d < |s.role| && s.role[d] == Dir
    requires s.mem[d][va.pdx] != EMPTY
    ensures
      var t := s.mem[d][va.pdx].frame;
      && t < |s.role| && s.role[t] == Table(d, va.pdx)
      && (Trans(s, d, va).Some? ==>
            && Trans(s, d, va).value == s.mem[t][va.ptx] && s.mem[t][va.ptx] != EMPTY
            && s.mem[t][va.ptx].frame < |s.role| && s.role[s.mem[t][va.ptx].frame] == Data
            && (t, va.ptx) in Refs(s, s.mem[t][va.ptx].frame))
      && (Trans(s, d, va).None? ==> s.mem[t][va.ptx] == EMPTY)
  {
  }

  lemma RemoveComputes(s: Phys, d: nat, va: Va, t: nat, p: nat)
    requires Sized(s) && UserVa(va) && d < |s.role|
    requires s.mem[d][va.pdx] != EMPTY && s.mem[d][va.pdx].frame == t < |s.role|
    requires s.mem[t][va.ptx] != EMPTY && s.mem[t][va.ptx].frame == p < |s.role|
    requires 0 < s.pages[p].ref && s.pages[p].link == Null
    ensures PageRemove(s, d, va).Some?
    ensures Cleared(s, PageRemove(s, d, va).value, t, va.ptx, p)
  {
    assert s.pages[p].ref == 1 ==> (s.pages[p].ref + REF_MOD - 1) % REF_MOD == 0;
    assert s.pages[p].ref > 1 ==> (s.pages[p].ref + REF_MOD - 1) % REF_MOD == s.pages[p].ref - 1;
  }

  /** page_remove where va is mapped. */
  lemma RemoveMapped(s: Phys, pend: Link, d: nat, va: Va)
    requires InvPending(s, pend) && UserVa(va) && d < |s.role| && s.role[d] == Dir
    requires Trans(s, d, va).Some?
    ensures
      var t := s.mem[d][va.pdx].frame;
      var p := s.mem[t][va.ptx].frame;
      var r := PageRemove(s, d, va);
      && t < |s.role| && s.role[t] == Table(d, va.pdx) && p < |s.role| && s.role[p] == Data
      && r.Some? && InvPending(r.value, pend)
      && Cleared(s, r.value, t, va.ptx, p)
      && Refs(r.value, p) == Refs(s, p) - {(t, va.ptx)}
      && (forall q: nat | q != p :: Refs(r.value, q) == Refs(s, q))
  {
    MappedSlot(s, d, va);
    var t := s.mem[d][va.pdx].frame;
    var p := s.mem[t][va.ptx].frame;
    PositiveRef(s, pend, t, va.ptx, p);
    assert s.pages[p].link == Null;
    RemoveComputes(s, d, va, t, p);
    var s' := PageRemove(s, d, va).value;
    ClearedKeepsInv(s, s', pend, t, va.ptx, p);
  }

  lemma PositiveRef(s: Phys, pend: Link, t: nat, j: nat, p: nat)
    requires Sized(s) && CountsOk(s, pend) && p < |s.role| && s.role[p] == Data
    requires (t, j) in Refs(s, p)
    ensures p != 0 && 0 < s.pages[p].ref
  {
  }

  /** A change of one count alone leaves the tree, the list and the set of
      references as they were. */
  lemma CountOnly(s: Phys, p: nat, ref: nat)
    requires Sized(s) && p < |s.pages| && ref < REF_MOD
    ensures Sized(SetRef(s, p, ref))
    ensures TreeOk(s) ==> TreeOk(SetRef(s, p, ref))
    ensures FreeListOk(s) ==> FreeListOk(SetRef(s, p, ref))
    ensures forall q: nat :: Refs(SetRef(s, p, ref), q) == Refs(s, q)
  {
    var s1 := SetRef(s, p, ref);
    forall q: nat ensures Refs(s1, q) == Refs(s, q) {
      assert forall u: nat, k: nat | u < |s.role| && k < NPTENTRIES :: IsRef(s1, u, k, q) <==> IsRef(s, u, k, q);
    }
  }

  /** Writing page 0's count touches nothing the invariant speaks of. */
  lemma PageZeroRef(s: Phys, pend: Link, ref: nat)
    requires InvPending(s, pend) && ref < REF_MOD
    ensures InvPending(SetRef(s, 0, ref), pend)
    ensures forall q: nat :: Refs(SetRef(s, 0, ref), q) == Refs(s, q)
  {
    CountOnly(s, 0, ref);
  }

  lemma RemoveNothingComputes(s: Phys, d: nat, va: Va, t: nat)
    requires Sized(s) && UserVa(va) && d < |s.role|
    requires s.mem[d][va.pdx] != EMPTY && s.mem[d][va.pdx].frame == t < |s.role|
    requires s.mem[t][va.ptx] == EMPTY && s.pages[0].ref != 1
    ensures PageRemove(s, d, va) == Some(SetRef(s, 0, (s.pages[0].ref + REF_MOD - 1) % REF_MOD))
  {
    assert (s.pages[0].ref + REF_MOD - 1) % REF_MOD != 0;
    assert s.mem[t][va.ptx := EMPTY] == s.mem[t];
    assert s.mem[t := s.mem[t]] == s.mem;
  }

  /** page_remove where va is not mapped: nothing without a table; with one,
      page 0 loses a reference it never had. */
  lemma RemoveUnmapped(s: Phys, pend: Link, d: nat, va: Va)
    requires InvPending(s, pend) && UserVa(va) && d < |s.role| && s.role[d] == Dir
    requires Trans(s, d, va).None?
    requires s.mem[d][va.pdx] != EMPTY ==> s.pages[0].ref != 1
    ensures
      var r := PageRemove(s, d, va);
      && r == Some(if s.mem[d][va.pdx] == EMPTY then s
                   else SetRef(s, 0, (s.pages[0].ref + REF_MOD - 1) % REF_MOD))
      && InvPending(r.value, pend)
      && (forall q: nat :: Refs(r.value, q) == Refs(s, q))
  {
    if s.mem[d][va.pdx] != EMPTY {
      MappedSlot(s, d, va);
      var t := s.mem[d][va.pdx].frame;
      PageZeroRef(s, pend, (s.pages[0].ref + REF_MOD - 1) % REF_MOD);
      RemoveNothingComputes(s, d, va, t);
    }
  }

  // ------------------------------------------------------------------
  // Translations
  // ------------------------------------------------------------------

  /** Same directories, and the same mappings except at va in d. */
  ghost predicate OnlyAt(s: Phys, s': Phys, d: nat, va: Va)
    requires Sized(s) && Sized(s') && |s'.role| == |s.role|
  {
    && (forall q: nat | q < |s.role| :: s'.role[q] == Dir <==> s.role[q] == Dir)
    && (forall q: nat, v: Va | q < |s.role| && s.role[q] == Dir && UserVa(v) && (q, v) != (d, va) ::
          Trans(s', q, v) == Trans(s, q, v))
  }

  lemma OnlyAtTrans(s: Phys, s1: Phys, s2: Phys, d: nat, va: Va)
    requires Sized(s) && Sized(s1) && Sized(s2) && |s.role| == |s1.role| == |s2.role|
    requires OnlyAt(s, s1, d, va) && OnlyAt(s1, s2, d, va)
    ensures OnlyAt(s, s2, d, va)
  {
    forall q: nat, v: Va | q < |s.role| && s.role[q] == Dir && UserVa(v) && (q, v) != (d, va)
      ensures Trans(s2, q, v) == Trans(s, q, v)
    {
      assert Trans(s1, q, v) == Trans(s, q, v);
      assert Trans(s2, q, v) == Trans(s1, q, v);
    }
  }

  /** Changing word (t, j) of the table of (d, i) changes one mapping. */
  lemma SlotTrans(s: Phys, s': Phys, d: nat, va: Va, t: nat)
    requires Sized(s) && TreeOk(s) && Sized(s') && |s'.role| == |s.role|
    requires UserVa(va) && d < |s.role| && s.role[d] == Dir && t < |s.role| && s.role[t] == Table(d, va.pdx)
    requires forall q: nat | q < |s.role| && q != t && (s.role[q] == Dir || s.role[q].Table?) :: s'.mem[q] == s.mem[q]
    requires forall k: nat | k < NPTENTRIES && k != va.ptx :: s'.mem[t][k] == s.mem[t][k]
    requires forall q: nat | q < |s.role| :: s'.role[q] == Dir <==> s.role[q] == Dir
    ensures OnlyAt(s, s', d, va)
    ensures Trans(s', d, va) == (if s'.mem[t][va.ptx] == EMPTY then None else Some(s'.mem[t][va.ptx]))
  {
    forall q: nat, v: Va | q < |s.role| && s.role[q] == Dir && UserVa(v) && (q, v) != (d, va)
      ensures Trans(s', q, v) == Trans(s, q, v)
    {
      if s.mem[q][v.pdx] != EMPTY {
        var u := s.mem[q][v.pdx].frame;
        assert s.role[u] == Table(q, v.pdx);
        if u == t {
          assert v.ptx != va.ptx;
        }
      }
    }
  }

  lemma HungTrans(s: Phys, s': Phys, d: nat, i: nat, t: nat)
    requires Sized(s) && TreeOk(s) && Sized(s') && Hung(s, s', d, i, t)
    requires s.role[d] == Dir && s.role[t] == Data && s.mem[d][i] == EMPTY && s.mem[t] == ZeroFrame()
    ensures forall q: nat, v: Va | q < |s.role| && s.role[q] == Dir && UserVa(v) :: Trans(s', q, v) == Trans(s, q, v)
  {
    forall q: nat, v: Va | q < |s.role| && s.role[q] == Dir && UserVa(v)
      ensures Trans(s', q, v) == Trans(s, q, v)
    {
      if s.mem[q][v.pdx] != EMPTY {
        assert s.role[s.mem[q][v.pdx].frame] == Table(q, v.pdx);
      }
    }
  }

  lemma TakenTrans(s: Phys, s': Phys, p: nat, zero: bool)
    requires Sized(s) && TreeOk(s) && Sized(s') && Taken(s, s', p, zero) && s.role[p] == Free
    ensures forall q: nat, v: Va | q < |s.role| && s.role[q] == Dir && UserVa(v) :: Trans(s', q, v) == Trans(s, q, v)
  {
    forall q: nat, v: Va | q < |s.role| && s.role[q] == Dir && UserVa(v)
      ensures Trans(s', q, v) == Trans(s, q, v)
    {
      if s.mem[q][v.pdx] != EMPTY {
        assert s.role[s.mem[q][v.pdx].frame] == Table(q, v.pdx);
      }
    }
  }

  /** Either pgdir_walk returns the state unchanged, or it takes a page and
      hangs it on the empty directory word. */
  lemma WalkCases(s: Phys, d: nat, va: Va)
    requires Inv(s) && UserVa(va) && d < |s.role| && s.role[d] == Dir
    ensures
      var s' := PgdirWalk(s, d, va, true).0;
      var (s1, r) := PageAlloc(s, true);
      s' == s ||
      (&& s.mem[d][va.pdx] == EMPTY && r.To? && Inv(s1) && Taken(s, s1, r.page, true)
       && s.role[r.page] == Free && s1.role[d] == Dir && s1.mem[d][va.pdx] == EMPTY
       && s1.role[r.page] == Data && s1.mem[r.page] == ZeroFrame()
       && Hung(s1, s', d, va.pdx, r.page))
  {
    hide TreeOk, CountsOk;
    if s.mem[d][va.pdx] == EMPTY {
      AllocKeepsInv(s, true);
    }
  }

  lemma WalkTrans(s: Phys, d: nat, va: Va)
    requires Inv(s) && UserVa(va) && d < |s.role| && s.role[d] == Dir
    ensures
      var s' := PgdirWalk(s, d, va, true).0;
      && OnlyAt(s, s', d, va)
      && Trans(s', d, va) == Trans(s, d, va)
  {
    WalkCases(s, d, va);
    var (s', w) := PgdirWalk(s, d, va, true);
    if s' != s {
      var (s1, r) := PageAlloc(s, true);
      TakenTrans(s, s1, r.page, true);
      HungTrans(s1, s', d, va.pdx, r.page);
      forall q: nat, v: Va | q < |s.role| && s.role[q] == Dir && UserVa(v)
        ensures Trans(s', q, v) == Trans(s, q, v)
      {
        assert Trans(s1, q, v) == Trans(s, q, v);
      }
    }
  }

  lemma WalkRefs(s: Phys, d: nat, va: Va, q: nat)
    requires Inv(s) && UserVa(va) && d < |s.role| && s.role[d] == Dir
    ensures Refs(PgdirWalk(s, d, va, true).0, q) == Refs(s, q)
  {
    WalkCases(s, d, va);
    var (s', w) := PgdirWalk(s, d, va, true);
    if s' != s {
      var (s1, r) := PageAlloc(s, true);
      TakenRefs(s, s1, r.page, true, q);
      HungRefs(s1, s', d, va.pdx, r.page, q);
    }
  }

  lemma WalkKeepsPage(s: Phys, d: nat, va: Va, p: nat)
    requires Inv(s) && UserVa(va) && d < |s.role| && s.role[d] == Dir
    requires p < |s.role| && s.role[p] != Free
    ensures
      var s' := PgdirWalk(s, d, va, true).0;
      s'.role[p] == s.role[p] && s'.pages[p] == s.pages[p]
  {
    WalkCases(s, d, va);
  }

  // ------------------------------------------------------------------
  // Lemmas: page_insert
  // ------------------------------------------------------------------

  lemma PresentBit(perm: bv12)
    ensures (perm | PTE_P) & PTE_P != 0 && perm | PTE_P != 0
  {
  }

  lemma BumpCounts(s: Phys, s': Phys, pp: nat)
    requires Sized(s) && CountsOk(s, Null) && pp < |s.role| && s.role[pp] == Data && s.pages[pp].ref < REF_MOD - 1
    requires s' == SetRef(s, pp, s.pages[pp].ref + 1) && Sized(s')
    requires forall q: nat :: Refs(s', q) == Refs(s, q)
    ensures CountsOk(s', To(pp)) && pp != 0
  {
  }

  /** pp->pp_ref++ ahead of the mapping. */
  lemma BumpPending(s: Phys, pp: nat)
    requires Inv(s) && pp < |s.role| && s.role[pp] == Data && s.pages[pp].ref < REF_MOD - 1
    ensures InvPending(SetRef(s, pp, s.pages[pp].ref + 1), To(pp))
    ensures forall q: nat :: Refs(SetRef(s, pp, s.pages[pp].ref + 1), q) == Refs(s, q)
    ensures pp != 0
  {
    hide TreeOk, FreeListOk, CountsOk, Refs;
    CountOnly(s, pp, s.pages[pp].ref + 1);
    BumpCounts(s, SetRef(s, pp, s.pages[pp].ref + 1), pp);
  }

  lemma WrittenTree(s: Phys, t: nat, j: nat, e: Pte)
    requires Sized(s) && TreeOk(s) && t < |s.role| && j < NPTENTRIES && s.role[t].Table?
    requires Present(e) && e.frame < |s.role| && s.role[e.frame] == Data && s.role[s.kern] == Reserved
    ensures Sized(SetWord(s, t, j, e)) && TreeOk(SetWord(s, t, j, e))
  {
  }

  lemma WrittenRefs(s: Phys, t: nat, j: nat, e: Pte, q: nat)
    requires Sized(s) && t < |s.role| && j < NPTENTRIES && s.role[t].Table?
    requires s.mem[t][j] == EMPTY && e != EMPTY
    ensures Sized(SetWord(s, t, j, e))
    ensures Refs(SetWord(s, t, j, e), q) == if q == e.frame then Refs(s, q) + {(t, j)} else Refs(s, q)
    ensures (t, j) !in Refs(s, q)
  {
    var s' := SetWord(s, t, j, e);
    assert Sized(s');
    assert forall u: nat, k: nat | u < |s.role| && k < NPTENTRIES ::
        IsRef(s', u, k, q) <==> IsRef(s, u, k, q) || (q == e.frame && (u, k) == (t, j));
  }

  lemma WrittenCounts(s: Phys, s': Phys, pp: nat, t: nat, j: nat)
    requires Sized(s) && CountsOk(s, To(pp)) && pp < |s.role| && s.role[pp] == Data
    requires Sized(s') && s'.role == s.role && s'.pages == s.pages && s'.kern == s.kern
    requires Refs(s', pp) == Refs(s, pp) + {(t, j)} && (t, j) !in Refs(s, pp)
    requires forall q: nat | q != pp :: Refs(s', q) == Refs(s, q)
    ensures CountsOk(s', Null)
  {
    assert |Refs(s', pp)| == |Refs(s, pp)| + 1;
  }

  /** Writing the entry pays the pending reference. */
  lemma WriteEntry(s: Phys, t: nat, j: nat, pp: nat, perm: bv12)
    requires InvPending(s, To(pp)) && t < |s.role| && j < NPTENTRIES && s.role[t].Table?
    requires s.mem[t][j] == EMPTY
    ensures
      var s' := SetWord(s, t, j, Pte(pp, perm | PTE_P));
      && Inv(s')
      && Refs(s', pp) == Refs(s, pp) + {(t, j)}
      && (forall q: nat | q != pp :: Refs(s', q) == Refs(s, q))
  {
    PresentBit(perm);
    var e := Pte(pp, perm | PTE_P);
    var s' := SetWord(s, t, j, e);
    WrittenTree(s, t, j, e);
    forall q: nat
      ensures Refs(s', q) == if q == pp then Refs(s, q) + {(t, j)} else Refs(s, q)
    {
      WrittenRefs(s, t, j, e, q);
    }
    WrittenRefs(s, t, j, e, pp);
    WrittenCounts(s, s', pp, t, j);
    assert FreeListOk(s');
  }

  lemma ClearedTrans(s: Phys, s': Phys, d: nat, va: Va, t: nat, p: nat)
    requires Sized(s) && TreeOk(s) && Sized(s') && Cleared(s, s', t, va.ptx, p)
    requires UserVa(va) && d < |s.role| && s.role[d] == Dir && s.role[t] == Table(d, va.pdx)
    requires s.mem[d][va.pdx] != EMPTY && s.mem[d][va.pdx].frame == t && s.role[p] == Data
    ensures OnlyAt(s, s', d, va) && Trans(s', d, va) == None
    ensures s'.mem[d] == s.mem[d] && s'.role[d] == Dir && s'.role[t] == Table(d, va.pdx)
  {
    SlotTrans(s, s', d, va, t);
  }

  lemma SameMemTrans(s: Phys, s': Phys, d: nat, va: Va)
    requires Sized(s) && Sized(s') && s'.mem == s.mem && s'.role == s.role
    ensures OnlyAt(s, s', d, va)
    ensures forall q: nat, v: Va | q < |s.role| && UserVa(v) :: Trans(s', q, v) == Trans(s, q, v)
  {
    forall q: nat, v: Va | q < |s.role| && UserVa(v) ensures Trans(s', q, v) == Trans(s, q, v) {
    }
  }

  /** The condition under which page 0 survives an operation at va. */
  ghost predicate ZeroSafe(s: Phys, d: nat, va: Va)
    requires Sized(s) && d < |s.role| && UserVa(va)
  {
    Trans(s, d, va).None? ==> s.pages[0].ref != 1
  }

  /** Everything page_remove does, with or without a pending reference. */
  lemma RemoveEffects(s: Phys, s': Phys, pend: Link, d: nat, va: Va)
    requires InvPending(s, pend) && UserVa(va) && d < |s.role| && s.role[d] == Dir
    requires ZeroSafe(s, d, va) && PageRemove(s, d, va) == Some(s') && Sized(s')
    ensures |s'.role| == |s.role| && InvPending(s', pend)
    ensures OnlyAt(s, s', d, va) && Trans(s', d, va) == None
    ensures s'.mem[d] == s.mem[d] && s'.role[d] == Dir
  {
    if Trans(s, d, va).Some? {
      RemoveMapped(s, pend, d, va);
      var t := s.mem[d][va.pdx].frame;
      ClearedTrans(s, s', d, va, t, s.mem[t][va.ptx].frame);
    } else {
      RemoveUnmapped(s, pend, d, va);
      SameMemTrans(s, s', d, va);
    }
  }

  lemma RemoveSucceeds(s: Phys, pend: Link, d: nat, va: Va)
    requires InvPending(s, pend) && UserVa(va) && d < |s.role| && s.role[d] == Dir
    requires ZeroSafe(s, d, va)
    ensures PageRemove(s, d, va).Some?
  {
    if Trans(s, d, va).Some? { RemoveMapped(s, pend, d, va); } else { RemoveUnmapped(s, pend, d, va); }
  }

  /** page_remove refines deletion from a map from addresses to mappings. */
  lemma PageRemoveRefines(s: Phys, d: nat, va: Va)
    requires Inv(s) && UserVa(va) && d < |s.role| && s.role[d] == Dir && ZeroSafe(s, d, va)
    ensures
      var r := PageRemove(s, d, va);
      && r.Some? && Inv(r.value)
      && OnlyAt(s, r.value, d, va) && Trans(r.value, d, va) == None
  {
    RemoveSucceeds(s, Null, d, va);
    RemoveEffects(s, PageRemove(s, d, va).value, Null, d, va);
  }

  lemma InsertAtSteps(s: Phys, d: nat, pp: nat, va: Va, perm: bv12, t: nat, s3: Phys)
    requires Sized(s) && UserVa(va) && d < |s.role| && pp < |s.role| && t < |s.role|
    requires s.pages[pp].ref + 1 < REF_MOD
    requires PageRemove(SetRef(s, pp, s.pages[pp].ref + 1), d, va) == Some(s3)
    ensures t < |s3.mem| && |s3.mem[t]| == NPTENTRIES
    ensures InsertAt(s, d, pp, va, perm, t) == (SetWord(s3, t, va.ptx, Pte(pp, perm | PTE_P)), Ok)
  {
    assert (s.pages[pp].ref + 1) % REF_MOD == s.pages[pp].ref + 1;
  }

  /** page_insert after its walk, where the table exists. */
  lemma InsertAtRefines(s: Phys, d: nat, pp: nat, va: Va, perm: bv12, t: nat)
    requires Inv(s) && UserVa(va) && d < |s.role| && s.role[d] == Dir
    requires pp < |s.role| && s.role[pp] == Data && s.pages[pp].ref < REF_MOD - 1
    requires s.mem[d][va.pdx] != EMPTY && s.mem[d][va.pdx].frame == t < |s.role| && ZeroSafe(s, d, va)
    ensures
      var (s', r) := InsertAt(s, d, pp, va, perm, t);
      && r == Ok && Inv(s')
      && OnlyAt(s, s', d, va) && Trans(s', d, va) == Some(Pte(pp, perm | PTE_P))
  {
    BumpPending(s, pp);
    var s2 := SetRef(s, pp, s.pages[pp].ref + 1);
    SameMemTrans(s, s2, d, va);
    RemoveSucceeds(s2, To(pp), d, va);
    var s3 := PageRemove(s2, d, va).value;
    RemoveEffects(s2, s3, To(pp), d, va);
    InsertAtSteps(s, d, pp, va, perm, t, s3);
    var s4 := SetWord(s3, t, va.ptx, Pte(pp, perm | PTE_P));
    ChainRefines(s, s2, s3, s4, d, pp, va, perm, t);
  }

  lemma ChainRefines(s: Phys, s2: Phys, s3: Phys, s4: Phys, d: nat, pp: nat, va: Va, perm: bv12, t: nat)
    requires Sized(s) && Sized(s2) && UserVa(va) && |s.role| == |s2.role| == |s3.role| && d < |s.role|
    requires InvPending(s3, To(pp)) && s3.role[d] == Dir
    requires OnlyAt(s, s2, d, va) && OnlyAt(s2, s3, d, va) && Trans(s3, d, va) == None
    requires s3.mem[d][va.pdx] != EMPTY && s3.mem[d][va.pdx].frame == t < |s3.role|
    requires s4 == SetWord(s3, t, va.ptx, Pte(pp, perm | PTE_P))
    ensures Inv(s4) && |s4.role| == |s.role| && OnlyAt(s, s4, d, va) && Trans(s4, d, va) == Some(Pte(pp, perm | PTE_P))
  {
    WriteEffects(s3, d, pp, va, perm, t);
    OnlyAtTrans(s, s2, s3, d, va);
    OnlyAtTrans(s, s3, s4, d, va);
  }

  lemma WriteEffects(s: Phys, d: nat, pp: nat, va: Va, perm: bv12, t: nat)
    requires InvPending(s, To(pp)) && UserVa(va) && d < |s.role| && s.role[d] == Dir
    requires s.mem[d][va.pdx] != EMPTY && s.mem[d][va.pdx].frame == t && Trans(s, d, va) == None
    ensures
      && t < |s.role|
      && var s' := SetWord(s, t, va.ptx, Pte(pp, perm | PTE_P));
      && Inv(s') && OnlyAt(s, s', d, va) && Trans(s', d, va) == Some(Pte(pp, perm | PTE_P))
  {
    MappedSlot(s, d, va);
    WriteEntry(s, t, va.ptx, pp, perm);
    PresentBit(perm);
    SlotTrans(s, SetWord(s, t, va.ptx, Pte(pp, perm | PTE_P)), d, va, t);
  }

  /** page_insert refines update of a map from addresses to mappings: on
      success va maps to (pp, perm|PTE_P) and every other mapping of every
      directory is unchanged; failure is exactly "no table and no free page"
      and changes nothing. */
  lemma PageInsertRefines(s: Phys, d: nat, pp: nat, va: Va, perm: bv12)
    requires Inv(s) && UserVa(va) && d < |s.role| && s.role[d] == Dir
    requires pp < |s.role| && s.role[pp] == Data && s.pages[pp].ref < REF_MOD - 1
    requires ZeroSafe(s, d, va)
    ensures
      var (s', r) := PageInsert(s, d, pp, va, perm);
      && Inv(s')
      && r != Panic
      && (r == NoMem <==> s.mem[d][va.pdx] == EMPTY && s.list == [])
      && (r == NoMem ==> s' == s)
      && (r == Ok ==> OnlyAt(s, s', d, va) && Trans(s', d, va) == Some(Pte(pp, perm | PTE_P)))
  {
    var (s1, w) := PgdirWalk(s, d, va, true);
    WalkKeepsInv(s, d, va);
    if w.Slot? {
      WalkTrans(s, d, va);
      WalkKeepsPage(s, d, va, d);
      WalkKeepsPage(s, d, va, pp);
      WalkKeepsPage(s, d, va, 0);
      InsertAtRefines(s1, d, pp, va, perm, w.table);
      OnlyAtTrans(s, s1, InsertAt(s1, d, pp, va, perm, w.table).0, d, va);
    }
  }

  lemma RemoveRefs(s: Phys, s': Phys, pend: Link, d: nat, va: Va, t: nat, q: nat)
    requires InvPending(s, pend) && UserVa(va) && d < |s.role| && s.role[d] == Dir
    requires ZeroSafe(s, d, va) && PageRemove(s, d, va) == Some(s') && Sized(s')
    requires s.mem[d][va.pdx] != EMPTY && s.mem[d][va.pdx].frame == t
    ensures Refs(s', q) == Refs(s, q) - {(t, va.ptx)}
  {
    hide TreeOk, CountsOk, FreeListOk, PageRemove, Refs, Cleared;
    MappedSlot(s, d, va);
    SlotIsRef(s, t, va.ptx, q);
    if Trans(s, d, va).Some? {
      RemoveMapped(s, pend, d, va);
      if q != s.mem[t][va.ptx].frame {
        assert Refs(s, q) - {(t, va.ptx)} == Refs(s, q);
      }
    } else {
      RemoveUnmapped(s, pend, d, va);
      assert Refs(s, q) - {(t, va.ptx)} == Refs(s, q);
    }
  }

  lemma SlotIsRef(s: Phys, t: nat, j: nat, q: nat)
    requires Sized(s) && t < |s.role| && j < NPTENTRIES && s.role[t].Table?
    ensures (t, j) in Refs(s, q) <==> s.mem[t][j] != EMPTY && s.mem[t][j].frame == q
  {
    assert (t, j) in Refs(s, q) <==> IsRef(s, t, j, q);
  }

  /** Which references page_insert changes: the slot of va now counts for pp
      and for nothing else, and every other slot counts as before. */
  lemma PageInsertRefs(s: Phys, d: nat, pp: nat, va: Va, perm: bv12, q: nat)
    requires Inv(s) && UserVa(va) && d < |s.role| && s.role[d] == Dir
    requires pp < |s.role| && s.role[pp] == Data && s.pages[pp].ref < REF_MOD - 1
    requires ZeroSafe(s, d, va)
    requires PageInsert(s, d, pp, va, perm).1 == Ok
    ensures
      var s' := PageInsert(s, d, pp, va, perm).0;
      var slot := (s'.mem[d][va.pdx].frame, va.ptx);
      Refs(s', q) == Refs(s, q) - {slot} + (if q == pp then {slot} else {})
  {
    WalkKeepsInv(s, d, va);
    WalkTrans(s, d, va);
    WalkKeepsPage(s, d, va, d);
    WalkKeepsPage(s, d, va, pp);
    WalkKeepsPage(s, d, va, 0);
    WalkRefs(s, d, va, q);
    var (s1, w) := PgdirWalk(s, d, va, true);
    InsertAtRefs(s1, d, pp, va, perm, w.table, q);
  }

  lemma InsertAtRefs(s: Phys, d: nat, pp: nat, va: Va, perm: bv12, t: nat, q: nat)
    requires Inv(s) && UserVa(va) && d < |s.role| && s.role[d] == Dir
    requires pp < |s.role| && s.role[pp] == Data && s.pages[pp].ref < REF_MOD - 1
    requires s.mem[d][va.pdx] != EMPTY && s.mem[d][va.pdx].frame == t < |s.role| && ZeroSafe(s, d, va)
    ensures
      var s' := InsertAt(s, d, pp, va, perm, t).0;
      && Refs(s', q) == Refs(s, q) - {(t, va.ptx)} + (if q == pp then {(t, va.ptx)} else {})
      && s'.mem[d] == s.mem[d]
  {
    BumpPending(s, pp);
    var s2 := SetRef(s, pp, s.pages[pp].ref + 1);
    SameMemTrans(s, s2, d, va);
    RemoveSucceeds(s2, To(pp), d, va);
    var s3 := PageRemove(s2, d, va).value;
    RemoveEffects(s2, s3, To(pp), d, va);
    RemoveRefs(s2, s3, To(pp), d, va, t, q);
    InsertAtSteps(s, d, pp, va, perm, t, s3);
    WriteRefs(s3, d, pp, va, perm, t, q);
  }

  lemma WriteRefs(s: Phys, d: nat, pp: nat, va: Va, perm: bv12, t: nat, q: nat)
    requires InvPending(s, To(pp)) && UserVa(va) && d < |s.role| && s.role[d] == Dir
    requires s.mem[d][va.pdx] != EMPTY && s.mem[d][va.pdx].frame == t && Trans(s, d, va) == None
    ensures t < |s.role|
    ensures
      var s' := SetWord(s, t, va.ptx, Pte(pp, perm | PTE_P));
      && Sized(s') && s'.mem[d] == s.mem[d]
      && Refs(s', q) == Refs(s, q) + (if q == pp then {(t, va.ptx)} else {})
  {
    MappedSlot(s, d, va);
    WriteEntry(s, t, va.ptx, pp, perm);
  }

  /** Reinserting the page already mapped at va only rewrites the entry: the
      count is what it was and the page is never freed. */
  lemma ReinsertKeepsCount(s: Phys, d: nat, pp: nat, va: Va, perm: bv12)
    requires Inv(s) && UserVa(va) && d < |s.role| && s.role[d] == Dir
    requires Trans(s, d, va).Some? && Trans(s, d, va).value.frame == pp
    requires pp < |s.role| && s.pages[pp].ref < REF_MOD - 1
    ensures s.mem[d][va.pdx].frame < |s.mem|
    ensures PageInsert(s, d, pp, va, perm) == (SetWord(s, s.mem[d][va.pdx].frame, va.ptx, Pte(pp, perm | PTE_P)), Ok)
  {
    MappedSlot(s, d, va);
    var t := s.mem[d][va.pdx].frame;
    PositiveRef(s, Null, t, va.ptx, pp);
    assert s.pages[pp].link == Null;
    ReinsertComputes(s, d, pp, va, perm, t);
  }

  lemma ReinsertComputes(s: Phys, d: nat, pp: nat, va: Va, perm: bv12, t: nat)
    requires Sized(s) && UserVa(va) && d < |s.role| && pp < |s.role|
    requires s.mem[d][va.pdx] != EMPTY && s.mem[d][va.pdx].frame == t < |s.role|
    requires s.mem[t][va.ptx] != EMPTY && s.mem[t][va.ptx].frame == pp
    requires 0 < s.pages[pp].ref < REF_MOD - 1 && s.pages[pp].link == Null
    ensures PageInsert(s, d, pp, va, perm) == (SetWord(s, t, va.ptx, Pte(pp, perm | PTE_P)), Ok)
  {
    var s2 := SetRef(s, pp, s.pages[pp].ref + 1);
    RemoveComputes(s2, d, va, t, pp);
    var s3 := PageRemove(s2, d, va).value;
    InsertAtSteps(s, d, pp, va, perm, t, s3);
    assert s3.pages == s.pages;
    var words := s.mem[t][va.ptx := Pte(pp, perm | PTE_P)];
    assert s3.mem[t][va.ptx := Pte(pp, perm | PTE_P)] == words;
    assert s3.mem[t := words] == s.mem[t := words];
  }
}
