/** kern/pmap.c, the address-space half of kern/env.c and the memory system
  calls of kern/syscall.c as they run: the `pages` array and physical memory
  are updated in place, and every method is proved against the step function
  of the same name.
 */
module PhysMem {
  import opened Pmap
  import opened Teardown
  import opened EnvMemory
  import R = RegionAlloc

  // PGNUM(MPENTRY_PADDR) and PGNUM(IOPHYSMEM)
  const MPENTRY_PAGE: nat := 7
  const IOPHYS_PAGE: nat := 160

  /** The pages page_init puts on the free list. `first` is the page after
      the last one boot_alloc handed out; the code leaves it off as well. */
  predicate FreeAtBoot(p: nat, first: nat) {
    0 < p && p != MPENTRY_PAGE && (p < IOPHYS_PAGE || first < p)
  }

  class Machine {
    const pages: array<PageInfo>
    const mem: array<Frame>
    const kern: nat
    var free: Link
    ghost var role: seq<Role>
    ghost var list: seq<nat>

    ghost function State(): Phys
      reads this, pages, mem
    {
      Phys(pages[..], free, mem[..], kern, role, list)
    }

    /** page_init over a zeroed `pages` array. */
    constructor (mem: array<Frame>, kern: nat, first: nat)
      requires 0 < mem.Length && IOPHYS_PAGE <= kern <= first && kern < mem.Length
      requires forall p | 0 <= p < mem.Length :: |mem[p]| == NPTENTRIES
      requires forall i | 0 <= i < UPDE :: mem[kern][i] == EMPTY
      ensures this.mem == mem && this.kern == kern && fresh(pages)
      ensures Kernel(State(), 0) && State().mem == old(mem[..]) && Booted(State(), first)
    {
      hide Booting, Kernel, Booted, BootPushed, At;
      this.mem := mem;
      this.kern := kern;
      this.pages := new PageInfo[mem.Length](_ => PageInfo(0, Null));
      this.free := Null;
      this.list := [];
      this.role := seq(mem.Length, _ => Reserved);
      new;
      assert Sized(State());
      hide Sized;
      BootStart(State(), first);
      var i := 1;
      while i < mem.Length
        invariant 1 <= i && (i <= mem.Length || mem.Length <= 1)
        invariant mem[..] == old(mem[..]) && Sized(State()) && Booting(State(), i, first)
      {
        if i != MPENTRY_PAGE && (i < IOPHYS_PAGE || first < i) {
          ghost var was := State();
          PushPage(i);
          BootPush(was, State(), i, first);
        } else {
          BootSkip(State(), i, first);
        }
        i := i + 1;
      }
      BootInv(State(), i, first);
    }

    /** The three lines of page_init that put page i on the list. */
    method PushPage(i: nat)
      requires Sized(State()) && i < pages.Length
      modifies this`free, this`role, this`list, pages
      ensures BootPushed(old(State()), State(), i) && Sized(State())
    {
      pages[i] := PageInfo(0, free);
      free := To(i);
      list := [i] + list;
      role := role[i := Free];
    }

    method PageAlloc(zero: bool) returns (r: Link)
      requires Sized(State())
      modifies this`free, this`role, this`list, pages, mem
      ensures (State(), r) == Pmap.PageAlloc(old(State()), zero)
    {
      if free == Null {
        return Null;
      }
      var current := free.page;
      free := pages[current].link;
      pages[current] := pages[current].(link := Null);
      if zero {
        mem[current] := ZeroFrame();
      }
      role := role[current := Data];
      list := if list == [] then [] else list[1..];
      r := To(current);
    }

    /** False is the panic. */
    method PageFree(p: nat) returns (ok: bool)
      requires Sized(State()) && p < pages.Length
      modifies this`free, this`role, this`list, pages
      ensures ok <==> Pmap.PageFree(old(State()), p).Some?
      ensures ok ==> Some(State()) == Pmap.PageFree(old(State()), p)
    {
      if pages[p].ref != 0 || pages[p].link != Null {
        return false;
      }
      ghost var was := State();
      role := role[p := Free];
      list := [p] + list;
      ok := true;
      if free == Null {
        free := To(p);
        return;
      }
      pages[p] := pages[p].(link := free);
      free := To(p);
    }

    method PageDecref(p: nat) returns (ok: bool)
      requires Sized(State()) && p < pages.Length
      modifies this`free, this`role, this`list, pages
      ensures ok <==> Pmap.PageDecref(old(State()), p).Some?
      ensures ok ==> Some(State()) == Pmap.PageDecref(old(State()), p)
    {
      ok := true;
      var ref := (pages[p].ref + REF_MOD - 1) % REF_MOD;
      pages[p] := pages[p].(ref := ref);
      assert State() == SetRef(old(State()), p, ref);
      if ref == 0 {
        ok := PageFree(p);
      }
    }

    method PgdirWalk(d: nat, va: Va, create: bool) returns (w: Walk)
      requires Sized(State()) && d < mem.Length && UserVa(va)
      modifies this`free, this`role, this`list, pages, mem
      ensures (State(), w) == Pmap.PgdirWalk(old(State()), d, va, create)
    {
      var pde := mem[d][va.pdx];
      if pde != EMPTY {
        return if pde.frame < mem.Length then Slot(pde.frame) else BadFrame;
      }
      if !create {
        return NoSlot;
      }
      var p := PageAlloc(true);
      if p == Null {
        return NoSlot;
      }
      var t := p.page;
      pages[t] := pages[t].(ref := (pages[t].ref + 1) % REF_MOD);
      mem[d] := mem[d][va.pdx := Pte(t, PTE_P | PTE_W | PTE_U)];
      role := role[t := Table(d, va.pdx)];
      w := Slot(t);
    }

    /** page_lookup: the page and its slot, or no table (None), or a panic. */
    method PageLookup(d: nat, va: Va) returns (page: Link, w: Walk)
      requires Sized(State()) && d < mem.Length && UserVa(va)
      ensures w == Pmap.PgdirWalk(State(), d, va, false).1
      ensures page == if w.Slot? && mem[w.table][va.ptx].frame < pages.Length
                      then To(mem[w.table][va.ptx].frame) else Null
    {
      var pde := mem[d][va.pdx];
      page := Null;
      if pde == EMPTY {
        w := NoSlot;
      } else if pde.frame >= mem.Length {
        w := BadFrame;
      } else {
        w := Slot(pde.frame);
        if mem[pde.frame][va.ptx].frame < pages.Length {
          page := To(mem[pde.frame][va.ptx].frame);
        }
      }
    }

    /** False is a panic. */
    method PageRemove(d: nat, va: Va) returns (ok: bool)
      requires Sized(State()) && d < mem.Length && UserVa(va)
      modifies this`free, this`role, this`list, pages, mem
      ensures ok <==> Pmap.PageRemove(old(State()), d, va).Some?
      ensures ok ==> Some(State()) == Pmap.PageRemove(old(State()), d, va)
    {
      var page, w := PageLookup(d, va);
      if w == NoSlot {
        return true;
      }
      if page == Null {
        return false;
      }
      ok := PageDecref(page.page);
      if ok {
        mem[w.table] := mem[w.table][va.ptx := EMPTY];
      }
    }

    method PageInsert(d: nat, pp: nat, va: Va, perm: Perm) returns (r: Outcome)
      requires Sized(State()) && d < mem.Length && UserVa(va) && pp < pages.Length
      modifies this`free, this`role, this`list, pages, mem
      ensures r == PageInsertWord(old(State()), d, pp, va, WordFor(pp, perm)).1
      ensures r != Panic ==> State() == PageInsertWord(old(State()), d, pp, va, WordFor(pp, perm)).0
    {
      var w := PgdirWalk(d, va, true);
      if w == NoSlot {
        return NoMem;
      }
      if w == BadFrame {
        return Panic;
      }
      r := InsertWord(d, pp, va, WordFor(pp, perm), w.table);
    }

    /** The rest of page_insert, from its slot on. */
    method InsertWord(d: nat, pp: nat, va: Va, e: Pte, t: nat) returns (r: Outcome)
      requires Sized(State()) && d < mem.Length && UserVa(va) && pp < pages.Length && t < mem.Length
      modifies this`free, this`role, this`list, pages, mem
      ensures r == Pmap.InsertWord(old(State()), d, pp, va, e, t).1
      ensures r != Panic ==> State() == Pmap.InsertWord(old(State()), d, pp, va, e, t).0
    {
      hide Pmap.PageRemove;
      pages[pp] := pages[pp].(ref := (pages[pp].ref + 1) % REF_MOD);
      assert State() == SetRef(old(State()), pp, (old(State()).pages[pp].ref + 1) % REF_MOD);
      var ok := PageRemove(d, va);
      if !ok {
        return Panic;
      }
      assert Sized(State());
      mem[t] := mem[t][va.ptx := e];
      r := Ok;
    }

    /** The inner loop of env_free: unmap every entry of table t. */
    method FreePtes(d: nat, i: nat, t: nat) returns (ok: bool)
      requires Sized(State()) && d < mem.Length && i < UPDE && t < mem.Length
      modifies this`free, this`role, this`list, pages, mem
      ensures ok <==> Teardown.FreePtes(old(State()), d, i, t, 0).Some?
      ensures ok ==> Some(State()) == Teardown.FreePtes(old(State()), d, i, t, 0)
    {
      ghost var goal := Teardown.FreePtes(State(), d, i, t, 0);
      var j := 0;
      while j < NPTENTRIES
        invariant 0 <= j <= NPTENTRIES && Sized(State())
        invariant Teardown.FreePtes(State(), d, i, t, j) == goal
      {
        if Present(mem[t][j]) {
          ok := PageRemove(d, Va(i, j));
          if !ok {
            return;
          }
        }
        j := j + 1;
      }
      ok := true;
    }

    /** One pass of the outer loop of env_free. */
    method FreePde(d: nat, i: nat) returns (ok: bool)
      requires Sized(State()) && d < mem.Length && i < UPDE
      modifies this`free, this`role, this`list, pages, mem
      ensures ok <==> Teardown.FreePde(old(State()), d, i).Some?
      ensures ok ==> Some(State()) == Teardown.FreePde(old(State()), d, i)
    {
      if !Present(mem[d][i]) {
        return true;
      }
      var t := mem[d][i].frame;
      if t >= mem.Length {
        return false;
      }
      ok := FreePtes(d, i, t);
      if ok {
        mem[d] := mem[d][i := EMPTY];
        ok := PageDecref(t);
      }
    }

    /** env_free on page directory d. */
    method EnvFree(d: nat) returns (ok: bool)
      requires Sized(State()) && d < mem.Length
      modifies this`free, this`role, this`list, pages, mem
      ensures ok <==> Teardown.EnvFree(old(State()), d).Some?
      ensures ok ==> Some(State()) == Teardown.EnvFree(old(State()), d)
    {
      ghost var goal := FreePdes(State(), d, 0);
      var i := 0;
      while i < UPDE
        invariant 0 <= i <= UPDE && Sized(State())
        invariant FreePdes(State(), d, i) == goal
      {
        ok := FreePde(d, i);
        if !ok {
          return;
        }
        i := i + 1;
      }
      ok := PageDecref(d);
    }

    /** region_alloc; false is a panic. */
    method RegionAlloc(d: nat, va: nat, len: nat) returns (ok: bool)
      requires Sized(State()) && d < mem.Length && R.EndPage(va, len) <= UPDE * NPTENTRIES
      modifies this`free, this`role, this`list, pages, mem
      ensures (if ok then Some(State()) else None) == R.Region(old(State()), d, R.FirstPage(va), R.EndPage(va, len))
    {
      hide Pmap.PageInsertWord, Pmap.PageAlloc, R.PageVa;
      var k := R.FirstPage(va);
      var end := R.EndPage(va, len);
      ghost var goal := R.Region(State(), d, k, end);
      while k < end
        invariant Sized(State()) && d < mem.Length && R.Region(State(), d, k, end) == goal
        decreases if k < end then end - k else 0
      {
        var page := PageAlloc(true);
        if page == Null {
          return false;
        }
        var o := PageInsert(d, page.page, R.PageVa(k), LowPerm(PTE_U | PTE_W));
        if o != Ok {
          return false;
        }
        k := k + 1;
      }
      ok := true;
    }

    method EnvSetupVm() returns (r: Result)
      requires Sized(State())
      modifies this`free, this`role, this`list, pages, mem
      ensures (State(), r) == EnvMemory.EnvSetupVm(old(State()))
    {
      var p := PageAlloc(true);
      if p == Null {
        return Enomem;
      }
      var d := p.page;
      pages[d] := pages[d].(ref := (pages[d].ref + 1) % REF_MOD);
      mem[d] := mem[kern][UVPT_PDE := Pte(d, PTE_P | PTE_U)];
      role := role[d := Dir];
      r := Created(d);
    }

    method SysPageAlloc(d: nat, va: Va, perm: Perm) returns (r: Result)
      requires Sized(State()) && d < mem.Length && UserVa(va)
      modifies this`free, this`role, this`list, pages, mem
      ensures r == EnvMemory.SysPageAlloc(old(State()), d, va, perm).1
      ensures r != Halted ==> State() == EnvMemory.SysPageAlloc(old(State()), d, va, perm).0
    {
      if !UserPerm(perm) {
        return Einval;
      }
      var p := PageAlloc(true);
      if p == Null {
        return Enomem;
      }
      var o := PageInsert(d, p.page, va, perm);
      if o == Ok {
        return Done;
      }
      if o == Panic {
        return Halted;
      }
      var ok := PageFree(p.page);
      r := if ok then Enomem else Halted;
    }

    method SysPageMap(src: nat, srcva: Va, dst: nat, dstva: Va, perm: Perm) returns (r: Result)
      requires Sized(State()) && src < mem.Length && dst < mem.Length && UserVa(srcva) && UserVa(dstva)
      modifies this`free, this`role, this`list, pages, mem
      ensures r == EnvMemory.SysPageMap(old(State()), src, srcva, dst, dstva, perm).1
      ensures r != Halted ==> State() == EnvMemory.SysPageMap(old(State()), src, srcva, dst, dstva, perm).0
    {
      if !UserPerm(perm) {
        return Einval;
      }
      var page, w := PageLookup(src, srcva);
      if w == NoSlot {
        return Einval;
      }
      if page == Null {
        return Halted;
      }
      if perm.low & PTE_W != 0 && mem[w.table][srcva.ptx].perm & PTE_W == 0 {
        return Einval;
      }
      var o := PageInsert(dst, page.page, dstva, perm);
      if o == Ok {
        return Done;
      }
      if o == Panic {
        return Halted;
      }
      var ok := PageFree(page.page);
      r := if ok then Enomem else Halted;
    }
  }

  /** page_init before it looks at page i: the pages seen so far that boot
      leaves free are on the list, last one first. */
  ghost predicate Booting(s: Phys, i: nat, first: nat) {
    && Sized(s) && s.free == At(s.list, 0)
    && BootLinks(s)
    && (forall j, k | 0 <= j < k < |s.list| :: s.list[j] > s.list[k])
    && (forall p: nat :: p in s.list <==> p < |s.pages| && p < i && FreeAtBoot(p, first))
    && (forall p: nat | p < |s.pages| && p !in s.list :: s.pages[p].link == Null)
    && (forall p: nat | p < |s.pages| :: s.pages[p].ref == 0 && s.role[p] == if p in s.list then Free else Reserved)
  }

  /** What page_init leaves: the free pages, highest first, and nothing else
      in use but what boot took. */
  ghost predicate Booted(s: Phys, first: nat)
    requires Sized(s)
  {
    && (forall p: nat :: p in s.list <==> p < |s.pages| && FreeAtBoot(p, first))
    && (forall j, k | 0 <= j < k < |s.list| :: s.list[j] > s.list[k])
    && (forall p: nat | p < |s.pages| :: s.role[p] == if FreeAtBoot(p, first) then Free else Reserved)
  }

  ghost predicate BootLinks(s: Phys)
    requires Sized(s)
  {
    forall k | 0 <= k < |s.list| :: s.list[k] < |s.pages| && s.pages[s.list[k]].link == At(s.list, k + 1)
  }

  ghost predicate BootPushed(s: Phys, s': Phys, i: nat)
    requires Sized(s)
  {
    i < |s.pages| &&
    s' == s.(pages := s.pages[i := PageInfo(0, s.free)], free := To(i), list := [i] + s.list, role := s.role[i := Free])
  }

  lemma ConsMembers(i: nat, list: seq<nat>)
    ensures forall q: nat :: q in [i] + list <==> q == i || q in list
  {
    assert ([i] + list)[0] == i;
    forall q: nat | q in list
      ensures q in [i] + list
    {
      var k :| 0 <= k < |list| && list[k] == q;
      assert ([i] + list)[k + 1] == q;
    }
  }

  lemma BootPushLinks(s: Phys, s': Phys, i: nat)
    requires Sized(s) && Sized(s') && BootPushed(s, s', i) && BootLinks(s) && s.free == At(s.list, 0)
    requires forall k | 0 <= k < |s.list| :: s.list[k] < i
    ensures BootLinks(s')
    ensures forall q: nat :: q in s'.list <==> q == i || q in s.list
  {
    hide Sized;
    ConsMembers(i, s.list);
    forall k | 0 <= k < |s'.list|
      ensures s'.list[k] < |s'.pages| && s'.pages[s'.list[k]].link == At(s'.list, k + 1)
    {
      PushedLink(s, s', i, k);
    }
  }

  lemma PushedLink(s: Phys, s': Phys, i: nat, k: nat)
    requires Sized(s) && Sized(s') && BootPushed(s, s', i) && BootLinks(s) && s.free == At(s.list, 0) && k < |s'.list|
    requires forall k | 0 <= k < |s.list| :: s.list[k] < i
    ensures s'.list[k] < |s'.pages| && s'.pages[s'.list[k]].link == At(s'.list, k + 1)
  {
    hide Sized;
    if k > 0 {
      assert s'.list[k] == s.list[k - 1] != i;
      assert s.pages[s.list[k - 1]].link == At(s.list, k);
    }
  }

  lemma BootStart(s: Phys, first: nat)
    requires Sized(s) && s.free == Null && s.list == []
    requires forall p: nat | p < |s.pages| :: s.pages[p] == PageInfo(0, Null) && s.role[p] == Reserved
    ensures Booting(s, 1, first)
  {
  }

  lemma BootPushOrder(s: Phys, s': Phys, i: nat)
    requires Sized(s) && Sized(s') && BootPushed(s, s', i)
    requires forall k | 0 <= k < |s.list| :: s.list[k] < i
    requires forall j, k | 0 <= j < k < |s.list| :: s.list[j] > s.list[k]
    ensures forall j, k | 0 <= j < k < |s'.list| :: s'.list[j] > s'.list[k]
  {
    forall j, k | 0 <= j < k < |s'.list|
      ensures s'.list[j] > s'.list[k]
    {
      assert s'.list[k] == s.list[k - 1];
    }
  }

  lemma BootPush(s: Phys, s': Phys, i: nat, first: nat)
    requires Booting(s, i, first) && BootPushed(s, s', i) && FreeAtBoot(i, first)
    ensures Booting(s', i + 1, first)
  {
    hide BootLinks;
    forall k | 0 <= k < |s.list| ensures s.list[k] < i {
      assert s.list[k] in s.list;
    }
    BootPushLinks(s, s', i);
    BootPushOrder(s, s', i);
  }

  lemma BootSkip(s: Phys, i: nat, first: nat)
    requires Booting(s, i, first) && !FreeAtBoot(i, first)
    ensures Booting(s, i + 1, first)
  {
  }

  lemma BootInv(s: Phys, i: nat, first: nat)
    requires Booting(s, i, first) && |s.pages| <= i
    requires IOPHYS_PAGE <= s.kern <= first
    requires forall i | 0 <= i < UPDE :: s.mem[s.kern][i] == EMPTY
    ensures Kernel(s, 0) && Booted(s, first)
  {
    hide FreeListOk, Booting, BootLinks, TreeOk;
    assert !FreeAtBoot(0, first) && !FreeAtBoot(s.kern, first);
    BootShape(s, i, first);
    BootList(s, i, first);
    BootTree(s);
  }

  lemma BootShape(s: Phys, i: nat, first: nat)
    requires Booting(s, i, first) && |s.pages| <= i
    ensures Sized(s) && Booted(s, first)
    ensures forall p: nat | p < |s.pages| :: s.pages[p].ref == 0 && (s.role[p] == Free || s.role[p] == Reserved)
  {
    hide BootLinks;
  }

  lemma BootList(s: Phys, i: nat, first: nat)
    requires Booting(s, i, first) && |s.pages| <= i
    ensures FreeListOk(s)
  {
    hide FreeAtBoot;
  }

  lemma BootTree(s: Phys)
    requires Sized(s) && forall i | 0 <= i < UPDE :: s.mem[s.kern][i] == EMPTY
    requires forall p: nat | p < |s.role| :: s.role[p] == Free || s.role[p] == Reserved
    ensures TreeOk(s)
  {
  }
}
