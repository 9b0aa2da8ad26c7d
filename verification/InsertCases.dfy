/** page_insert (kern/pmap.c) with any page and any permission argument: exactly
  when it keeps the invariant. It ors the argument into the word whole, it
  raises a sixteen-bit count without looking at it, and at an empty slot its
  page_remove takes a count from page 0.
 */
module InsertCases {
  import opened Pmap
  import opened Teardown
  import opened EnvMemory

  predicate Maps(s: Phys, d: nat, va: Va, p: nat)
    requires Sized(s) && d < |s.role| && UserVa(va)
  {
    Trans(s, d, va).Some? && Trans(s, d, va).value.frame == p
  }

  /** page_insert has a table for va, or a page to make one. */
  predicate RoomAt(s: Phys, d: nat, va: Va)
    requires Sized(s) && d < |s.role| && UserVa(va)
  {
    s.mem[d][va.pdx] != EMPTY || s.list != []
  }

  /** The word names the page that is counted, not page 0; and either it was
      mapped there already, or its count can take one more and page 0, where
      it loses one, has another left. */
  predicate InsertIsSafe(s: Phys, d: nat, pp: nat, va: Va, frame: nat)
    requires Sized(s) && d < |s.role| && UserVa(va) && pp < |s.pages|
  {
    frame == pp != 0 && (Maps(s, d, va, pp) || (s.pages[pp].ref < REF_MOD - 1 && ZeroLasts(s, d, va)))
  }

  predicate ZeroLasts(s: Phys, d: nat, va: Va)
    requires Sized(s) && d < |s.role| && UserVa(va)
  {
    Trans(s, d, va).Some? || s.pages[0].ref != 1
  }

  // ------------------------------------------------------------------
  // Count, remove and write, whatever the word
  // ------------------------------------------------------------------

  /** What page_insert does at a slot: the word becomes e, page pp gains a
      count, the page named before (page 0 for an empty slot) loses one. */
  ghost predicate Swapped(s: Phys, s': Phys, t: nat, j: nat, pp: nat, e: Pte)
    requires Sized(s) && Sized(s') && |s'.role| == |s.role| && t < |s.mem| && j < NPTENTRIES
  {
    var o := s.mem[t][j].frame;
    && s'.mem == s.mem[t := s.mem[t][j := e]]
    && (forall p: nat | p < |s.role| :: s'.role[p] == s.role[p] || (p == o && s'.role[p] == Free))
    && (forall p: nat | p < |s.role| :: s'.pages[p].ref == Counted(s.pages[p].ref, p == pp, p == o))
  }

  function Counted(ref: nat, more: bool, less: bool): nat {
    (ref + (if more then 1 else 0) + (if less then REF_MOD - 1 else 0)) % REF_MOD
  }

  /** page_remove at a slot that is there, whatever the count. */
  ghost predicate Dropped(s: Phys, s3: Phys, t: nat, j: nat, q: nat)
    requires Sized(s) && t < |s.mem| && j < NPTENTRIES && q < |s.pages|
  {
    && Sized(s3) && |s3.role| == |s.role| && s3.mem == s.mem[t := s.mem[t][j := EMPTY]]
    && s3.pages[q].ref == (s.pages[q].ref + REF_MOD - 1) % REF_MOD
    && (forall p: nat | p < |s.role| && p != q :: s3.pages[p] == s.pages[p] && s3.role[p] == s.role[p])
    && (s3.role[q] == s.role[q] || s3.role[q] == Free)
  }

  lemma RemoveDrops(s: Phys, d: nat, va: Va, t: nat, q: nat)
    requires Sized(s) && d < |s.role| && AnyVa(va) && s.mem[d][va.pdx] != EMPTY
    requires s.mem[d][va.pdx].frame == t < |s.role| && s.mem[t][va.ptx].frame == q < |s.pages|
    requires s.pages[q].link == Null || s.pages[q].ref != 1
    ensures PageRemove(s, d, va).Some? && Dropped(s, PageRemove(s, d, va).value, t, va.ptx, q)
  {
  }

  /** The page a slot names, or page 0 for an empty one. */
  lemma SlotFrame(s: Phys, d: nat, va: Va, t: nat)
    requires Inv(s) && LiveDir(s, d) && UserVa(va)
    requires s.mem[d][va.pdx] != EMPTY && s.mem[d][va.pdx].frame == t < |s.role| && s.role[t].Table?
    ensures
      var q := s.mem[t][va.ptx].frame;
      && q < |s.pages| && q != t && s.pages[q].link == Null
      && (Trans(s, d, va).None? ==> s.mem[t][va.ptx] == EMPTY)
      && (Trans(s, d, va).Some? ==> Trans(s, d, va).value == s.mem[t][va.ptx] && q != 0 && s.role[q] == Data)
  {
    MappedSlot(s, d, va);
  }

  /** Dropping after counting is the swap. */
  lemma DropSwaps(s: Phys, s3: Phys, t: nat, j: nat, pp: nat, o: nat, e: Pte)
    requires Sized(s) && t < |s.mem| && j < NPTENTRIES && pp < |s.pages| && o == s.mem[t][j].frame < |s.pages|
    requires Dropped(SetRef(s, pp, (s.pages[pp].ref + 1) % REF_MOD), s3, t, j, o)
    ensures Sized(SetWord(s3, t, j, e)) && Swapped(s, SetWord(s3, t, j, e), t, j, pp, e)
  {
    var s2 := SetRef(s, pp, (s.pages[pp].ref + 1) % REF_MOD);
    assert s.mem[t][j := EMPTY][j := e] == s.mem[t][j := e];
    assert s.mem[t := s.mem[t][j := EMPTY]][t := s.mem[t][j := e]] == s.mem[t := s.mem[t][j := e]];
    forall p: nat | p < |s.role|
      ensures s3.pages[p].ref == Counted(s.pages[p].ref, p == pp, p == o)
    {
      CountedTwice(s.pages[p].ref);
    }
  }

  lemma CountedTwice(ref: nat)
    requires ref < REF_MOD
    ensures ((ref + 1) % REF_MOD + REF_MOD - 1) % REF_MOD == Counted(ref, true, true) == ref
    ensures Counted(ref, false, false) == ref
  {
  }

  lemma InsertWordSwaps(s: Phys, d: nat, pp: nat, va: Va, e: Pte, t: nat)
    requires Inv(s) && LiveDir(s, d) && UserVa(va) && pp < |s.role|
    requires s.mem[d][va.pdx] != EMPTY && s.mem[d][va.pdx].frame == t < |s.role| && s.role[t].Table?
    ensures
      var (s', r) := InsertWord(s, d, pp, va, e, t);
      r == Ok && Swapped(s, s', t, va.ptx, pp, e)
  {
    hide PageRemove, TreeOk, CountsOk, FreeListOk, Swapped, Dropped;
    SlotFrame(s, d, va, t);
    var o := s.mem[t][va.ptx].frame;
    var s2 := SetRef(s, pp, (s.pages[pp].ref + 1) % REF_MOD);
    RemoveDrops(s2, d, va, t, o);
    DropSwaps(s, PageRemove(s2, d, va).value, t, va.ptx, pp, o, e);
  }

  /** page_insert with room: the walk, then the swap. */
  lemma InsertSwaps(s: Phys, d: nat, pp: nat, va: Va, e: Pte) returns (s1: Phys, t: nat)
    requires Inv(s) && LiveDir(s, d) && UserVa(va) && pp < |s.role| && s.role[pp] != Free && RoomAt(s, d, va)
    ensures Inv(s1) && |s1.role| == |s.role| && t < |s.role| && s1.role[t].Table?
    ensures s1.pages[pp] == s.pages[pp] && s1.role[pp] == s.role[pp]
    ensures s1 == PgdirWalk(s, d, va, true).0
    ensures LiveDir(s1, d) && s1.mem[d][va.pdx] != EMPTY && s1.mem[d][va.pdx].frame == t
    ensures Trans(s1, d, va) == Trans(s, d, va)
    ensures
      var (s', r) := PageInsertWord(s, d, pp, va, e);
      r == Ok && Swapped(s1, s', t, va.ptx, pp, e)
  {
    hide TreeOk, CountsOk, FreeListOk, Swapped, InsertWord;
    WalkKeepsInv(s, d, va);
    WalkTrans(s, d, va);
    WalkKeepsPage(s, d, va, pp);
    WalkKeepsPage(s, d, va, d);
    s1 := PgdirWalk(s, d, va, true).0;
    t := PgdirWalk(s, d, va, true).1.table;
    InsertWordSwaps(s1, d, pp, va, e, t);
  }

  // ------------------------------------------------------------------
  // When the invariant fails
  // ------------------------------------------------------------------

  /** A word that names another page than the one counted: the page it names
      is one reference ahead of its count, or one behind the removal. */
  lemma WrongPage(s: Phys, s': Phys, t: nat, j: nat, pp: nat, e: Pte)
    requires Inv(s) && Sized(s') && |s'.role| == |s.role| && t < |s.role| && j < NPTENTRIES && s.role[t].Table?
    requires Swapped(s, s', t, j, pp, e) && Present(e) && e.frame != pp
    ensures !Inv(s')
  {
    hide FreeListOk, Swapped, Refs;
    var q := e.frame;
    StaysTable(s, s', t, j, pp, e);
    if q < |s.role| && s'.role[q] == Data && q != 0 {
      CountOfData(s, s', t, j, pp, e);
    }
  }

  lemma StaysTable(s: Phys, s': Phys, t: nat, j: nat, pp: nat, e: Pte)
    requires Inv(s) && Sized(s') && |s'.role| == |s.role| && t < |s.role| && j < NPTENTRIES && s.role[t].Table?
    requires Swapped(s, s', t, j, pp, e)
    ensures s.mem[t][j] != EMPTY ==> s.mem[t][j].frame < |s.role| && s.role[s.mem[t][j].frame] == Data
    ensures s'.role[t] == s.role[t] && s'.mem[t][j] == e
  {
  }

  lemma CountOfData(s: Phys, s': Phys, t: nat, j: nat, pp: nat, e: Pte)
    requires Inv(s) && Sized(s') && |s'.role| == |s.role| && t < |s.role| && j < NPTENTRIES && s.role[t].Table?
    requires Swapped(s, s', t, j, pp, e) && Present(e) && 0 < e.frame != pp && e.frame < |s.role|
             && s'.role[e.frame] == Data
    ensures s'.pages[e.frame].ref != |Refs(s', e.frame)|
  {
    hide TreeOk, CountsOk, FreeListOk, Refs;
    var q, o := e.frame, s.mem[t][j].frame;
    StaysTable(s, s', t, j, pp, e);
    SwapRefs(s, s', t, j, pp, e);
    CountIs(s, q);
    InRefs(s, t, j, q);
    if q == o {
      assert Refs(s, q) + {(t, j)} == Refs(s, q);
    } else {
      assert |Refs(s, q) + {(t, j)}| == |Refs(s, q)| + 1;
    }
  }

  lemma InRefs(s: Phys, t: nat, j: nat, q: nat)
    requires Sized(s) && t < |s.role| && j < NPTENTRIES && s.role[t].Table?
    ensures (t, j) in Refs(s, q) <==> s.mem[t][j] != EMPTY && s.mem[t][j].frame == q
  {
    assert (t, j) in Refs(s, q) <==> IsRef(s, t, j, q);
  }

  lemma CountIs(s: Phys, q: nat)
    requires Inv(s) && 0 < q < |s.role| && s.role[q] == Data
    ensures s.pages[q].ref == |Refs(s, q)| < REF_MOD
  {
  }

  /** The references to the page a new word names. */
  lemma SwapRefs(s: Phys, s': Phys, t: nat, j: nat, pp: nat, e: Pte)
    requires Inv(s) && Sized(s') && |s'.role| == |s.role| && t < |s.role| && j < NPTENTRIES && s.role[t].Table?
    requires Swapped(s, s', t, j, pp, e) && Present(e)
    ensures Refs(s', e.frame) == Refs(s, e.frame) + {(t, j)}
  {
    hide TreeOk, CountsOk, FreeListOk;
    StaysTable(s, s', t, j, pp, e);
    forall u: nat, k: nat | u < |s.role| && k < NPTENTRIES
      ensures IsRef(s', u, k, e.frame) <==> IsRef(s, u, k, e.frame) || (u, k) == (t, j)
    {
      SwapTables(s, s', t, j, pp, e, u);
    }
  }

  /** Tables stay tables, and nothing becomes one. */
  lemma SwapTables(s: Phys, s': Phys, t: nat, j: nat, pp: nat, e: Pte, u: nat)
    requires Inv(s) && Sized(s') && |s'.role| == |s.role| && t < |s.role| && j < NPTENTRIES && s.role[t].Table?
    requires Swapped(s, s', t, j, pp, e) && u < |s.role|
    ensures s'.role[u].Table? <==> s.role[u].Table?
  {
  }

  /** A table word that names a page whose count is zero, or page 0. */
  lemma BadWord(s: Phys, t: nat, j: nat, e: Pte)
    requires Sized(s) && t < |s.role| && j < NPTENTRIES && s.role[t].Table? && s.mem[t][j] == e && Present(e)
    requires e.frame == 0 || (e.frame < |s.role| && s.pages[e.frame].ref == 0)
    ensures !Inv(s)
  {
    assert s.role[t].Table? && (e.frame != 0 ==> IsRef(s, t, j, e.frame) && (t, j) in Refs(s, e.frame));
  }

  // ------------------------------------------------------------------
  // When it holds
  // ------------------------------------------------------------------

  /** New permissions for a word that names the same page. */
  lemma RewriteKeepsInv(s: Phys, d: nat, pp: nat, va: Va, perm: bv12)
    requires Inv(s) && LiveDir(s, d) && UserVa(va) && pp < |s.role| && Maps(s, d, va, pp)
    ensures var t := s.mem[d][va.pdx].frame;
            t < |s.mem| && Inv(SetWord(s, t, va.ptx, Pte(pp, perm | PTE_P)))
  {
    hide FreeListOk, CountsOk;
    MappedSlot(s, d, va);
    PresentBit(perm);
    KernIsReserved(s);
    var t := s.mem[d][va.pdx].frame;
    var e := Pte(pp, perm | PTE_P);
    var s' := SetWord(s, t, va.ptx, e);
    WrittenTree(s, t, va.ptx, e);
    hide TreeOk;
    RewriteRefs(s, t, va.ptx, e);
    RewriteList(s, s');
    RewriteCounts(s, s');
  }

  lemma KernIsReserved(s: Phys)
    requires Inv(s)
    ensures s.role[s.kern] == Reserved
  {
  }

  lemma RewriteRefs(s: Phys, t: nat, j: nat, e: Pte)
    requires Sized(s) && t < |s.role| && j < NPTENTRIES
    requires s.mem[t][j] != EMPTY && e != EMPTY && e.frame == s.mem[t][j].frame
    ensures Sized(SetWord(s, t, j, e)) && forall q: nat :: Refs(SetWord(s, t, j, e), q) == Refs(s, q)
  {
    var s' := SetWord(s, t, j, e);
    assert Sized(s');
    forall q: nat ensures Refs(s', q) == Refs(s, q) {
      assert forall u: nat, k: nat | u < |s.role| && k < NPTENTRIES :: IsRef(s', u, k, q) <==> IsRef(s, u, k, q);
    }
  }

  lemma RewriteList(s: Phys, s': Phys)
    requires Sized(s) && Sized(s') && s' == s.(mem := s'.mem) && FreeListOk(s)
    ensures FreeListOk(s')
  {
  }

  lemma RewriteCounts(s: Phys, s': Phys)
    requires Sized(s) && Sized(s') && s' == s.(mem := s'.mem) && CountsOk(s, Null)
    requires forall q: nat :: Refs(s', q) == Refs(s, q)
    ensures CountsOk(s', Null)
  {
  }

  lemma RewriteSettled(s: Phys, d: nat, pp: nat, va: Va, perm: bv12)
    requires Inv(s) && Settled(s) && LiveDir(s, d) && UserVa(va) && pp < |s.role| && Maps(s, d, va, pp)
    ensures var t := s.mem[d][va.pdx].frame;
            t < |s.mem| && Settled(SetWord(s, t, va.ptx, Pte(pp, perm | PTE_P)))
            && SetWord(s, t, va.ptx, Pte(pp, perm | PTE_P)).pages == s.pages
  {
    hide TreeOk, CountsOk, FreeListOk;
    MappedSlot(s, d, va);
    var t := s.mem[d][va.pdx].frame;
    WriteFrames(s, d, t, va.ptx, Pte(pp, perm | PTE_P));
    SettledStays(s, SetWord(s, t, va.ptx, Pte(pp, perm | PTE_P)));
  }

  /** Reinsertion at the largest count: it wraps to zero and back. */
  lemma InsertAtWraps(s: Phys, d: nat, pp: nat, va: Va, perm: bv12, t: nat)
    requires Sized(s) && d < |s.role| && UserVa(va) && s.mem[d][va.pdx] != EMPTY
    requires s.mem[d][va.pdx].frame == t < |s.role| && s.mem[t][va.ptx].frame == pp < |s.role|
    requires s.pages[pp] == PageInfo(REF_MOD - 1, Null)
    ensures InsertAt(s, d, pp, va, perm, t) == (SetWord(s, t, va.ptx, Pte(pp, perm | PTE_P)), Ok)
  {
    var s2 := SetRef(s, pp, 0);
    assert PageRemove(s2, d, va) == Some(SetWord(SetRef(s2, pp, REF_MOD - 1), t, va.ptx, EMPTY));
    assert SetRef(s2, pp, REF_MOD - 1).pages == s.pages;
    var words := s.mem[t][va.ptx := Pte(pp, perm | PTE_P)];
    assert s.mem[t][va.ptx := EMPTY][va.ptx := Pte(pp, perm | PTE_P)] == words;
    assert s.mem[t := s.mem[t][va.ptx := EMPTY]][t := words] == s.mem[t := words];
  }

  lemma InsertWraps(s: Phys, d: nat, pp: nat, va: Va, perm: bv12)
    requires Inv(s) && LiveDir(s, d) && UserVa(va) && Maps(s, d, va, pp) && pp < |s.role|
             && s.pages[pp].ref == REF_MOD - 1
    ensures var t := s.mem[d][va.pdx].frame;
            && t < |s.mem| && PageInsert(s, d, pp, va, perm) == (SetWord(s, t, va.ptx, Pte(pp, perm | PTE_P)), Ok)
            && Inv(SetWord(s, t, va.ptx, Pte(pp, perm | PTE_P)))
  {
    hide InsertWord, TreeOk, CountsOk, FreeListOk;
    MappedSlot(s, d, va);
    var t := s.mem[d][va.pdx].frame;
    SlotFrame(s, d, va, t);
    InsertAtWraps(s, d, pp, va, perm, t);
    RewriteKeepsInv(s, d, pp, va, perm);
  }

  /** page_insert with room, of a page in use or of page 0: it returns 0
      whatever it is given, and keeps the invariant exactly when it is safe. */
  lemma InsertExactly(s: Phys, d: nat, pp: nat, va: Va, frame: nat, low: bv12)
    requires Inv(s) && LiveDir(s, d) && UserVa(va) && RoomAt(s, d, va)
    requires pp < |s.role| && (pp == 0 || s.role[pp] == Data)
    ensures
      var (s', r) := PageInsertWord(s, d, pp, va, Pte(frame, low | PTE_P));
      r == Ok && (Inv(s') <==> InsertIsSafe(s, d, pp, va, frame))
  {
    hide TreeOk, FreeListOk, PageInsertWord, Swapped;
    var e := Pte(frame, low | PTE_P);
    PresentBit(low);
    ZeroIsReserved(s);
    var s1, t := InsertSwaps(s, d, pp, va, e);
    var s' := PageInsertWord(s, d, pp, va, e).0;
    if frame != pp {
      WrongPage(s1, s', t, va.ptx, pp, e);
    } else if pp == 0 {
      StaysTable(s1, s', t, va.ptx, pp, e);
      BadWord(s', t, va.ptx, e);
    } else {
      RightPage(s, d, pp, va, low, s1, t);
    }
  }

  /** The same for the word a permission argument makes. */
  lemma InsertWithPerm(s: Phys, d: nat, pp: nat, va: Va, perm: Perm)
    requires Inv(s) && LiveDir(s, d) && UserVa(va) && RoomAt(s, d, va)
    requires pp < |s.role| && (pp == 0 || s.role[pp] == Data)
    ensures
      var (s', r) := PageInsertWord(s, d, pp, va, WordFor(pp, perm));
      r == Ok && (Inv(s') <==> InsertIsSafe(s, d, pp, va, Or(pp, perm.high)))
  {
    hide Inv, PageInsertWord, InsertIsSafe, RoomAt, Or;
    InsertExactly(s, d, pp, va, Or(pp, perm.high), perm.low);
  }

  /** A page that is mapped there already, whatever its count. */
  lemma RewriteWithPerm(s: Phys, d: nat, pp: nat, va: Va, perm: Perm)
    requires Inv(s) && Settled(s) && LiveDir(s, d) && UserVa(va) && Maps(s, d, va, pp) && pp < |s.role|
    requires s.pages[pp].ref == REF_MOD - 1 && Fits(pp, perm)
    ensures
      var (s', r) := PageInsertWord(s, d, pp, va, WordFor(pp, perm));
      r == Ok && Inv(s') && Settled(s') && s'.pages == s.pages
  {
    hide TreeOk, CountsOk, FreeListOk, Settled, PageInsertWord, Or;
    InsertWraps(s, d, pp, va, perm.low);
    RewriteSettled(s, d, pp, va, perm.low);
  }

  lemma RightPage(s: Phys, d: nat, pp: nat, va: Va, low: bv12, s1: Phys, t: nat)
    requires Inv(s) && LiveDir(s, d) && UserVa(va) && RoomAt(s, d, va) && 0 < pp < |s.role| && s.role[pp] == Data
    requires Inv(s1) && |s1.role| == |s.role| && t < |s.role| && s1.role[t].Table? && s1.pages[pp] == s.pages[pp]
    requires LiveDir(s1, d) && s1.mem[d][va.pdx] != EMPTY && s1.mem[d][va.pdx].frame == t
    requires Trans(s1, d, va) == Trans(s, d, va)
    requires PageInsert(s, d, pp, va, low).1 == Ok
    requires Swapped(s1, PageInsert(s, d, pp, va, low).0, t, va.ptx, pp, Pte(pp, low | PTE_P))
    ensures Inv(PageInsert(s, d, pp, va, low).0) <==> InsertIsSafe(s, d, pp, va, pp)
  {
    hide TreeOk, CountsOk, FreeListOk, PageInsert;
    if Maps(s, d, va, pp) {
      if s.pages[pp].ref < REF_MOD - 1 {
        ReinsertKeepsCount(s, d, pp, va, low);
        RewriteKeepsInv(s, d, pp, va, low);
      } else {
        InsertWraps(s, d, pp, va, low);
      }
    } else if s.pages[pp].ref >= REF_MOD - 1 {
      SlotFrame(s1, d, va, t);
      FullWraps(s1, PageInsert(s, d, pp, va, low).0, t, va.ptx, pp, low);
    } else if ZeroLasts(s, d, va) {
      PageInsertRefines(s, d, pp, va, low);
    } else {
      InsertFreesZero(s, d, pp, va, low);
      FreedZero(PageInsert(s, d, pp, va, low).0);
    }
  }

  /** The largest count wraps to zero under a page that is mapped. */
  lemma FullWraps(s: Phys, s': Phys, t: nat, j: nat, pp: nat, low: bv12)
    requires Inv(s) && Sized(s') && |s'.role| == |s.role| && t < |s.role| && j < NPTENTRIES && s.role[t].Table?
    requires Swapped(s, s', t, j, pp, Pte(pp, low | PTE_P)) && pp < |s.role| && s.mem[t][j].frame != pp
    requires s.pages[pp].ref >= REF_MOD - 1
    ensures s'.pages[pp].ref == 0 && !Inv(s')
  {
    hide TreeOk, CountsOk, FreeListOk;
    PresentBit(low);
    StaysTable(s, s', t, j, pp, Pte(pp, low | PTE_P));
    BadWord(s', t, j, Pte(pp, low | PTE_P));
  }

  lemma FreedZero(s: Phys)
    requires Sized(s) && s.role[0] == Free
    ensures !Inv(s)
  {
  }
}
