/** Environment memory: env_setup_vm, env_free and the memory system calls
  (kern/env.c, kern/syscall.c) as runs over the machine of module Pmap.
 */
module Teardown {
  import opened Pmap

  // ------------------------------------------------------------------
  // env_free
  // ------------------------------------------------------------------

  /** The inner loop of env_free, from slot j of the table t of word (d, i). */
  function FreePtes(s: Phys, d: nat, i: nat, t: nat, j: nat): (r: Option<Phys>)
    requires Sized(s) && d < |s.role| && i < UPDE && t < |s.role| && j <= NPTENTRIES
    ensures r.Some? ==> Sized(r.value) && |r.value.role| == |s.role|
    decreases NPTENTRIES - j
  {
    if j == NPTENTRIES then Some(s)
    else if !Present(s.mem[t][j]) then FreePtes(s, d, i, t, j + 1)
    else
      match PageRemove(s, d, Va(i, j))
      case None => None
      case Some(s1) => FreePtes(s1, d, i, t, j + 1)
  }

  /** One pass of the outer loop: empty the table, unhook it, release it. */
  function FreePde(s: Phys, d: nat, i: nat): (r: Option<Phys>)
    requires Sized(s) && d < |s.role| && i < UPDE
    ensures r.Some? ==> Sized(r.value) && |r.value.role| == |s.role|
  {
    if !Present(s.mem[d][i]) then Some(s)
    else if s.mem[d][i].frame >= |s.mem| then None
    else
      var t := s.mem[d][i].frame;
      match FreePtes(s, d, i, t, 0)
      case None => None
      case Some(s1) => PageDecref(SetWord(s1, d, i, EMPTY), t)
  }

  function FreePdes(s: Phys, d: nat, i: nat): (r: Option<Phys>)
    requires Sized(s) && d < |s.role| && i <= UPDE
    ensures r.Some? ==> Sized(r.value) && |r.value.role| == |s.role|
    decreases UPDE - i
  {
    if i == UPDE then Some(s)
    else
      match FreePde(s, d, i)
      case None => None
      case Some(s1) => FreePdes(s1, d, i + 1)
  }

  function EnvFree(s: Phys, d: nat): (r: Option<Phys>)
    requires Sized(s) && d < |s.role|
    ensures r.Some? ==> Sized(r.value) && |r.value.role| == |s.role|
  {
    match FreePdes(s, d, 0)
    case None => None
    case Some(s1) => PageDecref(s1, d)
  }

  // ------------------------------------------------------------------
  // The inner loop
  // ------------------------------------------------------------------

  /** A page handed out by page_alloc and mapped nowhere yet. */
  ghost predicate Floating(s: Phys, p: nat)
    requires Sized(s) && p < |s.role|
  {
    s.role[p] == Data && s.pages[p].ref == 0
  }

  ghost predicate NoNewFloating(s: Phys, s': Phys)
    requires Sized(s) && Sized(s') && |s'.role| == |s.role|
  {
    forall p: nat | p < |s.role| && Floating(s', p) :: Floating(s, p)
  }

  /** Only table t changed, and pages only went from Data to Free. */
  ghost predicate Shrinks(s: Phys, s': Phys, t: nat)
    requires Sized(s) && Sized(s') && |s'.role| == |s.role|
  {
    && (forall p: nat | p < |s.role| :: s'.role[p] == s.role[p] || (s.role[p] == Data && s'.role[p] == Free))
    && (forall p: nat | p < |s.mem| && p != t :: s'.mem[p] == s.mem[p])
    && s'.pages[0] == s.pages[0] && s'.kern == s.kern && NoNewFloating(s, s')
  }

  lemma ClearedShrinks(s: Phys, s': Phys, t: nat, j: nat, p: nat)
    requires Sized(s) && Sized(s') && Cleared(s, s', t, j, p) && p != 0 && s.role[p] == Data
    ensures Shrinks(s, s', t)
    ensures s'.mem[t] == s.mem[t][j := EMPTY]
  {
  }

  /** Emptying one slot, as the loop does it. */
  lemma FreePteStep(s: Phys, d: nat, i: nat, t: nat, j: nat)
    requires Inv(s) && d < |s.role| && s.role[d] == Dir && i < UPDE && j < NPTENTRIES
    requires s.mem[d][i] != EMPTY && s.mem[d][i].frame == t < |s.role|
    requires s.mem[t][j] != EMPTY
    ensures
      var r := PageRemove(s, d, Va(i, j));
      && r.Some? && Inv(r.value) && Shrinks(s, r.value, t) && r.value.mem[t] == s.mem[t][j := EMPTY]
      && r.value.mem[d] == s.mem[d] && r.value.role[d] == Dir
    ensures t != d && s.role[t] == Table(d, i) && Present(s.mem[t][j])
  {
    var va := Va(i, j);
    MappedSlot(s, d, va);
    RemoveMapped(s, Null, d, va);
    var p := s.mem[t][j].frame;
    PositiveRef(s, Null, t, j, p);
    PresentIffNonEmpty(s, d, i, t, j);
    ClearedShrinks(s, PageRemove(s, d, va).value, t, j, p);
  }

  lemma PresentIffNonEmpty(s: Phys, d: nat, i: nat, t: nat, j: nat)
    requires Sized(s) && TreeOk(s) && d < |s.role| && s.role[d] == Dir && i < UPDE && j < NPTENTRIES
    requires s.mem[d][i] != EMPTY && s.mem[d][i].frame == t < |s.role|
    ensures Present(s.mem[t][j]) <==> s.mem[t][j] != EMPTY
    ensures s.role[t] == Table(d, i) && t != d
  {
    var e: Pte := EMPTY;
    assert e.perm & PTE_P == 0;
  }

  /** s' is s after the slots of t from j on were emptied. */
  ghost predicate Emptied(s: Phys, s': Phys, t: nat, j: nat)
    requires Sized(s) && Sized(s') && |s'.role| == |s.role|
  {
    && Shrinks(s, s', t) && t < |s.mem|
    && (forall k: nat | k < NPTENTRIES :: s'.mem[t][k] == if k < j then s.mem[t][k] else EMPTY)
  }

  lemma EmptiedStep(s: Phys, s1: Phys, s': Phys, t: nat, j: nat)
    requires Sized(s) && Sized(s1) && Sized(s') && |s.role| == |s1.role| == |s'.role|
    requires t < |s.mem| && j < NPTENTRIES
    requires Shrinks(s, s1, t) && s1.mem[t] == s.mem[t][j := EMPTY]
    requires Emptied(s1, s', t, j + 1)
    ensures Emptied(s, s', t, j)
  {
  }

  lemma EmptiedSkip(s: Phys, s': Phys, t: nat, j: nat)
    requires Sized(s) && Sized(s') && |s.role| == |s'.role|
    requires t < |s.mem| && j < NPTENTRIES && s.mem[t][j] == EMPTY
    requires Emptied(s, s', t, j + 1)
    ensures Emptied(s, s', t, j)
  {
  }

  /** The inner loop from slot j on went well. */
  ghost predicate PtesFreed(s: Phys, r: Option<Phys>, t: nat, j: nat)
    requires Sized(s)
  {
    r.Some? && Inv(r.value) && |r.value.role| == |s.role| && Emptied(s, r.value, t, j)
  }

  lemma FreePtesEnd(s: Phys, d: nat, i: nat, t: nat)
    requires Inv(s) && d < |s.role| && i < UPDE && t < |s.role|
    ensures PtesFreed(s, FreePtes(s, d, i, t, NPTENTRIES), t, NPTENTRIES)
  {
  }

  lemma FreePtesSkip(s: Phys, d: nat, i: nat, t: nat, j: nat)
    requires Sized(s) && d < |s.role| && i < UPDE && t < |s.role| && j < NPTENTRIES
    requires s.mem[t][j] == EMPTY && PtesFreed(s, FreePtes(s, d, i, t, j + 1), t, j + 1)
    ensures PtesFreed(s, FreePtes(s, d, i, t, j), t, j)
  {
    PresentEmpty();
    EmptiedSkip(s, FreePtes(s, d, i, t, j + 1).value, t, j);
  }

  lemma FreePtesStep(s: Phys, s1: Phys, d: nat, i: nat, t: nat, j: nat)
    requires Sized(s) && d < |s.role| && i < UPDE && t < |s.role| && j < NPTENTRIES
    requires Present(s.mem[t][j]) && PageRemove(s, d, Va(i, j)) == Some(s1)
    requires Sized(s1) && |s1.role| == |s.role| && Shrinks(s, s1, t) && s1.mem[t] == s.mem[t][j := EMPTY]
    requires PtesFreed(s1, FreePtes(s1, d, i, t, j + 1), t, j + 1)
    ensures PtesFreed(s, FreePtes(s, d, i, t, j), t, j)
  {
    EmptiedStep(s, s1, FreePtes(s1, d, i, t, j + 1).value, t, j);
  }

  lemma PresentEmpty()
    ensures !Present(EMPTY)
  {
    assert (0 as bv12) & PTE_P == 0;
  }

  /** The inner loop empties the table and releases each mapped page once. */
  lemma {:induction false} FreePtesSpec(s: Phys, d: nat, i: nat, t: nat, j: nat)
    requires Inv(s) && d < |s.role| && s.role[d] == Dir && i < UPDE && j <= NPTENTRIES
    requires s.mem[d][i] != EMPTY && s.mem[d][i].frame == t < |s.role|
    ensures PtesFreed(s, FreePtes(s, d, i, t, j), t, j)
    decreases NPTENTRIES - j, 1
  {
    if j == NPTENTRIES {
      FreePtesEnd(s, d, i, t);
    } else if s.mem[t][j] == EMPTY {
      FreePtesUnmapped(s, d, i, t, j);
    } else {
      FreePtesMapped(s, d, i, t, j);
    }
  }

  lemma {:induction false} FreePtesUnmapped(s: Phys, d: nat, i: nat, t: nat, j: nat)
    requires Inv(s) && d < |s.role| && s.role[d] == Dir && i < UPDE && j < NPTENTRIES
    requires s.mem[d][i] != EMPTY && s.mem[d][i].frame == t < |s.role| && s.mem[t][j] == EMPTY
    ensures PtesFreed(s, FreePtes(s, d, i, t, j), t, j)
    decreases NPTENTRIES - j, 0
  {
    FreePtesSpec(s, d, i, t, j + 1);
    FreePtesSkip(s, d, i, t, j);
  }

  lemma {:induction false} FreePtesMapped(s: Phys, d: nat, i: nat, t: nat, j: nat)
    requires Inv(s) && d < |s.role| && s.role[d] == Dir && i < UPDE && j < NPTENTRIES
    requires s.mem[d][i] != EMPTY && s.mem[d][i].frame == t < |s.role| && s.mem[t][j] != EMPTY
    ensures PtesFreed(s, FreePtes(s, d, i, t, j), t, j)
    decreases NPTENTRIES - j, 0
  {
    FreePteStep(s, d, i, t, j);
    var s1 := PageRemove(s, d, Va(i, j)).value;
    FreePtesSpec(s1, d, i, t, j + 1);
    FreePtesStep(s, s1, d, i, t, j);
  }

  // ------------------------------------------------------------------
  // The outer loop
  // ------------------------------------------------------------------

  /** What unhooking and releasing the empty table t of word (d, i) does. */
  ghost predicate Dropped(s: Phys, s': Phys, d: nat, i: nat, t: nat)
    requires Sized(s)
  {
    && d < |s.role| && i < UPDE && t < |s.role|
    && s'.mem == s.mem[d := s.mem[d][i := EMPTY]]
    && s'.pages == s.pages[t := PageInfo(0, s.free)] && s'.free == To(t)
    && s'.list == [t] + s.list && s'.role == s.role[t := Free] && s'.kern == s.kern
  }

  lemma DropComputes(s: Phys, d: nat, i: nat, t: nat)
    requires Sized(s) && d < |s.role| && i < UPDE && t < |s.role|
    requires s.pages[t] == PageInfo(1, Null)
    ensures
      var s2 := SetWord(s, d, i, EMPTY);
      Sized(s2) && PageDecref(s2, t).Some? && Dropped(s, PageDecref(s2, t).value, d, i, t)
  {
  }

  lemma DroppedTree(s: Phys, s': Phys, d: nat, i: nat, t: nat)
    requires Sized(s) && TreeOk(s) && Sized(s') && Dropped(s, s', d, i, t)
    requires s.role[d] == Dir && s.role[t] == Table(d, i) && s.role[s.kern] == Reserved
    ensures TreeOk(s')
  {
  }

  lemma DroppedRefs(s: Phys, s': Phys, d: nat, i: nat, t: nat, q: nat)
    requires Sized(s) && Sized(s') && Dropped(s, s', d, i, t)
    requires s.role[d] == Dir && s.role[t] == Table(d, i)
    requires forall k: nat | k < NPTENTRIES :: s.mem[t][k] == EMPTY
    ensures Refs(s', q) == Refs(s, q)
  {
    assert forall u: nat, k: nat | u < |s.role| && k < NPTENTRIES :: IsRef(s', u, k, q) <==> IsRef(s, u, k, q);
  }

  lemma DroppedList(s: Phys, s': Phys, d: nat, i: nat, t: nat)
    requires Sized(s) && FreeListOk(s) && Sized(s') && Dropped(s, s', d, i, t)
    requires s.role[t] != Free
    ensures FreeListOk(s')
  {
    PushedList(s, s', t);
  }

  lemma DroppedKeepsInv(s: Phys, s': Phys, d: nat, i: nat, t: nat)
    requires Inv(s) && Sized(s') && Dropped(s, s', d, i, t)
    requires s.role[d] == Dir && s.role[t] == Table(d, i)
    requires forall k: nat | k < NPTENTRIES :: s.mem[t][k] == EMPTY
    ensures Inv(s')
  {
    hide TreeOk, FreeListOk, CountsOk, Dropped;
    KernReserved(s);
    DroppedTree(s, s', d, i, t);
    DroppedList(s, s', d, i, t);
    DroppedCounts(s, s', d, i, t);
  }

  lemma DroppedCounts(s: Phys, s': Phys, d: nat, i: nat, t: nat)
    requires Inv(s) && Sized(s') && Dropped(s, s', d, i, t)
    requires s.role[d] == Dir && s.role[t] == Table(d, i)
    requires forall k: nat | k < NPTENTRIES :: s.mem[t][k] == EMPTY
    ensures CountsOk(s', Null)
  {
    hide TreeOk, FreeListOk, Refs;
    forall q: nat ensures Refs(s', q) == Refs(s, q) { DroppedRefs(s, s', d, i, t, q); }
  }

  /** Only d and pages that hung on d changed, and those only became free. */
  ghost predicate DirShrinks(s: Phys, s': Phys, d: nat)
    requires Sized(s) && Sized(s') && |s'.role| == |s.role|
  {
    && (forall p: nat | p < |s.role| ::
          s'.role[p] == s.role[p] ||
          ((s.role[p] == Data || (s.role[p].Table? && s.role[p].dir == d)) && s'.role[p] == Free))
    && (forall p: nat | p < |s.mem| && p != d && !(s.role[p].Table? && s.role[p].dir == d) :: s'.mem[p] == s.mem[p])
    && s'.pages[0] == s.pages[0] && s'.kern == s.kern && NoNewFloating(s, s')
  }

  lemma DirShrinksTrans(s: Phys, s1: Phys, s2: Phys, d: nat)
    requires Sized(s) && Sized(s1) && Sized(s2) && |s.role| == |s1.role| == |s2.role|
    requires DirShrinks(s, s1, d) && DirShrinks(s1, s2, d)
    ensures DirShrinks(s, s2, d)
  {
  }

  /** One pass: word (d, i) becomes empty, its table and the pages only it
      mapped become free. */
  lemma FreePdeSpec(s: Phys, d: nat, i: nat)
    requires Inv(s) && d < |s.role| && s.role[d] == Dir && i < UPDE
    ensures
      var r := FreePde(s, d, i);
      && r.Some? && Inv(r.value) && DirShrinks(s, r.value, d)
      && r.value.mem[d] == s.mem[d][i := EMPTY] && r.value.role[d] == Dir
  {
    hide FreeListOk, CountsOk, FreePtes, PageDecref, TablesHang, TableWordsOk, KernWordsOk;
    if s.mem[d][i] == EMPTY {
      PresentEmpty();
      assert s.mem[d] == s.mem[d][i := EMPTY];
    } else {
      var t := s.mem[d][i].frame;
      PresentIffNonEmpty(s, d, i, t, 0);
      FreePtesSpec(s, d, i, t, 0);
      var s1 := FreePtes(s, d, i, t, 0).value;
      TableCount(s1, d, i, t);
      DropComputes(s1, d, i, t);
      var s2 := PageDecref(SetWord(s1, d, i, EMPTY), t).value;
      DroppedKeepsInv(s1, s2, d, i, t);
      EmptiedDropped(s, s1, s2, d, i, t);
    }
  }

  lemma TableCount(s: Phys, d: nat, i: nat, t: nat)
    requires Inv(s) && t < |s.role| && s.role[t] == Table(d, i)
    ensures s.pages[t] == PageInfo(1, Null) && t != 0
  {
  }

  lemma EmptiedDropped(s: Phys, s1: Phys, s2: Phys, d: nat, i: nat, t: nat)
    requires Sized(s) && Sized(s1) && Sized(s2) && |s.role| == |s1.role| == |s2.role|
    requires d < |s.role| && s.role[d] == Dir && i < UPDE && t < |s.role| && s.role[t] == Table(d, i) && t != 0
    requires Emptied(s, s1, t, 0) && Dropped(s1, s2, d, i, t)
    ensures DirShrinks(s, s2, d) && s2.mem[d] == s.mem[d][i := EMPTY] && s2.role[d] == Dir
  {
  }

  lemma {:induction false} FreePdesSpec(s: Phys, d: nat, i: nat)
    requires Inv(s) && d < |s.role| && s.role[d] == Dir && i <= UPDE
    ensures FreePdes(s, d, i).Some?
    ensures
      var s' := FreePdes(s, d, i).value;
      && Inv(s') && DirShrinks(s, s', d) && s'.role[d] == Dir
      && (forall k: nat | k < NPTENTRIES :: s'.mem[d][k] == if i <= k < UPDE then EMPTY else s.mem[d][k])
    decreases UPDE - i
  {
    hide TreeOk, FreeListOk, CountsOk, FreePde;
    if i < UPDE {
      FreePdeSpec(s, d, i);
      var s1 := FreePde(s, d, i).value;
      FreePdesSpec(s1, d, i + 1);
      DirShrinksTrans(s, s1, FreePdes(s1, d, i + 1).value, d);
    }
  }

  // ------------------------------------------------------------------
  // Releasing the directory
  // ------------------------------------------------------------------

  ghost predicate DirGone(s: Phys, s': Phys, d: nat)
    requires Sized(s)
  {
    && d < |s.role| && s'.mem == s.mem
    && s'.pages == s.pages[d := PageInfo(0, s.free)] && s'.free == To(d)
    && s'.list == [d] + s.list && s'.role == s.role[d := Free] && s'.kern == s.kern
  }

  lemma DirGoneTree(s: Phys, s': Phys, d: nat)
    requires Sized(s) && TreeOk(s) && Sized(s') && DirGone(s, s', d)
    requires s.role[d] == Dir && forall k: nat | k < UPDE :: s.mem[d][k] == EMPTY
    ensures TreeOk(s')
  {
  }

  lemma DirGoneList(s: Phys, s': Phys, d: nat)
    requires Sized(s) && FreeListOk(s) && Sized(s') && DirGone(s, s', d) && s.role[d] != Free
    ensures FreeListOk(s')
  {
    PushedList(s, s', d);
  }

  lemma DirGoneKeepsInv(s: Phys, s': Phys, d: nat)
    requires Inv(s) && Sized(s') && DirGone(s, s', d)
    requires s.role[d] == Dir && forall k: nat | k < UPDE :: s.mem[d][k] == EMPTY
    ensures Inv(s')
  {
    hide TreeOk, FreeListOk, CountsOk, DirGone;
    DirGoneTree(s, s', d);
    DirGoneList(s, s', d);
    DirGoneCounts(s, s', d);
  }

  lemma DirGoneRefs(s: Phys, s': Phys, d: nat, q: nat)
    requires Sized(s) && Sized(s') && DirGone(s, s', d) && s.role[d] == Dir
    ensures Refs(s', q) == Refs(s, q)
  {
    assert forall u: nat, k: nat | u < |s.role| && k < NPTENTRIES :: IsRef(s', u, k, q) <==> IsRef(s, u, k, q);
  }

  lemma DirGoneCounts(s: Phys, s': Phys, d: nat)
    requires Inv(s) && Sized(s') && DirGone(s, s', d) && s.role[d] == Dir
    ensures CountsOk(s', Null)
  {
    hide TreeOk, FreeListOk, Refs;
    forall q: nat ensures Refs(s', q) == Refs(s, q) { DirGoneRefs(s, s', d, q); }
  }

  lemma DirCount(s: Phys, d: nat)
    requires Inv(s) && d < |s.role| && s.role[d] == Dir
    ensures s.pages[d] == PageInfo(1, Null) && d != 0
  {
  }

  lemma DirGoneComputes(s: Phys, d: nat)
    requires Sized(s) && d < |s.role| && s.pages[d] == PageInfo(1, Null)
    ensures PageDecref(s, d).Some? && DirGone(s, PageDecref(s, d).value, d)
  {
  }

  // ------------------------------------------------------------------
  // env_free as a whole
  // ------------------------------------------------------------------

  /** Pages d's own tables map: the pages env_free takes a count from. */
  ghost predicate OwnRef(s: Phys, d: nat, t: nat, j: nat, p: nat)
    requires Sized(s) && t < |s.role| && j < NPTENTRIES
  {
    IsRef(s, t, j, p) && s.role[t].dir == d
  }

  ghost function OwnRefs(s: Phys, d: nat, p: nat): set<(nat, nat)>
    requires Sized(s)
  {
    set t: nat, j: nat | t < |s.role| && j < NPTENTRIES && OwnRef(s, d, t, j, p) :: (t, j)
  }

  /** s' is s with environment directory d and everything it owned gone. */
  ghost predicate Gone(s: Phys, s': Phys, d: nat)
    requires Sized(s) && Sized(s') && |s'.role| == |s.role|
  {
    && (forall p: nat | p < |s.role| ::
          s'.role[p] == s.role[p] ||
          ((s.role[p] == Data || p == d || (s.role[p].Table? && s.role[p].dir == d)) && s'.role[p] == Free))
    && (forall p: nat | p < |s.mem| && p != d && !(s.role[p].Table? && s.role[p].dir == d) :: s'.mem[p] == s.mem[p])
    && s'.pages[0] == s.pages[0] && s'.kern == s.kern && NoNewFloating(s, s')
    && d < |s'.role| && s'.role[d] == Free
  }

  lemma GoneFrom(s: Phys, s1: Phys, s': Phys, d: nat)
    requires Sized(s) && Sized(s1) && Sized(s') && |s.role| == |s1.role| == |s'.role|
    requires DirShrinks(s, s1, d) && DirGone(s1, s', d) && d != 0
    ensures Gone(s, s', d)
  {
  }

  lemma EnvFreeGone(s: Phys, d: nat)
    requires Inv(s) && d < |s.role| && s.role[d] == Dir
    ensures EnvFree(s, d).Some? && Inv(EnvFree(s, d).value) && Gone(s, EnvFree(s, d).value, d)
  {
    FreePdesSpec(s, d, 0);
    var s1 := FreePdes(s, d, 0).value;
    DirCount(s1, d);
    DirGoneComputes(s1, d);
    DirGoneKeepsInv(s1, PageDecref(s1, d).value, d);
    GoneFrom(s, s1, PageDecref(s1, d).value, d);
  }

  /** No table of a directory that is gone survives. */
  lemma GoneTables(s: Phys, s': Phys, d: nat, t: nat)
    requires Sized(s) && Sized(s') && TreeOk(s') && |s'.role| == |s.role| && Gone(s, s', d) && t < |s.role|
    requires d < |s.role| && s.role[d] == Dir
    ensures s'.role[t].Table? <==> s.role[t].Table? && s.role[t].dir != d
  {
    if s'.role[t].Table? {
      assert s'.role[s'.role[t].dir] == Dir;
    }
  }

  lemma GoneRefs(s: Phys, s': Phys, d: nat, p: nat)
    requires Sized(s) && Sized(s') && TreeOk(s') && |s'.role| == |s.role| && Gone(s, s', d)
    requires d < |s.role| && s.role[d] == Dir
    ensures Refs(s', p) == Refs(s, p) - OwnRefs(s, d, p)
    ensures OwnRefs(s, d, p) <= Refs(s, p)
  {
    forall t: nat, j: nat | t < |s.role| && j < NPTENTRIES
      ensures IsRef(s', t, j, p) <==> IsRef(s, t, j, p) && !OwnRef(s, d, t, j, p)
    {
      GoneTables(s, s', d, t);
    }
  }

  lemma CountOf(s: Phys, p: nat)
    requires Inv(s) && 0 < p < |s.role|
    ensures s.role[p] == Data ==> s.pages[p].ref == |Refs(s, p)|
    ensures s.role[p] == Free ==> s.pages[p].ref == 0 && Refs(s, p) == {}
  {
    if s.role[p] == Free { NoRefsToNonData(s, p); }
  }

  lemma NotZero(s: Phys, p: nat)
    requires Inv(s) && p < |s.role| && s.role[p] != Reserved
    ensures p != 0
  {
  }

  lemma GoneFloat(s: Phys, s': Phys, d: nat, p: nat)
    requires Sized(s) && Sized(s') && |s'.role| == |s.role| && Gone(s, s', d)
    requires p < |s.role| && s.role[p] == Data && s.pages[p].ref != 0
    ensures s'.role[p] == Free || (s'.role[p] == Data && s'.pages[p].ref != 0)
  {
    assert !Floating(s, p);
    assert !Floating(s', p);
  }

  /** A page the environment maps loses exactly that environment's mappings
      and is freed exactly when it had no other. */
  lemma GoneData(s: Phys, s': Phys, d: nat, p: nat)
    requires Inv(s) && Inv(s') && |s'.role| == |s.role| && Gone(s, s', d)
    requires p < |s.role| && s.role[p] == Data && Refs(s, p) != {}
    requires d < |s.role| && s.role[d] == Dir
    ensures s'.role[p] == Free <==> Refs(s, p) == OwnRefs(s, d, p)
    ensures s'.pages[p].ref == s.pages[p].ref - |OwnRefs(s, d, p)|
  {
    hide TreeOk, FreeListOk, CountsOk, Gone, Refs, OwnRefs;
    var before, after, own := Refs(s, p), Refs(s', p), OwnRefs(s, d, p);
    NotZero(s, p);
    assert after == before - own && own <= before by { GoneRefs(s, s', d, p); }
    assert s.pages[p].ref == |before| by { CountOf(s, p); }
    assert |before| != 0;
    GoneFloat(s, s', d, p);
    CountOf(s', p);
    assert before == after + own;
  }

  /** env_free reclaims everything once. The directory and its tables are
      free; each page that was mapped loses exactly this environment's
      mappings from its count, and becomes free exactly when none is left;
      every other page keeps its use. */
  lemma EnvFreeReclaims(s: Phys, d: nat, p: nat)
    requires Inv(s) && d < |s.role| && s.role[d] == Dir && p < |s.role|
    ensures EnvFree(s, d).Some?
    ensures
      var s' := EnvFree(s, d).value;
      && Inv(s')
      && (p == d || (s.role[p].Table? && s.role[p].dir == d) ==> s'.role[p] == Free)
      && (s.role[p] == Data && Refs(s, p) != {} ==>
            && (s'.role[p] == Free <==> Refs(s, p) == OwnRefs(s, d, p))
            && s'.pages[p].ref == s.pages[p].ref - |OwnRefs(s, d, p)|)
      && (s.role[p] != Data && p != d && !(s.role[p].Table? && s.role[p].dir == d) ==> s'.role[p] == s.role[p])
  {
    EnvFreeGone(s, d);
    var s' := EnvFree(s, d).value;
    assert TreeOk(s');
    GoneTables(s, s', d, p);
    if s.role[p] == Data && Refs(s, p) != {} {
      GoneData(s, s', d, p);
    }
  }
}
