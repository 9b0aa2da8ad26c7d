/** The contents of memory under copy-on-write fork: the words of every page an
  environment maps are the bytes that module CowFork holds, through the system
  calls, the handler's copy and every store.
 */
module MemoryContents {
  import opened Pmap
  import opened Teardown
  import opened EnvMemory
  import opened InsertCases
  import opened MemoryView
  import Cow = CowFork

  /** The words of a page with these bytes, least significant byte first. */
  function FrameOf(c: Cow.Content): (r: Frame)
    ensures |r| == NPTENTRIES
  {
    seq(NPTENTRIES, j requires 0 <= j < NPTENTRIES =>
      WordOf(ByteSum(c[4 * j], c[4 * j + 1], c[4 * j + 2], c[4 * j + 3])))
  }

  function ByteSum(b0: Cow.Byte, b1: Cow.Byte, b2: Cow.Byte, b3: Cow.Byte): (v: nat)
    ensures v < 0x1_0000_0000
  {
    b0 + 0x100 * b1 + 0x1_0000 * b2 + 0x100_0000 * b3
  }

  /** The bits from n up. */
  function Above(n: nat): bv12 {
    if n == 0 then 0xFFF
    else if n == 1 then 0xFFE
    else if n == 2 then 0xFFC
    else if n == 3 then 0xFF8
    else if n == 4 then 0xFF0
    else if n == 5 then 0xFE0
    else if n == 6 then 0xFC0
    else if n == 7 then 0xF80
    else if n == 8 then 0xF00
    else if n == 9 then 0xE00
    else if n == 10 then 0xC00
    else if n == 11 then 0x800
    else 0
  }

  function Top(n: nat): nat {
    if n == 0 then 1 else 2 * Top(n - 1)
  }

  /** Nothing but the low n bits. */
  predicate Within(q: bv12, n: nat) {
    q & Above(n) == 0
  }

  lemma AboveNext(n: nat)
    requires n < 12
    ensures Above(n + 1) == Above(n) << 1 && Above(n) & 0x800 == 0x800
  {
  }

  predicate Apart(q: bv12, a: bv12) {
    q & a == 0
  }

  lemma HighBit(q: bv12, a: bv12)
    requires Apart(q, a) && a & 0x800 == 0x800
    ensures Apart(q, 0x800)
  {
  }

  lemma PopPush(q: bv12, b: bool)
    requires Apart(q, 0x800)
    ensures Pop(Push(q, b)) == q
  {
  }

  lemma LowPush(q: bv12, b: bool)
    ensures LowBit(Push(q, b)) == b
  {
  }

  lemma ApartPush(q: bv12, b: bool, a: bv12)
    requires Apart(q, a)
    ensures Apart(Push(q, b), a << 1)
  {
  }

  /** A bit pushed is popped again. */
  lemma PushPop(q: bv12, b: bool, n: nat)
    requires n < 12 && Within(q, n)
    ensures Within(Push(q, b), n + 1) && Pop(Push(q, b)) == q && LowBit(Push(q, b)) == b
  {
    hide Above, Push, Pop, LowBit, Apart;
    AboveNext(n);
    ApartIs(q, n);
    HighBit(q, Above(n));
    PopPush(q, b);
    LowPush(q, b);
    ApartPush(q, b, Above(n));
    ApartIs(Push(q, b), n + 1);
  }

  lemma ApartIs(q: bv12, n: nat)
    ensures Within(q, n) <==> Apart(q, Above(n))
  {
    hide Above;
  }

  lemma NoBitsWithin()
    ensures Within(0, 0)
  {
  }

  lemma {:induction false} BitsRoundTrip(x: nat, n: nat)
    requires n <= 12 && x < Top(n)
    ensures Within(BitsOf(x, n), n) && NumberOf(BitsOf(x, n), n) == x
  {
    hide Within, Push, Pop, LowBit;
    if n == 0 {
      NoBitsWithin();
    } else {
      BitsRoundTrip(x / 2, n - 1);
      PushPop(BitsOf(x / 2, n - 1), x % 2 == 1, n - 1);
    }
  }

  lemma LowBits(x: nat)
    requires x < 0x1000
    ensures NumberOf(BitsOf(x, 12), 12) == x
  {
    hide NumberOf, BitsOf, Within;
    assert Top(4) == 16 && Top(8) == 16 * Top(4) && Top(12) == 16 * Top(8);
    BitsRoundTrip(x, 12);
  }

  lemma ValueOfWord(v: nat)
    ensures ValueOf(WordOf(v)) == v
  {
    LowBits(v % 0x1000);
  }

  /** Replacing byte k of a word replaces byte k of its value. */
  lemma ByteReplaced(b0: Cow.Byte, b1: Cow.Byte, b2: Cow.Byte, b3: Cow.Byte, k: nat, b: Cow.Byte)
    requires k < 4
    ensures WithByte(WordOf(ByteSum(b0, b1, b2, b3)), k, b) ==
              WordOf(if k == 0 then ByteSum(b, b1, b2, b3) else if k == 1 then ByteSum(b0, b, b2, b3)
                     else if k == 2 then ByteSum(b0, b1, b, b3) else ByteSum(b0, b1, b2, b))
  {
    hide WordOf, ValueOf;
    var v := ByteSum(b0, b1, b2, b3);
    ValueOfWord(v);
    assert v / Shift(k) % 0x100 == (if k == 0 then b0 else if k == 1 then b1 else if k == 2 then b2 else b3) by {
      if k == 0 {
        assert v == b0 + 0x100 * (b1 + 0x100 * b2 + 0x1_0000 * b3);
      } else if k == 1 {
        assert v / 0x100 == b1 + 0x100 * (b2 + 0x100 * b3);
      } else if k == 2 {
        assert v / 0x1_0000 == b2 + 0x100 * b3;
      } else {
        assert v / 0x100_0000 == b3;
      }
    }
  }

  /** A byte store in a page is a store of the word it is in. */
  lemma StoreInPage(c: Cow.Content, off: nat, b: Cow.Byte)
    requires off < Cow.PGSIZE
    ensures FrameOf(c[off := b]) == FrameOf(c)[off / 4 := WithByte(FrameOf(c)[off / 4], off % 4, b)]
  {
    hide WordOf, WithByte, ByteSum;
    var j, k := off / 4, off % 4;
    var c' := c[off := b];
    ByteReplaced(c[4 * j], c[4 * j + 1], c[4 * j + 2], c[4 * j + 3], k, b);
    forall i | 0 <= i < NPTENTRIES && i != j
      ensures FrameOf(c')[i] == FrameOf(c)[i]
    {
      assert c'[4 * i] == c[4 * i] && c'[4 * i + 1] == c[4 * i + 1] && c'[4 * i + 2] == c[4 * i + 2]
        && c'[4 * i + 3] == c[4 * i + 3];
    }
    assert FrameOf(c')[j] == WithByte(FrameOf(c)[j], k, b);
  }

  lemma {:induction false} ZeroBits(n: nat)
    ensures BitsOf(0, n) == 0
  {
    if n > 0 {
      ZeroBits(n - 1);
    }
  }

  lemma ZerosFrame()
    ensures FrameOf(Cow.Zeros()) == ZeroFrame()
  {
    ZeroBits(12);
    assert WordOf(0) == EMPTY;
  }

  /** Nothing is lost in the words. */
  lemma FrameOfInjective(c: Cow.Content, c': Cow.Content)
    requires FrameOf(c) == FrameOf(c')
    ensures c == c'
  {
    forall i | 0 <= i < Cow.PGSIZE
      ensures c[i] == c'[i]
    {
      var j := i / 4;
      assert FrameOf(c)[j] == FrameOf(c')[j];
      ValueOfWord(ByteSum(c[4 * j], c[4 * j + 1], c[4 * j + 2], c[4 * j + 3]));
      ValueOfWord(ByteSum(c'[4 * j], c'[4 * j + 1], c'[4 * j + 2], c'[4 * j + 3]));
      SameSum(c[4 * j], c[4 * j + 1], c[4 * j + 2], c[4 * j + 3], c'[4 * j], c'[4 * j + 1], c'[4 * j + 2],
        c'[4 * j + 3]);
    }
  }

  lemma SameSum(a0: Cow.Byte, a1: Cow.Byte, a2: Cow.Byte, a3: Cow.Byte, b0: Cow.Byte, b1: Cow.Byte, b2: Cow.Byte,
      b3: Cow.Byte)
    requires ByteSum(a0, a1, a2, a3) == ByteSum(b0, b1, b2, b3)
    ensures a0 == b0 && a1 == b1 && a2 == b2 && a3 == b3
  {
    SameLow(a0, a1 + 0x100 * a2 + 0x1_0000 * a3, b0, b1 + 0x100 * b2 + 0x1_0000 * b3);
    SameLow(a1, a2 + 0x100 * a3, b1, b2 + 0x100 * b3);
    SameLow(a2, a3, b2, b3);
  }

  lemma SameLow(a: Cow.Byte, x: int, b: Cow.Byte, y: int)
    requires a + 0x100 * x == b + 0x100 * y
    ensures a == b && x == y
  {
  }

  // ------------------------------------------------------------------
  // The pages that are kept
  // ------------------------------------------------------------------

  /** The words of every page handed out before stay. */
  ghost predicate DataKept(s: Phys, s': Phys)
    requires Sized(s)
  {
    |s'.mem| == |s.mem| && forall f: nat | f < |s.role| && s.role[f] == Data :: s'.mem[f] == s.mem[f]
  }

  lemma WalkData(s: Phys, d: nat, va: Va)
    requires Inv(s) && UserVa(va) && LiveDir(s, d)
    ensures DataKept(s, PgdirWalk(s, d, va, true).0)
  {
    WalkCases(s, d, va);
  }

  /** page_insert writes tables and directories alone. */
  lemma InsertData(s: Phys, d: nat, pp: nat, va: Va, e: Pte)
    requires Inv(s) && LiveDir(s, d) && UserVa(va) && pp < |s.role| && s.role[pp] != Free
    ensures DataKept(s, PageInsertWord(s, d, pp, va, e).0)
  {
    hide PageInsertWord, TreeOk, CountsOk, FreeListOk, PgdirWalk;
    if RoomAt(s, d, va) {
      WalkData(s, d, va);
      var s1, t := InsertSwaps(s, d, pp, va, e);
      var s' := PageInsertWord(s, d, pp, va, e).0;
      forall f: nat | f < |s.role| && s.role[f] == Data
        ensures s'.mem[f] == s.mem[f]
      {
        WalkKeepsPage(s, d, va, f);
      }
    } else {
      InsertNoMem(s, d, pp, va, e);
    }
  }

  /** sys_page_alloc: a page of zeros, and nobody's page changes. */
  lemma AllocData(s: Phys, d: nat, va: Va, perm: Perm, n: nat)
    requires Kernel(s, n) && Admissible(s, Alloc(d, va, perm)) && s.list != [] && SysPageAlloc(s, d, va, perm).1 == Done
    ensures var s' := SysPageAlloc(s, d, va, perm).0;
            DataKept(s, s') && s.list[0] < |s'.mem| && s'.mem[s.list[0]] == ZeroFrame()
  {
    hide PageInsertWord, TreeOk, CountsOk, FreeListOk, Or, PageAlloc;
    AllocTaken(s, d, va, n);
    var (s1, p) := PageAlloc(s, true);
    InsertData(s1, d, p.page, va, WordFor(p.page, perm));
    TakenData(s, s1, p.page);
  }

  lemma TakenData(s: Phys, s1: Phys, p: nat)
    requires Sized(s) && Taken(s, s1, p, true) && s.role[p] == Free
    ensures DataKept(s, s1) && s1.mem[p] == ZeroFrame()
    ensures forall f: nat | f < |s.role| && s.role[f] == Data :: s1.role[f] == Data
  {
  }

  lemma ShareData(s: Phys, op: Op)
    requires Inv(s) && op.Share? && Admissible(s, op) && Step(s, op).1 == Done
    ensures DataKept(s, Step(s, op).0)
  {
    hide PageInsertWord, CountsOk, FreeListOk, Or;
    if ShareAllowed(s, op.src, op.srcva, op.perm) {
      ShareReaches(s, op.src, op.srcva);
      var pp := Trans(s, op.src, op.srcva).value.frame;
      InsertData(s, op.dst, pp, op.dstva, WordFor(pp, op.perm));
    } else {
      ShareRefused(s, op);
    }
  }

  lemma UnmapData(s: Phys, d: nat, va: Va)
    requires Inv(s) && LiveDir(s, d) && UserVa(va) && PageRemove(s, d, va).Some?
    ensures DataKept(s, PageRemove(s, d, va).value)
  {
    if s.mem[d][va.pdx] != EMPTY {
      MappedSlot(s, d, va);
    }
  }

  lemma CreateData(s: Phys, n: nat)
    requires Kernel(s, n) && EnvSetupVm(s).1.Created?
    ensures DataKept(s, EnvSetupVm(s).0)
  {
    CreateKeeps(s, n);
  }

  lemma DestroyData(s: Phys, d: nat, n: nat)
    requires Kernel(s, n) && LiveDir(s, d)
    ensures EnvFree(s, d).Some? && DataKept(s, EnvFree(s, d).value)
  {
    hide EnvFree, TreeOk, CountsOk, FreeListOk, Settled;
    DestroyKeeps(s, d, n);
  }

  // ------------------------------------------------------------------
  // What the environments' pages hold
  // ------------------------------------------------------------------

  ghost predicate PageHolds(s: Phys, data: map<nat, Cow.Content>, f: nat) {
    f < |s.mem| && f in data && s.mem[f] == FrameOf(data[f])
  }

  /** Every page an environment maps has its bytes in memory. */
  ghost predicate Holds(s: Phys, m: Cow.Machine) {
    forall e: nat, v: nat | Cow.Maps(m, e, v) :: PageHolds(s, m.data, Cow.At(m, e, v).frame)
  }

  /** A page in an environment's map is one handed out. */
  lemma MappedIsData(s: Phys, m: Cow.Machine, e: nat, v: nat)
    requires Inv(s) && View(s, m) && Cow.Maps(m, e, v)
    ensures var f := Cow.At(m, e, v).frame; f < |s.role| && s.role[f] == Data
  {
    Behind(s, m, e, v);
    MappedSlot(s, e, VaOf(v));
  }

  /** Mappings that were there, over pages that are kept. */
  lemma FewerHolds(s: Phys, s': Phys, m: Cow.Machine, m': Cow.Machine)
    requires Inv(s) && View(s, m) && Holds(s, m) && DataKept(s, s') && m'.data == m.data
    requires forall e: nat, v: nat | Cow.Maps(m', e, v) :: Cow.Maps(m, e, v) && Cow.At(m, e, v) == Cow.At(m', e, v)
    ensures Holds(s', m')
  {
    hide View, Inv;
    forall e: nat, v: nat | Cow.Maps(m', e, v)
      ensures PageHolds(s', m'.data, Cow.At(m', e, v).frame)
    {
      MappedIsData(s, m, e, v);
      assert PageHolds(s, m.data, Cow.At(m, e, v).frame);
    }
  }

  /** One more mapping, of a page that holds what it should. */
  lemma SetHolds(s: Phys, s': Phys, m: Cow.Machine, d: nat, v: nat, entry: Cow.Entry)
    requires Inv(s) && View(s, m) && Holds(s, m) && DataKept(s, s') && d in m.envs
    requires PageHolds(s', m.data, entry.frame)
    ensures Holds(s', Cow.SetEntry(m, d, v, entry))
  {
    hide View, Inv;
    var m' := Cow.SetEntry(m, d, v, entry);
    forall e: nat, u: nat | Cow.Maps(m', e, u)
      ensures PageHolds(s', m'.data, Cow.At(m', e, u).frame)
    {
      if (e, u) != (d, v) {
        assert Cow.Maps(m, e, u) && Cow.At(m, e, u) == Cow.At(m', e, u);
        MappedIsData(s, m, e, u);
        assert PageHolds(s, m.data, Cow.At(m, e, u).frame);
      }
    }
  }

  lemma SameHolds(s: Phys, m: Cow.Machine, m': Cow.Machine)
    requires Holds(s, m) && SamePages(m, m') && m'.data == m.data
    ensures Holds(s, m')
  {
    forall e: nat, v: nat | Cow.Maps(m', e, v)
      ensures PageHolds(s, m'.data, Cow.At(m', e, v).frame)
    {
      assert Cow.Maps(m, e, v) && Cow.At(m, e, v) == Cow.At(m', e, v);
    }
  }

  /** A page nobody maps may hold anything. */
  lemma FreshHolds(s: Phys, m: Cow.Machine, f: nat, c: Cow.Content)
    requires Holds(s, m) && Cow.FreeFrame(m, f)
    ensures Holds(s, m.(data := m.data[f := c]))
  {
    var m' := m.(data := m.data[f := c]);
    forall e: nat, v: nat | Cow.Maps(m', e, v)
      ensures PageHolds(s, m'.data, Cow.At(m', e, v).frame)
    {
      assert Cow.Maps(m, e, v) && Cow.At(m, e, v) == Cow.At(m', e, v);
    }
  }

  // ------------------------------------------------------------------
  // Each step
  // ------------------------------------------------------------------

  function Zeroed(m: Cow.Machine, f: nat): Cow.Machine {
    m.(data := m.data[f := Cow.Zeros()])
  }

  lemma AllocHolds(s: Phys, m: Cow.Machine, m': Cow.Machine, d: nat, v: nat, n: nat)
    requires Kernel(s, n) && View(s, m) && Holds(s, m) && d in m.envs && v < Cow.UTOP_PAGE && s.list != []
    requires AdmissibleRun(s, [Alloc(d, VaOf(v), USER_WORD)]) && AllReturn(s, [Alloc(d, VaOf(v), USER_WORD)])
    requires n + RunEmpties(s, [Alloc(d, VaOf(v), USER_WORD)]) < REF_MOD
    requires SamePages(Cow.SetEntry(m, d, v, Cow.Entry(s.list[0], Cow.WRITABLE)), m')
    requires m'.data == m.data[s.list[0] := Cow.Zeros()]
    ensures Holds(Run(s, [Alloc(d, VaOf(v), USER_WORD)]), m')
  {
    hide TreeOk, FreeListOk, CountsOk, Settled, SysPageAlloc, View, Empties, Run, AllReturn, AdmissibleRun, Holds,
      DataKept;
    var op, f := Alloc(d, VaOf(v), USER_WORD), s.list[0];
    OneCall(s, op);
    AllocView(s, m, d, v, USER_WORD, n);
    AllocData(s, d, VaOf(v), USER_WORD, n);
    FreshHolds(s, m, f, Cow.Zeros());
    SamePagesView(s, m, Zeroed(m, f));
    ZerosFrame();
    SetHolds(s, Step(s, op).0, Zeroed(m, f), d, v, Cow.Entry(f, Cow.WRITABLE));
    SameHolds(Step(s, op).0, Cow.SetEntry(Zeroed(m, f), d, v, Cow.Entry(f, Cow.WRITABLE)), m');
  }

  lemma ShareHolds(s: Phys, m: Cow.Machine, src: nat, srcv: nat, dst: nat, dstv: nat, perm: Perm, flags: Cow.Flags)
    requires Inv(s) && View(s, m) && Holds(s, m) && dst in m.envs && Cow.Maps(m, src, srcv)
    requires srcv < Cow.UTOP_PAGE && dstv < Cow.UTOP_PAGE
    requires Admissible(s, Share(src, VaOf(srcv), dst, VaOf(dstv), perm))
    requires Step(s, Share(src, VaOf(srcv), dst, VaOf(dstv), perm)).1 == Done
    ensures var s' := Step(s, Share(src, VaOf(srcv), dst, VaOf(dstv), perm)).0;
            Holds(s', Cow.SetEntry(m, dst, dstv, Cow.Entry(Cow.At(m, src, srcv).frame, flags)))
  {
    hide TreeOk, CountsOk, FreeListOk, View, Step, Admissible;
    var op := Share(src, VaOf(srcv), dst, VaOf(dstv), perm);
    ShareData(s, op);
    MappedIsData(s, m, src, srcv);
    var f := Cow.At(m, src, srcv).frame;
    assert PageHolds(s, m.data, f);
    SetHolds(s, Step(s, op).0, m, dst, dstv, Cow.Entry(f, flags));
  }

  lemma DupTwiceHolds(s: Phys, m: Cow.Machine, e: nat, c: nat, v: nat, perm: bv12, n: nat)
    requires Kernel(s, n) && View(s, m) && Holds(s, m) && e in m.envs && c in m.envs && e != c
    requires Cow.Maps(m, e, v) && v < Cow.UTOP_PAGE
    requires var ops := [Share(e, VaOf(v), c, VaOf(v), Perm(0, perm)), Share(e, VaOf(v), e, VaOf(v), Perm(0, perm))];
             AdmissibleRun(s, ops) && AllReturn(s, ops) && n + RunEmpties(s, ops) < REF_MOD
    ensures var ops := [Share(e, VaOf(v), c, VaOf(v), Perm(0, perm)), Share(e, VaOf(v), e, VaOf(v), Perm(0, perm))];
            var entry := Cow.Entry(Cow.At(m, e, v).frame, Cow.FlagsOf(perm));
            Holds(Run(s, ops), Cow.SetEntry(Cow.SetEntry(m, c, v, entry), e, v, entry))
  {
    hide TreeOk, CountsOk, FreeListOk, Settled, Empties, Step, Run, AllReturn, AdmissibleRun, Admissible, View, Holds;
    var a, b := Share(e, VaOf(v), c, VaOf(v), Perm(0, perm)), Share(e, VaOf(v), e, VaOf(v), Perm(0, perm));
    TwoCalls(s, a, b);
    var s1 := Step(s, a).0;
    ShareView(s, m, e, v, c, v, Perm(0, perm), n);
    ShareDone(s, a, n);
    ShareHolds(s, m, e, v, c, v, Perm(0, perm), Cow.FlagsOf(perm));
    OneCall(s1, b);
    var entry := Cow.Entry(Cow.At(m, e, v).frame, Cow.FlagsOf(perm));
    ShareHolds(s1, Cow.SetEntry(m, c, v, entry), e, v, e, v, Perm(0, perm), Cow.FlagsOf(perm));
  }

  lemma DupOnceHolds(s: Phys, m: Cow.Machine, e: nat, c: nat, v: nat, perm: bv12, n: nat)
    requires Kernel(s, n) && View(s, m) && Holds(s, m) && e in m.envs && c in m.envs && e != c
    requires Cow.Maps(m, e, v) && v < Cow.UTOP_PAGE
    requires var ops := [Share(e, VaOf(v), c, VaOf(v), Perm(0, perm))]; AdmissibleRun(s, ops) && AllReturn(s, ops)
    requires Cow.At(m, e, v).flags == Cow.FlagsOf(perm)
    ensures var entry := Cow.At(m, e, v);
            Holds(Run(s, [Share(e, VaOf(v), c, VaOf(v), Perm(0, perm))]),
                  Cow.SetEntry(Cow.SetEntry(m, c, v, entry), e, v, entry))
  {
    hide TreeOk, CountsOk, FreeListOk, Settled, Empties, Step, Run, AllReturn, AdmissibleRun, Admissible, View, Holds;
    var a := Share(e, VaOf(v), c, VaOf(v), Perm(0, perm));
    var entry := Cow.At(m, e, v);
    OneCall(s, a);
    ShareHolds(s, m, e, v, c, v, Perm(0, perm), entry.flags);
    var m1 := Cow.SetEntry(m, c, v, entry);
    SameHolds(Step(s, a).0, m1, Cow.SetEntry(m1, e, v, entry));
  }

  lemma DupHolds(s: Phys, m: Cow.Machine, op: Cow.Op, n: nat)
    requires Kernel(s, n) && View(s, m) && Holds(s, m) && Cow.Inv(m) && Cow.Enabled(m, op) && op.Dup?
    requires AdmissibleRun(s, Calls(s, m, op)) && AllReturn(s, Calls(s, m, op))
    requires n + RunEmpties(s, Calls(s, m, op)) < REF_MOD
    ensures Holds(Run(s, Calls(s, m, op)), Cow.Step(m, op))
  {
    hide TreeOk, CountsOk, FreeListOk, Settled, View, Holds, RunEmpties, Run, AllReturn, AdmissibleRun, Cow.Inv,
      Cow.FlagsOf, Cow.DupPerm;
    var e, c, v := op.e, op.child, op.v;
    Behind(s, m, e, v);
    var pte := Trans(s, e, VaOf(v)).value;
    Cow.DupPermIsDupFlags(pte.perm);
    var f := Cow.FlagsOf(pte.perm);
    if (f.w || f.cow) && !f.share {
      DupTwiceHolds(s, m, e, c, v, Cow.DupPerm(pte.perm), n);
    } else {
      DupOnceHolds(s, m, e, c, v, Cow.DupPerm(pte.perm), n);
    }
  }

  lemma ExoforkHolds(s: Phys, m: Cow.Machine, m': Cow.Machine, c: nat, n: nat)
    requires Kernel(s, n) && View(s, m) && Holds(s, m) && |s.list| >= 2 && c == s.list[0]
    requires var ops := [Create, Alloc(c, VaOf(Cow.XSTACK), USER_WORD)];
             AdmissibleRun(s, ops) && AllReturn(s, ops) && n + RunEmpties(s, ops) < REF_MOD
    requires SamePages(Cow.SetEntry(NewEnv(m, c), c, Cow.XSTACK, Cow.Entry(s.list[1], Cow.WRITABLE)), m')
    requires m'.data == m.data[s.list[1] := Cow.Zeros()]
    ensures Holds(Run(s, [Create, Alloc(c, VaOf(Cow.XSTACK), USER_WORD)]), m')
  {
    hide TreeOk, CountsOk, FreeListOk, Settled, View, Holds, Empties, Run, AllReturn, AdmissibleRun, SamePages,
      EnvSetupVm, DataKept;
    var a, b := Create, Alloc(c, VaOf(Cow.XSTACK), USER_WORD);
    TwoCalls(s, a, b);
    CreateKeeps(s, n);
    CreateNames(s);
    CreateView(s, m, NewEnv(m, c), n);
    CreateData(s, n);
    FewerHolds(s, Step(s, a).0, m, NewEnv(m, c));
    AllocHolds(Step(s, a).0, NewEnv(m, c), m', c, Cow.XSTACK, n);
  }

  // ------------------------------------------------------------------
  // Writes
  // ------------------------------------------------------------------

  lemma UserWritable(perm: bv12)
    requires Cow.FlagsOf(perm).w && UserSees(Pte(0, perm))
    ensures perm & (PTE_W | PTE_U) == PTE_W | PTE_U
  {
  }

  /** A write through a writable mapping. */
  lemma WriteIs(s: Phys, m: Cow.Machine, e: nat, v: nat, j: nat, word: Pte)
    requires Inv(s) && View(s, m) && Cow.Maps(m, e, v) && Cow.At(m, e, v).flags.w && j < NPTENTRIES
    ensures LiveDir(s, e) && v < Cow.UTOP_PAGE && Cow.At(m, e, v).frame < |s.mem|
    ensures Store(s, e, VaOf(v), j, word) == SetWord(s, Cow.At(m, e, v).frame, j, word)
  {
    Behind(s, m, e, v);
    MappedIsData(s, m, e, v);
    UserWritable(Trans(s, e, VaOf(v)).value.perm);
  }

  lemma WordHolds(s: Phys, m: Cow.Machine, f: nat, off: nat, b: Cow.Byte, m': Cow.Machine)
    requires Sized(s) && Holds(s, m) && PageHolds(s, m.data, f) && off < Cow.PGSIZE && f < |s.mem|
    requires m' == m.(data := m.data[f := m.data[f][off := b]])
    ensures Holds(SetWord(s, f, off / 4, WithByte(s.mem[f][off / 4], off % 4, b)), m')
  {
    hide WithByte, FrameOf;
    StoreInPage(m.data[f], off, b);
    var s' := SetWord(s, f, off / 4, WithByte(s.mem[f][off / 4], off % 4, b));
    forall e: nat, v: nat | Cow.Maps(m', e, v)
      ensures PageHolds(s', m'.data, Cow.At(m', e, v).frame)
    {
      assert Cow.Maps(m, e, v) && Cow.At(m, e, v) == Cow.At(m', e, v);
      assert PageHolds(s, m.data, Cow.At(m, e, v).frame);
    }
  }

  lemma StoreHolds(s: Phys, m: Cow.Machine, op: Cow.Op, n: nat)
    requires Kernel(s, n) && View(s, m) && Holds(s, m) && Cow.Inv(m) && Cow.Enabled(m, op) && op.Store?
    requires AdmissibleRun(s, Calls(s, m, op)) && AllReturn(s, Calls(s, m, op))
    ensures Holds(Run(s, Calls(s, m, op)), Cow.Step(m, op))
  {
    hide TreeOk, CountsOk, FreeListOk, Settled, View, Holds, Run, AllReturn, AdmissibleRun, Cow.Inv, Cow.FlagsOf,
      WithByte, Store;
    var e, v := op.e, op.v;
    Behind(s, m, e, v);
    MappedIsData(s, m, e, v);
    var f := Cow.At(m, e, v).frame;
    if Cow.At(m, e, v).flags.w {
      var word := WithByte(s.mem[f][op.off / 4], op.off % 4, op.b);
      OneCall(s, Write(e, VaOf(v), op.off / 4, word));
      WriteIs(s, m, e, v, op.off / 4, word);
      PageOf(s, m, e, v);
      WordHolds(s, m, f, op.off, op.b, Cow.Step(m, op));
    } else {
      RunEnd(s);
      SameHolds(s, m, Cow.Step(m, op));
    }
  }

  lemma PageOf(s: Phys, m: Cow.Machine, e: nat, v: nat)
    requires Holds(s, m) && Cow.Maps(m, e, v)
    ensures PageHolds(s, m.data, Cow.At(m, e, v).frame)
  {
  }

  /** The copy, from word j on. */
  lemma {:induction false} CopyRun(s: Phys, m: Cow.Machine, e: nat, words: Frame, j: nat, n: nat)
    requires Kernel(s, n) && View(s, m) && Cow.Maps(m, e, Cow.PFTEMP) && Cow.At(m, e, Cow.PFTEMP).flags.w
    requires |words| == NPTENTRIES && j <= NPTENTRIES && AdmissibleRun(s, CopyWords(e, words, j))
    ensures
      var p := Cow.At(m, e, Cow.PFTEMP).frame;
      && p < |s.mem| && |s.mem[p]| == NPTENTRIES
      && Run(s, CopyWords(e, words, j)).mem == s.mem[p := s.mem[p][..j] + words[j..]]
    decreases NPTENTRIES - j
  {
    hide TreeOk, CountsOk, FreeListOk, Settled, View, Store, Cow.FlagsOf;
    var p := Cow.At(m, e, Cow.PFTEMP).frame;
    var ops := CopyWords(e, words, j);
    MappedIsData(s, m, e, Cow.PFTEMP);
    if j == NPTENTRIES {
      assert s.mem[p][..j] + words[j..] == s.mem[p];
    } else {
      var va := VaOf(Cow.PFTEMP);
      assert ops[0] == Write(e, va, j, words[j]) && ops[1..] == CopyWords(e, words, j + 1);
      WriteIs(s, m, e, Cow.PFTEMP, j, words[j]);
      StoreKeeps(s, e, va, j, words[j], n);
      var s1 := Step(s, ops[0]).0;
      StoreView(s, s1, m);
      CopyRun(s1, m, e, words, j + 1, n);
      CopyJoins(s.mem, p, words, j);
    }
  }

  lemma CopyJoins(mem: seq<Frame>, p: nat, words: Frame, j: nat)
    requires p < |mem| && |mem[p]| == |words| == NPTENTRIES && j < NPTENTRIES
    ensures var mem1 := mem[p := mem[p][j := words[j]]];
            mem1[p := mem1[p][..j + 1] + words[j + 1..]] == mem[p := mem[p][..j] + words[j..]]
  {
    assert mem[p][j := words[j]][..j + 1] + words[j + 1..] == mem[p][..j] + words[j..];
  }

  lemma CopyHolds(s: Phys, m: Cow.Machine, op: Cow.Op, n: nat)
    requires Kernel(s, n) && View(s, m) && Holds(s, m) && Cow.Inv(m) && Cow.Enabled(m, op) && op.FaultCopy?
    requires AdmissibleRun(s, Calls(s, m, op)) && AllReturn(s, Calls(s, m, op))
    ensures Holds(Run(s, Calls(s, m, op)), Cow.Step(m, op))
  {
    hide TreeOk, CountsOk, FreeListOk, Settled, View, Holds, Run, AllReturn, AdmissibleRun, Cow.FlagsOf, CopyWords;
    var e, u := op.e, m.envs[op.e].phase.v;
    assert Cow.PhaseOk(m, e);
    hide Cow.Inv;
    assert Cow.Maps(m, e, u) && Cow.Maps(m, e, Cow.PFTEMP);
    Behind(s, m, e, u);
    MappedIsData(s, m, e, u);
    var f, p := Cow.At(m, e, u).frame, Cow.At(m, e, Cow.PFTEMP).frame;
    PageOf(s, m, e, u);
    CopyRun(s, m, e, s.mem[f], 0, n);
    assert s.mem[p][..0] + s.mem[f][0..] == s.mem[f];
    CopiedHolds(s, Run(s, Calls(s, m, op)), m, Cow.Step(m, op), f, p);
  }

  lemma CopiedHolds(s: Phys, s': Phys, m: Cow.Machine, m': Cow.Machine, f: nat, p: nat)
    requires Holds(s, m) && PageHolds(s, m.data, f) && p < |s.mem| && s'.mem == s.mem[p := s.mem[f]]
    requires SamePages(m, m') && m'.data == m.data[p := m.data[f]]
    ensures Holds(s', m')
  {
    forall e: nat, v: nat | Cow.Maps(m', e, v)
      ensures PageHolds(s', m'.data, Cow.At(m', e, v).frame)
    {
      assert Cow.Maps(m, e, v) && Cow.At(m, e, v) == Cow.At(m', e, v);
      assert PageHolds(s, m.data, Cow.At(m, e, v).frame);
    }
  }

  lemma FaultMapHolds(s: Phys, m: Cow.Machine, op: Cow.Op, n: nat)
    requires Kernel(s, n) && View(s, m) && Holds(s, m) && Cow.Inv(m) && Cow.Enabled(m, op) && op.FaultMap?
    requires AdmissibleRun(s, Calls(s, m, op)) && AllReturn(s, Calls(s, m, op))
    ensures Holds(Run(s, Calls(s, m, op)), Cow.Step(m, op))
  {
    hide TreeOk, CountsOk, FreeListOk, Settled, Step, Run, AllReturn, AdmissibleRun, Admissible, View, Holds;
    var e, u := op.e, m.envs[op.e].phase.v;
    assert Cow.PhaseOk(m, e);
    assert Cow.Maps(m, e, Cow.PFTEMP) && Cow.Maps(m, e, u);
    hide Cow.Inv;
    Behind(s, m, e, u);
    var a := Share(e, VaOf(Cow.PFTEMP), e, VaOf(u), USER_WORD);
    OneCall(s, a);
    ShareHolds(s, m, e, Cow.PFTEMP, e, u, USER_WORD, Cow.WRITABLE);
    SameHolds(Step(s, a).0, Cow.SetEntry(m, e, u, Cow.Entry(Cow.At(m, e, Cow.PFTEMP).frame, Cow.WRITABLE)),
      Cow.Step(m, op));
  }

  lemma FaultUnmapHolds(s: Phys, m: Cow.Machine, op: Cow.Op, n: nat)
    requires Kernel(s, n) && View(s, m) && Holds(s, m) && Cow.Inv(m) && Cow.Enabled(m, op) && op.FaultUnmap?
    requires AdmissibleRun(s, Calls(s, m, op)) && AllReturn(s, Calls(s, m, op))
    ensures Holds(Run(s, Calls(s, m, op)), Cow.Step(m, op))
  {
    hide TreeOk, CountsOk, FreeListOk, Settled, Run, AllReturn, AdmissibleRun, View, Holds, Cow.Inv, PageRemove,
      DataKept;
    LiveOf(s, m, op.e);
    OneCall(s, Unmap(op.e, VaOf(Cow.PFTEMP)));
    UnmapData(s, op.e, VaOf(Cow.PFTEMP));
    FewerHolds(s, PageRemove(s, op.e, VaOf(Cow.PFTEMP)).value, m, Cow.Step(m, op));
  }

  lemma ExitHolds(s: Phys, m: Cow.Machine, op: Cow.Op, n: nat)
    requires Kernel(s, n) && View(s, m) && Holds(s, m) && Cow.Inv(m) && Cow.Enabled(m, op) && op.Exit?
    requires AdmissibleRun(s, Calls(s, m, op)) && AllReturn(s, Calls(s, m, op))
    ensures Holds(Run(s, Calls(s, m, op)), Cow.Step(m, op))
  {
    hide TreeOk, CountsOk, FreeListOk, Settled, Run, AllReturn, AdmissibleRun, View, Holds, Cow.Inv, EnvFree, DataKept;
    LiveOf(s, m, op.e);
    DestroyData(s, op.e, n);
    ExitCall(s, op.e);
    FewerHolds(s, EnvFree(s, op.e).value, m, Cow.Step(m, op));
  }

  lemma NewPageHolds(s: Phys, m: Cow.Machine, op: Cow.Op, n: nat)
    requires Kernel(s, n) && View(s, m) && Holds(s, m) && Cow.Inv(m) && Cow.Enabled(m, op) && Names(s, op)
    requires op.Install? || op.FaultAlloc? || op.Exofork?
    requires AdmissibleRun(s, Calls(s, m, op)) && AllReturn(s, Calls(s, m, op))
    requires n + RunEmpties(s, Calls(s, m, op)) < REF_MOD
    ensures Holds(Run(s, Calls(s, m, op)), Cow.Step(m, op))
  {
    hide TreeOk, CountsOk, FreeListOk, Settled, RunEmpties, Run, AllReturn, AdmissibleRun, View, Holds, Cow.Inv;
    match op
    case Install(e, f) => AllocHolds(s, m, Cow.Step(m, op), e, Cow.XSTACK, n);
    case FaultAlloc(e, f) => AllocHolds(s, m, Cow.Step(m, op), e, Cow.PFTEMP, n);
    case Exofork(_, c, f) =>
      ExoforkPages(m, op);
      ExoforkHolds(s, m, Cow.Step(m, op), c, n);
  }

  /** Every step of the fork machine leaves in memory the bytes it says. */
  lemma StepHolds(s: Phys, m: Cow.Machine, op: Cow.Op, n: nat)
    requires Kernel(s, n) && View(s, m) && Holds(s, m) && Cow.Inv(m) && Cow.Enabled(m, op) && Names(s, op)
    requires AdmissibleRun(s, Calls(s, m, op)) && AllReturn(s, Calls(s, m, op))
    requires n + RunEmpties(s, Calls(s, m, op)) < REF_MOD
    ensures Holds(Run(s, Calls(s, m, op)), Cow.Step(m, op))
  {
    hide TreeOk, CountsOk, FreeListOk, Settled, RunEmpties, Run, AllReturn, AdmissibleRun, View, Holds, Cow.Inv, Names;
    match op
    case Install(_, _) => NewPageHolds(s, m, op, n);
    case FaultAlloc(_, _) => NewPageHolds(s, m, op, n);
    case Exofork(_, _, _) => NewPageHolds(s, m, op, n);
    case Dup(_, _, _) => DupHolds(s, m, op, n);
    case FaultMap(_) => FaultMapHolds(s, m, op, n);
    case FaultUnmap(_) => FaultUnmapHolds(s, m, op, n);
    case Exit(_) => ExitHolds(s, m, op, n);
    case Store(_, _, _, _) => StoreHolds(s, m, op, n);
    case FaultCopy(_) => CopyHolds(s, m, op, n);
    case Start(_) =>
      RunEnd(s);
      SameHolds(s, m, Cow.Step(m, op));
  }

  lemma {:induction false} RunHolds(s: Phys, m: Cow.Machine, ops: seq<Cow.Op>, n: nat, s': Phys)
    requires Kernel(s, n) && View(s, m) && Holds(s, m) && Cow.Inv(m) && Cow.Allowed(m, ops) && Leads(s, m, ops, n, s')
    ensures Inv(s') && View(s', Cow.Run(m, ops)) && Holds(s', Cow.Run(m, ops))
    decreases |ops|
  {
    hide TreeOk, CountsOk, FreeListOk, Settled, View, Holds, Run, AllReturn, AdmissibleRun, RunEmpties, Calls, Names,
      Cow.Inv, Cow.Step, Cow.Enabled;
    if ops != [] {
      var calls := Calls(s, m, ops[0]);
      StepInMemory(s, m, ops[0], n);
      StepHolds(s, m, ops[0], n);
      RunHolds(Run(s, calls), Cow.Step(m, ops[0]), ops[1..], n + RunEmpties(s, calls), s');
    }
  }

  /** Fork copies, in memory: over every run of forks, stores, page faults and
      exits, the words of the page that an environment's page table names at
      a private page are the bytes it would hold had every duppage copied the
      page on the spot. */
  lemma MemoryShowsCopying(s: Phys, m: Cow.Machine, d: Cow.Pages, ops: seq<Cow.Op>, n: nat, s': Phys, e: nat, v: nat)
    requires Kernel(s, n) && View(s, m) && Holds(s, m) && Cow.Inv(m) && Cow.Sees(m, d)
    requires Cow.Allowed(m, ops) && Leads(s, m, ops, n, s') && (e, v) in Cow.EagerRun(d, Cow.Trace(m, ops))
    ensures Inv(s') && LiveDir(s', e) && v < Cow.UTOP_PAGE && Trans(s', e, VaOf(v)).Some?
    ensures var f := Trans(s', e, VaOf(v)).value.frame;
            f < |s'.mem| && s'.mem[f] == FrameOf(Cow.EagerRun(d, Cow.Trace(m, ops))[(e, v)])
  {
    hide TreeOk, CountsOk, FreeListOk, Settled, View, Holds, Cow.Inv, Leads, Cow.Allowed, Cow.Run, Cow.Trace,
      Cow.EagerRun, FrameOf;
    RunHolds(s, m, ops, n, s');
    Cow.LazyRefinesEager(m, d, ops);
    var r := Cow.Run(m, ops);
    assert Cow.InView(r, e, v);
    Behind(s', r, e, v);
    PageOf(s', r, e, v);
  }
}
