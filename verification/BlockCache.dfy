/** The write-back block cache (fs/bc.c) and fs_sync: mapped pages with dirty
  bits over a disk of blocks. Pages come in by page fault; the fault handler
  also reads the bitmap, which lives in the cached blocks from 2 on.
 */
module BlockCache {
  import opened FsBlocks

  const BLKBITSIZE: nat := 32768

  datatype Page = Page(data: Bytes, dirty: bool)

  datatype Cache = Cache(disk: seq<Bytes>, pages: map<nat, Page>)

  /** What a read of block b sees, through the cache. */
  function Logical(c: Cache, b: nat): Bytes
    requires b < |c.disk|
  {
    if b in c.pages then c.pages[b].data else c.disk[b]
  }

  /** A mapped clean block equals its disk block. */
  ghost predicate Coherent(c: Cache) {
    forall b: nat | b in c.pages :: b < |c.disk| && (!c.pages[b].dirty ==> c.pages[b].data == c.disk[b])
  }

  function BitmapBlock(b: nat): nat {
    2 + b / BLKBITSIZE
  }

  /** 2 to the k */
  function Pow2(k: nat): (r: nat)
    ensures r > 0
  {
    if k == 0 then 1 else 2 * Pow2(k - 1)
  }

  /** Bit b % BLKBITSIZE of a bitmap block. */
  predicate FreeBit(s: Bytes, b: nat) {
    s[b % BLKBITSIZE / 8] as int / Pow2(b % 8) % 2 == 1
  }

  predicate IsFree(c: Cache, b: nat) {
    b < |c.disk| && BitmapBlock(b) < |c.disk| && FreeBit(Logical(c, BitmapBlock(b)), b)
  }

  ghost function Unmapped(c: Cache): set<nat> {
    set b: nat | 0 <= b < |c.disk| && b !in c.pages
  }

  function MapIn(c: Cache, b: nat): Cache
    requires b < |c.disk|
  {
    c.(pages := c.pages[b := Page(c.disk[b], false)])
  }

  lemma MapInShrinks(c: Cache, b: nat)
    requires b < |c.disk| && b !in c.pages
    ensures Unmapped(MapIn(c, b)) < Unmapped(c)
  {
    assert b in Unmapped(c) && b !in Unmapped(MapIn(c, b));
    assert Unmapped(MapIn(c, b)) <= Unmapped(c);
  }

  /** bc_pgfault for a block not in the cache, with the faults its look at the
      bitmap causes in turn. None is a panic: a block that does not exist, or
      a free one. */
  function Fault(c: Cache, b: nat): (r: Option<Cache>)
    requires b !in c.pages
    ensures r.Some? ==> b < |c.disk| && |r.value.disk| == |c.disk|
    ensures r.Some? ==> forall x | x in c.pages :: x in r.value.pages
    ensures r.Some? ==> b in r.value.pages
    decreases Unmapped(c)
  {
    if b >= |c.disk| then None
    else
      MapInShrinks(c, b);
      var c1 := MapIn(c, b);
      var m := BitmapBlock(b);
      var c2 := if m in c1.pages then Some(c1) else Fault(c1, m);
      if c2.None? || IsFree(c2.value, b) then None else c2
  }

  /** Any access to block b. */
  function Touch(c: Cache, b: nat): (r: Option<Cache>)
    ensures r.Some? ==> b in r.value.pages && |r.value.disk| == |c.disk|
  {
    if b in c.pages then Some(c) else Fault(c, b)
  }

  /** flush_block */
  function Flush(c: Cache, b: nat): (r: Cache)
    requires b < |c.disk|
    ensures |r.disk| == |c.disk|
  {
    if b !in c.pages || !c.pages[b].dirty then c
    else Cache(c.disk[b := c.pages[b].data], c.pages[b := Page(c.pages[b].data, false)])
  }

  /** The loop of fs_sync. */
  function FlushFrom(c: Cache, i: nat): (r: Cache)
    ensures |r.disk| == |c.disk|
    decreases if i < |c.disk| then |c.disk| - i else 0
  {
    if i >= |c.disk| then c else FlushFrom(Flush(c, i), i + 1)
  }

  function FsSync(c: Cache): (r: Cache) {
    FlushFrom(c, 1)
  }

  /** Everything that was only in memory is gone. */
  function Drop(c: Cache): Cache {
    c.(pages := map[])
  }

  // ------------------------------------------------------------------
  // Contents
  // ------------------------------------------------------------------

  /** The two caches show the same contents. */
  ghost predicate SameContents(c: Cache, r: Cache) {
    |r.disk| == |c.disk| && forall b: nat | b < |c.disk| :: Logical(r, b) == Logical(c, b)
  }

  /** The blocks of the bitmap are there and marked in use, as check_bitmap
      asserts at boot. */
  ghost predicate BitmapInUse(c: Cache) {
    && 0 < |c.disk| && BitmapBlock(|c.disk| - 1) < |c.disk|
    && (forall m: nat | 2 <= m <= BitmapBlock(|c.disk| - 1) :: !IsFree(c, m))
  }

  lemma SameContentsFree(c: Cache, r: Cache, b: nat)
    requires SameContents(c, r)
    ensures IsFree(r, b) == IsFree(c, b)
  {
  }

  /** A page fault shows the same contents and keeps clean pages clean. */
  lemma {:induction false} FaultKeeps(c: Cache, b: nat)
    requires Coherent(c) && b !in c.pages && Fault(c, b).Some?
    ensures Coherent(Fault(c, b).value) && SameContents(c, Fault(c, b).value)
    ensures Fault(c, b).value.disk == c.disk
    decreases Unmapped(c)
  {
    MapInShrinks(c, b);
    var c1, m := MapIn(c, b), BitmapBlock(b);
    if m !in c1.pages {
      FaultKeeps(c1, m);
    }
  }

  lemma MapInKeeps(c: Cache, b: nat)
    requires Coherent(c) && b !in c.pages && b < |c.disk|
    ensures Coherent(MapIn(c, b)) && SameContents(c, MapIn(c, b))
  {
  }

  lemma SameContentsInUse(c: Cache, r: Cache)
    requires SameContents(c, r) && BitmapInUse(c)
    ensures BitmapInUse(r)
  {
    hide FreeBit, BitmapBlock;
    forall m: nat | 2 <= m <= BitmapBlock(|c.disk| - 1)
      ensures !IsFree(r, m)
    {
      SameContentsFree(c, r, m);
    }
  }

  lemma BitmapBlockBounds(n: nat, b: nat)
    requires b < n
    ensures 2 <= BitmapBlock(b) <= BitmapBlock(n - 1)
  {
  }

  /** A fault succeeds exactly on the blocks that exist and are in use. */
  lemma {:induction false} FaultSucceeds(c: Cache, b: nat)
    requires Coherent(c) && BitmapInUse(c) && b !in c.pages
    ensures Fault(c, b).Some? <==> b < |c.disk| && !IsFree(c, b)
    decreases Unmapped(c)
  {
    hide FreeBit, BitmapBlock;
    if b < |c.disk| {
      MapInShrinks(c, b);
      MapInKeeps(c, b);
      var c1, m := MapIn(c, b), BitmapBlock(b);
      SameContentsFree(c, c1, b);
      if m !in c1.pages {
        SameContentsInUse(c, c1);
        BitmapBlockBounds(|c.disk|, b);
        FaultSucceeds(c1, m);
        FaultKeeps(c1, m);
        SameContentsFree(c1, Fault(c1, m).value, b);
      }
    }
  }

  lemma FlushKeeps(c: Cache, b: nat)
    requires Coherent(c) && b < |c.disk|
    ensures var r := Flush(c, b);
            && Coherent(r) && SameContents(c, r) && r.pages.Keys == c.pages.Keys
            && r.disk[b] == Logical(c, b) && (b in r.pages ==> !r.pages[b].dirty)
            && (forall x: nat | x < |c.disk| && x != b :: r.disk[x] == c.disk[x])
            && (forall x: nat | x in c.pages && x != b :: r.pages[x] == c.pages[x])
  {
  }

  lemma {:induction false} FlushFromKeeps(c: Cache, i: nat)
    requires Coherent(c)
    ensures var r := FlushFrom(c, i);
            && Coherent(r) && SameContents(c, r)
            && (forall b: nat | i <= b < |c.disk| :: r.disk[b] == Logical(c, b))
            && (forall b: nat | b < i && b < |c.disk| :: r.disk[b] == c.disk[b])
    decreases if i < |c.disk| then |c.disk| - i else 0
  {
    if i < |c.disk| {
      FlushKeeps(c, i);
      var c1 := Flush(c, i);
      FlushFromKeeps(c1, i + 1);
      assert Logical(c1, i) == Logical(c, i);
    }
  }

  /** Durability: after fs_sync, losing the whole cache and reading again
      gives the same contents for every block but block 0. */
  lemma SyncThenDrop(c: Cache)
    requires Coherent(c)
    ensures var r := Drop(FsSync(c));
            Coherent(r) && forall b: nat | 1 <= b < |c.disk| :: Logical(r, b) == Logical(c, b)
  {
    FlushFromKeeps(c, 1);
  }

  // ------------------------------------------------------------------
  // Runs: the cache is a plain array of blocks
  // ------------------------------------------------------------------

  datatype Op = Load(b: nat) | Store(b: nat, data: Bytes) | FlushBlock(b: nat) | Sync

  /** diskaddr refuses block 0 and blocks past the end. */
  predicate Addressable(n: nat, op: Op) {
    op.Sync? || 0 < op.b < n
  }

  /** None is a panic. */
  function Step(c: Cache, op: Op): (r: Option<Cache>)
    ensures r.Some? ==> |r.value.disk| == |c.disk|
  {
    if !Addressable(|c.disk|, op) then None
    else
      match op
      case Load(b) => Touch(c, b)
      case Store(b, data) =>
        (match Touch(c, b)
         case None => None
         case Some(c1) => Some(c1.(pages := c1.pages[b := Page(data, true)])))
      case FlushBlock(b) => Some(Flush(c, b))
      case Sync => Some(FsSync(c))
  }

  /** A step goes through exactly on a block that exists, other than block 0,
      and that is in the cache or in use, or is only to be flushed. */
  lemma StepSucceeds(c: Cache, op: Op)
    requires Coherent(c) && BitmapInUse(c)
    ensures Step(c, op).Some? <==>
              op.Sync? || (0 < op.b < |c.disk| && (op.FlushBlock? || op.b in c.pages || !IsFree(c, op.b)))
  {
    if (op.Load? || op.Store?) && op.b !in c.pages {
      FaultSucceeds(c, op.b);
    }
  }

  function Contents(c: Cache): (r: seq<Bytes>)
    ensures |r| == |c.disk| && forall b: nat | b < |r| :: r[b] == Logical(c, b)
  {
    seq(|c.disk|, b requires 0 <= b < |c.disk| => Logical(c, b))
  }

  function MemStep(m: seq<Bytes>, op: Op): seq<Bytes> {
    if op.Store? && op.b < |m| then m[op.b := op.data] else m
  }

  /** Each step keeps the cache coherent and does to the visible contents what
      it would do to an array in memory. */
  lemma StepRefines(c: Cache, op: Op)
    requires Coherent(c) && Step(c, op).Some?
    ensures Coherent(Step(c, op).value) && Contents(Step(c, op).value) == MemStep(Contents(c), op)
  {
    match op
    case Load(b) =>
      if b !in c.pages {
        FaultKeeps(c, b);
      }
      assert Contents(Step(c, op).value) == Contents(c);
    case Store(b, data) =>
      if b !in c.pages {
        FaultKeeps(c, b);
      }
      var c1 := Touch(c, b).value;
      assert SameContents(c, c1);
      assert Contents(Step(c, op).value) == Contents(c)[b := data];
    case FlushBlock(b) =>
      FlushKeeps(c, b);
      assert Contents(Step(c, op).value) == Contents(c);
    case Sync =>
      FlushFromKeeps(c, 1);
      assert Contents(Step(c, op).value) == Contents(c);
  }

  function Run(c: Cache, ops: seq<Op>): Option<Cache>
    decreases |ops|
  {
    if ops == [] then Some(c)
    else
      match Step(c, ops[0])
      case None => None
      case Some(c1) => Run(c1, ops[1..])
  }

  function MemRun(m: seq<Bytes>, ops: seq<Op>): seq<Bytes>
    decreases |ops|
  {
    if ops == [] then m else MemRun(MemStep(m, ops[0]), ops[1..])
  }

  /** Over every run that does not panic, the cache stays coherent and its
      contents are those of a plain array of blocks. */
  lemma {:induction false} RunRefines(c: Cache, ops: seq<Op>)
    requires Coherent(c) && Run(c, ops).Some?
    ensures Coherent(Run(c, ops).value) && Contents(Run(c, ops).value) == MemRun(Contents(c), ops)
    decreases |ops|
  {
    hide Step, Contents, Coherent;
    if ops != [] {
      StepRefines(c, ops[0]);
      RunRefines(Step(c, ops[0]).value, ops[1..]);
    }
  }

  /** After any run that ends in a sync, a crash loses nothing. */
  lemma CrashAfterSync(c: Cache, ops: seq<Op>, b: nat)
    requires Coherent(c) && Run(c, ops).Some? && 1 <= b < |c.disk|
    ensures |Run(c, ops).value.disk| == |c.disk| == |MemRun(Contents(c), ops)|
    ensures Logical(Drop(FsSync(Run(c, ops).value)), b) == MemRun(Contents(c), ops)[b]
  {
    RunRefines(c, ops);
    RunSize(c, ops);
    SyncThenDrop(Run(c, ops).value);
  }

  lemma {:induction false} RunSize(c: Cache, ops: seq<Op>)
    requires Run(c, ops).Some?
    ensures |Run(c, ops).value.disk| == |c.disk|
    decreases |ops|
  {
    if ops != [] {
      RunSize(Step(c, ops[0]).value, ops[1..]);
    }
  }

  /** fs/bc.c as it runs. The dirty bit is set by the hardware on a store. */
  class DiskCache {
    const disk: array<Bytes>
    var pages: map<nat, Page>

    ghost function State(): Cache
      reads this, disk
    {
      Cache(disk[..], pages)
    }

    constructor (blocks: seq<Bytes>)
      ensures State() == Cache(blocks, map[]) && fresh(disk) && Coherent(State())
    {
      disk := new Bytes[|blocks|](i requires 0 <= i < |blocks| => blocks[i]);
      pages := map[];
      new;
      assert disk[..] == blocks;
    }

    /** diskaddr; false is the panic. */
    method Diskaddr(b: nat) returns (ok: bool)
      ensures ok == Addressable(disk.Length, Load(b))
    {
      ok := b != 0 && b < disk.Length;
    }

    /** bc_pgfault; false is a panic. */
    method BcPgfault(b: nat) returns (ok: bool)
      requires b !in pages
      modifies this`pages
      ensures (if ok then Some(State()) else None) == Fault(old(State()), b)
      decreases Unmapped(State()), 0
    {
      if b >= disk.Length {
        return false;
      }
      MapInShrinks(State(), b);
      pages := pages[b := Page(disk[b], false)];
      var free;
      ok, free := BlockIsFree(b);
      ok := ok && !free;
    }

    /** block_is_free; its read of the bitmap may fault in its turn. */
    method BlockIsFree(b: nat) returns (ok: bool, free: bool)
      modifies this`pages
      ensures var m := BitmapBlock(b);
              var c := if m in old(pages) then Some(old(State())) else Fault(old(State()), m);
              (if ok then Some(State()) else None) == c
      ensures ok ==> free == IsFree(State(), b)
      decreases Unmapped(State()), 1
    {
      var m := BitmapBlock(b);
      ok := true;
      if m !in pages {
        ok := BcPgfault(m);
      }
      free := ok && b < disk.Length && m < disk.Length && FreeBit(pages[m].data, b);
    }

    method FlushBlock(b: nat)
      requires b < disk.Length
      modifies this`pages, disk
      ensures State() == Flush(old(State()), b)
    {
      if b !in pages || !pages[b].dirty {
        return;
      }
      disk[b] := pages[b].data;
      pages := pages[b := Page(pages[b].data, false)];
      assert disk[..] == old(disk[..])[b := old(pages)[b].data];
    }

    method Sync()
      modifies this`pages, disk
      ensures State() == FsSync(old(State()))
    {
      var i := 1;
      while i < disk.Length
        invariant 1 <= i && FlushFrom(State(), i) == old(FsSync(State()))
        decreases if i < disk.Length then disk.Length - i else 0
      {
        FlushBlock(i);
        i := i + 1;
      }
    }

    /** A store into block b; false is a panic. */
    method Put(b: nat, data: Bytes) returns (ok: bool)
      modifies this`pages
      ensures (if ok then Some(State()) else None) == Step(old(State()), Store(b, data))
    {
      ok := Diskaddr(b);
      if ok && b !in pages {
        ok := BcPgfault(b);
      }
      if ok {
        pages := pages[b := Page(data, true)];
      }
    }

    /** A load from block b. */
    method Get(b: nat) returns (ok: bool, data: Bytes)
      requires Coherent(State())
      modifies this`pages
      ensures (if ok then Some(State()) else None) == Step(old(State()), Load(b))
      ensures ok ==> b < |old(State()).disk| && data == Logical(old(State()), b)
    {
      data := seq(BLKSIZE, _ => 0);
      ok := Diskaddr(b);
      if ok && b !in pages {
        ok := BcPgfault(b);
        if ok {
          FaultKeeps(old(State()), b);
          assert Logical(State(), b) == pages[b].data;
        }
      }
      if ok {
        data := pages[b].data;
      }
    }
  }
}
