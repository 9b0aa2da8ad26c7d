/** Block ownership in the file server (fs/fs.c): the bitmap, the direct and
  indirect block maps, growth and truncation.

  `struct File` records are held apart from the blocks. A block is 4096 bytes;
  an indirect block is read as little-endian words.
 */
module FsBlocks {

  const BLKSIZE: nat := 4096
  const NDIRECT: nat := 10
  const NINDIRECT: nat := 1024
  const MAXBLOCKS: nat := 1034
  // The slot number of f_indirect itself.
  const INDIRECT: nat := 1034
  const UINT_LIMIT: nat := 0x1_0000_0000
  // Largest size whose rounding up to a block still fits an off_t.
  const MAXOFF: nat := 0x7FFF_F000

  type byte = x: int | 0 <= x < 256

  type Bytes = s: seq<byte> | |s| == BLKSIZE witness seq(BLKSIZE, _ => 0)

  type Direct = s: seq<nat> | |s| == NDIRECT witness seq(NDIRECT, _ => 0)

  datatype File = File(size: nat, direct: Direct, indirect: nat)

  datatype Fs = Fs(free: seq<bool>, blocks: seq<Bytes>, files: seq<File>, reserved: nat)

  /** 0 and the error returns; Panic is diskaddr refusing a block number. */
  datatype Res = Ok | NoDisk | NotFound | Inval | Panic

  // ------------------------------------------------------------------
  // Words in a block
  // ------------------------------------------------------------------

  function Word(s: Bytes, k: nat): nat
    requires k < NINDIRECT
  {
    var b0: int, b1: int, b2: int, b3: int := s[4 * k], s[4 * k + 1], s[4 * k + 2], s[4 * k + 3];
    b0 + 0x100 * b1 + 0x1_0000 * b2 + 0x100_0000 * b3
  }

  function SetWord(s: Bytes, k: nat, w: nat): Bytes
    requires k < NINDIRECT && w < UINT_LIMIT
  {
    s[4 * k := w % 0x100][4 * k + 1 := w / 0x100 % 0x100][4 * k + 2 := w / 0x1_0000 % 0x100]
     [4 * k + 3 := w / 0x100_0000]
  }

  lemma Digits(w: nat)
    requires w < UINT_LIMIT
    ensures w == w % 0x100 + 0x100 * (w / 0x100 % 0x100) + 0x1_0000 * (w / 0x1_0000 % 0x100)
                 + 0x100_0000 * (w / 0x100_0000)
  {
  }

  lemma WordOfSetWord(s: Bytes, k: nat, w: nat, j: nat)
    requires k < NINDIRECT && w < UINT_LIMIT && j < NINDIRECT
    ensures Word(SetWord(s, k, w), j) == if j == k then w else Word(s, j)
  {
    Digits(w);
  }

  lemma ZeroWord(s: Bytes, k: nat)
    requires k < NINDIRECT
    ensures Word(s, k) == 0 <==> s[4 * k] == 0 && s[4 * k + 1] == 0 && s[4 * k + 2] == 0 && s[4 * k + 3] == 0
  {
  }

  // ------------------------------------------------------------------
  // Pointers
  // ------------------------------------------------------------------

  ghost predicate Sized(s: Fs) {
    && |s.free| == |s.blocks| < UINT_LIMIT && s.reserved <= |s.blocks|
    && (forall f | 0 <= f < |s.files| :: s.files[f].size <= MAXOFF)
  }

  /** The number in slot k of file f: f_direct, then the indirect block, then
      f_indirect; 0 where there is no indirect block. */
  function Ptr(s: Fs, f: nat, k: nat): nat
    requires f < |s.files| && k <= INDIRECT
  {
    var file := s.files[f];
    if k < NDIRECT then file.direct[k]
    else if k == INDIRECT then file.indirect
    else if 0 < file.indirect < |s.blocks| then Word(s.blocks[file.indirect], k - NDIRECT)
    else 0
  }

  function SetPtr(s: Fs, f: nat, k: nat, b: nat): Fs
    requires f < |s.files| && k <= INDIRECT && b < UINT_LIMIT
    requires NDIRECT <= k < INDIRECT ==> s.files[f].indirect < |s.blocks|
  {
    var file := s.files[f];
    if k < NDIRECT then s.(files := s.files[f := file.(direct := file.direct[k := b])])
    else if k == INDIRECT then s.(files := s.files[f := file.(indirect := b)])
    else s.(blocks := s.blocks[file.indirect := SetWord(s.blocks[file.indirect], k - NDIRECT, b)])
  }

  /** (size + BLKSIZE - 1) / BLKSIZE */
  function BlocksFor(size: nat): nat {
    (size + BLKSIZE - 1) / BLKSIZE
  }

  /** The fewest blocks that hold so many bytes. */
  lemma BlocksForHolds(size: nat, k: nat)
    ensures BlocksFor(size) <= k <==> size <= k * BLKSIZE
  {
  }

  ghost predicate InRange(s: Fs) {
    forall f: nat, k: nat | f < |s.files| && k <= INDIRECT && Ptr(s, f, k) != 0 ::
      s.reserved <= Ptr(s, f, k) < |s.free| && !s.free[Ptr(s, f, k)]
  }

  ghost predicate Once(s: Fs) {
    forall f: nat, k: nat, g: nat, j: nat
      | f < |s.files| && k <= INDIRECT && g < |s.files| && j <= INDIRECT && Ptr(s, f, k) == Ptr(s, g, j) != 0 ::
      f == g && k == j
  }

  ghost predicate TailZero(s: Fs) {
    forall f: nat, k: nat | f < |s.files| && BlocksFor(s.files[f].size) <= k < INDIRECT :: Ptr(s, f, k) == 0
  }

  predicate Refers(s: Fs, f: nat, k: nat, b: nat) {
    f < |s.files| && k <= INDIRECT && Ptr(s, f, k) == b
  }

  ghost predicate Held(s: Fs, b: nat) {
    exists f: nat, k: nat :: Refers(s, f, k, b)
  }

  /** Every block is reserved, or free, or some file's. */
  ghost predicate NoLeak(s: Fs) {
    && (forall b | 0 <= b < s.reserved :: b < |s.free| ==> !s.free[b])
    && (forall b: nat | s.reserved <= b < |s.free| && !s.free[b] :: Held(s, b))
  }

  /** The ownership invariant. Blocks 0 and 1 are always reserved. */
  ghost predicate Owned(s: Fs) {
    Sized(s) && 2 <= s.reserved && InRange(s) && Once(s) && TailZero(s) && NoLeak(s)
  }

  // ------------------------------------------------------------------
  // The bitmap
  // ------------------------------------------------------------------

  /** The first free block from b on, or |s.free|. */
  function FirstFree(free: seq<bool>, b: nat): (r: nat)
    requires b <= |free|
    ensures b <= r <= |free| && (r < |free| ==> free[r]) && (forall i | b <= i < r :: !free[i])
    decreases |free| - b
  {
    if b == |free| || free[b] then b else FirstFree(free, b + 1)
  }

  /** alloc_block: a block number, or |s.free| for -E_NO_DISK. */
  function AllocBlock(s: Fs): (r: (Fs, nat))
    ensures r.1 <= |s.free|
    ensures r.0 == if r.1 < |s.free| then s.(free := s.free[r.1 := false]) else s
  {
    var b := FirstFree(s.free, 0);
    (if b < |s.free| then s.(free := s.free[b := false]) else s, b)
  }

  // ------------------------------------------------------------------
  // file_block_walk, file_get_block
  // ------------------------------------------------------------------

  function FileBlockWalk(s: Fs, f: nat, bno: nat, alloc: bool): (r: (Fs, Res))
    requires Sized(s) && f < |s.files|
    ensures Sized(r.0) && |r.0.files| == |s.files| && |r.0.blocks| == |s.blocks|
    ensures r.1 == Ok ==> bno < MAXBLOCKS && (bno < NDIRECT || 0 < r.0.files[f].indirect < |s.blocks|)
  {
    if bno >= MAXBLOCKS then (s, Inval)
    else if bno < NDIRECT then (s, Ok)
    else if s.files[f].indirect == 0 then
      if !alloc then (s, NotFound)
      else
        var (s1, b) := AllocBlock(s);
        if b == |s.free| then (s, NoDisk)
        else
          // a block number 0 would make diskaddr panic
          var s2 := SetPtr(s1, f, INDIRECT, b);
          (s2, if b == 0 then Panic else Ok)
    else (s, if s.files[f].indirect < |s.blocks| then Ok else Panic)
  }

  function FileGetBlock(s: Fs, f: nat, bno: nat): (r: (Fs, Res))
    requires Sized(s) && f < |s.files|
    ensures Sized(r.0) && |r.0.files| == |s.files| && |r.0.blocks| == |s.blocks|
    ensures r.1 == Ok ==> bno < MAXBLOCKS && 0 < Ptr(r.0, f, bno) < |s.blocks|
  {
    var (s1, r) := FileBlockWalk(s, f, bno, true);
    if r != Ok then (s1, r)
    else if Ptr(s1, f, bno) != 0 then (s1, if Ptr(s1, f, bno) < |s.blocks| then Ok else Panic)
    else
      var (s2, b) := AllocBlock(s1);
      if b == |s1.free| then (s1, NoDisk)
      else
        var s3 := SetPtr(s2, f, bno, b);
        PtrOfSetPtr(s2, f, bno, b, f, bno);
        (s3, if b == 0 then Panic else Ok)
  }

  /** Storing a data pointer changes that slot only, unless another file's
      indirect block is the same block. */
  lemma PtrOfSetPtr(s: Fs, f: nat, k: nat, b: nat, g: nat, j: nat)
    requires Sized(s) && f < |s.files| && k < INDIRECT && g < |s.files| && j <= INDIRECT && b < UINT_LIMIT
    requires k >= NDIRECT ==> 0 < s.files[f].indirect < |s.blocks|
    requires k >= NDIRECT && g != f ==> s.files[g].indirect != s.files[f].indirect
    ensures Ptr(SetPtr(s, f, k, b), g, j) == if g == f && j == k then b else Ptr(s, g, j)
  {
    if k >= NDIRECT && NDIRECT <= j < INDIRECT && g == f {
      WordOfSetWord(s.blocks[s.files[f].indirect], k - NDIRECT, b, j - NDIRECT);
    }
  }

  /** No block is free. */
  predicate DiskFull(s: Fs) {
    forall b: nat | b < |s.free| :: !s.free[b]
  }

  /** Block 0 is marked free, and would be taken first. */
  predicate BootBlockFree(s: Fs) {
    |s.free| > 0 && s.free[0]
  }

  lemma AllocAnswers(s: Fs)
    ensures var b := AllocBlock(s).1; (b == |s.free| <==> DiskFull(s)) && (b == 0 < |s.free| <==> BootBlockFree(s))
  {
  }

  /** What file_block_walk answers, on any disk, sound or not. */
  lemma WalkAnswers(s: Fs, f: nat, bno: nat, alloc: bool)
    requires Sized(s) && f < |s.files|
    ensures
      var r := FileBlockWalk(s, f, bno, alloc).1;
      var ind := s.files[f].indirect;
      var needs := NDIRECT <= bno < MAXBLOCKS && ind == 0;
      && (r == Inval <==> bno >= MAXBLOCKS)
      && (r == NotFound <==> needs && !alloc)
      && (r == NoDisk <==> needs && alloc && DiskFull(s))
      && (r == Panic <==>
            (needs && alloc && BootBlockFree(s)) || (NDIRECT <= bno < MAXBLOCKS && ind != 0 && ind >= |s.blocks|))
  {
    AllocAnswers(s);
  }

  // ------------------------------------------------------------------
  // Taking a block
  // ------------------------------------------------------------------

  datatype Option<T> = None | Some(value: T)

  /** The data block in slot k, if there is one. */
  function Content(s: Fs, f: nat, k: nat): Option<Bytes>
    requires f < |s.files| && k < INDIRECT
  {
    if 0 < Ptr(s, f, k) < |s.blocks| then Some(s.blocks[Ptr(s, f, k)]) else None
  }

  ghost predicate SameShape(s: Fs, r: Fs) {
    && |r.files| == |s.files| && |r.free| == |s.free| && |r.blocks| == |s.blocks| && r.reserved == s.reserved
    && Sized(r)
  }

  ghost predicate SameSizes(s: Fs, r: Fs) {
    SameShape(s, r) && forall g | 0 <= g < |s.files| :: r.files[g].size == s.files[g].size
  }

  /** No data block that was there is lost or altered. */
  ghost predicate KeepsData(s: Fs, r: Fs) {
    && |r.files| == |s.files|
    && (forall g: nat, j: nat | g < |s.files| && j < INDIRECT && Content(s, g, j).Some? ::
      Content(r, g, j) == Content(s, g, j))
  }

  /** All pointers but the one in slot k of f, which is now b, are as before. */
  ghost predicate OnlyPtr(s: Fs, r: Fs, f: nat, k: nat, b: nat)
    requires f < |s.files| && k <= INDIRECT
  {
    && SameSizes(s, r) && Ptr(r, f, k) == b
    && (forall g: nat, j: nat | g < |s.files| && j <= INDIRECT && !(g == f && j == k) :: Ptr(r, g, j) == Ptr(s, g, j))
  }

  lemma GainsRefs(s: Fs, r: Fs, f: nat, k: nat, b: nat)
    requires Owned(s) && f < |s.files| && k <= INDIRECT && OnlyPtr(s, r, f, k, b)
    requires 0 < b < |s.free| && s.free[b] && r.free == s.free[b := false]
    ensures InRange(r) && Once(r)
  {
    assert s.reserved <= b;
    forall g: nat, j: nat | g < |r.files| && j <= INDIRECT && Ptr(r, g, j) != 0
      ensures s.reserved <= Ptr(r, g, j) < |r.free| && !r.free[Ptr(r, g, j)]
      ensures Ptr(r, g, j) == b <==> g == f && j == k
    {
    }
  }

  lemma GainsNoLeak(s: Fs, r: Fs, f: nat, k: nat, b: nat)
    requires NoLeak(s) && f < |s.files| && k <= INDIRECT && OnlyPtr(s, r, f, k, b) && Ptr(s, f, k) == 0
    requires 0 < b < |s.free| && s.free[b] && r.free == s.free[b := false] && 2 <= s.reserved
    ensures NoLeak(r)
  {
    forall c: nat | r.reserved <= c < |r.free| && !r.free[c]
      ensures Held(r, c)
    {
      if c == b {
        assert Refers(r, f, k, b);
      } else {
        assert Held(s, c);
        var g: nat, j: nat :| Refers(s, g, j, c);
        assert Refers(r, g, j, c);
      }
    }
  }

  lemma GainsOwned(s: Fs, r: Fs, f: nat, k: nat, b: nat)
    requires Owned(s) && f < |s.files| && k <= INDIRECT && OnlyPtr(s, r, f, k, b) && Ptr(s, f, k) == 0
    requires 0 < b < |s.free| && s.free[b] && r.free == s.free[b := false]
    requires k == INDIRECT || k < BlocksFor(s.files[f].size)
    ensures Owned(r)
  {
    GainsRefs(s, r, f, k, b);
    GainsNoLeak(s, r, f, k, b);
    forall g: nat, j: nat | g < |r.files| && BlocksFor(r.files[g].size) <= j < INDIRECT
      ensures Ptr(r, g, j) == 0
    {
      assert Ptr(s, g, j) == 0;
    }
  }

  predicate Zeroed(b: Bytes) {
    forall i | 0 <= i < BLKSIZE :: b[i] == 0
  }

  /** The indirect block that file_block_walk would take for f. */
  ghost predicate TakesIndirect(s: Fs, f: nat, bno: nat)
    requires Sized(s) && f < |s.files|
  {
    NDIRECT <= bno < INDIRECT && s.files[f].indirect == 0 && FirstFree(s.free, 0) < |s.free|
  }

  /** What the code leaves to luck: a block taken as indirect reads as zeros. */
  ghost predicate Lucky(s: Fs, f: nat, bno: nat)
    requires Sized(s) && f < |s.files|
  {
    TakesIndirect(s, f, bno) ==> Zeroed(s.blocks[FirstFree(s.free, 0)])
  }

  lemma WalkTakesIndirect(s: Fs, f: nat, bno: nat)
    requires Owned(s) && f < |s.files| && TakesIndirect(s, f, bno) && Lucky(s, f, bno)
    ensures var b := FirstFree(s.free, 0); var r := FileBlockWalk(s, f, bno, true).0;
            r == s.(free := s.free[b := false], files := s.files[f := s.files[f].(indirect := b)])
            && OnlyPtr(s, r, f, INDIRECT, b) && s.reserved <= b
  {
    var b := FirstFree(s.free, 0);
    var r := FileBlockWalk(s, f, bno, true).0;
    assert s.reserved <= b;
    forall j: nat | NDIRECT <= j < INDIRECT
      ensures Ptr(r, f, j) == 0
    {
      ZeroWord(s.blocks[b], j - NDIRECT);
    }
  }

  /** Taking an indirect block keeps the invariant exactly when the block
      reads as zeros: stale words in it would be read as pointers. */
  lemma IndirectMustReadZero(s: Fs, f: nat, bno: nat)
    requires Owned(s) && f < |s.files| && TakesIndirect(s, f, bno)
    ensures Owned(FileBlockWalk(s, f, bno, true).0) <==> Zeroed(s.blocks[FirstFree(s.free, 0)])
  {
    var b := FirstFree(s.free, 0);
    var r := FileBlockWalk(s, f, bno, true).0;
    if Zeroed(s.blocks[b]) {
      WalkTakesIndirect(s, f, bno);
      GainsOwned(s, r, f, INDIRECT, b);
    } else {
      var i :| 0 <= i < BLKSIZE && s.blocks[b][i] != 0;
      ZeroWord(s.blocks[b], i / 4);
      assert i == 4 * (i / 4) + i % 4;
      StalePointer(s, f, bno, NDIRECT + i / 4);
    }
  }

  lemma StalePointer(s: Fs, f: nat, bno: nat, k: nat)
    requires Owned(s) && f < |s.files| && TakesIndirect(s, f, bno) && NDIRECT <= k < INDIRECT
    requires Word(s.blocks[FirstFree(s.free, 0)], k - NDIRECT) != 0
    ensures !Owned(FileBlockWalk(s, f, bno, true).0)
  {
    var b := FirstFree(s.free, 0);
    var r := FileBlockWalk(s, f, bno, true).0;
    var w := Word(s.blocks[b], k - NDIRECT);
    assert r.files[f].indirect == b == Ptr(r, f, INDIRECT);
    assert s.reserved <= b && Ptr(r, f, k) == w;
    if s.reserved <= w < |s.free| && !s.free[w] {
      assert Held(s, w);
      var g: nat, j: nat :| Refers(s, g, j, w);
      assert Ptr(r, g, j) == w && !(g == f && j == k);
    }
  }

  lemma TakesDataBlock(s: Fs, f: nat, k: nat)
    requires Owned(s) && f < |s.files| && k < INDIRECT && Ptr(s, f, k) == 0
    requires k >= NDIRECT ==> s.files[f].indirect != 0
    requires FirstFree(s.free, 0) < |s.free|
    ensures var b := FirstFree(s.free, 0);
            0 < b && (k >= NDIRECT ==> s.files[f].indirect < |s.blocks|)
            && OnlyPtr(s, SetPtr(AllocBlock(s).0, f, k, b), f, k, b)
  {
    var b := FirstFree(s.free, 0);
    assert s.reserved <= b;
    assert Ptr(s, f, INDIRECT) == s.files[f].indirect;
    var s1 := AllocBlock(s).0;
    forall g: nat, j: nat | g < |s.files| && j <= INDIRECT
      ensures Ptr(SetPtr(s1, f, k, b), g, j) == if g == f && j == k then b else Ptr(s, g, j)
    {
      assert Ptr(s1, g, j) == Ptr(s, g, j);
      assert Ptr(s, g, INDIRECT) == s.files[g].indirect;
      PtrOfSetPtr(s1, f, k, b, g, j);
    }
  }

  /** Storing a pointer where there was none touches no data block: an
      indirect block is nobody's data. */
  lemma PointerKeepsData(s: Fs, r: Fs, f: nat, k: nat, b: nat)
    requires Owned(s) && f < |s.files| && k <= INDIRECT && OnlyPtr(s, r, f, k, b) && Ptr(s, f, k) == 0
    requires forall c | 0 <= c < |s.blocks| && c != s.files[f].indirect :: r.blocks[c] == s.blocks[c]
    ensures KeepsData(s, r)
  {
    forall g: nat, j: nat | g < |s.files| && j < INDIRECT && Content(s, g, j).Some?
      ensures Content(r, g, j) == Content(s, g, j)
    {
      assert Ptr(s, f, INDIRECT) == s.files[f].indirect;
      assert Ptr(s, g, j) != s.files[f].indirect;
    }
  }

  /** file_block_walk with alloc set. */
  lemma WalkSpec(s: Fs, f: nat, bno: nat)
    requires Owned(s) && f < |s.files| && Lucky(s, f, bno)
    ensures var (r, res) := FileBlockWalk(s, f, bno, true);
            && Owned(r) && SameSizes(s, r) && KeepsData(s, r)
            && (res == Inval <==> bno >= MAXBLOCKS) && res in {Ok, NoDisk, Inval}
            && (res == NoDisk ==> r == s && FirstFree(s.free, 0) == |s.free|)
            && (res == Ok ==> forall j: nat | j < INDIRECT :: Ptr(r, f, j) == Ptr(s, f, j))
            && (res == Ok && bno >= NDIRECT ==> r.files[f].indirect != 0)
  {
    var (r, res) := FileBlockWalk(s, f, bno, true);
    if TakesIndirect(s, f, bno) {
      WalkTakesIndirect(s, f, bno);
      var b := FirstFree(s.free, 0);
      GainsOwned(s, r, f, INDIRECT, b);
      PointerKeepsData(s, r, f, INDIRECT, b);
    } else {
      assert Ptr(s, f, INDIRECT) == s.files[f].indirect;
    }
  }

  /** file_get_block inside the file's size never panics, keeps the
      invariant and every block's data, and fails only past the largest block
      number or with the disk full. */
  lemma GetBlockSpec(s: Fs, f: nat, bno: nat)
    requires Owned(s) && f < |s.files| && Lucky(s, f, bno) && bno < BlocksFor(s.files[f].size)
    ensures var (r, res) := FileGetBlock(s, f, bno);
            && Owned(r) && SameSizes(s, r) && KeepsData(s, r)
            && (res == Inval <==> bno >= MAXBLOCKS) && res in {Ok, NoDisk, Inval}
            && (res == NoDisk ==> FirstFree(r.free, 0) == |r.free|)
            && (res == Ok ==> Content(r, f, bno).Some?)
  {
    WalkSpec(s, f, bno);
    var (s1, res) := FileBlockWalk(s, f, bno, true);
    if res == Ok {
      if Ptr(s1, f, bno) == 0 && FirstFree(s1.free, 0) < |s1.free| {
        var b := FirstFree(s1.free, 0);
        TakesDataBlock(s1, f, bno);
        var r := SetPtr(AllocBlock(s1).0, f, bno, b);
        GainsOwned(s1, r, f, bno, b);
        PointerKeepsData(s1, r, f, bno, b);
      } else {
        assert Ptr(s1, f, bno) != 0 ==> Content(s1, f, bno).Some?;
      }
    }
  }

  // ------------------------------------------------------------------
  // Truncation
  // ------------------------------------------------------------------

  /** free_block, then clearing the slot the number came from. A number past
      the disk would set a bit outside the bitmap; Panic stands for that too. */
  function FreeSlot(s: Fs, f: nat, k: nat): (r: (Fs, Res))
    requires Sized(s) && f < |s.files| && k <= INDIRECT
    ensures Sized(r.0) && |r.0.files| == |s.files|
  {
    var b := Ptr(s, f, k);
    if b == 0 || b >= |s.free| then (s, Panic) else (SetPtr(s.(free := s.free[b := true]), f, k, 0), Ok)
  }

  function FileFreeBlock(s: Fs, f: nat, bno: nat): (r: (Fs, Res))
    requires Sized(s) && f < |s.files|
    ensures Sized(r.0) && |r.0.files| == |s.files|
  {
    var res := FileBlockWalk(s, f, bno, false).1;
    if res != Ok || Ptr(s, f, bno) == 0 then (s, res) else FreeSlot(s, f, bno)
  }

  /** The loop of file_truncate_blocks; an error return only prints a warning. */
  function FreeBlocksFrom(s: Fs, f: nat, bno: nat, end: nat): (r: (Fs, Res))
    requires Sized(s) && f < |s.files|
    ensures Sized(r.0) && |r.0.files| == |s.files|
    decreases end - bno
  {
    if bno >= end then (s, Ok)
    else
      var (s1, res) := FileFreeBlock(s, f, bno);
      if res == Panic then (s1, Panic) else FreeBlocksFrom(s1, f, bno + 1, end)
  }

  function FileTruncateBlocks(s: Fs, f: nat, newsize: nat): (r: (Fs, Res))
    requires Sized(s) && f < |s.files|
    ensures Sized(r.0) && |r.0.files| == |s.files|
  {
    var (s1, res) := FreeBlocksFrom(s, f, BlocksFor(newsize), BlocksFor(s.files[f].size));
    if res == Ok && BlocksFor(newsize) <= NDIRECT && s1.files[f].indirect != 0 then FreeSlot(s1, f, INDIRECT)
    else (s1, res)
  }

  function FileSetSize(s: Fs, f: nat, newsize: nat): (r: (Fs, Res))
    requires Sized(s) && f < |s.files| && newsize <= MAXOFF
    ensures Sized(r.0) && |r.0.files| == |s.files|
  {
    var (s1, res) := if s.files[f].size > newsize then FileTruncateBlocks(s, f, newsize) else (s, Ok);
    if res == Panic then (s1, Panic) else (s1.(files := s1.files[f := s1.files[f].(size := newsize)]), Ok)
  }

  lemma LosesOwned(s: Fs, r: Fs, f: nat, k: nat)
    requires Owned(s) && f < |s.files| && k <= INDIRECT && OnlyPtr(s, r, f, k, 0) && Ptr(s, f, k) != 0
    requires Ptr(s, f, k) < |s.free| && r.free == s.free[Ptr(s, f, k) := true]
    ensures Owned(r)
  {
    var p := Ptr(s, f, k);
    assert s.reserved <= p;
    forall g: nat, j: nat | g < |r.files| && j <= INDIRECT && Ptr(r, g, j) != 0
      ensures s.reserved <= Ptr(r, g, j) < |r.free| && !r.free[Ptr(r, g, j)]
    {
      assert Ptr(s, g, j) == Ptr(r, g, j);
    }
    forall c: nat | r.reserved <= c < |r.free| && !r.free[c]
      ensures Held(r, c)
    {
      assert Held(s, c);
      var g: nat, j: nat :| Refers(s, g, j, c);
      assert Refers(r, g, j, c);
    }
    forall g: nat, j: nat | g < |r.files| && BlocksFor(r.files[g].size) <= j < INDIRECT
      ensures Ptr(r, g, j) == 0
    {
      assert Ptr(s, g, j) == 0;
    }
  }

  /** Data of all slots but slot k of f (INDIRECT for none) is untouched. */
  ghost predicate KeepsOthers(s: Fs, r: Fs, f: nat, k: nat) {
    && |r.files| == |s.files|
    && (forall g: nat, j: nat | g < |s.files| && j < INDIRECT && !(g == f && j == k) ::
      Content(r, g, j) == Content(s, g, j))
  }

  lemma FreeSlotSpec(s: Fs, f: nat, k: nat)
    requires Owned(s) && f < |s.files| && k <= INDIRECT && Ptr(s, f, k) != 0
    requires k == INDIRECT ==> forall j: nat | NDIRECT <= j < INDIRECT :: Ptr(s, f, j) == 0
    ensures var (r, res) := FreeSlot(s, f, k);
            res == Ok && Owned(r) && OnlyPtr(s, r, f, k, 0) && KeepsOthers(s, r, f, k)
            && r.free == s.free[Ptr(s, f, k) := true]
  {
    var b := Ptr(s, f, k);
    assert b < |s.free|;
    assert Ptr(s, f, INDIRECT) == s.files[f].indirect;
    var s1 := s.(free := s.free[b := true]);
    var r := SetPtr(s1, f, k, 0);
    forall g: nat, j: nat | g < |s.files| && j <= INDIRECT
      ensures Ptr(r, g, j) == if g == f && j == k then 0 else Ptr(s, g, j)
    {
      assert Ptr(s1, g, j) == Ptr(s, g, j);
      assert Ptr(s, g, INDIRECT) == s.files[g].indirect;
      if k < INDIRECT {
        PtrOfSetPtr(s1, f, k, 0, g, j);
      }
    }
    LosesOwned(s, r, f, k);
    forall g: nat, j: nat | g < |s.files| && j < INDIRECT && !(g == f && j == k)
      ensures Content(r, g, j) == Content(s, g, j)
    {
      assert Ptr(r, g, j) == Ptr(s, g, j);
      assert Ptr(s, g, j) != 0 ==> Ptr(s, g, j) != s.files[f].indirect;
    }
  }

  lemma FileFreeBlockSpec(s: Fs, f: nat, bno: nat)
    requires Owned(s) && f < |s.files|
    ensures var (r, res) := FileFreeBlock(s, f, bno);
            res in {Ok, NotFound, Inval} && Owned(r) && SameSizes(s, r) && KeepsOthers(s, r, f, bno)
            && (bno < MAXBLOCKS ==> Ptr(r, f, bno) == 0)
            && r.files[f].indirect == s.files[f].indirect
            && (res == Inval <==> bno >= MAXBLOCKS)
  {
    var (r, res) := FileFreeBlock(s, f, bno);
    assert Ptr(s, f, INDIRECT) == s.files[f].indirect;
    if bno < MAXBLOCKS && FileBlockWalk(s, f, bno, false).1 == Ok && Ptr(s, f, bno) != 0 {
      FreeSlotSpec(s, f, bno);
      assert Ptr(r, f, INDIRECT) == r.files[f].indirect;
    }
  }

  /** Slots of f from `from` on are cleared; everything else is as before. */
  ghost predicate Cut(s: Fs, r: Fs, f: nat, from: nat)
    requires f < |s.files|
  {
    && SameSizes(s, r)
    && (forall g: nat, j: nat | g < |s.files| && j < INDIRECT && !(g == f && j >= from) ::
      Content(r, g, j) == Content(s, g, j))
    && (forall j: nat | from <= j < INDIRECT :: Ptr(r, f, j) == 0)
  }

  lemma {:induction false} FreeBlocksFromSpec(s: Fs, f: nat, bno: nat, end: nat)
    requires Owned(s) && f < |s.files| && end == BlocksFor(s.files[f].size) && bno <= end
    ensures var (r, res) := FreeBlocksFrom(s, f, bno, end);
            res == Ok && Owned(r) && Cut(s, r, f, bno) && r.files[f].indirect == s.files[f].indirect
    decreases end - bno
  {
    if bno < end {
      FileFreeBlockSpec(s, f, bno);
      var s1 := FileFreeBlock(s, f, bno).0;
      FreeBlocksFromSpec(s1, f, bno + 1, end);
      var r := FreeBlocksFrom(s1, f, bno + 1, end).0;
      if bno < MAXBLOCKS {
        assert Content(r, f, bno) == Content(s1, f, bno) == None;
        PtrOrContent(r, f, bno);
      }
    } else {
      assert forall j: nat | bno <= j < INDIRECT :: Ptr(s, f, j) == 0;
    }
  }

  lemma PtrOrContent(s: Fs, f: nat, k: nat)
    requires Owned(s) && f < |s.files| && k < INDIRECT
    ensures Content(s, f, k) == None <==> Ptr(s, f, k) == 0
  {
  }

  lemma TruncateSpec(s: Fs, f: nat, newsize: nat)
    requires Owned(s) && f < |s.files| && newsize < s.files[f].size
    ensures var (r, res) := FileTruncateBlocks(s, f, newsize);
            res == Ok && Owned(r) && Cut(s, r, f, BlocksFor(newsize))
            && r.files[f].indirect == (if BlocksFor(newsize) <= NDIRECT then 0 else s.files[f].indirect)
  {
    var bno, end := BlocksFor(newsize), BlocksFor(s.files[f].size);
    FreeBlocksFromSpec(s, f, bno, end);
    var s1 := FreeBlocksFrom(s, f, bno, end).0;
    if bno <= NDIRECT && s1.files[f].indirect != 0 {
      assert Ptr(s1, f, INDIRECT) == s1.files[f].indirect;
      FreeSlotSpec(s1, f, INDIRECT);
      var r := FreeSlot(s1, f, INDIRECT).0;
      assert Ptr(r, f, INDIRECT) == r.files[f].indirect;
    }
  }

  /** file_set_size keeps the invariant, leaves every block below the new end
      and every other file's blocks alone, and frees all the others of f. */
  lemma SetSizeSpec(s: Fs, f: nat, newsize: nat)
    requires Owned(s) && f < |s.files| && newsize <= MAXOFF
    ensures var (r, res) := FileSetSize(s, f, newsize);
            && res == Ok && Owned(r) && SameShape(s, r) && r.files[f].size == newsize
            && (forall g: nat | g < |s.files| && g != f :: r.files[g].size == s.files[g].size)
            && (forall g: nat, j: nat | g < |s.files| && j < INDIRECT && !(g == f && j >= BlocksFor(newsize)) ::
                  Content(r, g, j) == Content(s, g, j))
            && (forall j: nat | BlocksFor(newsize) <= j < INDIRECT :: Content(r, f, j) == None)
            && (newsize < s.files[f].size && BlocksFor(newsize) <= NDIRECT ==> r.files[f].indirect == 0)
  {
    if s.files[f].size > newsize {
      TruncateSpec(s, f, newsize);
      ResizeOwned(FileTruncateBlocks(s, f, newsize).0, f, newsize);
    } else {
      ResizeOwned(s, f, newsize);
    }
  }

  lemma ResizeOwned(s: Fs, f: nat, newsize: nat)
    requires Owned(s) && f < |s.files| && newsize <= MAXOFF
    requires forall j: nat | BlocksFor(newsize) <= j < INDIRECT :: Ptr(s, f, j) == 0
    ensures var r := s.(files := s.files[f := s.files[f].(size := newsize)]);
            && Owned(r) && SameShape(s, r)
            && (forall g: nat, j: nat | g < |s.files| && j < INDIRECT :: Content(r, g, j) == Content(s, g, j))
            && (forall j: nat | BlocksFor(newsize) <= j < INDIRECT :: Content(r, f, j) == None)
  {
    var r := s.(files := s.files[f := s.files[f].(size := newsize)]);
    forall g: nat, j: nat | g < |s.files| && j <= INDIRECT
      ensures Ptr(r, g, j) == Ptr(s, g, j)
    {
    }
    forall b: nat | r.reserved <= b < |r.free| && !r.free[b]
      ensures Held(r, b)
    {
      assert Held(s, b);
      var g: nat, j: nat :| Refers(s, g, j, b);
      assert Refers(r, g, j, b);
    }
  }
}
