/** The disk formatter (fs/fsformat.c): a bump allocator over a zeroed image,
  files laid out one after the other, the root directory last, and the bitmap
  cleared up to the allocation mark.
 */
module Format {
  import opened FsBlocks
  import opened FileIo

  const MAX_DIR_ENTS: nat := 128
  const FILE_SIZE: nat := 256
  // Blocks 0 and 1, and the one bitmap block of a disk of at most 1024 blocks.
  const RESERVED: nat := 3

  /** The image being built; `pos` is blockof(diskpos), files[0] the root. */
  datatype Image = Image(pos: nat, blocks: seq<Bytes>, files: seq<File>)

  /** A record of zeros: the root, which lies on the zeroed image. */
  function NewFile(): File {
    File(0, seq(NDIRECT, _ => 0), 0)
  }

  /** alloc: the first block, or None for "out of disk blocks". */
  function Alloc(im: Image, bytes: nat): (r: Option<(Image, nat)>)
    ensures r.Some? ==> r.value.1 == im.pos && r.value.0 == im.(pos := im.pos + BlocksFor(bytes))
    ensures r.Some? ==> im.pos + BlocksFor(bytes) < |im.blocks|
  {
    if im.pos + BlocksFor(bytes) >= |im.blocks| then None
    else Some((im.(pos := im.pos + BlocksFor(bytes)), im.pos))
  }

  /** Block k of a file's bytes, with zeros after its end. */
  function Padded(data: seq<byte>, k: nat): Bytes {
    seq(BLKSIZE, i requires 0 <= i < BLKSIZE => if k * BLKSIZE + i < |data| then data[k * BLKSIZE + i] else 0)
  }

  function FilledBlock(blocks: seq<Bytes>, start: nat, data: seq<byte>, b: nat): Bytes
    requires b < |blocks|
  {
    if start <= b < start + BlocksFor(|data|) then Padded(data, b - start) else blocks[b]
  }

  /** readn into freshly allocated blocks. */
  function Filled(blocks: seq<Bytes>, start: nat, data: seq<byte>): (r: seq<Bytes>)
    ensures |r| == |blocks| && forall b: nat | b < |r| :: r[b] == FilledBlock(blocks, start, data, b)
  {
    seq(|blocks|, b requires 0 <= b < |blocks| => FilledBlock(blocks, start, data, b))
  }

  /** f_direct after the first loop of finishfile: the rest stays as it was. */
  function DirectRun(was: Direct, start: nat, nb: nat): Direct {
    seq(NDIRECT, i requires 0 <= i < NDIRECT => if i < nb then start + i else was[i])
  }

  /** The second loop of finishfile, from slot i on. */
  function IndirectRun(s: Bytes, start: nat, i: nat, nb: nat): Bytes
    requires NDIRECT <= i && nb <= MAXBLOCKS && start + MAXBLOCKS < UINT_LIMIT
    decreases nb - i
  {
    if i >= nb then s else IndirectRun(SetWord(s, i - NDIRECT, start + i), start, i + 1, nb)
  }

  /** finishfile: it stores the pointers the file needs and no others. */
  function FinishFile(im: Image, f: nat, start: nat, len: nat): (r: Option<Image>)
    requires f < |im.files| && BlocksFor(len) <= MAXBLOCKS && start + MAXBLOCKS < UINT_LIMIT
    ensures r.Some? ==> |r.value.files| == |im.files| && |r.value.blocks| == |im.blocks|
  {
    var nb := BlocksFor(len);
    var file := im.files[f].(size := len, direct := DirectRun(im.files[f].direct, start, nb));
    if nb < NDIRECT then Some(im.(files := im.files[f := file]))
    else
      match Alloc(im, BLKSIZE)
      case None => None
      case Some((im1, ind)) =>
        Some(im1.(files := im.files[f := file.(indirect := ind)],
                  blocks := im.blocks[ind := IndirectRun(im.blocks[ind], start, NDIRECT, nb)]))
  }

  /** writefile; None is a panic. `stale` is the record as malloc handed it
      out: diradd sets only its name and type. */
  function WriteFile(im: Image, data: seq<byte>, stale: File): (r: Option<Image>)
    requires |im.blocks| <= 1024
    ensures r.Some? ==> |r.value.files| == |im.files| + 1 <= MAX_DIR_ENTS + 1 && |r.value.blocks| == |im.blocks|
  {
    if |data| >= MAXFILESIZE || |im.files| > MAX_DIR_ENTS then None
    else
      var im0 := im.(files := im.files + [stale]);
      match Alloc(im0, |data|)
      case None => None
      case Some((im1, start)) =>
        FinishFile(im1.(blocks := Filled(im1.blocks, start, data)), |im.files|, start, |data|)
  }

  function WriteFiles(im: Image, datas: seq<seq<byte>>, stales: seq<File>): (r: Option<Image>)
    requires |stales| == |datas| && |im.blocks| <= 1024 && |im.files| <= MAX_DIR_ENTS + 1
    ensures r.Some? ==> |r.value.blocks| == |im.blocks| && |r.value.files| == |im.files| + |datas| <= MAX_DIR_ENTS + 1
    decreases |datas|
  {
    if datas == [] then Some(im)
    else
      match WriteFile(im, datas[0], stales[0])
      case None => None
      case Some(im1) => WriteFiles(im1, datas[1..], stales[1..])
  }

  /** ROUNDUP on an int: with C's remainder, 0 rounds up to a whole block. */
  function RoundUpInt(n: nat): (r: nat)
    ensures r == if n == 0 then BLKSIZE else BlocksFor(n) * BLKSIZE
  {
    if n == 0 then n - 1 + BLKSIZE - (-1) else n - 1 + BLKSIZE - (n - 1) % BLKSIZE
  }

  /** finishdir for the root, whose n records follow it in `files`. The bytes
      of the records themselves are kept in `files`, not in the blocks. */
  function FinishDir(im: Image): (r: Option<Image>)
    requires 0 < |im.files| <= MAX_DIR_ENTS + 1 && |im.blocks| <= 1024
  {
    var size := (|im.files| - 1) * FILE_SIZE;
    match Alloc(im, size)
    case None => None
    case Some((im1, start)) => FinishFile(im1, 0, start, RoundUpInt(size))
  }

  /** opendisk: blocks 0, 1 and the bitmap are allocated. */
  function OpenDisk(nblocks: nat): (r: Option<Image>)
    requires 2 <= nblocks <= 1024
    ensures r.Some? <==> RESERVED < nblocks
    ensures r.Some? ==> r.value == Image(RESERVED, seq(nblocks, _ => ZeroBlock()), [NewFile()])
  {
    if RESERVED >= nblocks then None else Some(Image(RESERVED, seq(nblocks, _ => ZeroBlock()), [NewFile()]))
  }

  function ZeroBlock(): Bytes {
    seq(BLKSIZE, _ => 0)
  }

  /** finishdisk: the file system the image holds. */
  function Finished(im: Image): Fs {
    Fs(seq(|im.blocks|, b requires 0 <= b < |im.blocks| => b >= im.pos), im.blocks, im.files, RESERVED)
  }

  /** main; None is a panic or a usage error. */
  function FormatDisk(nblocks: nat, datas: seq<seq<byte>>, stales: seq<File>): Option<Image>
    requires 2 <= nblocks <= 1024 && |stales| == |datas|
  {
    match OpenDisk(nblocks)
    case None => None
    case Some(im) =>
      match WriteFiles(im, datas, stales)
      case None => None
      case Some(im1) => FinishDir(im1)
  }

  // ------------------------------------------------------------------
  // Laying out one file
  // ------------------------------------------------------------------

  /** Between files: the invariant of the file system holds of what is there,
      and the blocks past the mark are still zero. */
  ghost predicate Building(im: Image) {
    && Owned(Finished(im)) && RESERVED <= im.pos < |im.blocks| <= 1024
    && (forall b: nat | im.pos <= b < |im.blocks| :: Zeroed(im.blocks[b]))
  }

  lemma {:induction false} IndirectRunWords(s: Bytes, start: nat, i: nat, nb: nat, k: nat)
    requires NDIRECT <= i && nb <= MAXBLOCKS && start + MAXBLOCKS < UINT_LIMIT && k < NINDIRECT
    ensures Word(IndirectRun(s, start, i, nb), k) == if i <= k + NDIRECT < nb then start + NDIRECT + k else Word(s, k)
    decreases nb - i
  {
    if i < nb {
      WordOfSetWord(s, i - NDIRECT, start + i, k);
      IndirectRunWords(SetWord(s, i - NDIRECT, start + i), start, i + 1, nb, k);
    }
  }

  /** The pointer in slot k of a file laid out from block `start`. */
  function RunPtr(start: nat, nb: nat, k: nat): nat {
    if k < nb && k < INDIRECT then start + k
    else if k == INDIRECT && nb >= NDIRECT then start + nb
    else 0
  }

  /** r is s with file f, empty in s, laid out over the next blocks. */
  ghost predicate LaidOut(s: Fs, r: Fs, f: nat, start: nat, nb: nat)
    requires f < |s.files|
  {
    && |r.free| == |s.free| && |r.blocks| == |s.blocks| && r.reserved == s.reserved && |r.files| == |s.files|
    && (forall k: nat | k <= INDIRECT :: Ptr(r, f, k) == RunPtr(start, nb, k))
    && (forall g: nat, k: nat | g < |s.files| && g != f && k <= INDIRECT :: Ptr(r, g, k) == Ptr(s, g, k))
    && (forall g: nat | g < |s.files| && g != f :: r.files[g].size == s.files[g].size)
    && r.files[f].size <= MAXOFF && BlocksFor(r.files[f].size) == nb
  }

  predicate EmptyFile(s: Fs, f: nat) {
    f < |s.files| && forall k: nat | k <= INDIRECT :: Ptr(s, f, k) == 0
  }

  function Mark(start: nat, nb: nat): nat {
    start + nb + if nb >= NDIRECT then 1 else 0
  }

  ghost predicate FreeFrom(s: Fs, mark: nat) {
    mark <= |s.free| && forall b: nat | b < |s.free| :: s.free[b] == (b >= mark)
  }

  lemma LaidOutOwned(s: Fs, r: Fs, f: nat, start: nat, nb: nat)
    requires Owned(s) && EmptyFile(s, f) && LaidOut(s, r, f, start, nb) && s.reserved <= start && nb <= MAXBLOCKS
    requires FreeFrom(s, start) && FreeFrom(r, Mark(start, nb))
    ensures Owned(r)
  {
    hide Ptr;
    forall g: nat, k: nat | g < |r.files| && g != f && k <= INDIRECT
      ensures Ptr(r, g, k) != 0 ==> s.reserved <= Ptr(r, g, k) < start
    {
      assert Ptr(r, g, k) == Ptr(s, g, k);
    }
    LaidOutNoLeak(s, r, f, start, nb);
  }

  lemma LaidOutNoLeak(s: Fs, r: Fs, f: nat, start: nat, nb: nat)
    requires Owned(s) && EmptyFile(s, f) && LaidOut(s, r, f, start, nb) && s.reserved <= start && nb <= MAXBLOCKS
    requires FreeFrom(s, start) && FreeFrom(r, Mark(start, nb))
    ensures NoLeak(r)
  {
    hide Ptr;
    forall b: nat | r.reserved <= b < |r.free| && !r.free[b]
      ensures Held(r, b)
    {
      if b < start {
        assert Held(s, b);
        var g: nat, k: nat :| Refers(s, g, k, b);
        assert Refers(r, g, k, b);
      } else {
        assert Refers(r, f, if b < start + nb then b - start else INDIRECT, b);
      }
    }
  }

  /** im1 is im with nb blocks allocated and filled in. */
  ghost predicate Allocated(im: Image, im1: Image, nb: nat) {
    && im1.pos == im.pos + nb < |im.blocks| && im1.files == im.files && |im1.blocks| == |im.blocks|
    && (forall b: nat | b < |im.blocks| && !(im.pos <= b < im.pos + nb) :: im1.blocks[b] == im.blocks[b])
  }

  lemma FinishPtrs(im: Image, im1: Image, f: nat, len: nat)
    requires Building(im) && EmptyFile(Finished(im), f) && BlocksFor(len) <= MAXBLOCKS && len <= MAXOFF
    requires Allocated(im, im1, BlocksFor(len)) && FinishFile(im1, f, im.pos, len).Some?
    ensures LaidOut(Finished(im), Finished(FinishFile(im1, f, im.pos, len).value), f, im.pos, BlocksFor(len))
  {
    var nb := BlocksFor(len);
    var r := FinishFile(im1, f, im.pos, len).value;
    var s, t := Finished(im), Finished(r);
    assert Ptr(s, f, INDIRECT) == s.files[f].indirect == 0;
    forall k: nat | k <= INDIRECT
      ensures Ptr(t, f, k) == RunPtr(im.pos, nb, k)
    {
      assert Ptr(s, f, k) == 0;
      if NDIRECT <= k < INDIRECT && nb >= NDIRECT {
        IndirectRunWords(im1.blocks[im1.pos], im.pos, NDIRECT, nb, k - NDIRECT);
        ZeroWord(im.blocks[im1.pos], k - NDIRECT);
      }
    }
    forall g: nat, k: nat | g < |s.files| && g != f && k <= INDIRECT
      ensures Ptr(t, g, k) == Ptr(s, g, k)
    {
      assert Ptr(s, g, INDIRECT) == s.files[g].indirect;
      assert s.files[g].indirect != 0 ==> s.files[g].indirect < im.pos;
    }
  }

  /** finishfile over blocks just allocated keeps the invariant. */
  lemma FinishKeeps(im: Image, im1: Image, f: nat, len: nat)
    requires Building(im) && EmptyFile(Finished(im), f) && BlocksFor(len) <= MAXBLOCKS && len <= MAXOFF
    requires Allocated(im, im1, BlocksFor(len)) && FinishFile(im1, f, im.pos, len).Some?
    ensures Building(FinishFile(im1, f, im.pos, len).value)
  {
    var nb := BlocksFor(len);
    var r := FinishFile(im1, f, im.pos, len).value;
    FinishPtrs(im, im1, f, len);
    assert r.pos == Mark(im.pos, nb);
    LaidOutOwned(Finished(im), Finished(r), f, im.pos, nb);
    forall b: nat | r.pos <= b < |r.blocks|
      ensures Zeroed(r.blocks[b])
    {
      assert r.blocks[b] == im.blocks[b];
    }
  }

  lemma AddRecord(im: Image)
    requires Building(im)
    ensures var r := im.(files := im.files + [NewFile()]);
            Building(r) && EmptyFile(Finished(r), |im.files|)
            && (forall g: nat, k: nat | g < |im.files| && k <= INDIRECT ::
              Ptr(Finished(r), g, k) == Ptr(Finished(im), g, k))
  {
    var r := im.(files := im.files + [NewFile()]);
    var s, t := Finished(im), Finished(r);
    forall g: nat, k: nat | g < |t.files| && k <= INDIRECT
      ensures Ptr(t, g, k) == if g < |im.files| then Ptr(s, g, k) else 0
    {
    }
    hide Ptr;
    forall b: nat | t.reserved <= b < |t.free| && !t.free[b]
      ensures Held(t, b)
    {
      assert Held(s, b);
      var g: nat, k: nat :| Refers(s, g, k, b);
      assert Refers(t, g, k, b);
    }
  }

  lemma FitsBlocks(n: nat)
    requires n < MAXFILESIZE
    ensures BlocksFor(n) <= MAXBLOCKS && n <= MAXOFF
  {
  }

  /** File f of the image has exactly these bytes. */
  ghost predicate Holds(im: Image, f: nat, data: seq<byte>) {
    f < |im.files| && im.files[f].size == |data|
    && forall q: nat | q < |data| :: ByteAt(Finished(im), f, q) == Some(data[q])
  }

  lemma FinishHolds(im: Image, im1: Image, f: nat, data: seq<byte>)
    requires Building(im) && EmptyFile(Finished(im), f) && |data| < MAXFILESIZE && BlocksFor(|data|) <= MAXBLOCKS
    requires Allocated(im, im1, BlocksFor(|data|)) && FinishFile(im1, f, im.pos, |data|).Some?
    requires forall b: nat | im.pos <= b < im.pos + BlocksFor(|data|) :: im1.blocks[b] == Padded(data, b - im.pos)
    ensures Holds(FinishFile(im1, f, im.pos, |data|).value, f, data)
  {
    FitsBlocks(|data|);
    FinishPtrs(im, im1, f, |data|);
    var r := FinishFile(im1, f, im.pos, |data|).value;
    hide FinishFile, Ptr;
    forall q: nat | q < |data|
      ensures ByteAt(Finished(r), f, q) == Some(data[q])
    {
      FinishByte(im, im1, r, f, data, q);
    }
  }

  lemma FinishByte(im: Image, im1: Image, r: Image, f: nat, data: seq<byte>, q: nat)
    requires Building(im) && EmptyFile(Finished(im), f) && |data| < MAXFILESIZE && BlocksFor(|data|) <= MAXBLOCKS
    requires Allocated(im, im1, BlocksFor(|data|)) && FinishFile(im1, f, im.pos, |data|) == Some(r) && q < |data|
    requires forall b: nat | im.pos <= b < im.pos + BlocksFor(|data|) :: im1.blocks[b] == Padded(data, b - im.pos)
    requires Ptr(Finished(r), f, q / BLKSIZE) == RunPtr(im.pos, BlocksFor(|data|), q / BLKSIZE)
    ensures ByteAt(Finished(r), f, q) == Some(data[q])
  {
    hide Ptr, Owned, IndirectRun;
    var k := q / BLKSIZE;
    InFile(q, |data|);
    BlockOf(q, k);
    assert r.blocks[im.pos + k] == im1.blocks[im.pos + k] == Padded(data, k);
  }

  /** No pointer but those the size calls for. */
  ghost predicate SetOnly(file: File) {
    var nb := BlocksFor(file.size);
    (forall j | nb <= j < NDIRECT :: file.direct[j] == 0) && (nb < NDIRECT ==> file.indirect == 0)
  }

  lemma LaidOutSetOnly(s: Fs, r: Fs, f: nat, start: nat, nb: nat)
    requires f < |s.files| && LaidOut(s, r, f, start, nb)
    ensures SetOnly(r.files[f])
  {
    assert Ptr(r, f, INDIRECT) == r.files[f].indirect;
    forall j | nb <= j < NDIRECT
      ensures r.files[f].direct[j] == 0
    {
      assert Ptr(r, f, j) == RunPtr(start, nb, j);
    }
  }

  /** Writing one more file on a record of zeros keeps the invariant, leaves
      the root alone and moves no pointer of an earlier file. */
  lemma WriteFileKeeps(im: Image, data: seq<byte>)
    requires Building(im) && WriteFile(im, data, NewFile()).Some?
    ensures var r := WriteFile(im, data, NewFile()).value;
            && Building(r) && |r.files| == |im.files| + 1
            && (forall g: nat, k: nat | g < |im.files| && k <= INDIRECT ::
              Ptr(Finished(r), g, k) == Ptr(Finished(im), g, k))
            && (forall g | 0 <= g < |im.files| :: r.files[g] == im.files[g])
            && (forall b | 0 <= b < im.pos :: r.blocks[b] == im.blocks[b])
            && Holds(r, |im.files|, data) && SetOnly(r.files[|im.files|])
  {
    hide Ptr, Owned;
    AddRecord(im);
    FitsBlocks(|data|);
    var f := |im.files|;
    var im0 := im.(files := im.files + [NewFile()]);
    var im1 := Image(im.pos + BlocksFor(|data|), Filled(im.blocks, im.pos, data), im0.files);
    assert Allocated(im0, im1, BlocksFor(|data|));
    assert WriteFile(im, data, NewFile()) == FinishFile(im1, f, im.pos, |data|);
    FinishKeeps(im0, im1, f, |data|);
    FinishPtrs(im0, im1, f, |data|);
    FinishHolds(im0, im1, f, data);
  }

  function News(n: nat): (r: seq<File>)
    ensures |r| == n && forall i | 0 <= i < n :: r[i] == NewFile()
  {
    seq(n, _ => NewFile())
  }

  lemma {:induction false} WriteFilesKeep(im: Image, datas: seq<seq<byte>>, news: seq<File>)
    requires news == News(|datas|) && Building(im) && |im.files| <= MAX_DIR_ENTS + 1
    requires WriteFiles(im, datas, news).Some? && EmptyFile(Finished(im), 0)
    ensures var r := WriteFiles(im, datas, news).value;
            && Building(r) && |r.files| == |im.files| + |datas| && EmptyFile(Finished(r), 0)
            && (forall g | 0 <= g < |im.files| :: r.files[g] == im.files[g])
            && (forall g: nat, data: seq<byte> | g < |im.files| && Holds(im, g, data) :: Holds(r, g, data))
            && (forall i: nat | i < |datas| :: Holds(r, |im.files| + i, datas[i]) && SetOnly(r.files[|im.files| + i]))
    decreases |datas|
  {
    hide Owned, WriteFile, Ptr, Holds, ByteAt, SetOnly;
    if datas != [] {
      assert news[1..] == News(|datas[1..]|);
      WriteFileKeeps(im, datas[0]);
      var im1 := WriteFile(im, datas[0], news[0]).value;
      WriteFilesKeep(im1, datas[1..], news[1..]);
      forall g: nat, data: seq<byte> | g < |im.files| && Holds(im, g, data)
        ensures Holds(im1, g, data)
      {
        StillHolds(im, im1, g, data);
      }
      var r := WriteFiles(im, datas, news).value;
      forall i: nat | i < |datas|
        ensures Holds(r, |im.files| + i, datas[i]) && SetOnly(r.files[|im.files| + i])
      {
        if i > 0 {
          assert datas[i] == datas[1..][i - 1];
        }
      }
    }
  }

  /** A file is not disturbed by what is laid out after it. */
  lemma StillHolds(im: Image, r: Image, g: nat, data: seq<byte>)
    requires Building(im) && g < |im.files| <= |r.files| && |r.blocks| == |im.blocks| && Holds(im, g, data)
    requires forall k: nat | k <= INDIRECT :: Ptr(Finished(r), g, k) == Ptr(Finished(im), g, k)
    requires r.files[g] == im.files[g] && forall b | 0 <= b < im.pos :: r.blocks[b] == im.blocks[b]
    ensures Holds(r, g, data)
  {
    hide Ptr;
    var s, t := Finished(im), Finished(r);
    forall q: nat | q < |data|
      ensures ByteAt(t, g, q) == ByteAt(s, g, q)
    {
      if q / BLKSIZE < MAXBLOCKS {
        assert Ptr(s, g, q / BLKSIZE) != 0 ==> Ptr(s, g, q / BLKSIZE) < im.pos;
      }
    }
  }

  lemma OpenBuilds(nblocks: nat)
    requires RESERVED < nblocks <= 1024
    ensures var im := OpenDisk(nblocks).value; Building(im) && EmptyFile(Finished(im), 0)
  {
  }

  lemma DirSize(n: nat)
    requires n <= MAX_DIR_ENTS
    ensures var size := n * FILE_SIZE;
            && BlocksFor(RoundUpInt(size)) == (if n == 0 then 1 else BlocksFor(size))
            && BlocksFor(size) < NDIRECT && RoundUpInt(size) <= MAXOFF && (BlocksFor(size) == 0 <==> n == 0)
  {
  }

  /** With at least one file, finishdir completes a file system whose root
      holds as many blocks as the records need. */
  lemma FinishDirKeeps(im: Image)
    requires Building(im) && EmptyFile(Finished(im), 0) && 1 < |im.files| <= MAX_DIR_ENTS + 1 && FinishDir(im).Some?
    ensures var r := FinishDir(im).value;
            && Building(r) && |r.files| == |im.files| && r.pos == im.pos + BlocksFor((|im.files| - 1) * FILE_SIZE)
            && (forall g: nat, data: seq<byte> | 0 < g < |im.files| && Holds(im, g, data) :: Holds(r, g, data))
            && (forall g | 0 < g < |im.files| :: r.files[g] == im.files[g])
            && SetOnly(r.files[0])
  {
    hide Ptr, Owned, Holds;
    var n := |im.files| - 1;
    DirSize(n);
    var size := n * FILE_SIZE;
    var im1 := im.(pos := im.pos + BlocksFor(size));
    var r := FinishDir(im).value;
    assert FinishDir(im) == FinishFile(im1, 0, im.pos, RoundUpInt(size));
    FinishKeeps(im, im1, 0, RoundUpInt(size));
    FinishPtrs(im, im1, 0, RoundUpInt(size));
    LaidOutSetOnly(Finished(im), Finished(r), 0, im.pos, BlocksFor(size));
    forall g: nat, data: seq<byte> | 0 < g < |im.files| && Holds(im, g, data)
      ensures Holds(r, g, data)
    {
      StillHolds(im, r, g, data);
    }
  }

  /** With no file the root is given a block it was never allocated: the one
      at the mark, which finishdisk leaves free. */
  lemma EmptyRootIsBroken(im: Image)
    requires Building(im) && EmptyFile(Finished(im), 0) && |im.files| == 1 && FinishDir(im).Some?
    ensures var s := Finished(FinishDir(im).value);
            Ptr(s, 0, 0) == im.pos && s.free[im.pos] && !Owned(s)
  {
    DirSize(0);
  }

  // ------------------------------------------------------------------
  // Records as malloc leaves them
  // ------------------------------------------------------------------

  /** A record laid out over stale contents, from what it would be over zeros. */
  function Overlay(file: File, stale: File): File {
    var nb := BlocksFor(file.size);
    file.(direct := seq(NDIRECT, i requires 0 <= i < NDIRECT => if i < nb then file.direct[i] else stale.direct[i]),
          indirect := if nb < NDIRECT then stale.indirect else file.indirect)
  }

  /** im is clean with its records, but for the root, over these contents. */
  ghost predicate Over(im: Image, clean: Image, stales: seq<File>) {
    && im.pos == clean.pos && im.blocks == clean.blocks && |im.files| == |clean.files| == |stales| + 1
    && im.files[0] == clean.files[0]
    && (forall g | 0 < g < |im.files| :: im.files[g] == Overlay(clean.files[g], stales[g - 1]))
  }

  /** The layout does not depend on the stale contents. */
  lemma WriteFileOver(im: Image, clean: Image, stales: seq<File>, data: seq<byte>, stale: File)
    requires Over(im, clean, stales) && |im.blocks| <= 1024
    ensures WriteFile(im, data, stale).Some? <==> WriteFile(clean, data, NewFile()).Some?
    ensures WriteFile(im, data, stale).Some? ==>
              Over(WriteFile(im, data, stale).value, WriteFile(clean, data, NewFile()).value, stales + [stale])
  {
    if |data| < MAXFILESIZE {
      FitsBlocks(|data|);
    }
    if WriteFile(im, data, stale).Some? {
      var r, c := WriteFile(im, data, stale).value, WriteFile(clean, data, NewFile()).value;
      var f := |im.files|;
      assert r.files[f] == Overlay(c.files[f], stale);
      forall g | 0 < g < f
        ensures r.files[g] == im.files[g] && c.files[g] == clean.files[g]
      {
      }
    }
  }

  lemma {:induction false} WriteFilesOver(im: Image, clean: Image, before: seq<File>, datas: seq<seq<byte>>,
      stales: seq<File>)
    requires Over(im, clean, before) && |im.blocks| <= 1024 && |im.files| <= MAX_DIR_ENTS + 1 && |stales| == |datas|
    ensures WriteFiles(im, datas, stales).Some? <==> WriteFiles(clean, datas, News(|datas|)).Some?
    ensures WriteFiles(im, datas, stales).Some? ==>
              Over(WriteFiles(im, datas, stales).value, WriteFiles(clean, datas, News(|datas|)).value, before + stales)
    decreases |datas|
  {
    hide WriteFile, Over;
    if datas == [] {
      assert before + stales == before;
    } else {
      assert News(|datas|)[1..] == News(|datas[1..]|);
      OverSizes(im, clean, before);
      WriteFileOver(im, clean, before, datas[0], stales[0]);
      if WriteFile(im, datas[0], stales[0]).Some? {
        var im1, clean1 := WriteFile(im, datas[0], stales[0]).value, WriteFile(clean, datas[0], NewFile()).value;
        WriteFilesOver(im1, clean1, before + [stales[0]], datas[1..], stales[1..]);
        assert before + [stales[0]] + stales[1..] == before + stales;
      }
    }
  }

  lemma OverSizes(im: Image, clean: Image, stales: seq<File>)
    requires Over(im, clean, stales)
    ensures |im.blocks| == |clean.blocks| && |im.files| == |clean.files|
  {
  }

  lemma FinishDirOver(im: Image, clean: Image, stales: seq<File>)
    requires Over(im, clean, stales) && |im.blocks| <= 1024 && |im.files| <= MAX_DIR_ENTS + 1
    ensures FinishDir(im).Some? <==> FinishDir(clean).Some?
    ensures FinishDir(im).Some? ==> Over(FinishDir(im).value, FinishDir(clean).value, stales)
  {
    DirSize(|stales|);
    if FinishDir(im).Some? {
      var r, c := FinishDir(im).value, FinishDir(clean).value;
      forall g | 0 < g < |im.files|
        ensures r.files[g] == im.files[g] && c.files[g] == clean.files[g]
      {
      }
    }
  }

  /** The pointers finishfile leaves alone in this record are zero. */
  ghost predicate LeftZero(stale: File, len: nat) {
    SetOnly(stale.(size := len))
  }

  ghost predicate AllLeftZero(stales: seq<File>, datas: seq<seq<byte>>)
    requires |stales| == |datas|
  {
    forall i | 0 <= i < |stales| :: LeftZero(stales[i], |datas[i]|)
  }

  lemma OverlayClean(file: File, stale: File)
    requires SetOnly(file) && LeftZero(stale, file.size)
    ensures Overlay(file, stale) == file
  {
    assert Overlay(file, stale).direct == file.direct;
  }

  /** Where records agree: the slots the size calls for. */
  lemma OverlayPtr(im: Image, clean: Image, stales: seq<File>, g: nat, k: nat)
    requires Over(im, clean, stales) && g < |im.files| && k <= INDIRECT
    requires k < BlocksFor(clean.files[g].size) || (k == INDIRECT && BlocksFor(clean.files[g].size) >= NDIRECT)
    ensures Ptr(Finished(im), g, k) == Ptr(Finished(clean), g, k)
  {
    if g > 0 {
      assert im.files[g] == Overlay(clean.files[g], stales[g - 1]);
    }
  }

  /** In a clean file system a pointer that is set is one the size calls for. */
  lemma CleanSlots(clean: Image, g: nat, k: nat)
    requires Owned(Finished(clean)) && g < |clean.files| && k <= INDIRECT && SetOnly(clean.files[g])
    requires Ptr(Finished(clean), g, k) != 0
    ensures k < BlocksFor(clean.files[g].size) || (k == INDIRECT && BlocksFor(clean.files[g].size) >= NDIRECT)
  {
    assert k == INDIRECT ==> Ptr(Finished(clean), g, k) == clean.files[g].indirect;
  }

  lemma OverHolds(im: Image, clean: Image, stales: seq<File>, g: nat, data: seq<byte>)
    requires Over(im, clean, stales) && 0 < g < |im.files| && Holds(clean, g, data)
    ensures Holds(im, g, data)
  {
    assert im.files[g] == Overlay(clean.files[g], stales[g - 1]);
    hide Ptr;
    forall q: nat | q < |data|
      ensures ByteAt(Finished(im), g, q) == Some(data[q])
    {
      InFile(q, |data|);
      assert ByteAt(Finished(clean), g, q) == Some(data[q]);
      OverlayPtr(im, clean, stales, g, q / BLKSIZE);
    }
  }

  /** A stale indirect pointer: whatever it names is another slot's block, or
      reserved, or free, or past the disk. */
  lemma StaleIndirect(im: Image, clean: Image, stales: seq<File>, f: nat)
    requires Over(im, clean, stales) && Owned(Finished(clean)) && 0 < f < |im.files|
    requires forall g | 0 <= g < |clean.files| :: SetOnly(clean.files[g])
    requires BlocksFor(clean.files[f].size) < NDIRECT && stales[f - 1].indirect != 0
    ensures !Owned(Finished(im))
  {
    var s, c := Finished(im), Finished(clean);
    var w := stales[f - 1].indirect;
    assert im.files[f] == Overlay(clean.files[f], stales[f - 1]);
    assert Ptr(s, f, INDIRECT) == w;
    hide Ptr;
    if RESERVED <= w < |c.free| && !c.free[w] {
      assert Held(c, w);
      var g: nat, k: nat :| Refers(c, g, k, w);
      CleanSlots(clean, g, k);
      OverlayPtr(im, clean, stales, g, k);
      assert Ptr(s, g, k) == w && !(g == f && k == INDIRECT);
    } else {
      assert s.free == c.free;
    }
  }

  lemma StaleDirect(im: Image, clean: Image, stales: seq<File>, f: nat, j: nat)
    requires Over(im, clean, stales) && 0 < f < |im.files| && BlocksFor(clean.files[f].size) <= j < NDIRECT
    requires stales[f - 1].direct[j] != 0
    ensures !Owned(Finished(im))
  {
    var s := Finished(im);
    assert im.files[f] == Overlay(clean.files[f], stales[f - 1]);
    assert Ptr(s, f, j) == stales[f - 1].direct[j];
  }

  /** Stale records spoil ownership exactly when a pointer that finishfile
      does not set was not zero. */
  lemma OverOwned(im: Image, clean: Image, stales: seq<File>, datas: seq<seq<byte>>)
    requires Over(im, clean, stales) && Owned(Finished(clean)) && |datas| == |stales|
    requires forall g | 0 <= g < |clean.files| :: SetOnly(clean.files[g])
    requires forall i: nat | i < |datas| :: clean.files[i + 1].size == |datas[i]|
    ensures Owned(Finished(im)) <==> AllLeftZero(stales, datas)
  {
    hide Owned, SetOnly, Overlay;
    if AllLeftZero(stales, datas) {
      forall g | 0 < g < |im.files|
        ensures im.files[g] == clean.files[g]
      {
        assert LeftZero(stales[g - 1], |datas[g - 1]|) && clean.files[(g - 1) + 1].size == |datas[g - 1]|;
        OverlayClean(clean.files[g], stales[g - 1]);
      }
      assert im.files == clean.files;
    } else {
      var i :| 0 <= i < |stales| && !LeftZero(stales[i], |datas[i]|);
      OneStale(im, clean, stales, i);
    }
  }

  lemma OneStale(im: Image, clean: Image, stales: seq<File>, i: nat)
    requires Over(im, clean, stales) && Owned(Finished(clean)) && i < |stales|
    requires forall g | 0 <= g < |clean.files| :: SetOnly(clean.files[g])
    requires !LeftZero(stales[i], clean.files[i + 1].size)
    ensures !Owned(Finished(im))
  {
    var nb := BlocksFor(clean.files[i + 1].size);
    if j: nat :| nb <= j < NDIRECT && stales[i].direct[j] != 0 {
      StaleDirect(im, clean, stales, i + 1, j);
    } else {
      StaleIndirect(im, clean, stales, i + 1);
    }
  }

  lemma OpenOver(nblocks: nat)
    requires RESERVED < nblocks <= 1024
    ensures Over(OpenDisk(nblocks).value, OpenDisk(nblocks).value, [])
  {
  }

  lemma FormatOver(nblocks: nat, datas: seq<seq<byte>>, stales: seq<File>)
    requires 2 <= nblocks <= 1024 && |stales| == |datas|
    ensures FormatDisk(nblocks, datas, stales).Some? <==> FormatDisk(nblocks, datas, News(|datas|)).Some?
    ensures FormatDisk(nblocks, datas, stales).Some? ==>
              Over(FormatDisk(nblocks, datas, stales).value, FormatDisk(nblocks, datas, News(|datas|)).value, stales)
  {
    hide WriteFiles, FinishDir, Over;
    if RESERVED < nblocks {
      var im0 := OpenDisk(nblocks).value;
      OpenOver(nblocks);
      WriteFilesOver(im0, im0, [], datas, stales);
      assert [] + stales == stales;
      if WriteFiles(im0, datas, stales).Some? {
        FinishDirOver(WriteFiles(im0, datas, stales).value, WriteFiles(im0, datas, News(|datas|)).value, stales);
      }
    }
  }

  // ------------------------------------------------------------------
  // The formatter
  // ------------------------------------------------------------------

  lemma CleanFormat(nblocks: nat, datas: seq<seq<byte>>)
    requires 2 <= nblocks <= 1024 && FormatDisk(nblocks, datas, News(|datas|)).Some?
    ensures var im := FormatDisk(nblocks, datas, News(|datas|)).value;
            && |im.files| == |datas| + 1 && |im.blocks| == nblocks
            && (forall i: nat | i < |datas| :: Holds(im, i + 1, datas[i]))
            && (datas != [] ==> Owned(Finished(im)) && forall g | 0 <= g < |im.files| :: SetOnly(im.files[g]))
            && (datas == [] ==> !Owned(Finished(im)))
  {
    hide Ptr, Owned, Holds, WriteFiles, FinishDir, SetOnly;
    var im0 := OpenDisk(nblocks).value;
    OpenBuilds(nblocks);
    WriteFilesKeep(im0, datas, News(|datas|));
    var im1 := WriteFiles(im0, datas, News(|datas|)).value;
    FinishDirSize(im1);
    if datas != [] {
      FinishDirKeeps(im1);
      var r := FinishDir(im1).value;
      forall g | 0 <= g < |r.files|
        ensures SetOnly(r.files[g])
      {
        if g > 0 {
          var i := g - 1;
          assert Holds(im1, |im0.files| + i, datas[i]) && SetOnly(im1.files[|im0.files| + i]);
          assert r.files[g] == im1.files[g];
        }
      }
    } else {
      EmptyRootIsBroken(im1);
    }
  }

  lemma FinishDirSize(im: Image)
    requires 0 < |im.files| <= MAX_DIR_ENTS + 1 && |im.blocks| <= 1024 && FinishDir(im).Some?
    ensures |FinishDir(im).value.files| == |im.files| && |FinishDir(im).value.blocks| == |im.blocks|
  {
  }

  /** The blocks a file takes, its indirect block included. */
  function Uses(data: seq<byte>): nat {
    Mark(0, BlocksFor(|data|))
  }

  function TotalUses(datas: seq<seq<byte>>): nat {
    if datas == [] then 0 else Uses(datas[0]) + TotalUses(datas[1..])
  }

  predicate AllFit(datas: seq<seq<byte>>) {
    forall i | 0 <= i < |datas| :: |datas[i]| < MAXFILESIZE
  }

  /** writefile stops for a file too large, one too many, or want of blocks. */
  lemma WriteFileStops(im: Image, data: seq<byte>, stale: File)
    requires |im.blocks| <= 1024 && im.pos < |im.blocks|
    ensures WriteFile(im, data, stale).Some? <==>
              |data| < MAXFILESIZE && |im.files| <= MAX_DIR_ENTS && im.pos + Uses(data) < |im.blocks|
    ensures WriteFile(im, data, stale).Some? ==> WriteFile(im, data, stale).value.pos == im.pos + Uses(data)
  {
    if |data| < MAXFILESIZE {
      FitsBlocks(|data|);
    }
  }

  lemma {:induction false} WriteFilesStop(im: Image, datas: seq<seq<byte>>, stales: seq<File>)
    requires |stales| == |datas| && |im.blocks| <= 1024 && |im.files| <= MAX_DIR_ENTS + 1 && im.pos < |im.blocks|
    ensures WriteFiles(im, datas, stales).Some? <==>
              AllFit(datas) && |im.files| + |datas| <= MAX_DIR_ENTS + 1 && im.pos + TotalUses(datas) < |im.blocks|
    ensures WriteFiles(im, datas, stales).Some? ==> WriteFiles(im, datas, stales).value.pos == im.pos + TotalUses(datas)
    decreases |datas|
  {
    hide WriteFile;
    if datas != [] {
      WriteFileStops(im, datas[0], stales[0]);
      assert AllFit(datas) <==> |datas[0]| < MAXFILESIZE && AllFit(datas[1..]) by {
        FitTail(datas);
      }
      if WriteFile(im, datas[0], stales[0]).Some? {
        WriteFilesStop(WriteFile(im, datas[0], stales[0]).value, datas[1..], stales[1..]);
      }
    }
  }

  lemma FitTail(datas: seq<seq<byte>>)
    requires datas != []
    ensures AllFit(datas) <==> |datas[0]| < MAXFILESIZE && AllFit(datas[1..])
  {
    forall i | 0 < i < |datas|
      ensures datas[i] == datas[1..][i - 1]
    {
    }
  }

  /** finishdir stops for want of blocks alone. */
  lemma FinishDirStops(im: Image)
    requires 0 < |im.files| <= MAX_DIR_ENTS + 1 && |im.blocks| <= 1024
    ensures FinishDir(im).Some? <==> im.pos + BlocksFor((|im.files| - 1) * FILE_SIZE) < |im.blocks|
  {
    DirSize(|im.files| - 1);
  }

  /** The formatter goes through, whatever malloc gives it, exactly when there
      are no more files than entries, none is too large, and the disk has a
      block more than the reserved ones, the files and the root need. */
  lemma FormatStops(nblocks: nat, datas: seq<seq<byte>>, stales: seq<File>)
    requires 2 <= nblocks <= 1024 && |stales| == |datas|
    ensures FormatDisk(nblocks, datas, stales).Some? <==>
              && |datas| <= MAX_DIR_ENTS && AllFit(datas)
              && RESERVED + TotalUses(datas) + BlocksFor(|datas| * FILE_SIZE) < nblocks
  {
    hide WriteFiles, FinishDir, AllFit, TotalUses;
    if RESERVED < nblocks {
      var im := OpenDisk(nblocks).value;
      WriteFilesStop(im, datas, stales);
      if WriteFiles(im, datas, stales).Some? {
        FinishDirStops(WriteFiles(im, datas, stales).value);
      }
    }
  }

  /** The formatter establishes the file system: whatever the disk size, the
      files and the memory their records were made in, if it does not stop, a
      block is in use exactly when it lies below the mark, every file reads
      back as it was given, and the ownership invariant holds exactly when
      there was at least one file and no record had anything but zeros in the
      pointers its file has no use for. */
  lemma FormatEstablishes(nblocks: nat, datas: seq<seq<byte>>, stales: seq<File>)
    requires 2 <= nblocks <= 1024 && |stales| == |datas| && FormatDisk(nblocks, datas, stales).Some?
    ensures var im := FormatDisk(nblocks, datas, stales).value;
            var s := Finished(im);
            && |s.files| == |datas| + 1 && |s.free| == |s.blocks| == nblocks
            && (forall b | 0 <= b < |s.free| :: s.free[b] <==> b >= im.pos)
            && (forall i: nat | i < |datas| :: Holds(im, i + 1, datas[i]))
            && (Owned(s) <==> datas != [] && AllLeftZero(stales, datas))
  {
    hide Owned, FormatDisk, SetOnly, Overlay, ByteAt, AllLeftZero;
    FormatOver(nblocks, datas, stales);
    CleanFormat(nblocks, datas);
    var im, clean := FormatDisk(nblocks, datas, stales).value, FormatDisk(nblocks, datas, News(|datas|)).value;
    forall i: nat | i < |datas|
      ensures Holds(im, i + 1, datas[i]) && clean.files[i + 1].size == |datas[i]|
    {
      assert Holds(clean, i + 1, datas[i]);
      OverHolds(im, clean, stales, i + 1, datas[i]);
    }
    if datas != [] {
      OverOwned(im, clean, stales, datas);
    } else {
      assert im.files == clean.files;
    }
  }

  /** A formatted disk stays consistent: after any run of the file server the
      ownership invariant holds and no block is lost. */
  lemma FormatThenServe(nblocks: nat, datas: seq<seq<byte>>, stales: seq<File>, ops: seq<Op>)
    requires 2 <= nblocks <= 1024 && |stales| == |datas| && datas != [] && AllLeftZero(stales, datas)
    requires FormatDisk(nblocks, datas, stales).Some?
    requires Sized(Finished(FormatDisk(nblocks, datas, stales).value))
    requires AdmissibleRun(Finished(FormatDisk(nblocks, datas, stales).value), ops)
    ensures var r := Run(Finished(FormatDisk(nblocks, datas, stales).value), ops);
            Owned(r) && |FreeBlocks(r)| + RESERVED + |UsedSlots(r)| == nblocks
  {
    hide Owned, FormatDisk, Run, AdmissibleRun, AllLeftZero;
    FormatEstablishes(nblocks, datas, stales);
    RunKeepsOwned(Finished(FormatDisk(nblocks, datas, stales).value), ops);
  }
}
