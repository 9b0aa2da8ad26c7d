/** file_read and file_write (fs/fs.c) as a slice and a splice of the bytes of
  a file, across block and direct/indirect boundaries.
 */
module FileIo {
  import opened FsBlocks

  const MAXFILESIZE: nat := MAXBLOCKS * BLKSIZE

  function Min(a: nat, b: nat): nat {
    if a <= b then a else b
  }

  /** Byte q of file f, or None in a hole. */
  function ByteAt(s: Fs, f: nat, q: nat): Option<byte>
    requires f < |s.files|
  {
    if q / BLKSIZE >= MAXBLOCKS then None
    else
      match Content(s, f, q / BLKSIZE)
      case None => None
      case Some(b) => Some(b[q % BLKSIZE])
  }

  function Splice(b: Bytes, o: nat, data: seq<byte>): Bytes
    requires o + |data| <= BLKSIZE
  {
    b[..o] + data + b[o + |data|..]
  }

  /** memmove into the block that file_get_block returned. */
  function Patch(s: Fs, f: nat, k: nat, o: nat, data: seq<byte>): (r: Fs)
    requires Sized(s) && f < |s.files| && k < MAXBLOCKS && 0 < Ptr(s, f, k) < |s.blocks| && o + |data| <= BLKSIZE
    ensures Sized(r) && |r.files| == |s.files|
  {
    s.(blocks := s.blocks[Ptr(s, f, k) := Splice(s.blocks[Ptr(s, f, k)], o, data)])
  }

  /** Bytes to move at pos: up to the end of its block or of the request. */
  function ChunkLen(pos: nat, end: nat): (n: nat)
    requires pos < end
    ensures 0 < n <= end - pos && pos % BLKSIZE + n <= BLKSIZE
  {
    Min(BLKSIZE - pos % BLKSIZE, end - pos)
  }

  /** The state after one turn of the loop. */
  function AfterChunk(s: Fs, f: nat, buf: seq<byte>, off: nat, pos: nat): (r: Fs)
    requires Sized(s) && f < |s.files| && off <= pos < off + |buf| && FileGetBlock(s, f, pos / BLKSIZE).1 == Ok
    ensures Sized(r) && |r.files| == |s.files|
  {
    var n := ChunkLen(pos, off + |buf|);
    Patch(FileGetBlock(s, f, pos / BLKSIZE).0, f, pos / BLKSIZE, pos % BLKSIZE, buf[pos - off..pos - off + n])
  }

  /** The loop of file_write. */
  function WriteFrom(s: Fs, f: nat, buf: seq<byte>, off: nat, pos: nat): (r: (Fs, Res))
    requires Sized(s) && f < |s.files| && off <= pos
    ensures Sized(r.0) && |r.0.files| == |s.files|
    decreases off + |buf| - pos
  {
    var end := off + |buf|;
    if pos >= end then (s, Ok)
    else
      var (s1, res) := FileGetBlock(s, f, pos / BLKSIZE);
      if res != Ok then (s1, res)
      else WriteFrom(AfterChunk(s, f, buf, off, pos), f, buf, off, pos + ChunkLen(pos, end))
  }

  function FileWrite(s: Fs, f: nat, buf: seq<byte>, off: nat): (r: (Fs, Res))
    requires Sized(s) && f < |s.files| && off + |buf| <= MAXOFF
    ensures Sized(r.0) && |r.0.files| == |s.files|
  {
    var (s1, res) := if off + |buf| > s.files[f].size then FileSetSize(s, f, off + |buf|) else (s, Ok);
    if res != Ok then (s1, res) else WriteFrom(s1, f, buf, off, off)
  }

  /** The loop of file_read. */
  function ReadFrom(s: Fs, f: nat, pos: nat, end: nat): (r: (Fs, Res, seq<byte>))
    requires Sized(s) && f < |s.files|
    ensures Sized(r.0) && |r.0.files| == |s.files|
    decreases end - pos
  {
    if pos >= end then (s, Ok, [])
    else
      var (s1, res) := FileGetBlock(s, f, pos / BLKSIZE);
      if res != Ok then (s1, res, [])
      else
        var n := ChunkLen(pos, end);
        var (s2, res2, rest) := ReadFrom(s1, f, pos + n, end);
        (s2, res2, s1.blocks[Ptr(s1, f, pos / BLKSIZE)][pos % BLKSIZE..pos % BLKSIZE + n] + rest)
  }

  /** Reading may fill holes, so it changes the state too. */
  function FileRead(s: Fs, f: nat, count: nat, off: nat): (r: (Fs, Res, seq<byte>))
    requires Sized(s) && f < |s.files|
    ensures Sized(r.0) && |r.0.files| == |s.files|
  {
    if off >= s.files[f].size then (s, Ok, [])
    else ReadFrom(s, f, off, off + Min(count, s.files[f].size - off))
  }

  // ------------------------------------------------------------------
  // One chunk
  // ------------------------------------------------------------------

  lemma BlockOf(q: nat, k: nat)
    ensures q / BLKSIZE == k <==> k * BLKSIZE <= q < k * BLKSIZE + BLKSIZE
    ensures q / BLKSIZE == k ==> q % BLKSIZE == q - k * BLKSIZE
  {
  }

  /** Patching a data block moves no pointer and no other block. */
  lemma PatchSpec(s: Fs, f: nat, k: nat, o: nat, data: seq<byte>)
    requires Owned(s) && f < |s.files| && k < MAXBLOCKS && Content(s, f, k).Some? && o + |data| <= BLKSIZE
    ensures var r := Patch(s, f, k, o, data);
            && Owned(r) && SameSizes(s, r) && r.free == s.free
            && Content(r, f, k) == Some(Splice(Content(s, f, k).value, o, data))
            && (forall g: nat, j: nat | g < |s.files| && j < MAXBLOCKS && !(g == f && j == k) ::
              Content(r, g, j) == Content(s, g, j))
  {
    var r := Patch(s, f, k, o, data);
    forall g: nat, j: nat | g < |s.files| && j <= INDIRECT
      ensures Ptr(r, g, j) == Ptr(s, g, j)
    {
      assert Ptr(s, g, INDIRECT) == s.files[g].indirect;
      assert Ptr(s, f, k) != Ptr(s, g, INDIRECT);
    }
    forall b: nat | r.reserved <= b < |r.free| && !r.free[b]
      ensures Held(r, b)
    {
      assert Held(s, b);
      var g: nat, j: nat :| Refers(s, g, j, b);
      assert Refers(r, g, j, b);
    }
  }

  /** r differs from s, in the bytes s has, only in [pos, pos + |data|) of f,
      which holds data. */
  ghost predicate Spliced(s: Fs, r: Fs, f: nat, pos: nat, data: seq<byte>)
    requires f < |s.files|
  {
    && SameSizes(s, r)
    && (forall q: nat | pos <= q < pos + |data| :: ByteAt(r, f, q) == Some(data[q - pos]))
    && OthersKept(s, r, f, pos, pos + |data|)
  }

  ghost predicate OthersKept(s: Fs, r: Fs, f: nat, pos: nat, end: nat)
    requires f < |s.files|
  {
    |r.files| == |s.files| &&
    forall g: nat, q: nat | g < |s.files| && ByteAt(s, g, q).Some? && !(g == f && pos <= q < end) ::
      ByteAt(r, g, q) == ByteAt(s, g, q)
  }

  lemma KeepsDataBytes(s: Fs, r: Fs)
    requires KeepsData(s, r)
    ensures forall g: nat, q: nat | g < |s.files| && ByteAt(s, g, q).Some? :: ByteAt(r, g, q) == ByteAt(s, g, q)
  {
  }

  lemma PatchSplices(s: Fs, f: nat, pos: nat, data: seq<byte>)
    requires Owned(s) && f < |s.files| && pos / BLKSIZE < MAXBLOCKS && Content(s, f, pos / BLKSIZE).Some?
    requires pos % BLKSIZE + |data| <= BLKSIZE
    ensures var r := Patch(s, f, pos / BLKSIZE, pos % BLKSIZE, data);
            Owned(r) && Spliced(s, r, f, pos, data)
  {
    var k, o := pos / BLKSIZE, pos % BLKSIZE;
    var r := Patch(s, f, k, o, data);
    PatchSpec(s, f, k, o, data);
    forall q: nat | pos <= q < pos + |data|
      ensures ByteAt(r, f, q) == Some(data[q - pos])
    {
      BlockOf(q, k);
    }
    forall g: nat, q: nat | g < |s.files| && ByteAt(s, g, q).Some? && !(g == f && pos <= q < pos + |data|)
      ensures ByteAt(r, g, q) == ByteAt(s, g, q)
    {
      if g == f && q / BLKSIZE == k {
        BlockOf(q, k);
        BlockOf(pos, k);
      }
    }
  }

  // ------------------------------------------------------------------
  // Writing
  // ------------------------------------------------------------------

  /** Every block the loop takes as an indirect block reads as zeros. */
  ghost predicate LuckyWrite(s: Fs, f: nat, buf: seq<byte>, off: nat, pos: nat)
    requires Sized(s) && f < |s.files| && off <= pos
    decreases off + |buf| - pos
  {
    var end := off + |buf|;
    pos >= end ||
    (Lucky(s, f, pos / BLKSIZE) &&
     (FileGetBlock(s, f, pos / BLKSIZE).1 == Ok ==>
       LuckyWrite(AfterChunk(s, f, buf, off, pos), f, buf, off, pos + ChunkLen(pos, end))))
  }

  /** What any write that got as far as pos leaves. */
  ghost predicate WroteFrom(s: Fs, r: Fs, res: Res, f: nat, buf: seq<byte>, off: nat, pos: nat)
    requires f < |s.files| && off <= pos
  {
    var end := off + |buf|;
    && Owned(r) && SameSizes(s, r) && res in {Ok, NoDisk, Inval}
    && OthersKept(s, r, f, pos, end)
    && (res == Ok ==> forall q: nat | pos <= q < end :: ByteAt(r, f, q) == Some(buf[q - off]))
    && (res == Ok ==> pos >= end || end <= MAXFILESIZE)
    && (res == Inval ==> end > MAXFILESIZE)
    && (res == NoDisk ==> FirstFree(r.free, 0) == |r.free|)
  }

  lemma InFile(pos: nat, size: nat)
    requires pos < size
    ensures pos / BLKSIZE < BlocksFor(size)
  {
  }

  lemma {:induction false} WriteFromSpec(s: Fs, f: nat, buf: seq<byte>, off: nat, pos: nat, r: Fs, res: Res)
    requires Owned(s) && f < |s.files| && off <= pos && off + |buf| <= s.files[f].size
    requires LuckyWrite(s, f, buf, off, pos) && WriteFrom(s, f, buf, off, pos) == (r, res)
    ensures WroteFrom(s, r, res, f, buf, off, pos)
    decreases off + |buf| - pos
  {
    hide FileGetBlock, AfterChunk;
    var end := off + |buf|;
    if pos < end {
      if FileGetBlock(s, f, pos / BLKSIZE).1 == Ok {
        ChunkOwned(s, f, buf, off, pos);
        WriteUnfolds(s, f, buf, off, pos);
        WriteFromSpec(AfterChunk(s, f, buf, off, pos), f, buf, off, pos + ChunkLen(pos, end), r, res);
        WriteChains(s, f, buf, off, pos, r, res);
      } else {
        WriteStops(s, f, buf, off, pos);
      }
    }
  }

  lemma WriteUnfolds(s: Fs, f: nat, buf: seq<byte>, off: nat, pos: nat)
    requires Sized(s) && f < |s.files| && off <= pos < off + |buf| && FileGetBlock(s, f, pos / BLKSIZE).1 == Ok
    ensures WriteFrom(s, f, buf, off, pos) ==
              WriteFrom(AfterChunk(s, f, buf, off, pos), f, buf, off, pos + ChunkLen(pos, off + |buf|))
    ensures LuckyWrite(s, f, buf, off, pos) ==>
              LuckyWrite(AfterChunk(s, f, buf, off, pos), f, buf, off, pos + ChunkLen(pos, off + |buf|))
  {
  }

  lemma WriteStops(s: Fs, f: nat, buf: seq<byte>, off: nat, pos: nat)
    requires Owned(s) && f < |s.files| && off <= pos < off + |buf| <= s.files[f].size && Lucky(s, f, pos / BLKSIZE)
    requires FileGetBlock(s, f, pos / BLKSIZE).1 != Ok
    ensures var (r, res) := FileGetBlock(s, f, pos / BLKSIZE); WroteFrom(s, r, res, f, buf, off, pos)
  {
    InFile(pos, s.files[f].size);
    GetBlockSpec(s, f, pos / BLKSIZE);
    KeepsDataBytes(s, FileGetBlock(s, f, pos / BLKSIZE).0);
    BlockOf(pos, pos / BLKSIZE);
  }

  lemma ChunkSplices(s: Fs, f: nat, buf: seq<byte>, off: nat, pos: nat)
    requires Owned(s) && f < |s.files| && off <= pos < off + |buf| <= s.files[f].size && Lucky(s, f, pos / BLKSIZE)
    requires FileGetBlock(s, f, pos / BLKSIZE).1 == Ok
    ensures var s1 := FileGetBlock(s, f, pos / BLKSIZE).0;
            var n := ChunkLen(pos, off + |buf|);
            && SameSizes(s, s1) && pos / BLKSIZE < MAXBLOCKS
            && Owned(AfterChunk(s, f, buf, off, pos))
            && Spliced(s1, AfterChunk(s, f, buf, off, pos), f, pos, buf[pos - off..pos - off + n])
            && (forall g: nat, q: nat | g < |s.files| && ByteAt(s, g, q).Some? :: ByteAt(s1, g, q) == ByteAt(s, g, q))
  {
    InFile(pos, s.files[f].size);
    GetBlockSpec(s, f, pos / BLKSIZE);
    var s1 := FileGetBlock(s, f, pos / BLKSIZE).0;
    KeepsDataBytes(s, s1);
    var n := ChunkLen(pos, off + |buf|);
    PatchSplices(s1, f, pos, buf[pos - off..pos - off + n]);
  }

  lemma ChunkOwned(s: Fs, f: nat, buf: seq<byte>, off: nat, pos: nat)
    requires Owned(s) && f < |s.files| && off <= pos < off + |buf| <= s.files[f].size && Lucky(s, f, pos / BLKSIZE)
    requires FileGetBlock(s, f, pos / BLKSIZE).1 == Ok
    ensures Owned(AfterChunk(s, f, buf, off, pos)) && AfterChunk(s, f, buf, off, pos).files[f].size == s.files[f].size
  {
    ChunkSplices(s, f, buf, off, pos);
  }

  lemma WriteChains(s: Fs, f: nat, buf: seq<byte>, off: nat, pos: nat, r: Fs, res: Res)
    requires Owned(s) && f < |s.files| && off <= pos < off + |buf| <= s.files[f].size && Lucky(s, f, pos / BLKSIZE)
    requires FileGetBlock(s, f, pos / BLKSIZE).1 == Ok
    requires WroteFrom(AfterChunk(s, f, buf, off, pos), r, res, f, buf, off, pos + ChunkLen(pos, off + |buf|))
    ensures WroteFrom(s, r, res, f, buf, off, pos)
  {
    var s1 := FileGetBlock(s, f, pos / BLKSIZE).0;
    ChunkSplices(s, f, buf, off, pos);
    ChainBytes(s, s1, AfterChunk(s, f, buf, off, pos), r, res, f, buf, off, pos, ChunkLen(pos, off + |buf|));
  }

  lemma ChainBytes(s: Fs, s1: Fs, s2: Fs, r: Fs, res: Res, f: nat, buf: seq<byte>, off: nat, pos: nat, n: nat)
    requires f < |s.files| && off <= pos && 0 < n && pos + n <= off + |buf|
    requires SameSizes(s, s1) && Spliced(s1, s2, f, pos, buf[pos - off..pos - off + n])
    requires pos / BLKSIZE < MAXBLOCKS && pos % BLKSIZE + n <= BLKSIZE
    requires forall g: nat, q: nat | g < |s.files| && ByteAt(s, g, q).Some? :: ByteAt(s1, g, q) == ByteAt(s, g, q)
    requires WroteFrom(s2, r, res, f, buf, off, pos + n)
    ensures WroteFrom(s, r, res, f, buf, off, pos)
  {
    var data := buf[pos - off..pos - off + n];
    forall q: nat | pos <= q < off + |buf| && res == Ok
      ensures ByteAt(r, f, q) == Some(buf[q - off])
    {
      if q < pos + n {
        assert ByteAt(s2, f, q) == Some(data[q - pos]);
      }
    }
    forall g: nat, q: nat | g < |s.files| && ByteAt(s, g, q).Some? && !(g == f && pos <= q < off + |buf|)
      ensures ByteAt(r, g, q) == ByteAt(s, g, q)
    {
      assert ByteAt(s1, g, q) == ByteAt(s, g, q);
      assert ByteAt(s2, g, q) == ByteAt(s1, g, q);
    }
  }

  /** The state the write loop starts from. */
  function Extended(s: Fs, f: nat, end: nat): (r: Fs)
    requires Sized(s) && f < |s.files| && end <= MAXOFF
    ensures Sized(r) && |r.files| == |s.files|
  {
    if end > s.files[f].size then FileSetSize(s, f, end).0 else s
  }

  lemma ExtendedSpec(s: Fs, f: nat, end: nat)
    requires Owned(s) && f < |s.files| && end <= MAXOFF
    ensures var r := Extended(s, f, end);
            && Owned(r) && SameShape(s, r)
            && r.files[f].size == (if end > s.files[f].size then end else s.files[f].size)
            && (forall g: nat | g < |s.files| && g != f :: r.files[g].size == s.files[g].size)
            && (forall g: nat, q: nat | g < |s.files| :: ByteAt(r, g, q) == ByteAt(s, g, q))
    ensures end > s.files[f].size ==> FileSetSize(s, f, end).1 == Ok
  {
    if end > s.files[f].size {
      SetSizeSpec(s, f, end);
      var r := FileSetSize(s, f, end).0;
      forall j: nat | BlocksFor(end) <= j < INDIRECT
        ensures Content(r, f, j) == Content(s, f, j)
      {
        assert Ptr(s, f, j) == 0;
      }
    }
  }

  /** file_write is a splice. A write that returns count makes exactly the
      bytes [off, off + count) of f equal to the buffer; whatever it returns,
      it changes no other byte that any file had, extends f to the end of the
      request, and keeps the ownership invariant. It fails only beyond the
      largest file or with the disk full. */
  lemma FileWriteSplices(s: Fs, f: nat, buf: seq<byte>, off: nat)
    requires Owned(s) && f < |s.files| && off + |buf| <= MAXOFF
    requires LuckyWrite(Extended(s, f, off + |buf|), f, buf, off, off)
    ensures var (r, res) := FileWrite(s, f, buf, off);
            var end := off + |buf|;
            && Owned(r) && SameShape(s, r) && res in {Ok, NoDisk, Inval}
            && r.files[f].size == (if end > s.files[f].size then end else s.files[f].size)
            && (forall g: nat | g < |s.files| && g != f :: r.files[g].size == s.files[g].size)
            && OthersKept(s, r, f, off, end)
            && (res == Ok ==> forall q: nat | off <= q < end :: ByteAt(r, f, q) == Some(buf[q - off]))
            && (res == Ok ==> |buf| == 0 || end <= MAXFILESIZE)
            && (res == Inval ==> end > MAXFILESIZE)
            && (res == NoDisk ==> FirstFree(r.free, 0) == |r.free|)
  {
    hide FileSetSize, FileGetBlock, ByteAt, Owned;
    var end := off + |buf|;
    ExtendedSpec(s, f, end);
    var s1 := Extended(s, f, end);
    var (r, res) := FileWrite(s, f, buf, off);
    assert WriteFrom(s1, f, buf, off, off) == (r, res);
    WriteFromSpec(s1, f, buf, off, off, r, res);
  }

  // ------------------------------------------------------------------
  // Reading
  // ------------------------------------------------------------------

  ghost predicate LuckyRead(s: Fs, f: nat, pos: nat, end: nat)
    requires Sized(s) && f < |s.files|
    decreases end - pos
  {
    pos >= end ||
    (Lucky(s, f, pos / BLKSIZE) &&
     (FileGetBlock(s, f, pos / BLKSIZE).1 == Ok ==>
       LuckyRead(FileGetBlock(s, f, pos / BLKSIZE).0, f, pos + ChunkLen(pos, end), end)))
  }

  ghost predicate ReadOut(s: Fs, r: Fs, res: Res, data: seq<byte>, f: nat, pos: nat, end: nat)
    requires f < |s.files|
  {
    && Owned(r) && SameSizes(s, r) && res in {Ok, NoDisk, Inval}
    && (forall g: nat, q: nat | g < |s.files| && ByteAt(s, g, q).Some? :: ByteAt(r, g, q) == ByteAt(s, g, q))
    && (res == Ok ==> |data| == (if pos < end then end - pos else 0))
    && (res == Ok ==> forall q: nat | pos <= q < end :: ByteAt(r, f, q) == Some(data[q - pos]))
    && (res == Inval ==> end > MAXFILESIZE)
    && (res == NoDisk ==> FirstFree(r.free, 0) == |r.free|)
  }

  /** The bytes moved in one turn of the loop. */
  function Chunk(s: Fs, f: nat, pos: nat, end: nat): (r: seq<byte>)
    requires Sized(s) && f < |s.files| && pos < end && FileGetBlock(s, f, pos / BLKSIZE).1 == Ok
    ensures |r| == ChunkLen(pos, end)
  {
    var s1 := FileGetBlock(s, f, pos / BLKSIZE).0;
    s1.blocks[Ptr(s1, f, pos / BLKSIZE)][pos % BLKSIZE..pos % BLKSIZE + ChunkLen(pos, end)]
  }

  lemma ReadDone(s: Fs, f: nat, pos: nat, end: nat)
    requires Sized(s) && f < |s.files| && pos >= end
    ensures ReadFrom(s, f, pos, end) == (s, Ok, [])
  {
  }

  lemma ReadStops(s: Fs, f: nat, pos: nat, end: nat)
    requires Sized(s) && f < |s.files| && pos < end && FileGetBlock(s, f, pos / BLKSIZE).1 != Ok
    ensures ReadFrom(s, f, pos, end) == (FileGetBlock(s, f, pos / BLKSIZE).0, FileGetBlock(s, f, pos / BLKSIZE).1, [])
  {
  }

  lemma ReadUnfolds(s: Fs, f: nat, pos: nat, end: nat)
    requires Sized(s) && f < |s.files| && pos < end && FileGetBlock(s, f, pos / BLKSIZE).1 == Ok
    ensures var s1 := FileGetBlock(s, f, pos / BLKSIZE).0;
            var (r, res, rest) := ReadFrom(s1, f, pos + ChunkLen(pos, end), end);
            ReadFrom(s, f, pos, end) == (r, res, Chunk(s, f, pos, end) + rest)
  {
  }

  lemma ChunkReads(s: Fs, f: nat, pos: nat, end: nat)
    requires Owned(s) && f < |s.files| && pos < end <= s.files[f].size && Lucky(s, f, pos / BLKSIZE)
    ensures var (s1, res) := FileGetBlock(s, f, pos / BLKSIZE);
            && Owned(s1) && SameSizes(s, s1) && res in {Ok, NoDisk, Inval}
            && (forall g: nat, q: nat | g < |s.files| && ByteAt(s, g, q).Some? :: ByteAt(s1, g, q) == ByteAt(s, g, q))
            && (res == Inval ==> end > MAXFILESIZE)
            && (res == NoDisk ==> FirstFree(s1.free, 0) == |s1.free|)
            && (res == Ok ==> forall q: nat | pos <= q < pos + ChunkLen(pos, end) ::
                  ByteAt(s1, f, q) == Some(Chunk(s, f, pos, end)[q - pos]))
  {
    var k := pos / BLKSIZE;
    InFile(pos, s.files[f].size);
    GetBlockSpec(s, f, k);
    var (s1, res) := FileGetBlock(s, f, k);
    KeepsDataBytes(s, s1);
    BlockOf(pos, k);
    if res == Ok {
      forall q: nat | pos <= q < pos + ChunkLen(pos, end)
        ensures ByteAt(s1, f, q) == Some(Chunk(s, f, pos, end)[q - pos])
      {
        BlockOf(q, k);
      }
    }
  }

  lemma {:induction false} ReadFromSpec(s: Fs, f: nat, pos: nat, end: nat)
    requires Owned(s) && f < |s.files| && end <= s.files[f].size && LuckyRead(s, f, pos, end)
    ensures var (r, res, data) := ReadFrom(s, f, pos, end); ReadOut(s, r, res, data, f, pos, end)
    decreases end - pos
  {
    hide FileGetBlock, ByteAt, Chunk;
    if pos < end {
      ChunkReads(s, f, pos, end);
      var (s1, res) := FileGetBlock(s, f, pos / BLKSIZE);
      if res == Ok {
        var next := pos + ChunkLen(pos, end);
        ReadUnfolds(s, f, pos, end);
        ReadFromSpec(s1, f, next, end);
        var (r, res1, rest) := ReadFrom(s1, f, next, end);
        ReadChains(s, s1, r, res1, Chunk(s, f, pos, end), rest, f, pos, next, end);
      }
    }
  }

  lemma ReadChains(s: Fs, s1: Fs, r: Fs, res: Res, data: seq<byte>, rest: seq<byte>, f: nat, pos: nat, next: nat,
      end: nat)
    requires f < |s.files| && SameSizes(s, s1) && pos < next <= end && |data| == next - pos
    requires forall g: nat, q: nat | g < |s.files| && ByteAt(s, g, q).Some? :: ByteAt(s1, g, q) == ByteAt(s, g, q)
    requires forall q: nat | pos <= q < next :: ByteAt(s1, f, q) == Some(data[q - pos])
    requires ReadOut(s1, r, res, rest, f, next, end)
    ensures ReadOut(s, r, res, data + rest, f, pos, end)
  {
    hide ByteAt;
    forall g: nat, q: nat | g < |s.files| && ByteAt(s, g, q).Some?
      ensures ByteAt(r, g, q) == ByteAt(s, g, q)
    {
      assert ByteAt(s1, g, q) == ByteAt(s, g, q);
    }
    forall q: nat | pos <= q < end && res == Ok
      ensures ByteAt(r, f, q) == Some((data + rest)[q - pos])
    {
      if q < next {
        assert ByteAt(s1, f, q) == Some(data[q - pos]);
      }
    }
  }

  /** file_read is a slice: it returns the bytes [off, off + n) of f, n being
      count cut at the file's size; a hole it meets becomes a block whose old
      contents are what it returns there. */
  lemma FileReadSlices(s: Fs, f: nat, count: nat, off: nat)
    requires Owned(s) && f < |s.files|
    requires off < s.files[f].size ==> LuckyRead(s, f, off, off + Min(count, s.files[f].size - off))
    ensures var (r, res, data) := FileRead(s, f, count, off);
            && Owned(r) && SameSizes(s, r) && res in {Ok, NoDisk, Inval}
            && (forall g: nat, q: nat | g < |s.files| && ByteAt(s, g, q).Some? :: ByteAt(r, g, q) == ByteAt(s, g, q))
            && (res == Ok ==> |data| == (if off >= s.files[f].size then 0 else Min(count, s.files[f].size - off)))
            && (res == Ok ==> forall i | 0 <= i < |data| :: ByteAt(r, f, off + i) == Some(data[i]))
  {
    hide FileGetBlock, ByteAt;
    if off < s.files[f].size {
      ReadFromSpec(s, f, off, off + Min(count, s.files[f].size - off));
    }
  }

  // ------------------------------------------------------------------
  // Round trip
  // ------------------------------------------------------------------

  /** A block that is there is found without changing anything. */
  lemma GetPresent(s: Fs, f: nat, k: nat)
    requires Owned(s) && f < |s.files| && k < MAXBLOCKS && Content(s, f, k).Some?
    ensures FileGetBlock(s, f, k) == (s, Ok)
  {
    assert Ptr(s, f, INDIRECT) == s.files[f].indirect;
  }

  lemma {:induction false} ReadPresent(s: Fs, f: nat, pos: nat, end: nat)
    requires Owned(s) && f < |s.files| && pos <= end
    requires forall q: nat | pos <= q < end :: ByteAt(s, f, q).Some?
    ensures var (r, res, data) := ReadFrom(s, f, pos, end);
            r == s && res == Ok && |data| == end - pos
            && (forall q: nat | pos <= q < end :: ByteAt(s, f, q) == Some(data[q - pos]))
    decreases end - pos
  {
    hide FileGetBlock;
    if pos < end {
      assert ByteAt(s, f, pos).Some?;
      var k := pos / BLKSIZE;
      GetPresent(s, f, k);
      var next := pos + ChunkLen(pos, end);
      ReadPresent(s, f, next, end);
      var rest := ReadFrom(s, f, next, end).2;
      ReadUnfolds(s, f, pos, end);
      forall q: nat | pos <= q < end
        ensures ByteAt(s, f, q) == Some((Chunk(s, f, pos, end) + rest)[q - pos])
      {
        BlockOf(q, k);
        BlockOf(pos, k);
      }
    }
  }

  lemma ReadBack(s: Fs, f: nat, buf: seq<byte>, off: nat)
    requires Owned(s) && f < |s.files| && off + |buf| <= s.files[f].size
    requires forall q: nat | off <= q < off + |buf| :: ByteAt(s, f, q) == Some(buf[q - off])
    ensures FileRead(s, f, |buf|, off) == (s, Ok, buf)
  {
    hide FileGetBlock, ByteAt, Owned;
    var end := off + |buf|;
    if off < s.files[f].size {
      assert Min(|buf|, s.files[f].size - off) == |buf|;
      ReadPresent(s, f, off, end);
      var data := ReadFrom(s, f, off, end).2;
      forall i | 0 <= i < |buf|
        ensures data[i] == buf[i]
      {
        assert ByteAt(s, f, off + i) == Some(buf[off + i - off]);
        assert ByteAt(s, f, off + i) == Some(data[off + i - off]);
      }
      assert data == buf;
    }
  }

  /** What a write stored, the next read returns, and it changes nothing. */
  lemma WriteThenRead(s: Fs, f: nat, buf: seq<byte>, off: nat)
    requires Owned(s) && f < |s.files| && off + |buf| <= MAXOFF
    requires LuckyWrite(Extended(s, f, off + |buf|), f, buf, off, off)
    requires FileWrite(s, f, buf, off).1 == Ok
    ensures var r := FileWrite(s, f, buf, off).0; FileRead(r, f, |buf|, off) == (r, Ok, buf)
  {
    hide FileWrite, LuckyWrite, Extended, ByteAt, FileRead, InRange, Once, TailZero, NoLeak;
    FileWriteSplices(s, f, buf, off);
    ReadBack(FileWrite(s, f, buf, off).0, f, buf, off);
  }

  // ------------------------------------------------------------------
  // Conservation, and runs of the file server
  // ------------------------------------------------------------------

  ghost function FreeBlocks(s: Fs): set<nat> {
    set b: nat | b < |s.free| && s.free[b]
  }

  /** The slots that hold a pointer, f_indirect included. */
  ghost function UsedSlots(s: Fs): set<(nat, nat)> {
    set f: nat, k: nat | f < |s.files| && k <= INDIRECT && Ptr(s, f, k) != 0 :: (f, k)
  }

  ghost function HeldBlocks(s: Fs, slots: set<(nat, nat)>): set<nat>
    requires forall x | x in slots :: x.0 < |s.files| && x.1 <= INDIRECT
  {
    set x | x in slots :: Ptr(s, x.0, x.1)
  }

  lemma {:induction false} SlotsAreBlocks(s: Fs, slots: set<(nat, nat)>)
    requires Owned(s) && slots <= UsedSlots(s)
    ensures |HeldBlocks(s, slots)| == |slots|
  {
    hide Ptr, InRange, TailZero, NoLeak;
    if slots != {} {
      var x :| x in slots;
      var rest := slots - {x};
      SlotsAreBlocks(s, rest);
      OneMoreBlock(s, rest, x);
      assert slots == rest + {x};
    }
  }

  lemma OneMoreBlock(s: Fs, rest: set<(nat, nat)>, x: (nat, nat))
    requires Owned(s) && rest + {x} <= UsedSlots(s) && x !in rest
    ensures HeldBlocks(s, rest + {x}) == HeldBlocks(s, rest) + {Ptr(s, x.0, x.1)}
    ensures Ptr(s, x.0, x.1) !in HeldBlocks(s, rest)
  {
    hide Ptr, InRange, TailZero, NoLeak;
    forall y | y in rest
      ensures Ptr(s, y.0, y.1) != Ptr(s, x.0, x.1)
    {
      assert (y.0, y.1) == y && (x.0, x.1) == x;
    }
  }

  ghost function Below(n: nat): (r: set<nat>)
    ensures |r| == n && forall b: nat :: b in r <==> b < n
  {
    if n == 0 then {} else Below(n - 1) + {n - 1}
  }

  lemma HeldIs(s: Fs, b: nat)
    requires Owned(s)
    ensures b in HeldBlocks(s, UsedSlots(s)) <==> s.reserved <= b < |s.free| && !s.free[b]
  {
    if s.reserved <= b < |s.free| && !s.free[b] {
      assert Held(s, b);
      var f: nat, k: nat :| Refers(s, f, k, b);
      assert (f, k) in UsedSlots(s);
    }
  }

  /** Conservation: free, reserved and referenced blocks make up the disk. */
  lemma BlocksAreConserved(s: Fs)
    requires Owned(s)
    ensures |FreeBlocks(s)| + s.reserved + |UsedSlots(s)| == |s.free|
  {
    var held, free := HeldBlocks(s, UsedSlots(s)), FreeBlocks(s);
    SlotsAreBlocks(s, UsedSlots(s));
    forall b: nat
      ensures b in held <==> s.reserved <= b < |s.free| && !s.free[b]
      ensures b in free <==> s.reserved <= b < |s.free| && s.free[b]
    {
      HeldIs(s, b);
      FreeIs(s, b);
    }
    hide *;
    ThreeParts(free, held, s.free, s.reserved);
  }

  lemma FreeIs(s: Fs, b: nat)
    requires Owned(s)
    ensures b in FreeBlocks(s) <==> s.reserved <= b < |s.free| && s.free[b]
    ensures s.reserved <= |s.free|
  {
  }

  lemma ThreeParts(free: set<nat>, held: set<nat>, bits: seq<bool>, reserved: nat)
    requires reserved <= |bits|
    requires forall b: nat :: b in held <==> reserved <= b < |bits| && !bits[b]
    requires forall b: nat :: b in free <==> reserved <= b < |bits| && bits[b]
    ensures |free| + reserved + |held| == |bits|
  {
    var low := Below(reserved);
    forall b: nat
      ensures b in low + free + held <==> b < |bits|
      ensures !(b in low && b in free) && !(b in low + free && b in held)
    {
    }
    DisjointSizes(low, free, held, |bits|);
  }

  lemma DisjointSizes(a: set<nat>, b: set<nat>, c: set<nat>, n: nat)
    requires forall x: nat :: x in a + b + c <==> x < n
    requires forall x: nat :: !(x in a && x in b) && !(x in a + b && x in c)
    ensures |a| + |b| + |c| == n
  {
    assert a + b + c == Below(n);
    assert |a + b| == |a| + |b|;
    assert |a + b + c| == |a + b| + |c|;
  }

  // ------------------------------------------------------------------
  // Creation: records in blocks nobody clears
  // ------------------------------------------------------------------

  const BLKFILES: nat := 16

  /** The struct File at record j of a directory block: f_size is at byte 128
      of its 256, f_direct at 136 and f_indirect at 176. */
  function RecordAt(blk: Bytes, j: nat): File
    requires j < BLKFILES
  {
    File(Word(blk, 64 * j + 32), WordsAt(blk, 64 * j + 34), Word(blk, 64 * j + 44))
  }

  function WordsAt(blk: Bytes, from: nat): Direct
    requires from + NDIRECT <= NINDIRECT
  {
    [Word(blk, from), Word(blk, from + 1), Word(blk, from + 2), Word(blk, from + 3), Word(blk, from + 4),
     Word(blk, from + 5), Word(blk, from + 6), Word(blk, from + 7), Word(blk, from + 8), Word(blk, from + 9)]
  }

  /** The files a block just added to a directory holds: record 0, which is
      given its name, and every later one whose stale name is not empty. */
  function NewRecords(blk: Bytes, j: nat): seq<File>
    requires j <= BLKFILES
    decreases BLKFILES - j
  {
    if j == BLKFILES then []
    else if j == 0 || blk[256 * j] != 0 then [RecordAt(blk, j)] + NewRecords(blk, j + 1)
    else NewRecords(blk, j + 1)
  }

  /** Exactly those: the first record, and the ones with a name. */
  lemma {:induction false} NewRecordsAre(blk: Bytes, j: nat, file: File)
    requires j <= BLKFILES
    ensures file in NewRecords(blk, j) <==>
              exists i: nat :: j <= i < BLKFILES && (i == 0 || blk[256 * i] != 0) && file == RecordAt(blk, i)
    decreases BLKFILES - j
  {
    hide RecordAt;
    if j < BLKFILES {
      NewRecordsAre(blk, j + 1, file);
    }
  }

  /** The four bytes from `at` on as a little-endian number. */
  function BytesAt(blk: Bytes, at: nat): int
    requires at + 4 <= BLKSIZE
  {
    blk[at] as int + 0x100 * blk[at + 1] as int + 0x1_0000 * blk[at + 2] as int + 0x100_0000 * blk[at + 3] as int
  }

  /** Where the fields of struct File lie in its 256 bytes. */
  lemma RecordLayout(blk: Bytes, j: nat)
    requires j < BLKFILES
    ensures var file := RecordAt(blk, j);
            && file.size == BytesAt(blk, 256 * j + 128) && file.indirect == BytesAt(blk, 256 * j + 176)
            && (forall i | 0 <= i < NDIRECT :: file.direct[i] == BytesAt(blk, 256 * j + 136 + 4 * i))
  {
    hide Word, BytesAt;
    WordBytes(blk, 64 * j + 32);
    WordBytes(blk, 64 * j + 44);
    forall i | 0 <= i < NDIRECT
      ensures WordsAt(blk, 64 * j + 34)[i] == BytesAt(blk, 256 * j + 136 + 4 * i)
    {
      WordBytes(blk, 64 * j + 34 + i);
    }
  }

  lemma WordBytes(blk: Bytes, k: nat)
    requires k < NINDIRECT
    ensures Word(blk, k) == BytesAt(blk, 4 * k)
  {
  }

  /** No pointers, and a size that can be rounded up to a block. */
  ghost predicate Blank(file: File) {
    file.size <= MAXOFF && (forall i | 0 <= i < NDIRECT :: file.direct[i] == 0) && file.indirect == 0
  }

  ghost predicate AllBlank(files: seq<File>) {
    forall i | 0 <= i < |files| :: Blank(files[i])
  }

  ghost predicate SameDisk(s: Fs, r: Fs) {
    |r.free| == |s.free| && r.reserved == s.reserved && |r.files| >= |s.files|
  }

  predicate AllSized(files: seq<File>) {
    forall i | 0 <= i < |files| :: files[i].size <= MAXOFF
  }

  function AddRecords(s: Fs, news: seq<File>): Fs {
    s.(files := s.files + news)
  }

  /** file_create in a directory whose records all have names: dir_alloc_file
      adds a block to it, and of the first record only the name is set. */
  function CreateInNewBlock(s: Fs, d: nat): (r: (Fs, Res))
    requires Sized(s) && d < |s.files| && s.files[d].size + BLKSIZE <= MAXOFF
    ensures |r.0.files| >= |s.files|
    ensures Sized(r.0) <==> AllSized(r.0.files[|s.files|..])
  {
    var k := s.files[d].size / BLKSIZE;
    var (s1, res) := FileGetBlock(Extended(s, d, s.files[d].size + BLKSIZE), d, k);
    if res != Ok then (s1, res) else (AddRecords(s1, NewRecords(s1.blocks[Ptr(s1, d, k)], 0)), Ok)
  }

  lemma AddedPtr(s: Fs, news: seq<File>, g: nat, k: nat)
    requires g < |s.files| + |news| && k <= INDIRECT
    ensures g < |s.files| ==> Ptr(AddRecords(s, news), g, k) == Ptr(s, g, k)
    ensures g >= |s.files| && Blank(news[g - |s.files|]) ==> Ptr(AddRecords(s, news), g, k) == 0
  {
    var r := AddRecords(s, news);
    assert r.files[g] == if g < |s.files| then s.files[g] else news[g - |s.files|];
  }

  lemma BlankOwned(s: Fs, news: seq<File>)
    requires Owned(s) && AllBlank(news)
    ensures Owned(AddRecords(s, news))
  {
    var r := AddRecords(s, news);
    forall g: nat, k: nat | g < |r.files| && k <= INDIRECT
      ensures Ptr(r, g, k) == if g < |s.files| then Ptr(s, g, k) else 0
    {
      AddedPtr(s, news, g, k);
    }
    hide Ptr;
    forall b: nat | r.reserved <= b < |r.free| && !r.free[b]
      ensures Held(r, b)
    {
      assert Held(s, b);
      var g: nat, k: nat :| Refers(s, g, k, b);
      assert Refers(r, g, k, b);
    }
  }

  /** A pointer in a new record names a block that is reserved, or free, or
      another slot's, or not on the disk. */
  lemma StaleRecord(s: Fs, news: seq<File>, i: nat, k: nat)
    requires Owned(s) && i < |news| && k <= INDIRECT && Ptr(AddRecords(s, news), |s.files| + i, k) != 0
    ensures !Owned(AddRecords(s, news))
  {
    var r := AddRecords(s, news);
    var w := Ptr(r, |s.files| + i, k);
    if s.reserved <= w < |s.free| && !s.free[w] {
      assert Held(s, w);
      var g: nat, j: nat :| Refers(s, g, j, w);
      AddedPtr(s, news, g, j);
      assert Ptr(r, g, j) == w;
    }
  }

  /** Records keep the invariant exactly when they are blank. */
  lemma AddedOwned(s: Fs, news: seq<File>)
    requires Owned(s)
    ensures Owned(AddRecords(s, news)) <==> AllBlank(news)
  {
    if AllBlank(news) {
      BlankOwned(s, news);
    } else {
      var r := AddRecords(s, news);
      var i :| 0 <= i < |news| && !Blank(news[i]);
      var g := |s.files| + i;
      assert r.files[g] == news[i];
      if news[i].size <= MAXOFF {
        if news[i].indirect != 0 {
          StaleRecord(s, news, i, INDIRECT);
        } else {
          var k :| 0 <= k < NDIRECT && news[i].direct[k] != 0;
          StaleRecord(s, news, i, k);
        }
      }
    }
  }

  /** Creation in a new block: the block was free and keeps the bytes it had,
      and the invariant survives exactly when the records those bytes make up
      are blank. A creation that fails keeps it. */
  lemma CreateExactly(s: Fs, d: nat)
    requires Owned(s) && d < |s.files| && s.files[d].size % BLKSIZE == 0 && s.files[d].size + BLKSIZE <= MAXOFF
    requires Lucky(Extended(s, d, s.files[d].size + BLKSIZE), d, s.files[d].size / BLKSIZE)
    ensures var (r, res) := CreateInNewBlock(s, d); var k := s.files[d].size / BLKSIZE;
            && res in {Ok, NoDisk, Inval} && SameDisk(s, r) && (res != Ok ==> Owned(r))
            && (res == Ok ==> d < |r.files| && k < INDIRECT && var b := Ptr(r, d, k);
                  && b < |s.free| && s.free[b] && !r.free[b] && r.blocks[b] == s.blocks[b]
                  && r.files[|s.files|..] == NewRecords(s.blocks[b], 0)
                  && (Owned(r) <==> AllBlank(NewRecords(s.blocks[b], 0))))
  {
    hide FileGetBlock, Owned, FileSetSize, AllBlank, NewRecords;
    var end := s.files[d].size + BLKSIZE;
    var k := s.files[d].size / BLKSIZE;
    ExtendedSpec(s, d, end);
    InFile(end - BLKSIZE, end);
    var s0 := Extended(s, d, end);
    GetBlockSpec(s0, d, k);
    var (s1, res) := FileGetBlock(s0, d, k);
    if res == Ok {
      ExtendedIsFree(s, d, end);
      TakesFree(s0, d, k);
      var b := Ptr(s1, d, k);
      AddedOwned(s1, NewRecords(s1.blocks[b], 0));
      AddedPtr(s1, NewRecords(s1.blocks[b], 0), d, k);
    }
  }

  /** Growing moves no block. */
  lemma ExtendedIsFree(s: Fs, d: nat, end: nat)
    requires Owned(s) && d < |s.files| && s.files[d].size % BLKSIZE == 0 && end == s.files[d].size + BLKSIZE <= MAXOFF
    ensures var r := Extended(s, d, end);
            && r.free == s.free && r.blocks == s.blocks && |r.files| == |s.files|
            && (s.files[d].size / BLKSIZE < INDIRECT ==> Ptr(r, d, s.files[d].size / BLKSIZE) == 0)
  {
    var k := s.files[d].size / BLKSIZE;
    assert BlocksFor(s.files[d].size) == k;
    if k < INDIRECT {
      assert Ptr(s, d, k) == 0;
    }
  }

  /** A block got for an empty slot was free, and is handed out as it was. */
  lemma TakesFree(s: Fs, f: nat, k: nat)
    requires Owned(s) && f < |s.files| && Lucky(s, f, k) && k < INDIRECT && Ptr(s, f, k) == 0
    requires FileGetBlock(s, f, k).1 == Ok
    ensures var r := FileGetBlock(s, f, k).0; var b := Ptr(r, f, k);
            b < |s.free| && s.free[b] && !r.free[b] && |r.free| == |s.free| && r.blocks[b] == s.blocks[b]
  {
    hide Once, TailZero, NoLeak, InRange, Zeroed;
    WalkSpec(s, f, k);
    var (s1, res) := FileBlockWalk(s, f, k, true);
    if TakesIndirect(s, f, k) {
      WalkTakesIndirect(s, f, k);
    }
    assert Ptr(s1, f, k) == 0 && s1.blocks == s.blocks && |s1.free| == |s.free|;
    assert forall b: nat | b < |s1.free| && s1.free[b] :: s.free[b];
    TakenAsItWas(s1, f, k);
  }

  lemma TakenAsItWas(s: Fs, f: nat, k: nat)
    requires Owned(s) && f < |s.files| && k < INDIRECT && Ptr(s, f, k) == 0
    requires k >= NDIRECT ==> 0 < s.files[f].indirect < |s.blocks|
    requires FirstFree(s.free, 0) < |s.free|
    ensures var b := FirstFree(s.free, 0); var r := SetPtr(AllocBlock(s).0, f, k, b);
            Ptr(r, f, k) == b && !r.free[b] && |r.free| == |s.free| && r.blocks[b] == s.blocks[b]
  {
    TakesDataBlock(s, f, k);
    assert Ptr(s, f, INDIRECT) == s.files[f].indirect;
  }

  /** The calls that move blocks or make files. Create is file_create in
      directory f: on a record with no name, as it reads, or in a new block. */
  datatype Op =
    | Resize(f: nat, size: nat)
    | Write(f: nat, buf: seq<byte>, off: nat)
    | Read(f: nat, count: nat, off: nat)
    | Create(f: nat, was: Option<File>)

  ghost predicate Admissible(s: Fs, op: Op)
    requires Sized(s)
  {
    && op.f < |s.files|
    && match op
       case Resize(f, size) => size <= MAXOFF
       case Write(f, buf, off) =>
         off + |buf| <= MAXOFF && LuckyWrite(Extended(s, f, off + |buf|), f, buf, off, off)
       case Read(f, count, off) =>
         off < s.files[f].size ==> LuckyRead(s, f, off, off + Min(count, s.files[f].size - off))
       case Create(f, Some(was)) => Blank(was)
       case Create(f, None) =>
         var k := s.files[f].size / BLKSIZE;
         s.files[f].size % BLKSIZE == 0 && s.files[f].size + BLKSIZE <= MAXOFF
         && Lucky(Extended(s, f, s.files[f].size + BLKSIZE), f, k)
         && AllBlank(CreateInNewBlock(s, f).0.files[|s.files|..])
  }

  ghost function Step(s: Fs, op: Op): (r: Fs)
    requires Sized(s) && Admissible(s, op)
    ensures Sized(r)
  {
    match op
    case Resize(f, size) => FileSetSize(s, f, size).0
    case Write(f, buf, off) => FileWrite(s, f, buf, off).0
    case Read(f, count, off) => FileRead(s, f, count, off).0
    case Create(f, Some(was)) => AddRecords(s, [was])
    case Create(f, None) => CreateInNewBlock(s, f).0
  }

  /** A step keeps the invariant, the number of blocks and the reserved ones. */
  lemma StepKeepsOwned(s: Fs, op: Op)
    requires Owned(s) && Admissible(s, op)
    ensures Owned(Step(s, op)) && SameDisk(s, Step(s, op))
  {
    hide FileSetSize, FileGetBlock, Owned, WriteFrom, ReadFrom, ByteAt, Lucky, LuckyRead, LuckyWrite, Extended,
      CreateInNewBlock, Blank, NewRecords, BlocksFor;
    match op
    case Resize(f, size) => SetSizeSpec(s, f, size);
    case Write(f, buf, off) => FileWriteSplices(s, f, buf, off);
    case Read(f, count, off) => FileReadSlices(s, f, count, off);
    case Create(f, Some(was)) => AddedOwned(s, [was]);
    case Create(f, None) => CreateExactly(s, f);
  }

  ghost predicate AdmissibleRun(s: Fs, ops: seq<Op>)
    requires Sized(s)
    decreases |ops|
  {
    ops == [] || (Admissible(s, ops[0]) && AdmissibleRun(Step(s, ops[0]), ops[1..]))
  }

  ghost function Run(s: Fs, ops: seq<Op>): Fs
    requires Sized(s) && AdmissibleRun(s, ops)
    decreases |ops|
  {
    if ops == [] then s else Run(Step(s, ops[0]), ops[1..])
  }

  /** Over every run of the file server the ownership invariant holds and no
      block is lost. */
  lemma {:induction false} RunKeepsOwned(s: Fs, ops: seq<Op>)
    requires Owned(s) && AdmissibleRun(s, ops)
    ensures var r := Run(s, ops);
            Owned(r) && SameDisk(s, r) && |FreeBlocks(r)| + s.reserved + |UsedSlots(r)| == |s.free|
    decreases |ops|
  {
    hide Step, InRange, Once, TailZero, NoLeak, Admissible, FreeBlocks, UsedSlots;
    if ops == [] {
      BlocksAreConserved(s);
    } else {
      StepKeepsOwned(s, ops[0]);
      RunKeepsOwned(Step(s, ops[0]), ops[1..]);
    }
  }
}
