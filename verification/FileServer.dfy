/** fs/fs.c as it runs: bitmap words, block contents and `struct File` records
  are updated in place, and every method is proved against the function of
  the same name. Bit-level facts are kept apart.
 */
module FileServer {
  import opened FsBlocks
  import opened FileIo

  // ------------------------------------------------------------------
  // Bits
  // ------------------------------------------------------------------

  /** 1 << k */
  function Mask(k: nat): bv32
    requires k < 32
  {
    (1 as bv32) << k
  }

  lemma MaskNonZero(k: nat)
    requires k < 32
    ensures Mask(k) != 0
  {
    assert Mask(k) == (1 as bv32) << (k as bv5);
    ShiftNonZero(k as bv5);
  }

  lemma ShiftNonZero(k: bv5)
    ensures (1 as bv32) << k != 0
  {
  }

  lemma MasksDisjoint(k: nat, j: nat)
    requires k < 32 && j < 32 && k != j
    ensures !Meets(Mask(k), Mask(j))
  {
    assert (k as bv5) as int == k && (j as bv5) as int == j;
    ShiftsDisjoint(k as bv5, j as bv5);
  }

  lemma ShiftsDisjoint(k: bv5, j: bv5)
    requires k != j
    ensures ((1 as bv32) << k) & ((1 as bv32) << j) == 0
  {
  }

  predicate Meets(w: bv32, m: bv32) {
    w & m != 0
  }

  predicate Has(w: bv32, k: nat)
    requires k < 32
  {
    Meets(w, Mask(k))
  }

  lemma Distributes(w: bv32, m: bv32, n: bv32)
    ensures (w | m) & n == (w & n) | (m & n)
  {
  }

  lemma Unaffected(w: bv32, m: bv32, n: bv32)
    requires m & n == 0
    ensures (w & !m) & n == w & n
  {
    assert n & !m == n;
    assert (w & !m) & n == w & (n & !m);
  }

  lemma Absorbs(w: bv32, m: bv32)
    ensures (w | m) & m == m
  {
  }

  lemma Erases(w: bv32, m: bv32)
    ensures (w & !m) & m == 0
  {
  }

  lemma OrOther(w: bv32, m: bv32, n: bv32)
    requires !Meets(m, n)
    ensures Meets(w | m, n) <==> Meets(w, n)
  {
    Distributes(w, m, n);
  }

  lemma AndNotOther(w: bv32, m: bv32, n: bv32)
    requires !Meets(m, n)
    ensures Meets(w & !m, n) <==> Meets(w, n)
  {
    Unaffected(w, m, n);
  }

  lemma MaskSame(w: bv32, m: bv32)
    requires m != 0
    ensures Meets(w | m, m) && !Meets(w & !m, m)
  {
    Absorbs(w, m);
    Erases(w, m);
  }

  function With(w: bv32, m: bv32): bv32 {
    w | m
  }

  function Sans(w: bv32, m: bv32): bv32 {
    w & !m
  }

  lemma EitherMask(w: bv32, m: bv32, n: bv32, same: bool)
    requires m != 0 && if same then n == m else !Meets(m, n)
    ensures Meets(With(w, m), n) <==> same || Meets(w, n)
    ensures Meets(Sans(w, m), n) <==> !same && Meets(w, n)
  {
    hide Meets;
    if same {
      MaskSame(w, m);
    } else {
      OrOther(w, m, n);
      AndNotOther(w, m, n);
    }
  }

  lemma MaskBits(w: bv32, k: nat, m: bv32, j: nat, n: bv32)
    requires k < 32 && j < 32 && m == Mask(k) && n == Mask(j)
    ensures Meets(With(w, m), n) <==> j == k || Meets(w, n)
    ensures Meets(Sans(w, m), n) <==> j != k && Meets(w, n)
  {
    hide Mask, Meets, With, Sans;
    MaskNonZero(k);
    if j != k {
      MasksDisjoint(k, j);
    }
    EitherMask(w, m, n, j == k);
  }

  function WithBit(w: bv32, k: nat): bv32
    requires k < 32
  {
    With(w, Mask(k))
  }

  function SansBit(w: bv32, k: nat): bv32
    requires k < 32
  {
    Sans(w, Mask(k))
  }

  /** Setting or clearing a bit changes that bit alone. */
  lemma OneBit(w: bv32, k: nat, j: nat)
    requires k < 32 && j < 32
    ensures Has(WithBit(w, k), j) <==> j == k || Has(w, j)
    ensures Has(SansBit(w, k), j) <==> j != k && Has(w, j)
  {
    hide Mask, Meets, With, Sans;
    MaskBits(w, k, Mask(k), j, Mask(j));
  }

  /** What block_is_free says of each block below n. */
  function Bits(words: seq<bv32>, n: nat): (r: seq<bool>)
    requires n <= 32 * |words|
    ensures |r| == n && forall b: nat | b < n :: r[b] == Has(words[b / 32], b % 32)
  {
    seq(n, b requires 0 <= b < n => Has(words[b / 32], b % 32))
  }

  lemma SetBit(words: seq<bv32>, n: nat, b: nat)
    requires b < n <= 32 * |words|
    ensures Bits(words[b / 32 := WithBit(words[b / 32], b % 32)], n) == Bits(words, n)[b := true]
  {
    hide Mask, Has, WithBit;
    var r := Bits(words[b / 32 := WithBit(words[b / 32], b % 32)], n);
    forall c: nat | c < n
      ensures r[c] == Bits(words, n)[b := true][c]
    {
      OneBit(words[b / 32], b % 32, c % 32);
    }
  }

  lemma ClearBit(words: seq<bv32>, n: nat, b: nat)
    requires b < n <= 32 * |words|
    ensures Bits(words[b / 32 := SansBit(words[b / 32], b % 32)], n) == Bits(words, n)[b := false]
  {
    hide Mask, Has, SansBit;
    var r := Bits(words[b / 32 := SansBit(words[b / 32], b % 32)], n);
    forall c: nat | c < n
      ensures r[c] == Bits(words, n)[b := false][c]
    {
      OneBit(words[b / 32], b % 32, c % 32);
    }
  }

  // ------------------------------------------------------------------
  // The server
  // ------------------------------------------------------------------

  class Server {
    const bitmap: array<bv32>
    const blocks: array<Bytes>
    const files: array<File>
    const reserved: nat

    ghost predicate Valid()
      reads this, bitmap, blocks, files
    {
      && (bitmap as object) != (blocks as object) && (bitmap as object) != (files as object)
      && (blocks as object) != (files as object)
      && blocks.Length <= 32 * bitmap.Length && Sized(State())
    }

    ghost function State(): Fs
      requires blocks.Length <= 32 * bitmap.Length
      reads this, bitmap, blocks, files
    {
      Fs(Bits(bitmap[..], blocks.Length), blocks[..], files[..], reserved)
    }

    /** fs_init over a disk whose bitmap words, blocks and records are given. */
    constructor (words: seq<bv32>, disk: seq<Bytes>, records: seq<File>, reserved: nat)
      requires reserved <= |disk| <= 32 * |words| && |disk| < UINT_LIMIT
      requires forall f | 0 <= f < |records| :: records[f].size <= MAXOFF
      ensures Valid() && State() == Fs(Bits(words, |disk|), disk, records, reserved)
      ensures fresh(bitmap) && fresh(blocks) && fresh(files)
    {
      bitmap := new bv32[|words|](i requires 0 <= i < |words| => words[i]);
      blocks := new Bytes[|disk|](i requires 0 <= i < |disk| => disk[i]);
      files := new File[|records|](i requires 0 <= i < |records| => records[i]);
      this.reserved := reserved;
      new;
      assert bitmap[..] == words && blocks[..] == disk && files[..] == records;
    }

    method BlockIsFree(b: nat) returns (r: bool)
      requires Valid()
      ensures r <==> b < blocks.Length && State().free[b]
    {
      if b >= blocks.Length {
        return false;
      }
      r := Has(bitmap[b / 32], b % 32);
    }

    /** False is the panic on block 0. */
    method FreeBlock(b: nat) returns (ok: bool)
      requires Valid() && b < blocks.Length
      modifies bitmap
      ensures Valid() && ok == (b != 0)
      ensures State() == if ok then old(State()).(free := old(State()).free[b := true]) else old(State())
    {
      hide Mask, Has, WithBit, Bits;
      if b == 0 {
        return false;
      }
      SetBit(bitmap[..], blocks.Length, b);
      ghost var words := bitmap[..];
      bitmap[b / 32] := WithBit(bitmap[b / 32], b % 32);
      assert bitmap[..] == words[b / 32 := WithBit(words[b / 32], b % 32)];
      ok := true;
    }

    /** A block number, or blocks.Length for -E_NO_DISK. */
    method AllocBlock() returns (b: nat)
      requires Valid()
      modifies bitmap
      ensures Valid() && (State(), b) == FsBlocks.AllocBlock(old(State()))
    {
      hide Mask, Has, SansBit, Bits, FirstFree;
      b := 0;
      while b < blocks.Length
        invariant b <= blocks.Length && Valid() && State() == old(State())
        invariant forall i | 0 <= i < b :: !State().free[i]
      {
        var free := BlockIsFree(b);
        if free {
          FirstIs(State().free, b);
          ClearBit(bitmap[..], blocks.Length, b);
          ghost var words := bitmap[..];
          bitmap[b / 32] := SansBit(bitmap[b / 32], b % 32);
          assert bitmap[..] == words[b / 32 := SansBit(words[b / 32], b % 32)];
          return;
        }
        b := b + 1;
      }
      FirstIs(State().free, b);
    }

    /** Reading and writing through the pointer file_block_walk hands out. */
    method GetPtr(f: nat, k: nat) returns (b: nat)
      requires Valid() && f < files.Length && k < INDIRECT
      requires k >= NDIRECT ==> 0 < files[f].indirect < blocks.Length
      ensures b == Ptr(State(), f, k)
    {
      if k < NDIRECT {
        b := files[f].direct[k];
      } else {
        b := Word(blocks[files[f].indirect], k - NDIRECT);
      }
    }

    method PutPtr(f: nat, k: nat, b: nat)
      requires Valid() && f < files.Length && k <= INDIRECT && b < UINT_LIMIT
      requires NDIRECT <= k < INDIRECT ==> files[f].indirect < blocks.Length
      modifies blocks, files
      ensures Valid() && State() == SetPtr(old(State()), f, k, b)
    {
      var file := files[f];
      if k < NDIRECT {
        files[f] := file.(direct := file.direct[k := b]);
      } else if k == INDIRECT {
        files[f] := file.(indirect := b);
      } else {
        blocks[file.indirect] := SetWord(blocks[file.indirect], k - NDIRECT, b);
      }
      assert bitmap[..] == old(bitmap[..]);
      if NDIRECT <= k < INDIRECT {
        assert files[..] == old(files[..]);
        assert blocks[..] == SetPtr(old(State()), f, k, b).blocks;
      } else {
        assert blocks[..] == old(blocks[..]);
        assert files[..] == SetPtr(old(State()), f, k, b).files;
      }
    }

    method FileBlockWalk(f: nat, bno: nat, alloc: bool) returns (res: Res)
      requires Valid() && f < files.Length
      modifies bitmap, blocks, files
      ensures Valid() && (State(), res) == FsBlocks.FileBlockWalk(old(State()), f, bno, alloc)
    {
      if bno >= MAXBLOCKS {
        return Inval;
      }
      if bno < NDIRECT {
        return Ok;
      }
      if files[f].indirect == 0 {
        if !alloc {
          return NotFound;
        }
        var b := AllocBlock();
        if b == blocks.Length {
          return NoDisk;
        }
        PutPtr(f, INDIRECT, b);
        return if b == 0 then Panic else Ok;
      }
      res := if files[f].indirect < blocks.Length then Ok else Panic;
    }

    method FileGetBlock(f: nat, bno: nat) returns (res: Res)
      requires Valid() && f < files.Length
      modifies bitmap, blocks, files
      ensures Valid() && (State(), res) == FsBlocks.FileGetBlock(old(State()), f, bno)
    {
      res := FileBlockWalk(f, bno, true);
      if res != Ok {
        return;
      }
      var p := GetPtr(f, bno);
      if p == 0 {
        var b := AllocBlock();
        if b == blocks.Length {
          return NoDisk;
        }
        PutPtr(f, bno, b);
        return if b == 0 then Panic else Ok;
      }
      res := if p < blocks.Length then Ok else Panic;
    }

    /** The bytes read so far are `buf`. */
    method FileRead(f: nat, count: nat, off: nat) returns (res: Res, buf: seq<byte>)
      requires Valid() && f < files.Length
      modifies bitmap, blocks, files
      ensures Valid()
      ensures var (r, res1, data) := FileIo.FileRead(old(State()), f, count, off);
              State() == r && res == res1 && (res == Ok ==> buf == data)
    {
      hide Bits, FsBlocks.FileGetBlock, ReadFrom;
      buf := [];
      if off >= files[f].size {
        return Ok, buf;
      }
      var end := off + Min(count, files[f].size - off);
      var pos := off;
      ghost var goal := ReadFrom(State(), f, pos, end);
      while pos < end
        invariant off <= pos && Valid() && f < files.Length
        invariant var (r, res1, data) := ReadFrom(State(), f, pos, end);
                  r == goal.0 && res1 == goal.1 && (res1 == Ok ==> buf + data == goal.2)
        decreases end - pos
      {
        ghost var was := State();
        var k := pos / BLKSIZE;
        res := FileGetBlock(f, k);
        if res != Ok {
          ReadStops(was, f, pos, end);
          return;
        }
        var n := ChunkLen(pos, end);
        var p := GetPtr(f, k);
        var chunk := blocks[p][pos % BLKSIZE..pos % BLKSIZE + n];
        ReadUnfolds(was, f, pos, end);
        ghost var rest := ReadFrom(State(), f, pos + n, end).2;
        assert chunk == Chunk(was, f, pos, end);
        assert (buf + chunk) + rest == buf + (chunk + rest);
        buf := buf + chunk;
        pos := pos + n;
      }
      ReadDone(State(), f, pos, end);
      res := Ok;
      assert buf + [] == buf;
    }

    method FileWrite(f: nat, buf: seq<byte>, off: nat) returns (res: Res)
      requires Valid() && f < files.Length && off + |buf| <= MAXOFF
      modifies bitmap, blocks, files
      ensures Valid() && (State(), res) == FileIo.FileWrite(old(State()), f, buf, off)
    {
      hide Bits, FsBlocks.FileGetBlock, FsBlocks.FileSetSize;
      var end := off + |buf|;
      if end > files[f].size {
        res := FileSetSize(f, end);
        if res != Ok {
          return;
        }
      }
      var pos := off;
      ghost var goal := WriteFrom(State(), f, buf, off, pos);
      while pos < end
        invariant off <= pos && Valid() && f < files.Length
        invariant WriteFrom(State(), f, buf, off, pos) == goal
        decreases end - pos
      {
        ghost var was := State();
        var k := pos / BLKSIZE;
        res := FileGetBlock(f, k);
        if res != Ok {
          return;
        }
        WriteUnfolds(was, f, buf, off, pos);
        var n := ChunkLen(pos, end);
        PatchBlock(f, k, pos % BLKSIZE, buf[pos - off..pos - off + n]);
        pos := pos + n;
      }
      res := Ok;
    }

    /** memmove into the block. */
    method PatchBlock(f: nat, k: nat, o: nat, data: seq<byte>)
      requires Valid() && f < files.Length && k < MAXBLOCKS && 0 < Ptr(State(), f, k) < blocks.Length
      requires k >= NDIRECT ==> 0 < files[f].indirect < blocks.Length
      requires o + |data| <= BLKSIZE
      modifies blocks
      ensures Valid() && State() == Patch(old(State()), f, k, o, data)
    {
      var p := GetPtr(f, k);
      blocks[p] := Splice(blocks[p], o, data);
      assert bitmap[..] == old(bitmap[..]) && files[..] == old(files[..]);
      assert blocks[..] == Patch(old(State()), f, k, o, data).blocks;
    }

    /** free_block and clearing the slot, as in file_free_block and at the end
        of file_truncate_blocks. */
    method FreeSlot(f: nat, k: nat, b: nat) returns (res: Res)
      requires Valid() && f < files.Length && k <= INDIRECT && b == Ptr(State(), f, k)
      requires NDIRECT <= k < INDIRECT ==> 0 < files[f].indirect < blocks.Length
      modifies bitmap, blocks, files
      ensures Valid() && (State(), res) == FsBlocks.FreeSlot(old(State()), f, k)
    {
      if b >= blocks.Length {
        return Panic;
      }
      var ok := FreeBlock(b);
      if !ok {
        return Panic;
      }
      PutPtr(f, k, 0);
      res := Ok;
    }

    method FileFreeBlock(f: nat, bno: nat) returns (res: Res)
      requires Valid() && f < files.Length
      modifies bitmap, blocks, files
      ensures Valid() && (State(), res) == FsBlocks.FileFreeBlock(old(State()), f, bno)
    {
      res := FileBlockWalk(f, bno, false);
      if res != Ok {
        return;
      }
      var p := GetPtr(f, bno);
      if p != 0 {
        res := FreeSlot(f, bno, p);
      }
    }

    method FileTruncateBlocks(f: nat, newsize: nat) returns (res: Res)
      requires Valid() && f < files.Length
      modifies bitmap, blocks, files
      ensures Valid() && (State(), res) == FsBlocks.FileTruncateBlocks(old(State()), f, newsize)
    {
      hide Bits, FsBlocks.FileFreeBlock, FsBlocks.FreeSlot;
      var end := BlocksFor(files[f].size);
      var bno := BlocksFor(newsize);
      ghost var goal := FreeBlocksFrom(State(), f, bno, end);
      while bno < end
        invariant Valid() && f < files.Length && FreeBlocksFrom(State(), f, bno, end) == goal
        decreases if bno < end then end - bno else 0
      {
        res := FileFreeBlock(f, bno);
        if res == Panic {
          return;
        }
        bno := bno + 1;
      }
      res := Ok;
      if BlocksFor(newsize) <= NDIRECT && files[f].indirect != 0 {
        res := FreeSlot(f, INDIRECT, files[f].indirect);
      }
    }

    method FileSetSize(f: nat, newsize: nat) returns (res: Res)
      requires Valid() && f < files.Length && newsize <= MAXOFF
      modifies bitmap, blocks, files
      ensures Valid() && (State(), res) == FsBlocks.FileSetSize(old(State()), f, newsize)
    {
      if files[f].size > newsize {
        res := FileTruncateBlocks(f, newsize);
        if res == Panic {
          return;
        }
      }
      ghost var was := State();
      files[f] := files[f].(size := newsize);
      assert State() == was.(files := was.files[f := was.files[f].(size := newsize)]);
      res := Ok;
    }
  }

  lemma FirstIs(free: seq<bool>, b: nat)
    requires b <= |free| && (forall i | 0 <= i < b :: !free[i]) && (b < |free| ==> free[b])
    ensures FirstFree(free, 0) == b
  {
  }
}
