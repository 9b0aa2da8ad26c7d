/** fs/fsformat.c as it runs: the image and the bitmap are updated in place,
  and every method is proved against the function of the same name.
 */
module FsFormat {
  import opened FsBlocks
  import opened FileIo
  import opened Format
  import FileServer

  class Formatter {
    const diskmap: array<Bytes>
    const bitmap: array<bv32>
    // blockof(diskpos)
    var diskpos: nat
    // s_root and the directory entries after it
    var files: seq<File>

    ghost function State(): Image
      reads this, diskmap
    {
      Image(diskpos, diskmap[..], files)
    }

    ghost predicate Valid()
      reads this, diskmap, bitmap
    {
      && (diskmap as object) != (bitmap as object)
      && diskmap.Length <= 1024 && diskmap.Length <= 32 * bitmap.Length
    }

    /** opendisk over the zeros ftruncate leaves; the bitmap starts all ones.
        Too small a disk stops in alloc, and `ok` is false. */
    constructor (nblocks: nat)
      requires 2 <= nblocks <= 1024
      ensures Valid() && fresh(diskmap) && fresh(bitmap) && diskmap.Length == nblocks
      ensures FileServer.Bits(bitmap[..], nblocks) == seq(nblocks, _ => true)
      ensures RESERVED < nblocks ==> Some(State()) == OpenDisk(nblocks)
    {
      diskmap := new Bytes[nblocks](_ => ZeroBlock());
      bitmap := new bv32[32](_ => 0xFFFF_FFFF);
      diskpos := RESERVED;
      files := [NewFile()];
      new;
      assert diskmap[..] == seq(nblocks, _ => ZeroBlock());
      forall b: nat | b < nblocks
        ensures FileServer.Bits(bitmap[..], nblocks)[b]
      {
        AllOnes(b % 32);
        assert bitmap[..][b / 32] == 0xFFFF_FFFF;
      }
      assert FileServer.Bits(bitmap[..], nblocks) == seq(nblocks, _ => true);
    }

    /** False is the panic "out of disk blocks". */
    method Alloc(bytes: nat) returns (ok: bool, start: nat)
      modifies this`diskpos
      ensures (if ok then Some((State(), start)) else None) == Format.Alloc(old(State()), bytes)
    {
      start := diskpos;
      diskpos := diskpos + BlocksFor(bytes);
      ok := diskpos < diskmap.Length;
    }

    method FinishFile(f: nat, start: nat, len: nat) returns (ok: bool)
      requires f < |files|
      requires BlocksFor(len) <= MAXBLOCKS && start + MAXBLOCKS < UINT_LIMIT
      modifies this`diskpos, this`files, diskmap
      ensures (if ok then Some(State()) else None) == Format.FinishFile(old(State()), f, start, len)
    {
      hide BlocksFor, SetWord;
      var nb := BlocksFor(len);
      ghost var file := files[f];
      files := files[f := files[f].(size := len)];
      var i := 0;
      assert files[f].direct == DirectRun(file.direct, start, 0);
      while i < nb && i < NDIRECT
        modifies this`files
        invariant 0 <= i <= nb && i <= NDIRECT && |files| == |old(files)|
        invariant files == old(files)[f := file.(size := len, direct := DirectRun(file.direct, start, i))]
      {
        var direct := files[f].direct[i := start + i];
        assert direct == DirectRun(file.direct, start, i + 1);
        files := files[f := files[f].(direct := direct)];
        i := i + 1;
      }
      assert DirectRun(file.direct, start, i) == DirectRun(file.direct, start, nb);
      ok := true;
      if i == NDIRECT {
        var ind;
        ok, ind := Alloc(BLKSIZE);
        if !ok {
          return;
        }
        ghost var was := diskmap[..];
        files := files[f := files[f].(indirect := ind)];
        ghost var goal := IndirectRun(diskmap[ind], start, i, nb);
        while i < nb
          modifies diskmap
          invariant NDIRECT <= i <= nb && IndirectRun(diskmap[ind], start, i, nb) == goal
          invariant forall b | 0 <= b < diskmap.Length && b != ind :: diskmap[b] == was[b]
        {
          diskmap[ind] := SetWord(diskmap[ind], i - NDIRECT, start + i);
          i := i + 1;
        }
        assert diskmap[..] == was[ind := goal];
        assert was == old(diskmap[..]);
        assert files == old(files)[f := file.(size := len, direct := DirectRun(file.direct, start, nb),
                                              indirect := ind)];
      } else {
        assert diskmap[..] == old(diskmap[..]);
      }
    }

    /** `stale` is the record diradd takes from malloc's memory. */
    method WriteFile(data: seq<byte>, stale: File) returns (ok: bool)
      requires Valid()
      modifies this`diskpos, this`files, diskmap
      ensures (if ok then Some(State()) else None) == Format.WriteFile(old(State()), data, stale)
    {
      if |data| >= MAXFILESIZE {
        return false;
      }
      var f := |files|;
      if f > MAX_DIR_ENTS {
        return false;
      }
      files := files + [stale];
      var start;
      ok, start := Alloc(|data|);
      if !ok {
        return;
      }
      ReadN(start, data);
      FitsBlocks(|data|);
      ok := FinishFile(f, start, |data|);
    }

    /** readn: the bytes of the host file into the image. */
    method ReadN(start: nat, data: seq<byte>)
      requires start + BlocksFor(|data|) <= diskmap.Length
      modifies diskmap
      ensures diskmap[..] == Filled(old(diskmap[..]), start, data)
    {
      hide BlocksFor, Padded;
      var k := 0;
      while k < BlocksFor(|data|)
        invariant 0 <= k <= BlocksFor(|data|)
        invariant forall b: nat | b < diskmap.Length ::
                    diskmap[b] == if start <= b < start + k then Padded(data, b - start) else old(diskmap[..])[b]
      {
        diskmap[start + k] := Padded(data, k);
        k := k + 1;
      }
    }

    method FinishDir() returns (ok: bool)
      requires Valid() && 0 < |files| <= MAX_DIR_ENTS + 1
      modifies this`diskpos, this`files, diskmap
      ensures (if ok then Some(State()) else None) == Format.FinishDir(old(State()))
    {
      var size := (|files| - 1) * FILE_SIZE;
      var start;
      ok, start := Alloc(size);
      if ok {
        DirSize(|files| - 1);
        ok := FinishFile(0, start, RoundUpInt(size));
      }
    }

    /** The bits of the blocks below the mark are cleared. */
    method FinishDisk()
      requires Valid() && diskpos <= diskmap.Length
      requires FileServer.Bits(bitmap[..], diskmap.Length) == seq(diskmap.Length, _ => true)
      modifies bitmap
      ensures FileServer.Bits(bitmap[..], diskmap.Length) == Finished(State()).free
    {
      hide FileServer.Bits, FileServer.Has, FileServer.SansBit;
      var i := 0;
      while i < diskpos
        invariant 0 <= i <= diskpos
        invariant FileServer.Bits(bitmap[..], diskmap.Length) == seq(diskmap.Length, b => b >= i)
      {
        FileServer.ClearBit(bitmap[..], diskmap.Length, i);
        ghost var words := bitmap[..];
        bitmap[i / 32] := FileServer.SansBit(bitmap[i / 32], i % 32);
        assert bitmap[..] == words[i / 32 := FileServer.SansBit(words[i / 32], i % 32)];
        assert seq(diskmap.Length, b => b >= i)[i := false] == seq(diskmap.Length, b => b >= i + 1);
        i := i + 1;
      }
    }
  }

  lemma AllOnes(k: nat)
    requires k < 32
    ensures FileServer.Has(0xFFFF_FFFF, k)
  {
    FileServer.MaskNonZero(k);
    OnesAnd(FileServer.Mask(k));
  }

  lemma OnesAnd(m: bv32)
    ensures 0xFFFF_FFFF & m == m
  {
  }

  /** main over the host files `datas`, with the records malloc gives it; None is a panic. The bitmap left on
      the image says exactly what the finished file system says. */
  method FormatImage(nblocks: nat, datas: seq<seq<byte>>, stales: seq<File>) returns (r: Option<Formatter>)
    requires 2 <= nblocks <= 1024 && |stales| == |datas|
    ensures r.Some? <==> FormatDisk(nblocks, datas, stales).Some?
    ensures r.Some? ==> FormatDisk(nblocks, datas, stales) == Some(r.value.State()) && r.value.Valid()
                        && r.value.diskmap.Length == nblocks
                        && FileServer.Bits(r.value.bitmap[..], nblocks) == Finished(r.value.State()).free
  {
    if nblocks <= RESERVED {
      return None;
    }
    var fmt := new Formatter(nblocks);
    var i := 0;
    OpenBuilds(nblocks);
    while i < |datas|
      invariant 0 <= i <= |datas| && fmt.Valid() && fmt.diskmap.Length == nblocks
      invariant fresh(fmt.diskmap) && fresh(fmt.bitmap) && fresh(fmt)
      invariant 0 < |fmt.files| <= MAX_DIR_ENTS + 1
      invariant FileServer.Bits(fmt.bitmap[..], nblocks) == seq(nblocks, _ => true)
      invariant WriteFiles(fmt.State(), datas[i..], stales[i..]) == WriteFiles(OpenDisk(nblocks).value, datas, stales)
    {
      assert datas[i..][1..] == datas[i + 1..] && stales[i..][1..] == stales[i + 1..];
      var ok := fmt.WriteFile(datas[i], stales[i]);
      if !ok {
        return None;
      }
      i := i + 1;
    }
    var ok := fmt.FinishDir();
    if !ok {
      return None;
    }
    fmt.FinishDisk();
    r := Some(fmt);
  }
}
