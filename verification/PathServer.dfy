/** walk_path, dir_lookup, dir_alloc_file, file_create and file_open as they
  run over path characters and directory blocks, each proved against the
  function of the same name.
 */
module PathServer {
  import P = Paths
  import opened Paths

  /** Skipping slashes leaves the components alone. */
  lemma {:induction false} ComponentsSkipSlash(p: string, i: nat)
    requires i <= |p|
    ensures Components(p[i..]) == Components(p[SlashEnd(p, i)..])
    decreases |p| - i
  {
    if i < |p| && p[i] == '/' {
      assert p[i..][1..] == p[i + 1..];
      ComponentsSkipSlash(p, i + 1);
    }
  }

  lemma ComponentsFirst(p: string, i: nat, j: nat)
    requires i < j <= |p| && (forall k | i <= k < j :: p[k] != '/') && (j < |p| ==> p[j] == '/')
    ensures Components(p[i..]) == [p[i..j]] + Components(p[j..])
  {
    SpanEndIs(p[i..], j - i);
    assert p[i..][..j - i] == p[i..j] && p[i..][j - i..] == p[j..];
  }

  class Namespace {
    var recs: seq<Rec>

    constructor ()
      ensures recs == [Rec("/", true, [])]
    {
      recs := [Rec("/", true, [])];
    }

    /** skip_slash */
    method SkipSlash(path: string, start: nat) returns (i: nat)
      requires start <= |path|
      ensures i == SlashEnd(path, start)
    {
      i := start;
      while i < |path| && path[i] == '/'
        invariant start <= i <= |path| && SlashEnd(path, i) == SlashEnd(path, start)
      {
        i := i + 1;
      }
    }

    /** The two loops over blocks and over the records of a block. */
    method DirLookup(d: nat, name: string) returns (r: Option<nat>)
      requires WellFormed(recs) && d < |recs| && |recs[d].slots| % BLKFILES == 0
      ensures r == Lookup(recs, d, name)
    {
      var slots := recs[d].slots;
      var nblock := |slots| / BLKFILES;
      var i := 0;
      while i < nblock
        invariant 0 <= i <= nblock && FirstNamed(recs, d, name, i * BLKFILES) == FirstNamed(recs, d, name, 0)
      {
        var j := 0;
        while j < BLKFILES
          invariant 0 <= j <= BLKFILES
          invariant FirstNamed(recs, d, name, i * BLKFILES + j) == FirstNamed(recs, d, name, 0)
        {
          if recs[slots[i * BLKFILES + j]].name == name {
            return Some(slots[i * BLKFILES + j]);
          }
          j := j + 1;
        }
        i := i + 1;
      }
      return None;
    }

    method DirAllocFile(d: nat, stale: seq<Rec>) returns (f: nat)
      requires WellFormed(recs) && d < |recs| && |recs[d].slots| % BLKFILES == 0 && |stale| == BLKFILES
      modifies this
      ensures (recs, f) == P.DirAllocFile(old(recs), d, stale)
    {
      var free := DirLookup(d, "");
      if free.Some? {
        return free.value;
      }
      f := |recs|;
      recs := recs[d := recs[d].(slots := recs[d].slots + Numbers(f))] + stale;
    }

    method WalkPath(path: string) returns (w: Walk)
      requires WellFormed(recs) && forall d | 0 <= d < |recs| :: |recs[d].slots| % BLKFILES == 0
      ensures w == P.WalkPath(recs, path)
    {
      hide Lookup, SpanEnd, SlashEnd;
      var i := SkipSlash(path, 0);
      var f: nat, dir: Option<nat> := 0, None;
      ComponentsSkipSlash(path, 0);
      assert path[0..] == path;
      while i < |path|
        invariant i <= |path| && f < |recs| && (dir.Some? ==> dir.value < |recs|)
        invariant i < |path| ==> path[i] != '/'
        invariant Resolve(recs, dir, f, Components(path[i..])) == P.WalkPath(recs, path)
      {
        var p := i;
        while i < |path| && path[i] != '/'
          invariant p <= i <= |path| && (forall k | p <= k < i :: path[k] != '/')
        {
          i := i + 1;
        }
        ComponentsFirst(path, p, i);
        if i - p >= MAXNAMELEN {
          return BadPath;
        }
        var name := path[p..i];
        ComponentsSkipSlash(path, i);
        i := SkipSlash(path, i);
        if !recs[f].isDir {
          return Missing(None, "");
        }
        var g := DirLookup(f, name);
        if g.None? {
          return if i == |path| then Missing(Some(f), name) else Missing(None, "");
        }
        dir, f := Some(f), g.value;
      }
      w := Found(dir, f);
    }

    method FileOpen(path: string) returns (w: Walk)
      requires WellFormed(recs) && forall d | 0 <= d < |recs| :: |recs[d].slots| % BLKFILES == 0
      ensures w == P.WalkPath(recs, path)
    {
      w := WalkPath(path);
    }

    method FileCreate(path: string, stale: seq<Rec>) returns (r: Created)
      requires WellFormed(recs) && (forall d | 0 <= d < |recs| :: |recs[d].slots| % BLKFILES == 0)
               && |stale| == BLKFILES
      modifies this
      ensures r == P.FileCreate(old(recs), path, stale)
      ensures recs == if r.Made? then r.t else old(recs)
    {
      var w := WalkPath(path);
      if w.Found? {
        return Exists;
      }
      if w.BadPath? {
        return TooLong;
      }
      if w.dir.None? {
        return NoEntry;
      }
      var f := DirAllocFile(w.dir.value, stale);
      recs := recs[f := recs[f].(name := w.last)];
      r := Made(recs, f);
    }
  }
}
