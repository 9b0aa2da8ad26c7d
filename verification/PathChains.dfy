/** Where a path leads (walk_path in fs/fs.c), told by chains of records from
  the root: each but the last a directory, each next one in the first slot
  with the name the path gives.
 */
module PathChains {
  import opened Paths

  /** g is the record in the first slot of directory d with this name. */
  ghost predicate FirstSlot(t: seq<Rec>, d: nat, name: string, g: nat)
    requires WellFormed(t) && d < |t|
  {
    exists k :: 0 <= k < |t[d].slots| && t[d].slots[k] == g && t[g].name == name
                && forall j | 0 <= j < k :: t[t[d].slots[j]].name != name
  }

  ghost predicate Lacks(t: seq<Rec>, d: nat, name: string)
    requires WellFormed(t) && d < |t|
  {
    forall k | 0 <= k < |t[d].slots| :: t[t[d].slots[k]].name != name
  }

  /** fs are the records the components lead through, from `start` on. */
  ghost predicate Chain(t: seq<Rec>, start: nat, cs: seq<string>, fs: seq<nat>)
    requires WellFormed(t)
  {
    && |fs| == |cs| + 1 && fs[0] == start
    && (forall i | 0 <= i < |fs| :: fs[i] < |t|)
    && (forall i | 0 <= i < |cs| :: t[fs[i]].isDir && |cs[i]| < MAXNAMELEN && FirstSlot(t, fs[i], cs[i], fs[i + 1]))
  }

  lemma LookupIs(t: seq<Rec>, d: nat, name: string)
    requires WellFormed(t) && d < |t|
    ensures forall g: nat :: FirstSlot(t, d, name, g) <==> Lookup(t, d, name) == Some(g)
    ensures Lacks(t, d, name) <==> Lookup(t, d, name) == None
  {
    var n := FirstNamed(t, d, name, 0);
    forall g: nat | FirstSlot(t, d, name, g)
      ensures Lookup(t, d, name) == Some(g)
    {
      var k :| 0 <= k < |t[d].slots| && t[d].slots[k] == g && t[g].name == name
               && forall j | 0 <= j < k :: t[t[d].slots[j]].name != name;
      FirstIs(t, d, name, k);
    }
    if n < |t[d].slots| {
      assert t[t[d].slots[n]].name == name;
    }
  }

  /** Where the walk stands after the components of a chain. */
  lemma {:induction false} AlongChain(t: seq<Rec>, prev: Option<nat>, f: nat, cs: seq<string>, fs: seq<nat>, n: nat)
    requires WellFormed(t) && f < |t| && (prev.Some? ==> prev.value < |t|)
    requires n <= |cs| && Chain(t, f, cs[..n], fs)
    ensures Resolve(t, prev, f, cs) == Resolve(t, if n == 0 then prev else Some(fs[n - 1]), fs[n], cs[n..])
    decreases n
  {
    hide FirstSlot;
    if n == 0 {
      assert cs[0..] == cs;
    } else {
      assert cs[..n][0] == cs[0];
      assert FirstSlot(t, fs[0], cs[0], fs[1]);
      LookupIs(t, f, cs[0]);
      assert cs[1..][..n - 1] == cs[..n][1..] && cs[1..][n - 1..] == cs[n..];
      ChainTail(t, f, cs[..n], fs);
      AlongChain(t, Some(f), fs[1], cs[1..], fs[1..], n - 1);
    }
  }

  lemma ChainTail(t: seq<Rec>, f: nat, cs: seq<string>, fs: seq<nat>)
    requires WellFormed(t) && cs != [] && Chain(t, f, cs, fs)
    ensures Chain(t, fs[1], cs[1..], fs[1..])
  {
    hide FirstSlot;
    forall i | 0 <= i < |cs[1..]|
      ensures FirstSlot(t, fs[1..][i], cs[1..][i], fs[1..][i + 1])
    {
      assert FirstSlot(t, fs[i + 1], cs[i + 1], fs[i + 2]);
    }
  }

  /** The name cannot be followed from f. */
  ghost predicate Stuck(t: seq<Rec>, f: nat, name: string)
    requires WellFormed(t) && f < |t|
  {
    |name| >= MAXNAMELEN || !t[f].isDir || Lacks(t, f, name)
  }

  /** Every path follows a chain to its end or to a name it cannot follow. */
  lemma {:induction false} Furthest(t: seq<Rec>, f: nat, cs: seq<string>) returns (n: nat, fs: seq<nat>)
    requires WellFormed(t) && f < |t|
    ensures n <= |cs| && Chain(t, f, cs[..n], fs) && (n < |cs| ==> Stuck(t, fs[n], cs[n]))
    decreases |cs|
  {
    if cs == [] || Stuck(t, f, cs[0]) {
      n, fs := 0, [f];
    } else {
      LookupIs(t, f, cs[0]);
      var g := Lookup(t, f, cs[0]).value;
      assert FirstSlot(t, f, cs[0], g);
      var m, gs := Furthest(t, g, cs[1..]);
      n, fs := m + 1, [f] + gs;
      assert cs[..n] == [cs[0]] + cs[1..][..m];
      ChainCons(t, f, g, cs[0], cs[1..][..m], gs);
    }
  }

  lemma ChainCons(t: seq<Rec>, f: nat, g: nat, name: string, cs: seq<string>, gs: seq<nat>)
    requires WellFormed(t) && f < |t| && t[f].isDir && |name| < MAXNAMELEN && FirstSlot(t, f, name, g)
    requires Chain(t, g, cs, gs)
    ensures Chain(t, f, [name] + cs, [f] + gs)
  {
    hide FirstSlot;
    var ds, fs := [name] + cs, [f] + gs;
    forall i | 0 <= i < |ds|
      ensures t[fs[i]].isDir && |ds[i]| < MAXNAMELEN && FirstSlot(t, fs[i], ds[i], fs[i + 1])
    {
      if i > 0 {
        assert FirstSlot(t, gs[i - 1], cs[i - 1], gs[i]);
      }
    }
  }

  /** What the walk answers where it stands. */
  lemma StandsAt(t: seq<Rec>, prev: Option<nat>, f: nat, cs: seq<string>)
    requires WellFormed(t) && f < |t| && (prev.Some? ==> prev.value < |t|) && (cs != [] ==> Stuck(t, f, cs[0]))
    ensures Resolve(t, prev, f, cs) ==
              if cs == [] then Found(prev, f)
              else if |cs[0]| >= MAXNAMELEN then BadPath
              else if t[f].isDir && |cs| == 1 then Missing(Some(f), cs[0])
              else Missing(None, "")
  {
    if cs != [] {
      LookupIs(t, f, cs[0]);
    }
  }

  /** The record all components lead to, and the one before it. */
  ghost predicate LeadsTo(t: seq<Rec>, cs: seq<string>, dir: Option<nat>, f: nat)
    requires WellFormed(t)
  {
    exists fs :: Chain(t, 0, cs, fs) && f == fs[|cs|] && dir == if cs == [] then None else Some(fs[|cs| - 1])
  }

  /** Component n is reached, in record f, and cannot be followed. */
  ghost predicate StopsAt(t: seq<Rec>, cs: seq<string>, n: nat, f: nat)
    requires WellFormed(t)
  {
    n < |cs| && exists fs :: Chain(t, 0, cs[..n], fs) && f == fs[n] && Stuck(t, f, cs[n])
  }

  /** Only the last element is missing, in directory d. */
  ghost predicate LacksLast(t: seq<Rec>, cs: seq<string>, d: nat)
    requires WellFormed(t)
  {
    cs != [] && |cs[|cs| - 1]| < MAXNAMELEN && StopsAt(t, cs, |cs| - 1, d) && t[d].isDir
  }

  lemma LeadsIs(t: seq<Rec>, cs: seq<string>, dir: Option<nat>, f: nat)
    requires WellFormed(t) && LeadsTo(t, cs, dir, f)
    ensures Resolve(t, None, 0, cs) == Found(dir, f)
  {
    var fs :| Chain(t, 0, cs, fs) && f == fs[|cs|] && dir == if cs == [] then None else Some(fs[|cs| - 1]);
    hide Chain, FirstSlot, Resolve;
    assert cs[..|cs|] == cs && cs[|cs|..] == [];
    AlongChain(t, None, 0, cs, fs, |cs|);
    StandsAt(t, dir, f, []);
  }

  lemma ChainSize(t: seq<Rec>, start: nat, cs: seq<string>, fs: seq<nat>)
    requires WellFormed(t) && Chain(t, start, cs, fs)
    ensures |fs| == |cs| + 1 && forall i | 0 <= i < |fs| :: fs[i] < |t|
  {
  }

  lemma StopsVia(t: seq<Rec>, cs: seq<string>, n: nat, fs: seq<nat>)
    requires WellFormed(t) && n < |cs| && Chain(t, 0, cs[..n], fs) && Stuck(t, fs[n], cs[n])
    ensures Resolve(t, None, 0, cs) ==
              if |cs[n]| >= MAXNAMELEN then BadPath
              else if t[fs[n]].isDir && n == |cs| - 1 then Missing(Some(fs[n]), cs[n])
              else Missing(None, "")
  {
    hide Chain, Stuck, Resolve;
    ChainSize(t, 0, cs[..n], fs);
    AlongChain(t, None, 0, cs, fs, n);
    StandsAt(t, if n == 0 then None else Some(fs[n - 1]), fs[n], cs[n..]);
  }

  lemma StopsIs(t: seq<Rec>, cs: seq<string>, n: nat, f: nat)
    requires WellFormed(t) && StopsAt(t, cs, n, f)
    ensures n < |cs| && f < |t|
    ensures Resolve(t, None, 0, cs) ==
              if |cs[n]| >= MAXNAMELEN then BadPath
              else if t[f].isDir && n == |cs| - 1 then Missing(Some(f), cs[n])
              else Missing(None, "")
  {
    var fs :| Chain(t, 0, cs[..n], fs) && f == fs[n] && Stuck(t, f, cs[n]);
    StopsVia(t, cs, n, fs);
  }

  /** One or the other, always. */
  lemma LeadsOrStops(t: seq<Rec>, cs: seq<string>)
    requires WellFormed(t)
    ensures || (exists dir: Option<nat>, f: nat :: LeadsTo(t, cs, dir, f))
            || (exists n: nat, f: nat :: StopsAt(t, cs, n, f))
  {
    hide Chain, Stuck;
    var n, fs := Furthest(t, 0, cs);
    ChainSize(t, 0, cs[..n], fs);
    if n == |cs| {
      assert cs[..n] == cs;
      assert LeadsTo(t, cs, if cs == [] then None else Some(fs[|cs| - 1]), fs[n]);
    } else {
      assert StopsAt(t, cs, n, fs[n]);
    }
  }

  /** walk_path, and so file_open, exactly: it finds the end of the chain the
      whole path describes, with the directory before it; it reports a bad
      path at a name too long; it hands back a directory when only the last
      element is missing there; and reports the path missing otherwise. */
  lemma WalksExactly(t: seq<Rec>, path: string)
    requires WellFormed(t)
    ensures
      var cs, w := Components(path), WalkPath(t, path);
      && (forall dir: Option<nat>, f: nat :: w == Found(dir, f) <==> LeadsTo(t, cs, dir, f))
      && (w == BadPath <==> exists n: nat, f: nat :: StopsAt(t, cs, n, f) && |cs[n]| >= MAXNAMELEN)
      && (forall d: nat, last: string :: w == Missing(Some(d), last) <==>
            LacksLast(t, cs, d) && last == cs[|cs| - 1])
      && (w == Missing(None, "") <==>
            exists n: nat, f: nat :: StopsAt(t, cs, n, f) && |cs[n]| < MAXNAMELEN && (!t[f].isDir || n + 1 < |cs|))
  {
    hide Resolve, LeadsTo, StopsAt, Components;
    var cs := Components(path);
    forall dir: Option<nat>, f: nat | LeadsTo(t, cs, dir, f)
      ensures WalkPath(t, path) == Found(dir, f)
    {
      LeadsIs(t, cs, dir, f);
    }
    forall n: nat, f: nat | StopsAt(t, cs, n, f)
      ensures n < |cs| && f < |t|
      ensures WalkPath(t, path) == if |cs[n]| >= MAXNAMELEN then BadPath
                                   else if t[f].isDir && n == |cs| - 1 then Missing(Some(f), cs[n])
                                   else Missing(None, "")
    {
      StopsIs(t, cs, n, f);
    }
    LeadsOrStops(t, cs);
  }

  /** The root, by any number of slashes. */
  lemma RootIsFound(t: seq<Rec>, path: string, stale: seq<Rec>)
    requires WellFormed(t) && |stale| == BLKFILES && forall k | 0 <= k < |path| :: path[k] == '/'
    ensures WalkPath(t, path) == Found(None, 0) && FileCreate(t, path, stale) == Exists
  {
    NoComponents(path);
    WalksExactly(t, path);
    assert Chain(t, 0, [], [0]);
    assert LeadsTo(t, [], None, 0);
  }

  lemma {:induction false} NoComponents(path: string)
    requires forall k | 0 <= k < |path| :: path[k] == '/'
    ensures Components(path) == []
    decreases |path|
  {
    if path != "" {
      NoComponents(path[1..]);
    }
  }

  /** file_create: it makes a file exactly where only the last element is
      missing, in the directory the others lead to, and reports which of the
      other cases there is. */
  lemma CreateExactly(t: seq<Rec>, path: string, stale: seq<Rec>)
    requires WellFormed(t) && |stale| == BLKFILES
    ensures
      var cs, r := Components(path), FileCreate(t, path, stale);
      && (r == Exists <==> exists dir: Option<nat>, f: nat :: LeadsTo(t, cs, dir, f))
      && (r == TooLong <==> exists n: nat, f: nat :: StopsAt(t, cs, n, f) && |cs[n]| >= MAXNAMELEN)
      && (r == NoEntry <==>
            exists n: nat, f: nat :: StopsAt(t, cs, n, f) && |cs[n]| < MAXNAMELEN && (!t[f].isDir || n + 1 < |cs|))
      && (r.Made? <==> exists d: nat :: LacksLast(t, cs, d))
      && (r.Made? ==> exists d: nat :: LacksLast(t, cs, d) && Added(t, r.t, d, r.f, cs[|cs| - 1]))
  {
    hide Resolve, LeadsTo, StopsAt, Components, Added, DirAllocFile;
    var cs, w := Components(path), WalkPath(t, path);
    WalksExactly(t, path);
    if w.Missing? && w.dir.Some? {
      CreateAdds(t, path, stale);
      assert w == Missing(Some(w.dir.value), w.last);
    }
    MissingHasName(t, path);
    forall d: nat | LacksLast(t, cs, d)
      ensures w.Missing? && w.dir.Some?
    {
      assert w == Missing(Some(d), cs[|cs| - 1]);
    }
  }

  lemma MissingHasName(t: seq<Rec>, path: string)
    requires WellFormed(t)
    ensures WalkPath(t, path).Missing? && WalkPath(t, path).dir.None? ==> WalkPath(t, path) == Missing(None, "")
    ensures WalkPath(t, path).Found? ==> WalkPath(t, path) == Found(WalkPath(t, path).dir, WalkPath(t, path).f)
  {
    NoDirNoName(t, None, 0, Components(path));
  }

  lemma {:induction false} NoDirNoName(t: seq<Rec>, prev: Option<nat>, f: nat, cs: seq<string>)
    requires WellFormed(t) && f < |t| && (prev.Some? ==> prev.value < |t|)
    ensures var w := Resolve(t, prev, f, cs); w.Missing? && w.dir.None? ==> w.last == ""
    decreases |cs|
  {
    if cs != [] && Lookup(t, f, cs[0]).Some? {
      NoDirNoName(t, Some(f), Lookup(t, f, cs[0]).value, cs[1..]);
    }
  }
}
