/** Path resolution and file creation (fs/fs.c). A directory is the list of
  the records in its blocks; a record with an empty name is a free slot.
 */
module Paths {
  const MAXNAMELEN: nat := 128
  const BLKFILES: nat := 16

  datatype Option<T> = None | Some(value: T)

  /** A struct File as the path functions see it. `slots` are the records in
      a directory's blocks, by number; record 0 is the root. */
  datatype Rec = Rec(name: string, isDir: bool, slots: seq<nat>)

  /** Found: 0. Missing: -E_NOT_FOUND, with the directory and the last
      element where walk_path hands them back. */
  datatype Walk = Found(dir: Option<nat>, f: nat) | Missing(dir: Option<nat>, last: string) | BadPath

  ghost predicate WellFormed(t: seq<Rec>) {
    |t| > 0 && forall d, k | 0 <= d < |t| && 0 <= k < |t[d].slots| :: t[d].slots[k] < |t|
  }

  /** A record is in one place: no two slots name the same record. */
  ghost predicate Unshared(t: seq<Rec>) {
    forall d, k, e, j | 0 <= d < |t| && 0 <= k < |t[d].slots| && 0 <= e < |t| && 0 <= j < |t[e].slots|
                        && t[d].slots[k] == t[e].slots[j] ::
      d == e && k == j
  }

  // ------------------------------------------------------------------
  // Components
  // ------------------------------------------------------------------

  /** Characters of p from i on that are not slashes. */
  function SpanEnd(p: string, i: nat): (r: nat)
    requires i <= |p|
    ensures i <= r <= |p| && (forall k | i <= k < r :: p[k] != '/') && (r < |p| ==> p[r] == '/')
    decreases |p| - i
  {
    if i == |p| || p[i] == '/' then i else SpanEnd(p, i + 1)
  }

  /** Characters of p from i on that are slashes. */
  function SlashEnd(p: string, i: nat): (r: nat)
    requires i <= |p|
    ensures i <= r <= |p| && (forall k | i <= k < r :: p[k] == '/') && (r < |p| ==> p[r] != '/')
    decreases |p| - i
  {
    if i == |p| || p[i] != '/' then i else SlashEnd(p, i + 1)
  }

  predicate Plain(c: string) {
    c != "" && '/' !in c
  }

  /** The maximal runs of other characters between slashes. */
  function Components(p: string): (r: seq<string>)
    ensures forall i | 0 <= i < |r| :: Plain(r[i])
    decreases |p|
  {
    if p == "" then []
    else if p[0] == '/' then Components(p[1..])
    else
      var n := SpanEnd(p, 0);
      [p[..n]] + Components(p[n..])
  }

  lemma SpanEndIs(p: string, n: nat)
    requires n <= |p| && (forall k | 0 <= k < n :: p[k] != '/') && (n < |p| ==> p[n] == '/')
    ensures SpanEnd(p, 0) == n
  {
  }

  lemma JoinParts(a: string, b: string, n: nat)
    requires n <= |a|
    ensures (a + "/" + b)[..n] == a[..n] && (a + "/" + b)[n..] == a[n..] + "/" + b
  {
  }

  /** The first component of a joined path. */
  lemma FirstOfJoin(a: string, b: string)
    requires a != "" && a[0] != '/'
    ensures SpanEnd(a + "/" + b, 0) == SpanEnd(a, 0) && 0 < SpanEnd(a, 0)
  {
    var p, n := a + "/" + b, SpanEnd(a, 0);
    assert n < |p| && p[n] == if n < |a| then a[n] else '/';
    SpanEndIs(p, n);
  }

  /** A slash separates: components on its two sides are independent. */
  lemma {:induction false} ComponentsOfJoin(a: string, b: string)
    ensures Components(a + "/" + b) == Components(a) + Components(b)
    decreases |a|
  {
    hide SpanEnd, Plain;
    var p := a + "/" + b;
    if a == "" {
      assert p[1..] == b;
    } else if a[0] == '/' {
      JoinParts(a, b, 1);
      ComponentsOfJoin(a[1..], b);
    } else {
      var n := SpanEnd(a, 0);
      FirstOfJoin(a, b);
      JoinParts(a, b, n);
      ComponentsOfJoin(a[n..], b);
      assert [a[..n]] + (Components(a[n..]) + Components(b)) == ([a[..n]] + Components(a[n..])) + Components(b);
    }
  }

  /** Leading, repeated and trailing slashes never matter. */
  lemma SlashesDoNotMatter(a: string, b: string)
    ensures Components("/" + a) == Components(a)
    ensures Components(a + "/") == Components(a)
    ensures Components(a + "//" + b) == Components(a + "/" + b)
  {
    assert ("/" + a)[1..] == a;
    assert a + "/" + "" == a + "/";
    ComponentsOfJoin(a, "");
    assert a + "//" + b == a + "/" + ("/" + b);
    assert ("/" + b)[1..] == b;
    ComponentsOfJoin(a, "/" + b);
    ComponentsOfJoin(a, b);
  }

  function Join(cs: seq<string>): string {
    if cs == [] then "" else cs[0] + "/" + Join(cs[1..])
  }

  /** Splitting undoes joining. */
  lemma {:induction false} ComponentsOfJoined(cs: seq<string>)
    requires forall i | 0 <= i < |cs| :: Plain(cs[i])
    ensures Components(Join(cs)) == cs
  {
    if cs != [] {
      ComponentsOfJoin(cs[0], Join(cs[1..]));
      SpanEndIs(cs[0], |cs[0]|);
      assert cs[0][..|cs[0]|] == cs[0] && cs[0][|cs[0]|..] == "";
      ComponentsOfJoined(cs[1..]);
    }
  }

  // ------------------------------------------------------------------
  // Lookup and resolution
  // ------------------------------------------------------------------

  /** The first slot from k on whose record has this name. */
  function FirstNamed(t: seq<Rec>, d: nat, name: string, k: nat): (r: nat)
    requires WellFormed(t) && d < |t| && k <= |t[d].slots|
    ensures k <= r <= |t[d].slots|
    ensures forall j | k <= j < r :: t[t[d].slots[j]].name != name
    ensures r < |t[d].slots| ==> t[t[d].slots[r]].name == name
    decreases |t[d].slots| - k
  {
    if k == |t[d].slots| || t[t[d].slots[k]].name == name then k else FirstNamed(t, d, name, k + 1)
  }

  /** dir_lookup in a directory without missing blocks. */
  function Lookup(t: seq<Rec>, d: nat, name: string): (r: Option<nat>)
    requires WellFormed(t) && d < |t|
    ensures r.Some? ==> r.value < |t| && t[r.value].name == name && r.value in t[d].slots
  {
    var k := FirstNamed(t, d, name, 0);
    if k == |t[d].slots| then None else Some(t[d].slots[k])
  }

  /** The fold: from file f, reached through `prev`, along the components. */
  function Resolve(t: seq<Rec>, prev: Option<nat>, f: nat, cs: seq<string>): (r: Walk)
    requires WellFormed(t) && f < |t| && (prev.Some? ==> prev.value < |t|)
    ensures r.Found? ==> r.f < |t|
    ensures !r.BadPath? && r.dir.Some? ==> r.dir.value < |t|
    decreases |cs|
  {
    if cs == [] then Found(prev, f)
    else if |cs[0]| >= MAXNAMELEN then BadPath
    else if !t[f].isDir then Missing(None, "")
    else
      match Lookup(t, f, cs[0])
      case Some(g) => Resolve(t, Some(f), g, cs[1..])
      case None => if |cs| == 1 then Missing(Some(f), cs[0]) else Missing(None, "")
  }

  function WalkPath(t: seq<Rec>, path: string): Walk
    requires WellFormed(t)
  {
    Resolve(t, None, 0, Components(path))
  }

  /** Two paths with the same components go to the same place. */
  lemma SlashInsensitive(t: seq<Rec>, a: string, b: string)
    requires WellFormed(t)
    ensures WalkPath(t, "/" + a + "//" + b + "/") == WalkPath(t, a + "/" + b)
  {
    var p := a + "//" + b + "/";
    assert "/" + a + "//" + b + "/" == "/" + p;
    SlashesDoNotMatter(p, "");
    assert p == (a + "//" + b) + "/";
    SlashesDoNotMatter(a + "//" + b, "");
    SlashesDoNotMatter(a, b);
  }

  // ------------------------------------------------------------------
  // Creation
  // ------------------------------------------------------------------

  datatype Created = Made(t: seq<Rec>, f: nat) | Exists | NoEntry | TooLong

  function Numbers(from: nat): (r: seq<nat>)
    ensures |r| == BLKFILES && forall i | 0 <= i < BLKFILES :: r[i] == from + i
  {
    seq(BLKFILES, i requires 0 <= i => from + i)
  }

  /** dir_alloc_file with a block available: the first slot with no name, or
      the first of a new block, whose records read as `stale`. */
  function DirAllocFile(t: seq<Rec>, d: nat, stale: seq<Rec>): (r: (seq<Rec>, nat))
    requires WellFormed(t) && d < |t| && |stale| == BLKFILES
    ensures r.1 < |r.0|
  {
    match Lookup(t, d, "")
    case Some(f) => (t, f)
    case None => (t[d := t[d].(slots := t[d].slots + Numbers(|t|))] + stale, |t|)
  }

  /** file_create; only the name of the record is set. */
  function FileCreate(t: seq<Rec>, path: string, stale: seq<Rec>): (r: Created)
    requires WellFormed(t) && |stale| == BLKFILES
  {
    match WalkPath(t, path)
    case Found(_, _) => Exists
    case BadPath => TooLong
    case Missing(dir, last) =>
      if dir.None? then NoEntry
      else
        var (t1, f) := DirAllocFile(t, dir.value, stale);
        Made(t1[f := t1[f].(name := last)], f)
  }

  /** The new directory tree: d gained record f under `name`, in a slot that
      was free or in a new block; no other record changed. */
  ghost predicate Added(t: seq<Rec>, r: seq<Rec>, d: nat, f: nat, name: string) {
    && d < |t| <= |r| && f < |r|
    && (forall e | 0 <= e < |t| && e != d && e != f :: r[e] == t[e])
    && (f < |t| ==> t[f].name == "" && r[f] == t[f].(name := name) && (f != d ==> r[d] == t[d]))
    && (f >= |t| ==> |r[d].slots| == |t[d].slots| + BLKFILES && r[d] == t[d].(slots := r[d].slots)
                     && r[d].slots[..|t[d].slots|] == t[d].slots && r[d].slots[|t[d].slots|] == f && r[f].name == name)
    && (f < |t| ==> f in t[d].slots)
  }

  lemma CreateAdds(t: seq<Rec>, path: string, stale: seq<Rec>)
    requires WellFormed(t) && |stale| == BLKFILES && FileCreate(t, path, stale).Made?
    ensures WalkPath(t, path).Missing? && WalkPath(t, path).dir.Some?
    ensures var w := WalkPath(t, path); var r := FileCreate(t, path, stale);
            Added(t, r.t, w.dir.value, r.f, w.last)
  {
  }

  /** What a lookup found before, it finds after. */
  lemma LookupStays(t: seq<Rec>, r: seq<Rec>, d: nat, f: nat, name: string, e: nat, n: string)
    requires WellFormed(t) && WellFormed(r) && Unshared(t) && Added(t, r, d, f, name) && e < |t|
    requires Lookup(t, d, name) == None && n != "" && Lookup(t, e, n).Some?
    ensures Lookup(r, e, n) == Lookup(t, e, n) && Lookup(t, e, n).value != f && r[e].isDir == t[e].isDir
  {
    var k := FirstNamed(t, e, n, 0);
    var slots := t[e].slots;
    assert slots[k] < |t| && t[slots[k]].name == n;
    assert r[e].slots[..|slots|] == slots;
    forall j | 0 <= j <= k
      ensures r[e].slots[j] == slots[j]
      ensures r[slots[j]].name == n <==> t[slots[j]].name == n
    {
      assert r[e].slots[j] == r[e].slots[..|slots|][j];
      if slots[j] == f {
        assert e == d;
        assert n != name;
      }
    }
    assert FirstNamed(r, e, n, 0) == k by {
      FirstIs(r, e, n, k);
    }
  }

  lemma FirstIs(t: seq<Rec>, d: nat, n: string, k: nat)
    requires WellFormed(t) && d < |t| && k < |t[d].slots|
    requires t[t[d].slots[k]].name == n && forall j | 0 <= j < k :: t[t[d].slots[j]].name != n
    ensures FirstNamed(t, d, n, 0) == k
  {
  }

  /** The new name is found, and it is the new record. */
  lemma LookupNew(t: seq<Rec>, r: seq<Rec>, d: nat, f: nat, name: string)
    requires WellFormed(t) && WellFormed(r) && Unshared(t) && Added(t, r, d, f, name)
    requires Lookup(t, d, name) == None
    ensures Lookup(r, d, name) == Some(f) && r[d].isDir == t[d].isDir
  {
    var slots := t[d].slots;
    var k := if f < |t| then FirstNamed(t, d, "", 0) else |slots|;
    assert FirstNamed(t, d, name, 0) == |slots|;
    forall j | 0 <= j < |slots|
      ensures r[d].slots[j] == slots[j] && slots[j] < |t|
    {
      assert r[d].slots[..|slots|][j] == slots[j];
    }
    if f < |t| {
      var i :| 0 <= i < |slots| && slots[i] == f;
      FirstIs(r, d, name, i);
    } else {
      FirstIs(r, d, name, |slots|);
    }
  }

  /** A path that led somewhere still leads there. */
  lemma {:induction false} ResolveStays(t: seq<Rec>, r: seq<Rec>, d: nat, f: nat, name: string,
                                        prev: Option<nat>, e: nat, cs: seq<string>)
    requires WellFormed(t) && WellFormed(r) && Unshared(t) && Added(t, r, d, f, name)
    requires Lookup(t, d, name) == None && e < |t| && (prev.Some? ==> prev.value < |t|)
    requires forall i | 0 <= i < |cs| :: cs[i] != ""
    requires Resolve(t, prev, e, cs).Found?
    ensures Resolve(r, prev, e, cs) == Resolve(t, prev, e, cs)
    decreases |cs|
  {
    hide Added, Unshared, Lookup;
    if cs != [] {
      LookupStays(t, r, d, f, name, e, cs[0]);
      ResolveStays(t, r, d, f, name, Some(e), Lookup(t, e, cs[0]).value, cs[1..]);
    }
  }

  /** The path whose last element was missing now leads to the new record. */
  lemma {:induction false} ResolveNew(t: seq<Rec>, r: seq<Rec>, d: nat, f: nat, name: string,
                                      prev: Option<nat>, e: nat, cs: seq<string>)
    requires WellFormed(t) && WellFormed(r) && Unshared(t) && Added(t, r, d, f, name)
    requires e < |t| && (prev.Some? ==> prev.value < |t|) && Lookup(t, d, name) == None
    requires forall i | 0 <= i < |cs| :: cs[i] != ""
    requires Resolve(t, prev, e, cs) == Missing(Some(d), name)
    ensures Resolve(r, prev, e, cs) == Found(Some(d), f)
    decreases |cs|
  {
    hide Added, Unshared, Lookup;
    match Lookup(t, e, cs[0])
    case Some(g) =>
      LookupStays(t, r, d, f, name, e, cs[0]);
      ResolveNew(t, r, d, f, name, Some(e), g, cs[1..]);
    case None =>
      LookupNew(t, r, d, f, name);
      assert cs[1..] == [];
  }

  lemma {:induction false} MissingMeans(t: seq<Rec>, prev: Option<nat>, e: nat, cs: seq<string>)
    requires WellFormed(t) && e < |t| && (prev.Some? ==> prev.value < |t|)
    requires Resolve(t, prev, e, cs).Missing? && Resolve(t, prev, e, cs).dir.Some?
    ensures var w := Resolve(t, prev, e, cs);
            t[w.dir.value].isDir && Lookup(t, w.dir.value, w.last) == None && |w.last| < MAXNAMELEN
            && cs != [] && w.last == cs[|cs| - 1]
    decreases |cs|
  {
    if Lookup(t, e, cs[0]).Some? {
      MissingMeans(t, Some(e), Lookup(t, e, cs[0]).value, cs[1..]);
    }
  }

  /** After file_create(path) returns 0, file_open(path) gives that same file,
      every other path that could be opened still opens the same file, and
      creating the path again reports that it exists. */
  lemma CreateThenOpen(t: seq<Rec>, path: string, stale: seq<Rec>, other: string)
    requires WellFormed(t) && Unshared(t) && |stale| == BLKFILES && FileCreate(t, path, stale).Made?
    requires WellFormed(FileCreate(t, path, stale).t)
    ensures var r := FileCreate(t, path, stale);
            && WalkPath(r.t, path) == Found(WalkPath(t, path).dir, r.f)
            && (WalkPath(t, other).Found? ==> WalkPath(r.t, other) == WalkPath(t, other))
            && FileCreate(r.t, path, stale) == Exists
  {
    var r := FileCreate(t, path, stale);
    var w := WalkPath(t, path);
    CreateAdds(t, path, stale);
    MissingMeans(t, None, 0, Components(path));
    ResolveNew(t, r.t, w.dir.value, r.f, w.last, None, 0, Components(path));
    if WalkPath(t, other).Found? {
      ResolveStays(t, r.t, w.dir.value, r.f, w.last, None, 0, Components(other));
    }
  }

  ghost predicate InSlot(t: seq<Rec>, g: nat) {
    exists e, k :: 0 <= e < |t| && 0 <= k < |t[e].slots| && t[e].slots[k] == g
  }

  /** The stale records of a new block name records that are there and that no
      directory holds, each of them once. */
  ghost predicate StaleFits(t: seq<Rec>, stale: seq<Rec>) {
    && (forall i, k | 0 <= i < |stale| && 0 <= k < |stale[i].slots| ::
          stale[i].slots[k] < |t| && !InSlot(t, stale[i].slots[k]))
    && Unshared(stale)
  }

  /** The slots of the tree once directory d has a new block of records. */
  ghost predicate Grown(t: seq<Rec>, r: seq<Rec>, d: nat, stale: seq<Rec>) {
    && d < |t| && |r| == |t| + |stale| && |stale| == BLKFILES
    && r[d].slots == t[d].slots + Numbers(|t|)
    && (forall e | 0 <= e < |t| && e != d :: r[e].slots == t[e].slots)
    && (forall e | |t| <= e < |r| :: r[e].slots == stale[e - |t|].slots)
  }

  lemma GrownFits(t: seq<Rec>, r: seq<Rec>, d: nat, stale: seq<Rec>)
    requires WellFormed(t) && Unshared(t) && Grown(t, r, d, stale) && StaleFits(t, stale)
    ensures WellFormed(r) && Unshared(r)
  {
    var n := |t[d].slots|;
    forall e, k | 0 <= e < |r| && 0 <= k < |r[e].slots|
      ensures e < |t| && (e != d || k < n) ==>
                k < |t[e].slots| && r[e].slots[k] == t[e].slots[k] < |t| && InSlot(t, r[e].slots[k])
      ensures e == d && k >= n ==> r[e].slots[k] == |t| + (k - n) < |r|
      ensures e >= |t| ==> r[e].slots[k] == stale[e - |t|].slots[k] < |t| && !InSlot(t, r[e].slots[k])
    {
    }
  }

  lemma OnePlace(t: seq<Rec>, d: nat, k: nat, e: nat, j: nat)
    requires Unshared(t) && d < |t| && k < |t[d].slots| && e < |t| && j < |t[e].slots| && t[d].slots[k] == t[e].slots[j]
    ensures d == e && k == j
  {
  }

  lemma GrownNeedsFit(t: seq<Rec>, r: seq<Rec>, d: nat, stale: seq<Rec>)
    requires WellFormed(t) && Grown(t, r, d, stale) && WellFormed(r) && Unshared(r)
    ensures StaleFits(t, stale)
  {
    hide Unshared;
    var n := |t[d].slots|;
    forall i, k | 0 <= i < |stale| && 0 <= k < |stale[i].slots|
      ensures stale[i].slots[k] < |t| && !InSlot(t, stale[i].slots[k])
    {
      var w := stale[i].slots[k];
      assert r[|t| + i].slots[k] == w < |r|;
      if w >= |t| {
        assert r[d].slots[n + (w - |t|)] == w;
        OnePlace(r, |t| + i, k, d, n + (w - |t|));
      } else if InSlot(t, w) {
        var e, j :| 0 <= e < |t| && 0 <= j < |t[e].slots| && t[e].slots[j] == w;
        assert r[e].slots[j] == w;
        OnePlace(r, |t| + i, k, e, j);
      }
    }
    StaleOnce(t, r, d, stale);
  }

  lemma StaleOnce(t: seq<Rec>, r: seq<Rec>, d: nat, stale: seq<Rec>)
    requires Grown(t, r, d, stale) && Unshared(r)
    ensures Unshared(stale)
  {
    forall i, k, h, j | 0 <= i < |stale| && 0 <= k < |stale[i].slots| && 0 <= h < |stale| && 0 <= j < |stale[h].slots|
                        && stale[i].slots[k] == stale[h].slots[j]
      ensures i == h && k == j
    {
      OnePlace(r, |t| + i, k, |t| + h, j);
    }
  }

  /** Creating keeps the tree well formed and unshared exactly when the record
      is taken in place or the stale records of the new block fit the tree; in
      particular when none of them has contents. */
  lemma CreateKeepsTree(t: seq<Rec>, path: string, stale: seq<Rec>)
    requires WellFormed(t) && Unshared(t) && |stale| == BLKFILES && FileCreate(t, path, stale).Made?
    ensures var r := FileCreate(t, path, stale); var d := WalkPath(t, path).dir.value;
            && (WellFormed(r.t) && Unshared(r.t) <==> Lookup(t, d, "").Some? || StaleFits(t, stale))
            && ((forall i | 0 <= i < BLKFILES :: stale[i].slots == []) ==> StaleFits(t, stale))
  {
    var r := FileCreate(t, path, stale).t;
    var d := WalkPath(t, path).dir.value;
    if Lookup(t, d, "").Some? {
      assert |r| == |t| && forall e | 0 <= e < |t| :: r[e].slots == t[e].slots;
    } else {
      assert Grown(t, r, d, stale);
      if StaleFits(t, stale) {
        GrownFits(t, r, d, stale);
      } else if WellFormed(r) && Unshared(r) {
        GrownNeedsFit(t, r, d, stale);
      }
    }
  }
}
