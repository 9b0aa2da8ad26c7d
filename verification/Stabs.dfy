/** stab_binsearch (kern/kdebug.c): a binary search over entries of one type
  scattered among entries of other types.
 */
module Stabs {

  const UINT_LIMIT: nat := 0x1_0000_0000

  type uint32 = x: int | 0 <= x < UINT_LIMIT

  datatype Stab = Stab(kind: nat, value: uint32)

  /** The range is empty or lies inside the table. */
  predicate InTable(stabs: seq<Stab>, left: int, right: int) {
    left <= right ==> 0 <= left && right < |stabs|
  }

  /** Entry i of the range has the wanted type. */
  predicate Wanted(stabs: seq<Stab>, left: int, right: int, kind: nat, i: int) {
    0 <= i < |stabs| && left <= i <= right && stabs[i].kind == kind
  }

  /** Values of the wanted type do not decrease along the range. */
  ghost predicate Sorted(stabs: seq<Stab>, left: int, right: int, kind: nat) {
    forall i, j | Wanted(stabs, left, right, kind, i) && Wanted(stabs, left, right, kind, j) && i <= j ::
      stabs[i].value <= stabs[j].value
  }

  /** An exact match makes the search go on with addr + 1. That is harmless
      when addr + 1 does not wrap and is not itself a value of the type. */
  ghost predicate NextFree(stabs: seq<Stab>, left: int, right: int, kind: nat, addr: uint32) {
    (exists i :: Wanted(stabs, left, right, kind, i) && stabs[i].value == addr) ==>
      addr + 1 < UINT_LIMIT && forall i | Wanted(stabs, left, right, kind, i) :: stabs[i].value != addr + 1
  }

  /** What the search brings back. With a wanted entry at most addr: the last
      such entry, and the index just before the next larger one or the old
      right end. With only larger entries: the index before the first of
      them, and the old left end or that index, whichever is smaller. With no
      entry of the type: an empty region at the old left end. */
  ghost predicate Bracket(stabs: seq<Stab>, left: int, right: int, kind: nat, addr: uint32, rl: int, rr: int) {
    if forall i :: !Wanted(stabs, left, right, kind, i) then rl == left && rr == left - 1
    else if forall i | Wanted(stabs, left, right, kind, i) :: stabs[i].value > addr then
      Wanted(stabs, left, right, kind, rr + 1) && (forall i | Wanted(stabs, left, right, kind, i) :: rr < i)
      && rl == if rr < left then rr else left
    else
      && Wanted(stabs, left, right, kind, rl) && stabs[rl].value <= addr && rl <= rr <= right
      && (forall i | Wanted(stabs, left, right, kind, i) && stabs[i].value <= addr :: i <= rl)
      && (forall i | Wanted(stabs, left, right, kind, i) && stabs[i].value > addr :: i > rr)
      && (rr == right || (Wanted(stabs, left, right, kind, rr + 1) && stabs[rr + 1].value > addr))
  }

  /** The answer is determined. */
  lemma BracketUnique(stabs: seq<Stab>, left: int, right: int, kind: nat, addr: uint32,
                      rl: int, rr: int, rl': int, rr': int)
    requires Bracket(stabs, left, right, kind, addr, rl, rr) && Bracket(stabs, left, right, kind, addr, rl', rr')
    ensures rl == rl' && rr == rr'
  {
  }

  /** The convention that left > right means "not found" holds exactly when no
      entry has the type: with only larger entries the region is not empty. */
  lemma EmptyMeansNoEntry(stabs: seq<Stab>, left: int, right: int, kind: nat, addr: uint32, rl: int, rr: int)
    requires Bracket(stabs, left, right, kind, addr, rl, rr)
    ensures rl > rr <==> forall i :: !Wanted(stabs, left, right, kind, i)
  {
  }

  // ------------------------------------------------------------------
  // The search
  // ------------------------------------------------------------------

  /** Scanning down from m for the type, no further than l; l - 1 is a miss. */
  function ScanDown(stabs: seq<Stab>, kind: nat, l: int, m: int): (r: int)
    requires 0 <= l && l - 1 <= m < |stabs|
    ensures l - 1 <= r <= m && (r >= l ==> stabs[r].kind == kind)
    ensures forall i | r < i <= m :: stabs[i].kind != kind
    decreases m - l
  {
    if m < l || stabs[m].kind == kind then m else ScanDown(stabs, kind, l, m - 1)
  }

  /** The variables of the loop. `goal` is addr as the loop changes it, `hits`
      counts the exact matches. */
  datatype Search = Search(l: int, r: int, rl: int, rr: int, any: bool, goal: uint32, hits: nat)

  function Wrap(x: uint32): uint32 {
    if x == UINT_LIMIT - 1 then 0 else x + 1
  }

  ghost predicate Inside(stabs: seq<Stab>, s: Search) {
    s.l <= s.r ==> 0 <= s.l && s.r < |stabs|
  }

  function Mid(l: int, r: int): (m: int)
    requires l <= r
    ensures l <= m <= r
  {
    (l + r) / 2
  }

  /** One turn of the loop. */
  function Turn(stabs: seq<Stab>, kind: nat, s: Search): (r: Search)
    requires Inside(stabs, s) && s.l <= s.r
    ensures Inside(stabs, r) && s.l <= r.l && r.r <= s.r
  {
    var trueM := Mid(s.l, s.r);
    var m := ScanDown(stabs, kind, s.l, trueM);
    if m < s.l then s.(l := trueM + 1)
    else if stabs[m].value < s.goal then s.(any := true, rl := m, l := trueM + 1)
    else if stabs[m].value > s.goal then s.(any := true, rr := m - 1, r := m - 1)
    else s.(any := true, rl := m, l := m, goal := Wrap(s.goal), hits := s.hits + 1)
  }

  /** 1 while the entry at l matches exactly: such a turn may leave l and r. */
  function AtGoal(stabs: seq<Stab>, kind: nat, s: Search): nat
    requires Inside(stabs, s)
  {
    if s.l <= s.r && stabs[s.l].kind == kind && stabs[s.l].value == s.goal then 1 else 0
  }

  /** Every turn makes progress, whatever the table holds. */
  lemma TurnProgress(stabs: seq<Stab>, kind: nat, s: Search)
    requires Inside(stabs, s) && s.l <= s.r
    ensures var r := Turn(stabs, kind, s);
            r.r - r.l < s.r - s.l || (r.r - r.l == s.r - s.l && AtGoal(stabs, kind, r) < AtGoal(stabs, kind, s))
  {
  }

  function Loop(stabs: seq<Stab>, kind: nat, s: Search): (r: Search)
    requires Inside(stabs, s)
    ensures r.l > r.r
    decreases if s.l <= s.r then s.r - s.l + 1 else 0, AtGoal(stabs, kind, s)
  {
    if s.l > s.r then s
    else
      TurnProgress(stabs, kind, s);
      Loop(stabs, kind, Turn(stabs, kind, s))
  }

  lemma LoopUnfolds(stabs: seq<Stab>, kind: nat, s: Search)
    requires Inside(stabs, s)
    ensures Loop(stabs, kind, s) == if s.l <= s.r then Loop(stabs, kind, Turn(stabs, kind, s)) else s
  {
    if s.l <= s.r {
      TurnProgress(stabs, kind, s);
    }
  }

  /** The loop after the search: down from rr to the type, stopping at rl. */
  function Settle(stabs: seq<Stab>, kind: nat, rl: int, l: int): int
    requires 0 <= rl && l < |stabs|
    decreases l - rl
  {
    if l > rl && stabs[l].kind != kind then Settle(stabs, kind, rl, l - 1) else l
  }

  function Start(left: int, right: int, addr: uint32): Search {
    Search(left, right, left, right, false, addr, 0)
  }

  /** The two region ends. */
  function BinSearch(stabs: seq<Stab>, left: int, right: int, kind: nat, addr: uint32): (int, int)
    requires InTable(stabs, left, right)
  {
    var s := Loop(stabs, kind, Start(left, right, addr));
    if !s.any then (s.rl, s.rl - 1)
    else if 0 <= s.rl && s.rr < |stabs| then (Settle(stabs, kind, s.rl, s.rr), s.rr)
    else (s.rl, s.rr)
  }

  // ------------------------------------------------------------------
  // What the search finds
  // ------------------------------------------------------------------

  /** Entries of the type below l are at most addr, those above r larger. */
  ghost predicate Split(stabs: seq<Stab>, left: int, right: int, kind: nat, addr: uint32, s: Search) {
    && left <= s.l && s.r <= right && s.l <= s.r + 1 && s.rr == s.r
    && (forall i | Wanted(stabs, left, right, kind, i) && i < s.l :: stabs[i].value <= addr)
    && (forall i | Wanted(stabs, left, right, kind, i) && i > s.r :: stabs[i].value > addr)
    && (s.r < right ==> Wanted(stabs, left, right, kind, s.r + 1))
  }

  /** rl is an entry met at most addr, or nothing of the type is below l. */
  ghost predicate Met(stabs: seq<Stab>, left: int, right: int, kind: nat, addr: uint32, s: Search) {
    || (s.any && Wanted(stabs, left, right, kind, s.rl) && s.rl <= s.r && s.rl <= s.l && stabs[s.rl].value <= addr)
    || (s.rl == left && s.hits == 0 && forall i | Wanted(stabs, left, right, kind, i) :: i >= s.l)
  }

  ghost predicate Good(stabs: seq<Stab>, left: int, right: int, kind: nat, addr: uint32, s: Search) {
    && Split(stabs, left, right, kind, addr, s) && Met(stabs, left, right, kind, addr, s)
    && (s.any ==> exists i :: Wanted(stabs, left, right, kind, i))
    && (s.r < right ==> s.any) && (s.any || forall i | Wanted(stabs, left, right, kind, i) :: i >= s.l)
    && (s.hits == 0 ==> s.goal == addr)
    && (s.hits == 1 ==> s.goal == addr + 1)
    && s.hits <= 1
    && (s.hits == 1 ==> exists i :: Wanted(stabs, left, right, kind, i) && stabs[i].value == addr)
  }

  lemma MissKeeps(stabs: seq<Stab>, left: int, right: int, kind: nat, addr: uint32, s: Search, trueM: int)
    requires Good(stabs, left, right, kind, addr, s) && s.l <= trueM <= s.r
    requires forall i | Wanted(stabs, left, right, kind, i) :: !(s.l <= i <= trueM)
    ensures Good(stabs, left, right, kind, addr, s.(l := trueM + 1))
  {
  }

  lemma LessKeeps(stabs: seq<Stab>, left: int, right: int, kind: nat, addr: uint32, s: Search, m: int, trueM: int)
    requires Sorted(stabs, left, right, kind) && Good(stabs, left, right, kind, addr, s)
    requires s.l <= m <= trueM <= s.r && Wanted(stabs, left, right, kind, m) && stabs[m].value < s.goal
    requires forall i | Wanted(stabs, left, right, kind, i) :: !(m < i <= trueM)
    ensures Good(stabs, left, right, kind, addr, s.(any := true, rl := m, l := trueM + 1))
  {
    assert stabs[m].value <= addr;
    forall i | Wanted(stabs, left, right, kind, i) && i < trueM + 1
      ensures stabs[i].value <= addr
    {
      assert i <= m;
    }
  }

  lemma GreaterKeeps(stabs: seq<Stab>, left: int, right: int, kind: nat, addr: uint32, s: Search, m: int)
    requires Sorted(stabs, left, right, kind) && Good(stabs, left, right, kind, addr, s)
    requires s.l <= m <= s.r && Wanted(stabs, left, right, kind, m) && stabs[m].value > s.goal
    ensures Good(stabs, left, right, kind, addr, s.(any := true, rr := m - 1, r := m - 1))
  {
    forall i | Wanted(stabs, left, right, kind, i) && i > m - 1
      ensures stabs[i].value > addr
    {
    }
    if Wanted(stabs, left, right, kind, s.rl) && stabs[s.rl].value <= addr && s.rl <= s.l {
      assert s.rl < m;
    }
  }

  lemma FirstHitKeeps(stabs: seq<Stab>, left: int, right: int, kind: nat, addr: uint32, s: Search, m: int)
    requires Sorted(stabs, left, right, kind) && Good(stabs, left, right, kind, addr, s)
    requires s.l <= m <= s.r && Wanted(stabs, left, right, kind, m) && stabs[m].value == s.goal == addr
    requires s.hits == 0 && addr < UINT_LIMIT - 1
    ensures Good(stabs, left, right, kind, addr,
            s.(any := true, rl := m, l := m, goal := Wrap(s.goal), hits := s.hits + 1))
  {
    forall i | Wanted(stabs, left, right, kind, i) && i < m
      ensures stabs[i].value <= addr
    {
    }
  }

  lemma InRange(stabs: seq<Stab>, left: int, right: int, kind: nat, addr: uint32, s: Search)
    requires Good(stabs, left, right, kind, addr, s)
    ensures left <= s.l && s.r <= right
  {
  }

  /** Nothing in what is left of the range matches exactly. */
  ghost predicate NoMatch(stabs: seq<Stab>, left: int, right: int, kind: nat, s: Search) {
    forall i | Wanted(stabs, left, right, kind, i) && s.l <= i <= s.r :: stabs[i].value != s.goal
  }

  lemma {:induction false} LoopGood(stabs: seq<Stab>, left: int, right: int, kind: nat, addr: uint32, s: Search)
    requires InTable(stabs, left, right) && Sorted(stabs, left, right, kind) && Inside(stabs, s)
    requires Good(stabs, left, right, kind, addr, s) && NoMatch(stabs, left, right, kind, s)
    ensures Good(stabs, left, right, kind, addr, Loop(stabs, kind, s))
    decreases if s.l <= s.r then s.r - s.l + 1 else 0, AtGoal(stabs, kind, s)
  {
    if s.l <= s.r {
      TurnGood(stabs, left, right, kind, addr, s);
      TurnProgress(stabs, kind, s);
      hide Good, Turn, Sorted;
      LoopGood(stabs, left, right, kind, addr, Turn(stabs, kind, s));
    }
  }

  /** A turn that does not match exactly. */
  lemma TurnGood(stabs: seq<Stab>, left: int, right: int, kind: nat, addr: uint32, s: Search)
    requires InTable(stabs, left, right) && Sorted(stabs, left, right, kind) && Inside(stabs, s) && s.l <= s.r
    requires Good(stabs, left, right, kind, addr, s) && NoMatch(stabs, left, right, kind, s)
    ensures Good(stabs, left, right, kind, addr, Turn(stabs, kind, s))
            && NoMatch(stabs, left, right, kind, Turn(stabs, kind, s))
  {
    InRange(stabs, left, right, kind, addr, s);
    hide Good, Sorted, Mid, NoMatch;
    var trueM := Mid(s.l, s.r);
    var m := ScanDown(stabs, kind, s.l, trueM);
    if m < s.l {
      assert Turn(stabs, kind, s) == s.(l := trueM + 1);
      MissKeeps(stabs, left, right, kind, addr, s, trueM);
    } else {
      assert Wanted(stabs, left, right, kind, m);
      MatchAt(stabs, left, right, kind, s, m);
      if stabs[m].value < s.goal {
        assert Turn(stabs, kind, s) == s.(any := true, rl := m, l := trueM + 1);
        LessKeeps(stabs, left, right, kind, addr, s, m, trueM);
      } else {
        assert Turn(stabs, kind, s) == s.(any := true, rr := m - 1, r := m - 1);
        GreaterKeeps(stabs, left, right, kind, addr, s, m);
      }
    }
    MatchShrinks(stabs, left, right, kind, s, Turn(stabs, kind, s));
  }

  lemma MatchAt(stabs: seq<Stab>, left: int, right: int, kind: nat, s: Search, m: int)
    requires NoMatch(stabs, left, right, kind, s) && Wanted(stabs, left, right, kind, m) && s.l <= m <= s.r
    ensures stabs[m].value != s.goal
  {
  }

  lemma MatchShrinks(stabs: seq<Stab>, left: int, right: int, kind: nat, s: Search, r: Search)
    requires NoMatch(stabs, left, right, kind, s) && s.l <= r.l && r.r <= s.r && r.goal == s.goal
    ensures NoMatch(stabs, left, right, kind, r)
  {
  }

  lemma {:induction false} SettleSpec(stabs: seq<Stab>, kind: nat, rl: int, l: int)
    requires 0 <= rl && l < |stabs|
    ensures var r := Settle(stabs, kind, rl, l);
            && r <= l && (rl <= l ==> rl <= r) && (rl > l ==> r == l)
            && (r > rl ==> stabs[r].kind == kind) && (forall i | r < i <= l && rl < i :: stabs[i].kind != kind)
    decreases l - rl
  {
    if l > rl && stabs[l].kind != kind {
      SettleSpec(stabs, kind, rl, l - 1);
    }
  }

  lemma GoodBrackets(stabs: seq<Stab>, left: int, right: int, kind: nat, addr: uint32, s: Search)
    requires InTable(stabs, left, right) && left <= right && s.l > s.r && Good(stabs, left, right, kind, addr, s)
    ensures s.any ==> 0 <= s.rl && s.rr < |stabs| &&
                      Bracket(stabs, left, right, kind, addr, Settle(stabs, kind, s.rl, s.rr), s.rr)
    ensures !s.any ==> Bracket(stabs, left, right, kind, addr, s.rl, s.rl - 1)
  {
    if s.any {
      assert 0 <= s.rl;
      SettleSpec(stabs, kind, s.rl, s.rr);
    }
  }

  lemma StartGood(stabs: seq<Stab>, left: int, right: int, kind: nat, addr: uint32)
    requires InTable(stabs, left, right) && left <= right
    ensures Good(stabs, left, right, kind, addr, Start(left, right, addr))
  {
  }

  // ------------------------------------------------------------------
  // When the answer is right
  // ------------------------------------------------------------------

  /** The first entry of the type from i on with this value, or right + 1. */
  function FirstValued(stabs: seq<Stab>, i: int, right: int, kind: nat, v: int): (r: int)
    requires 0 <= i <= right + 1 <= |stabs|
    ensures i <= r <= right + 1
    ensures forall j | i <= j < r :: !(stabs[j].kind == kind && stabs[j].value == v)
    ensures r <= right ==> stabs[r].kind == kind && stabs[r].value == v
    decreases right + 1 - i
  {
    if i > right || (stabs[i].kind == kind && stabs[i].value == v) then i else FirstValued(stabs, i + 1, right, kind, v)
  }

  /** Which entry of the type a plain binary search of [l, r], blind to
      values, comes upon first among those from lo to hi, and its right end
      when it does. */
  function FirstProbe(stabs: seq<Stab>, kind: nat, l: int, r: int, lo: int, hi: int): (p: (int, int))
    requires 0 <= l <= lo < hi <= r < |stabs| && stabs[lo].kind == kind && stabs[hi].kind == kind
    ensures lo <= p.0 <= hi <= p.1 <= r && stabs[p.0].kind == kind
    decreases r - l
  {
    var trueM := Mid(l, r);
    var m := ScanDown(stabs, kind, l, trueM);
    if m < lo then FirstProbe(stabs, kind, trueM + 1, r, lo, hi)
    else if m > hi then FirstProbe(stabs, kind, l, m - 1, lo, hi)
    else (m, r)
  }

  /** And which it comes upon first from hi on. */
  function NextProbe(stabs: seq<Stab>, kind: nat, l: int, r: int, hi: int): (m: int)
    requires 0 <= l <= hi <= r < |stabs| && stabs[hi].kind == kind
    ensures hi <= m <= r && stabs[m].kind == kind
    decreases r - l
  {
    var trueM := Mid(l, r);
    var m := ScanDown(stabs, kind, l, trueM);
    if m < hi then NextProbe(stabs, kind, trueM + 1, r, hi) else m
  }

  /** When the search is right, in terms of the table alone. With addr among
      the values it takes more than sortedness: addr must not be the largest
      address, and addr + 1 must not be a value, unless the search comes upon
      the first entry of addr + 1 before any of addr. If addr + 1 is the
      largest address, the wrap of the second restart can also make good. */
  predicate RightWhen(stabs: seq<Stab>, left: int, right: int, kind: nat, addr: uint32)
    requires 0 <= left <= right < |stabs|
  {
    var lo := FirstValued(stabs, left, right, kind, addr);
    var hi := FirstValued(stabs, left, right, kind, addr + 1);
    lo > right ||
    (addr < UINT_LIMIT - 1 &&
     (hi > right || hi <= lo ||
      var (m, r) := FirstProbe(stabs, kind, left, right, lo, hi);
      m == hi || (addr + 1 == UINT_LIMIT - 1 && stabs[hi - 1].kind == kind && NextProbe(stabs, kind, m, r, hi) == hi)))
  }

  /** lo and hi are the first entries of addr and of addr + 1, hi beyond the
      range when there is none. */
  ghost predicate Firsts(stabs: seq<Stab>, left: int, right: int, kind: nat, addr: uint32, lo: int, hi: int) {
    && Wanted(stabs, left, right, kind, lo) && stabs[lo].value == addr && lo < hi <= right + 1
    && (hi <= right ==> Wanted(stabs, left, right, kind, hi) && stabs[hi].value == addr + 1)
    && (forall i | Wanted(stabs, left, right, kind, i) :: (i < lo <==> stabs[i].value < addr))
    && (forall i | Wanted(stabs, left, right, kind, i) :: (i >= hi ==> stabs[i].value > addr))
    && (forall i | Wanted(stabs, left, right, kind, i) :: i < hi ==> stabs[i].value != addr + 1)
  }

  lemma FirstsOf(stabs: seq<Stab>, left: int, right: int, kind: nat, addr: uint32)
    requires 0 <= left <= right < |stabs| && Sorted(stabs, left, right, kind)
    requires FirstValued(stabs, left, right, kind, addr) <= right
    ensures var lo := FirstValued(stabs, left, right, kind, addr);
            var hi := FirstValued(stabs, left, right, kind, addr + 1);
            lo < hi && Firsts(stabs, left, right, kind, addr, lo, hi)
  {
    var lo := FirstValued(stabs, left, right, kind, addr);
    var hi := FirstValued(stabs, left, right, kind, addr + 1);
    assert Wanted(stabs, left, right, kind, lo);
    if hi <= right {
      assert Wanted(stabs, left, right, kind, hi);
    }
  }

  /** Before the first exact match, a turn keeps the entries of addr in the
      range and follows FirstProbe. */
  lemma FirstTurn(stabs: seq<Stab>, left: int, right: int, kind: nat, addr: uint32, s: Search, lo: int, hi: int)
    requires InTable(stabs, left, right) && Sorted(stabs, left, right, kind) && Inside(stabs, s)
    requires addr < UINT_LIMIT - 1 && Firsts(stabs, left, right, kind, addr, lo, hi)
    requires Good(stabs, left, right, kind, addr, s) && s.hits == 0 && s.l <= lo <= s.r
    ensures 0 <= s.l && s.r < |stabs|
    ensures var t := Turn(stabs, kind, s);
            Good(stabs, left, right, kind, addr, t) && t.r <= s.r
            && (if t.hits == 0 then t.l <= lo <= t.r && t.r - t.l < s.r - s.l
                else t.hits == 1 && lo <= t.l == t.rl < hi && t.r == s.r && Wanted(stabs, left, right, kind, t.l))
  {
    InRange(stabs, left, right, kind, addr, s);
    GoodGoal(stabs, left, right, kind, addr, s);
    hide Good, Mid;
    var trueM := Mid(s.l, s.r);
    var m := ScanDown(stabs, kind, s.l, trueM);
    if m < s.l {
      assert Turn(stabs, kind, s) == s.(l := trueM + 1);
      MissKeeps(stabs, left, right, kind, addr, s, trueM);
    } else {
      assert Wanted(stabs, left, right, kind, m);
      if stabs[m].value < addr {
        assert Turn(stabs, kind, s) == s.(any := true, rl := m, l := trueM + 1);
        LessKeeps(stabs, left, right, kind, addr, s, m, trueM);
      } else if stabs[m].value > addr {
        assert Turn(stabs, kind, s) == s.(any := true, rr := m - 1, r := m - 1);
        GreaterKeeps(stabs, left, right, kind, addr, s, m);
        LaterIs(stabs, left, right, kind, addr, lo, hi, m);
      } else {
        FirstHitKeeps(stabs, left, right, kind, addr, s, m);
      }
    }
  }

  lemma FirstTurnProbe(stabs: seq<Stab>, left: int, right: int, kind: nat, addr: uint32, s: Search, lo: int, hi: int)
    requires InTable(stabs, left, right) && Sorted(stabs, left, right, kind) && Inside(stabs, s)
    requires Firsts(stabs, left, right, kind, addr, lo, hi)
    requires 0 <= left <= s.l <= lo && hi <= s.r <= right && s.goal == addr && s.hits == 0
    ensures var t := Turn(stabs, kind, s);
            var p := FirstProbe(stabs, kind, s.l, s.r, lo, hi);
            if t.hits == 1 then p == (t.l, t.r)
            else if t.r < hi then p.0 == hi
            else t.l <= lo && p == FirstProbe(stabs, kind, t.l, t.r, lo, hi)
  {
    hide Mid;
    var trueM := Mid(s.l, s.r);
    var m := ScanDown(stabs, kind, s.l, trueM);
    if m >= s.l {
      assert Wanted(stabs, left, right, kind, m);
      if stabs[m].value > addr {
        LaterIs(stabs, left, right, kind, addr, lo, hi, m);
      }
    }
  }

  /** Up to the first exact match: which entry it is, and where the right end
      stands, are what FirstProbe says. */
  lemma {:induction false} ToFirstHit(stabs: seq<Stab>, left: int, right: int, kind: nat, addr: uint32, s: Search,
                                      lo: int, hi: int) returns (t: Search)
    requires InTable(stabs, left, right) && Sorted(stabs, left, right, kind) && Inside(stabs, s)
    requires addr < UINT_LIMIT - 1 && Firsts(stabs, left, right, kind, addr, lo, hi)
    requires Good(stabs, left, right, kind, addr, s) && s.hits == 0 && s.l <= lo <= s.r
    ensures Inside(stabs, t) && Loop(stabs, kind, t) == Loop(stabs, kind, s) && Good(stabs, left, right, kind, addr, t)
    ensures t.hits == 1 && lo <= t.l == t.rl < hi && t.l <= t.r <= s.r && Wanted(stabs, left, right, kind, t.l)
    ensures 0 <= s.l && s.r < |stabs|
    ensures hi <= s.r ==> lo < hi && stabs[lo].kind == kind && stabs[hi].kind == kind
    ensures hi <= s.r ==> var p := FirstProbe(stabs, kind, s.l, s.r, lo, hi);
                          if p.0 == hi then t.r < hi else p == (t.l, t.r)
    decreases s.r - s.l
  {
    InRange(stabs, left, right, kind, addr, s);
    GoodGoal(stabs, left, right, kind, addr, s);
    LoopUnfolds(stabs, kind, s);
    FirstTurn(stabs, left, right, kind, addr, s, lo, hi);
    if hi <= s.r {
      FirstTurnProbe(stabs, left, right, kind, addr, s, lo, hi);
    }
    hide Loop, Sorted, Good, Turn, FirstProbe;
    t := Turn(stabs, kind, s);
    if t.hits == 0 {
      t := ToFirstHit(stabs, left, right, kind, addr, t, lo, hi);
    }
  }

  lemma GoodGoal(stabs: seq<Stab>, left: int, right: int, kind: nat, addr: uint32, s: Search)
    requires Good(stabs, left, right, kind, addr, s)
    ensures s.hits == 0 ==> s.goal == addr
  {
  }

  lemma LaterIs(stabs: seq<Stab>, left: int, right: int, kind: nat, addr: uint32, lo: int, hi: int, m: int)
    requires Firsts(stabs, left, right, kind, addr, lo, hi) && Sorted(stabs, left, right, kind)
    requires Wanted(stabs, left, right, kind, m) && stabs[m].value > addr
    ensures lo < m && (hi <= right ==> hi <= m)
  {
  }

  /** Between the two: entries below hi are at most addr, hi is the first of
      addr + 1 and still in the range. */
  ghost predicate Second(stabs: seq<Stab>, left: int, right: int, kind: nat, addr: uint32, s: Search, hi: int) {
    && 0 <= left <= s.l <= hi <= s.r <= right < |stabs| && s.goal == addr + 1 && s.hits == 1 && s.rr == s.r
    && Wanted(stabs, left, right, kind, hi) && stabs[hi].value == addr + 1
    && (forall i | Wanted(stabs, left, right, kind, i) && i < hi :: stabs[i].value <= addr)
    && (forall i | Wanted(stabs, left, right, kind, i) && i >= hi :: stabs[i].value >= addr + 1)
  }

  lemma SecondTurn(stabs: seq<Stab>, left: int, right: int, kind: nat, addr: uint32, s: Search, hi: int)
    requires Second(stabs, left, right, kind, addr, s, hi) && Inside(stabs, s)
    ensures var t := Turn(stabs, kind, s);
            if t.hits == 1 then Second(stabs, left, right, kind, addr, t, hi) && t.r - t.l < s.r - s.l
            else t.hits == 2 && hi <= t.l == t.rl <= t.r <= right && t.rr == t.r && t.any && t.goal == Wrap(s.goal)
                 && Wanted(stabs, left, right, kind, t.l) && stabs[t.l].value == addr + 1
  {
    hide Mid;
    var m := ScanDown(stabs, kind, s.l, Mid(s.l, s.r));
    assert m >= s.l ==> Wanted(stabs, left, right, kind, m);
  }

  lemma SecondTurnProbe(stabs: seq<Stab>, left: int, right: int, kind: nat, addr: uint32, s: Search, hi: int)
    requires Second(stabs, left, right, kind, addr, s, hi) && Inside(stabs, s) && addr + 1 == UINT_LIMIT - 1
    ensures var t := Turn(stabs, kind, s);
            if t.hits == 2 then t.l == NextProbe(stabs, kind, s.l, s.r, hi)
            else t.l <= hi <= t.r && NextProbe(stabs, kind, t.l, t.r, hi) == NextProbe(stabs, kind, s.l, s.r, hi)
  {
    hide Mid;
    var m := ScanDown(stabs, kind, s.l, Mid(s.l, s.r));
    assert m >= s.l ==> Wanted(stabs, left, right, kind, m);
  }

  /** From there to the second, when the first entry of addr + 1 is still in
      the range. */
  lemma {:induction false} ToSecondHit(stabs: seq<Stab>, left: int, right: int, kind: nat, addr: uint32, s: Search,
                                       hi: int) returns (t: Search)
    requires Second(stabs, left, right, kind, addr, s, hi) && Inside(stabs, s)
    ensures Inside(stabs, t) && Loop(stabs, kind, t) == Loop(stabs, kind, s)
    ensures t.hits == 2 && hi <= t.l == t.rl <= t.r <= right && t.rr == t.r && t.any && t.goal == Wrap(addr + 1)
    ensures Wanted(stabs, left, right, kind, t.l) && stabs[t.l].value == addr + 1
    ensures 0 <= s.l <= hi <= s.r < |stabs| && stabs[hi].kind == kind && addr + 1 < UINT_LIMIT
    ensures addr + 1 == UINT_LIMIT - 1 ==> t.l == NextProbe(stabs, kind, s.l, s.r, hi)
    decreases s.r - s.l
  {
    LoopUnfolds(stabs, kind, s);
    SecondTurn(stabs, left, right, kind, addr, s, hi);
    if addr + 1 == UINT_LIMIT - 1 {
      SecondTurnProbe(stabs, left, right, kind, addr, s, hi);
    }
    hide Loop, Turn, NextProbe;
    t := Turn(stabs, kind, s);
    if t.hits == 1 {
      t := ToSecondHit(stabs, left, right, kind, addr, t, hi);
    }
  }

  /** An entry larger than addr that the search has taken for one at most
      addr, and will not give back. */
  ghost predicate Lost(stabs: seq<Stab>, left: int, right: int, kind: nat, addr: uint32, s: Search, j: int) {
    && Wanted(stabs, left, right, kind, j) && stabs[j].value > addr && j <= s.r && j <= s.l && s.rr == s.r && s.any
    && (j < s.l || stabs[j].value < s.goal) && left <= s.l && s.r <= right && 0 <= s.rl
  }

  lemma {:induction false} LostStays(stabs: seq<Stab>, left: int, right: int, kind: nat, addr: uint32, s: Search,
      j: int)
    requires InTable(stabs, left, right) && Sorted(stabs, left, right, kind) && Inside(stabs, s)
    requires Lost(stabs, left, right, kind, addr, s, j)
    ensures Lost(stabs, left, right, kind, addr, Loop(stabs, kind, s), j)
    decreases if s.l <= s.r then s.r - s.l + 1 else 0, AtGoal(stabs, kind, s)
  {
    if s.l <= s.r {
      LostTurn(stabs, left, right, kind, addr, s, j);
      TurnProgress(stabs, kind, s);
      hide Lost, Turn, Sorted;
      LostStays(stabs, left, right, kind, addr, Turn(stabs, kind, s), j);
    }
  }

  lemma LostTurn(stabs: seq<Stab>, left: int, right: int, kind: nat, addr: uint32, s: Search, j: int)
    requires InTable(stabs, left, right) && Sorted(stabs, left, right, kind) && Inside(stabs, s) && s.l <= s.r
    requires Lost(stabs, left, right, kind, addr, s, j)
    ensures Lost(stabs, left, right, kind, addr, Turn(stabs, kind, s), j)
  {
    var m := ScanDown(stabs, kind, s.l, Mid(s.l, s.r));
    if m >= s.l {
      assert Wanted(stabs, left, right, kind, m);
    }
  }

  /** After a wrap every entry is too large: the right end falls below l. */
  lemma {:induction false} WrapFalls(stabs: seq<Stab>, left: int, right: int, kind: nat, s: Search)
    requires InTable(stabs, left, right) && Inside(stabs, s) && left <= s.l <= s.r + 1 && s.r <= right && s.rr == s.r
    requires s.goal == 0 && (s.l <= s.r ==> stabs[s.l].kind == kind)
    requires forall i | Wanted(stabs, left, right, kind, i) && i >= s.l :: stabs[i].value > 0
    ensures var r := Loop(stabs, kind, s);
            r.rr == s.l - 1 && r.rl == s.rl && (r.any <==> s.any || s.l <= s.r)
    decreases s.r - s.l
  {
    LoopUnfolds(stabs, kind, s);
    if s.l <= s.r {
      var m := ScanDown(stabs, kind, s.l, Mid(s.l, s.r));
      assert Wanted(stabs, left, right, kind, s.l) && m >= s.l;
      assert Wanted(stabs, left, right, kind, m);
      hide Loop, Mid;
      WrapFalls(stabs, left, right, kind, Turn(stabs, kind, s));
    }
  }

  /** The first exact match when addr is the largest address. */
  lemma {:induction false} ToTopHit(stabs: seq<Stab>, left: int, right: int, kind: nat, s: Search, lo: int)
    returns (t: Search)
    requires InTable(stabs, left, right) && Inside(stabs, s) && left <= s.l <= lo <= s.r == right && s.rr == s.r
    requires s.goal == UINT_LIMIT - 1 && Wanted(stabs, left, right, kind, lo) && stabs[lo].value == UINT_LIMIT - 1
    requires Sorted(stabs, left, right, kind)
    ensures Inside(stabs, t) && Loop(stabs, kind, t) == Loop(stabs, kind, s)
    ensures t.goal == 0 && left <= t.l == t.rl <= t.r == t.rr == right && t.any
    ensures Wanted(stabs, left, right, kind, t.l) && stabs[t.l].value == UINT_LIMIT - 1
    decreases s.r - s.l
  {
    LoopUnfolds(stabs, kind, s);
    var trueM := Mid(s.l, s.r);
    var m := ScanDown(stabs, kind, s.l, trueM);
    if m >= s.l && stabs[m].value == UINT_LIMIT - 1 {
      assert Wanted(stabs, left, right, kind, m);
      t := Turn(stabs, kind, s);
    } else {
      if m >= s.l {
        assert Wanted(stabs, left, right, kind, m);
      }
      hide Loop, Mid;
      t := ToTopHit(stabs, left, right, kind, Turn(stabs, kind, s), lo);
    }
  }

  lemma LostIsWrong(stabs: seq<Stab>, left: int, right: int, kind: nat, addr: uint32, s: Search, j: int, rl: int)
    requires Lost(stabs, left, right, kind, addr, s, j)
    ensures !Bracket(stabs, left, right, kind, addr, rl, s.rr)
  {
  }

  /** At the largest address: wrong whenever it is among the values. */
  lemma TopIsWrong(stabs: seq<Stab>, left: int, right: int, kind: nat, lo: int)
    requires 0 <= left <= right < |stabs| && Sorted(stabs, left, right, kind)
    requires Wanted(stabs, left, right, kind, lo) && stabs[lo].value == UINT_LIMIT - 1
    ensures var (rl, rr) := BinSearch(stabs, left, right, kind, UINT_LIMIT - 1);
            !Bracket(stabs, left, right, kind, UINT_LIMIT - 1, rl, rr)
  {
    var t := ToTopHit(stabs, left, right, kind, Start(left, right, UINT_LIMIT - 1), lo);
    WrapFalls(stabs, left, right, kind, t);
  }

  /** Two values below the largest address apart by one, both matched. */
  lemma SecondHitIsWrong(stabs: seq<Stab>, left: int, right: int, kind: nat, addr: uint32, t: Search)
    requires 0 <= left <= right < |stabs| && Sorted(stabs, left, right, kind) && Inside(stabs, t)
    requires t.hits == 2 && left <= t.l == t.rl <= t.r <= right && t.rr == t.r && t.any
    requires Wanted(stabs, left, right, kind, t.l) && stabs[t.l].value == addr + 1 < t.goal
    ensures var s := Loop(stabs, kind, t);
            s.any && 0 <= s.rl && s.rr < |stabs| && forall rl :: !Bracket(stabs, left, right, kind, addr, rl, s.rr)
  {
    LostStays(stabs, left, right, kind, addr, t, t.l);
    var s := Loop(stabs, kind, t);
    forall rl ensures !Bracket(stabs, left, right, kind, addr, rl, s.rr) {
      LostIsWrong(stabs, left, right, kind, addr, s, t.l, rl);
    }
  }

  /** The second match was the largest address: the wrap leaves both ends just
      before it. */
  lemma SecondHitWraps(stabs: seq<Stab>, left: int, right: int, kind: nat, addr: uint32, lo: int, hi: int, m: int)
    requires 0 <= left <= right < |stabs| && Sorted(stabs, left, right, kind) && addr + 1 == UINT_LIMIT - 1
    requires Firsts(stabs, left, right, kind, addr, lo, hi) && hi <= m <= right
    requires Wanted(stabs, left, right, kind, m) && stabs[m].value == addr + 1
    ensures Bracket(stabs, left, right, kind, addr, m - 1, m - 1) <==> m == hi && stabs[hi - 1].kind == kind
  {
    if m == hi && stabs[hi - 1].kind == kind {
      assert Wanted(stabs, left, right, kind, hi - 1);
    }
  }

  lemma RightFromHit(stabs: seq<Stab>, left: int, right: int, kind: nat, addr: uint32, t: Search)
    requires 0 <= left <= right < |stabs| && Sorted(stabs, left, right, kind) && Inside(stabs, t)
    requires Loop(stabs, kind, t) == Loop(stabs, kind, Start(left, right, addr))
    requires Good(stabs, left, right, kind, addr, t) && NoMatch(stabs, left, right, kind, t)
    ensures var (rl, rr) := BinSearch(stabs, left, right, kind, addr); Bracket(stabs, left, right, kind, addr, rl, rr)
  {
    LoopGood(stabs, left, right, kind, addr, t);
    GoodBrackets(stabs, left, right, kind, addr, Loop(stabs, kind, t));
  }

  /** Both addr and addr + 1 are values, and addr + 1 does not wrap. */
  lemma BothValues(stabs: seq<Stab>, left: int, right: int, kind: nat, addr: uint32, lo: int, hi: int)
    requires 0 <= left <= right < |stabs| && Sorted(stabs, left, right, kind) && addr < UINT_LIMIT - 1
    requires Firsts(stabs, left, right, kind, addr, lo, hi) && hi <= right
    ensures var (rl, rr) := BinSearch(stabs, left, right, kind, addr);
            var (m, r) := FirstProbe(stabs, kind, left, right, lo, hi);
            Bracket(stabs, left, right, kind, addr, rl, rr) <==>
              m == hi || (addr + 1 == UINT_LIMIT - 1 && stabs[hi - 1].kind == kind
                && NextProbe(stabs, kind, m, r, hi) == hi)
  {
    StartGood(stabs, left, right, kind, addr);
    var t := ToFirstHit(stabs, left, right, kind, addr, Start(left, right, addr), lo, hi);
    HitFacts(stabs, left, right, kind, addr, t, lo, hi);
    assert 0 < hi;
    hide Good, Sorted, Firsts, Loop, FirstProbe, NextProbe, Bracket, Second;
    var (m, r) := FirstProbe(stabs, kind, left, right, lo, hi);
    if m == hi {
      RightFromHit(stabs, left, right, kind, addr, t);
    } else {
      SecondFrom(stabs, left, right, kind, addr, t, lo, hi);
    }
  }

  lemma SecondFrom(stabs: seq<Stab>, left: int, right: int, kind: nat, addr: uint32, t: Search, lo: int, hi: int)
    requires 0 <= left <= right < |stabs| && Sorted(stabs, left, right, kind) && addr < UINT_LIMIT - 1
    requires Firsts(stabs, left, right, kind, addr, lo, hi) && 0 < hi <= right
    requires Inside(stabs, t) && Second(stabs, left, right, kind, addr, t, hi)
    requires Loop(stabs, kind, t) == Loop(stabs, kind, Start(left, right, addr))
    ensures 0 <= t.l <= hi <= t.r < |stabs| && stabs[hi].kind == kind
    ensures var (rl, rr) := BinSearch(stabs, left, right, kind, addr);
            Bracket(stabs, left, right, kind, addr, rl, rr) <==>
              (addr + 1 == UINT_LIMIT - 1 && stabs[hi - 1].kind == kind && NextProbe(stabs, kind, t.l, t.r, hi) == hi)
  {
    hide Sorted, Bracket, Firsts, NextProbe, Loop, BinSearch, Turn;
    var u := ToSecondHit(stabs, left, right, kind, addr, t, hi);
    BinSearchFrom(stabs, left, right, kind, addr, u);
    if addr + 1 == UINT_LIMIT - 1 {
      TopAfter(stabs, left, right, kind, addr, lo, hi, u);
      WrapFalls(stabs, left, right, kind, u);
      SettleBelow(stabs, kind, u.l, u.l - 1);
      SecondHitWraps(stabs, left, right, kind, addr, lo, hi, u.l);
    } else {
      SecondHitIsWrong(stabs, left, right, kind, addr, u);
    }
  }

  lemma BinSearchFrom(stabs: seq<Stab>, left: int, right: int, kind: nat, addr: uint32, u: Search)
    requires InTable(stabs, left, right) && Inside(stabs, u)
    requires Loop(stabs, kind, u) == Loop(stabs, kind, Start(left, right, addr))
    ensures var s := Loop(stabs, kind, u);
            s.any && 0 <= s.rl && s.rr < |stabs| ==>
              BinSearch(stabs, left, right, kind, addr) == (Settle(stabs, kind, s.rl, s.rr), s.rr)
  {
  }

  lemma SettleBelow(stabs: seq<Stab>, kind: nat, rl: int, l: int)
    requires 0 <= rl && l < |stabs| && l <= rl
    ensures Settle(stabs, kind, rl, l) == l
  {
  }

  lemma TopAfter(stabs: seq<Stab>, left: int, right: int, kind: nat, addr: uint32, lo: int, hi: int, u: Search)
    requires Firsts(stabs, left, right, kind, addr, lo, hi) && hi <= u.l
    ensures forall i | Wanted(stabs, left, right, kind, i) && i >= u.l :: stabs[i].value > 0
  {
  }

  lemma HitFacts(stabs: seq<Stab>, left: int, right: int, kind: nat, addr: uint32, t: Search, lo: int, hi: int)
    requires 0 <= left <= right < |stabs| && t.l < hi
    requires Sorted(stabs, left, right, kind) && Firsts(stabs, left, right, kind, addr, lo, hi) && hi <= right
    requires Good(stabs, left, right, kind, addr, t) && t.hits == 1
    ensures if t.r < hi then NoMatch(stabs, left, right, kind, t) else Second(stabs, left, right, kind, addr, t, hi)
  {
  }

  /** Exactly when stab_binsearch is right on a sorted table. */
  lemma BinSearchExactly(stabs: seq<Stab>, left: int, right: int, kind: nat, addr: uint32)
    requires 0 <= left <= right < |stabs| && Sorted(stabs, left, right, kind)
    ensures var (rl, rr) := BinSearch(stabs, left, right, kind, addr);
            Bracket(stabs, left, right, kind, addr, rl, rr) <==> RightWhen(stabs, left, right, kind, addr)
  {
    var lo := FirstValued(stabs, left, right, kind, addr);
    var hi := FirstValued(stabs, left, right, kind, addr + 1);
    StartGood(stabs, left, right, kind, addr);
    hide Good, Sorted, Firsts, Loop, FirstProbe, NextProbe, Bracket, BinSearch;
    if lo > right {
      NoMatchYet(stabs, left, right, kind, addr);
      RightFromHit(stabs, left, right, kind, addr, Start(left, right, addr));
    } else {
      FirstsOf(stabs, left, right, kind, addr);
      if addr == UINT_LIMIT - 1 {
        FirstWanted(stabs, left, right, kind, addr, lo, hi);
        TopIsWrong(stabs, left, right, kind, lo);
      } else if hi > right {
        var t := ToFirstHit(stabs, left, right, kind, addr, Start(left, right, addr), lo, hi);
        NoNext(stabs, left, right, kind, addr, t);
        RightFromHit(stabs, left, right, kind, addr, t);
      } else {
        BothValues(stabs, left, right, kind, addr, lo, hi);
      }
    }
  }

  lemma NoMatchYet(stabs: seq<Stab>, left: int, right: int, kind: nat, addr: uint32)
    requires 0 <= left <= right < |stabs| && FirstValued(stabs, left, right, kind, addr) > right
    ensures NoMatch(stabs, left, right, kind, Start(left, right, addr))
  {
  }

  lemma FirstWanted(stabs: seq<Stab>, left: int, right: int, kind: nat, addr: uint32, lo: int, hi: int)
    requires Firsts(stabs, left, right, kind, addr, lo, hi)
    ensures Wanted(stabs, left, right, kind, lo) && stabs[lo].value == addr
  {
  }

  lemma NoNext(stabs: seq<Stab>, left: int, right: int, kind: nat, addr: uint32, t: Search)
    requires 0 <= left <= right < |stabs| && FirstValued(stabs, left, right, kind, addr + 1) > right
    requires Good(stabs, left, right, kind, addr, t) && t.hits == 1
    ensures NoMatch(stabs, left, right, kind, t)
  {
  }

  /** In particular it is right where addr + 1 is free: among sorted values it
      brackets addr, despite entries of other types and the restart after an
      exact match. */
  lemma BinSearchBrackets(stabs: seq<Stab>, left: int, right: int, kind: nat, addr: uint32)
    requires InTable(stabs, left, right) && Sorted(stabs, left, right, kind)
    requires NextFree(stabs, left, right, kind, addr)
    ensures var (rl, rr) := BinSearch(stabs, left, right, kind, addr);
            Bracket(stabs, left, right, kind, addr, rl, rr)
  {
    if left <= right {
      BinSearchExactly(stabs, left, right, kind, addr);
      var lo := FirstValued(stabs, left, right, kind, addr);
      var hi := FirstValued(stabs, left, right, kind, addr + 1);
      assert lo <= right ==> Wanted(stabs, left, right, kind, lo);
      assert hi <= right ==> Wanted(stabs, left, right, kind, hi);
    }
  }

  /** Values one apart can break it: asked for the entry holding address 5,
      the loop finds it, restarts with 6 and settles on the entry for 6. */
  lemma ValuesOneApart(kind: nat)
    ensures var stabs := [Stab(kind, 5), Stab(kind, 6)];
            && Sorted(stabs, 0, 1, kind) && BinSearch(stabs, 0, 1, kind, 5) == (1, 1)
            && Bracket(stabs, 0, 1, kind, 5, 0, 0)
  {
    var stabs := [Stab(kind, 5), Stab(kind, 6)];
    assert Wanted(stabs, 0, 1, kind, 0) && Wanted(stabs, 0, 1, kind, 1);
    var s0 := Start(0, 1, 5);
    var s1 := Search(0, 1, 0, 1, true, 6, 1);
    var s2 := Search(1, 1, 0, 1, true, 6, 1);
    var s3 := Search(1, 1, 1, 1, true, 7, 2);
    var s4 := Search(2, 1, 1, 1, true, 7, 2);
    assert Turn(stabs, kind, s0) == s1;
    assert Turn(stabs, kind, s1) == s2;
    assert Turn(stabs, kind, s2) == s3;
    assert Turn(stabs, kind, s3) == s4;
    assert Loop(stabs, kind, s4) == s4;
    assert Loop(stabs, kind, s3) == s4;
    assert Loop(stabs, kind, s2) == s4;
    assert Loop(stabs, kind, s1) == s4;
  }

  /** So does the largest address, whose restart wraps to 0. */
  lemma TopAddress(kind: nat)
    ensures var top := UINT_LIMIT - 1;
            var stabs := [Stab(kind, top)];
            Bracket(stabs, 0, 0, kind, top, 0, 0) && BinSearch(stabs, 0, 0, kind, top) == (-1, -1)
  {
    var top := UINT_LIMIT - 1;
    var stabs := [Stab(kind, top)];
    assert Wanted(stabs, 0, 0, kind, 0);
    var s0 := Start(0, 0, top);
    var s1 := Search(0, 0, 0, 0, true, 0, 1);
    var s2 := Search(0, -1, 0, -1, true, 0, 1);
    assert Turn(stabs, kind, s0) == s1;
    assert Turn(stabs, kind, s1) == s2;
    assert Loop(stabs, kind, s2) == s2;
    assert Loop(stabs, kind, s1) == s2;
  }

  // ------------------------------------------------------------------
  // As it runs
  // ------------------------------------------------------------------

  method StabBinsearch(stabs: seq<Stab>, left: int, right: int, kind: nat, addr: uint32) returns (rl: int, rr: int)
    requires InTable(stabs, left, right)
    ensures rl == BinSearch(stabs, left, right, kind, addr).0 && rr == BinSearch(stabs, left, right, kind, addr).1
  {
    rl, rr := left, right;
    var l, r, any, goal := left, right, false, addr;
    ghost var hits := 0;
    hide Loop, Mid;
    while l <= r
      invariant Inside(stabs, Search(l, r, rl, rr, any, goal, hits))
      invariant Loop(stabs, kind, Search(l, r, rl, rr, any, goal, hits)) == Loop(stabs, kind, Start(left, right, addr))
      invariant left <= l && r <= right && rr <= right && left <= rl && (any ==> left <= right)
      decreases if l <= r then r - l + 1 else 0, AtGoal(stabs, kind, Search(l, r, rl, rr, any, goal, hits))
    {
      ghost var s := Search(l, r, rl, rr, any, goal, hits);
      TurnProgress(stabs, kind, s);
      LoopUnfolds(stabs, kind, s);
      var trueM := Mid(l, r);
      var m := trueM;
      while m >= l && stabs[m].kind != kind
        invariant l - 1 <= m <= trueM && ScanDown(stabs, kind, l, m) == ScanDown(stabs, kind, l, trueM)
      {
        m := m - 1;
      }
      if m < l {
        l := trueM + 1;
        continue;
      }
      any := true;
      if stabs[m].value < goal {
        rl := m;
        l := trueM + 1;
      } else if stabs[m].value > goal {
        rr := m - 1;
        r := m - 1;
      } else {
        rl := m;
        l := m;
        goal := Wrap(goal);
        hits := hits + 1;
      }
    }
    LoopUnfolds(stabs, kind, Search(l, r, rl, rr, any, goal, hits));
    if !any {
      rr := rl - 1;
    } else {
      l := rr;
      while l > rl && stabs[l].kind != kind
        invariant l <= rr && Settle(stabs, kind, rl, l) == Settle(stabs, kind, rl, rr)
        decreases l - rl
      {
        l := l - 1;
      }
      rl := l;
    }
  }
}
