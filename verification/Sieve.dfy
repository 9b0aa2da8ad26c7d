/** The process sieve (fork/primes.c): a feeder writes 2..n into a pipe, and
  each filter stage prints the first number it reads and passes on the numbers
  that one does not divide. A pipe is the sequence of numbers that go through.
 */
module Sieve {
  import opened Arithmetic

  const INT_MAX: int := 0x7FFF_FFFF

  /** What a stage passes on, having read p first. */
  function Sift(p: nat, s: seq<nat>): (r: seq<nat>)
    requires p > 0
    ensures |r| <= |s|
  {
    if s == [] then []
    else if s[0] % p != 0 then [s[0]] + Sift(p, s[1..]) else Sift(p, s[1..])
  }

  predicate Positive(s: seq<nat>) {
    forall i | 0 <= i < |s| :: s[i] > 0
  }

  lemma {:induction false} SiftPositive(p: nat, s: seq<nat>)
    requires p > 0 && Positive(s)
    ensures Positive(Sift(p, s))
  {
    if s != [] {
      SiftPositive(p, s[1..]);
    }
  }

  /** The numbers printed by a stage that reads s and by those after it. */
  function Printed(s: seq<nat>): (r: seq<nat>)
    requires Positive(s)
    decreases |s|
  {
    if s == [] then []
    else
      SiftPositive(s[0], s[1..]);
      [s[0]] + Printed(Sift(s[0], s[1..]))
  }

  /** What stage k reads, stage 0 being the first. */
  function Stage(s: seq<nat>, k: nat): (r: seq<nat>)
    requires Positive(s)
    ensures Positive(r) && (|r| + k <= |s| || r == [])
    decreases k
  {
    if k == 0 then s
    else
      var t := Stage(s, k - 1);
      if t == [] then []
      else
        SiftPositive(t[0], t[1..]);
        Sift(t[0], t[1..])
  }

  /** 2..n, as the feeder writes it from i on. */
  function From(i: nat, n: nat): (r: seq<nat>)
    requires i > 0
    ensures Positive(r)
    decreases n - i
  {
    if i > n then [] else [i] + From(i + 1, n)
  }

  // ------------------------------------------------------------------
  // Primes
  // ------------------------------------------------------------------

  predicate IsPrime(x: nat) {
    x >= 2 && forall d | 2 <= d < x :: x % d != 0
  }

  /** The primes in [i, n], in increasing order. */
  function Primes(i: nat, n: nat): seq<nat>
    decreases n - i
  {
    if i > n then [] else if IsPrime(i) then [i] + Primes(i + 1, n) else Primes(i + 1, n)
  }

  /** No divisor of x lies in [2, m). */
  predicate NoDivisor(x: nat, m: nat) {
    forall d | 2 <= d < m :: x % d != 0
  }

  /** The numbers of [i, n] with no divisor in [2, m). */
  function Rough(i: nat, n: nat, m: nat): seq<nat>
    decreases n - i
  {
    if i > n then [] else if NoDivisor(i, m) then [i] + Rough(i + 1, n, m) else Rough(i + 1, n, m)
  }

  lemma DividesTrans(a: nat, b: nat, c: nat)
    requires a > 0 && b > 0 && b % a == 0 && c % b == 0
    ensures c % a == 0
  {
    var k, j := b / a, c / b;
    assert c == j * b && b == k * a;
    assert c == (j * k) * a;
    ModOfSum(j * k, 0, a);
  }

  /** A number with no divisor below m, when every smaller candidate from m on
      has one, has none below itself but 1. */
  lemma HeadIsPrime(m: nat, p: nat)
    requires 2 <= m <= p && NoDivisor(p, m)
    requires forall x | m <= x < p :: !NoDivisor(x, m)
    ensures IsPrime(p)
  {
    forall d | 2 <= d < p
      ensures p % d != 0
    {
      if d >= m && p % d == 0 {
        assert !NoDivisor(d, m);
        var e :| 2 <= e < m && d % e == 0;
        DividesTrans(e, d, p);
      }
    }
  }

  lemma NoPrimeBetween(m: nat, x: nat)
    requires 2 <= m <= x && !NoDivisor(x, m)
    ensures !IsPrime(x)
  {
  }

  /** Divisors below p + 1 are divisors below m, or p, for the p after m. */
  lemma NextRough(x: nat, m: nat, p: nat)
    requires 2 <= m <= p < x && NoDivisor(p, m)
    requires forall y | m <= y < p :: !NoDivisor(y, m)
    ensures NoDivisor(x, p + 1) <==> NoDivisor(x, m) && x % p != 0
  {
    if NoDivisor(x, m) && x % p != 0 {
      forall d | 2 <= d < p + 1
        ensures x % d != 0
      {
        if m <= d < p && x % d == 0 {
          assert !NoDivisor(d, m);
          var e :| 2 <= e < m && d % e == 0;
          DividesTrans(e, d, x);
        }
      }
    }
  }

  /** Sifting the rough numbers by their head gives the next rough numbers. */
  lemma {:induction false} SiftRough(i: nat, n: nat, m: nat, p: nat)
    requires 2 <= m <= p < i && NoDivisor(p, m)
    requires forall y | m <= y < p :: !NoDivisor(y, m)
    ensures Sift(p, Rough(i, n, m)) == Rough(i, n, p + 1)
    decreases n - i
  {
    if i <= n {
      SiftRough(i + 1, n, m, p);
      NextRough(i, m, p);
      if NoDivisor(i, m) {
        assert Rough(i, n, m)[1..] == Rough(i + 1, n, m);
      }
    }
  }

  lemma {:induction false} RoughPositive(i: nat, n: nat, m: nat)
    requires i > 0
    ensures Positive(Rough(i, n, m))
    decreases n - i
  {
    if i <= n {
      RoughPositive(i + 1, n, m);
    }
  }

  /** Stages print exactly the primes, in order, from the rough numbers of
      some m, seen from i on. */
  lemma {:induction false} RoughPrintsPrimes(i: nat, n: nat, m: nat)
    requires 2 <= m <= i && forall y | m <= y < i :: !NoDivisor(y, m)
    ensures Positive(Rough(i, n, m))
    ensures Printed(Rough(i, n, m)) == Primes(i, n)
    decreases n - i
  {
    RoughPositive(i, n, m);
    if i <= n {
      if NoDivisor(i, m) {
        HeadIsPrime(m, i);
        SiftRough(i + 1, n, m, i);
        assert Rough(i, n, m)[1..] == Rough(i + 1, n, m);
        RoughPrintsPrimes(i + 1, n, i + 1);
      } else {
        NoPrimeBetween(m, i);
        RoughPrintsPrimes(i + 1, n, m);
      }
    }
  }

  lemma {:induction false} FromIsRough(i: nat, n: nat)
    requires i > 0
    ensures From(i, n) == Rough(i, n, 2)
    decreases n - i
  {
    if i <= n {
      FromIsRough(i + 1, n);
    }
  }

  /** The sieve is correct: fed 2..n, the chain prints exactly the primes up
      to n in increasing order. */
  lemma SievePrintsPrimes(n: nat)
    ensures Printed(From(2, n)) == Primes(2, n)
  {
    FromIsRough(2, n);
    RoughPrintsPrimes(2, n, 2);
  }

  /** Primes is what it says: increasing, and every prime of the range. */
  lemma {:induction false} PrimesAreAll(i: nat, n: nat)
    ensures forall j, k | 0 <= j < k < |Primes(i, n)| :: Primes(i, n)[j] < Primes(i, n)[k]
    ensures forall x: nat :: x in Primes(i, n) <==> i <= x <= n && IsPrime(x)
    decreases n - i
  {
    if i <= n {
      PrimesAreAll(i + 1, n);
      var rest := Primes(i + 1, n);
      forall j, k | 0 <= j < k < |Primes(i, n)|
        ensures Primes(i, n)[j] < Primes(i, n)[k]
      {
        if IsPrime(i) && j == 0 {
          assert rest[k - 1] in rest;
        }
      }
    }
  }

  // ------------------------------------------------------------------
  // Each stage
  // ------------------------------------------------------------------

  /** x survives the first k numbers of ps. */
  predicate Survives(x: nat, ps: seq<nat>, k: nat)
    requires k <= |ps| && Positive(ps)
  {
    forall j | 0 <= j < k :: x % ps[j] != 0
  }

  lemma {:induction false} PrintedPositive(s: seq<nat>)
    requires Positive(s)
    ensures Positive(Printed(s))
    decreases |s|
  {
    if s != [] {
      SiftPositive(s[0], s[1..]);
      PrintedPositive(Sift(s[0], s[1..]));
    }
  }

  /** Stage k reads the stream of stage k - 1 of the chain behind the first. */
  lemma {:induction false} StageShift(s: seq<nat>, k: nat)
    requires Positive(s) && s != [] && k > 0
    ensures Positive(Sift(s[0], s[1..])) && Stage(s, k) == Stage(Sift(s[0], s[1..]), k - 1)
    decreases k
  {
    SiftPositive(s[0], s[1..]);
    if k > 1 {
      StageShift(s, k - 1);
    }
  }

  lemma {:induction false} SiftMembers(p: nat, s: seq<nat>, x: nat)
    requires p > 0
    ensures x in Sift(p, s) <==> x in s && x % p != 0
  {
    if s != [] {
      SiftMembers(p, s[1..], x);
    }
  }

  lemma {:induction false} EmptyStages(k: nat)
    ensures Stage([], k) == []
    decreases k
  {
    if k > 0 {
      EmptyStages(k - 1);
    }
  }

  /** The head divides itself, so it goes no further. */
  lemma {:induction false} StageMembers(s: seq<nat>, k: nat, x: nat)
    requires Positive(s) && Positive(Printed(s)) && k <= |Printed(s)|
    ensures x in Stage(s, k) <==> x in s && Survives(x, Printed(s), k)
    decreases k
  {
    if k > 0 && s != [] {
      var rest := Sift(s[0], s[1..]);
      StageShift(s, k);
      PrintedPositive(rest);
      StageMembers(rest, k - 1, x);
      SiftMembers(s[0], s[1..], x);
      assert Printed(s)[1..] == Printed(rest);
      assert forall j | 0 <= j < k - 1 :: Printed(rest)[j] == Printed(s)[j + 1];
      SelfMod(s[0]);
      assert Survives(x, Printed(s), k) <==> x % s[0] != 0 && Survives(x, Printed(rest), k - 1) by {
        SurvivesSplit(x, s[0], Printed(rest), k);
      }
    }
  }

  lemma SelfMod(p: nat)
    requires p > 0
    ensures p % p == 0
  {
  }

  lemma SurvivesSplit(x: nat, p: nat, ps: seq<nat>, k: nat)
    requires 0 < k <= |ps| + 1 && p > 0 && Positive(ps) && Positive([p] + ps)
    ensures Survives(x, [p] + ps, k) <==> x % p != 0 && Survives(x, ps, k - 1)
  {
    var all := [p] + ps;
    assert all[0] == p;
    assert forall j | 1 <= j < k :: all[j] == ps[j - 1];
    if x % p != 0 && Survives(x, ps, k - 1) {
      forall j | 0 <= j < k ensures x % all[j] != 0 {
        if j > 0 {
          assert x % ps[j - 1] != 0;
        }
      }
    }
    if Survives(x, all, k) {
      forall j | 0 <= j < k - 1 ensures x % ps[j] != 0 {
        assert x % all[j + 1] != 0;
      }
    }
  }

  lemma {:induction false} FromMembers(i: nat, n: nat, x: nat)
    requires i > 0
    ensures x in From(i, n) <==> i <= x <= n
    decreases n - i
  {
    if i <= n {
      FromMembers(i + 1, n, x);
    }
  }

  /** Stage k reads exactly the numbers of 2..n that none of the first k
      primes divides. */
  lemma StageReads(n: nat, k: nat, x: nat)
    requires k <= |Primes(2, n)|
    ensures Positive(Primes(2, n))
    ensures x in Stage(From(2, n), k) <==> 2 <= x <= n && Survives(x, Primes(2, n), k)
  {
    SievePrintsPrimes(n);
    PrintedPositive(From(2, n));
    StageMembers(From(2, n), k, x);
    FromMembers(2, n, x);
  }

  /** The chain is finite: each stage's stream is strictly shorter, so there
      are at most as many stages as numbers. */
  lemma ChainShrinks(n: nat, k: nat)
    requires Stage(From(2, n), k) != []
    ensures |Stage(From(2, n), k + 1)| < |Stage(From(2, n), k)|
    ensures k < |From(2, n)|
  {
  }

  // ------------------------------------------------------------------
  // As it runs
  // ------------------------------------------------------------------

  /** filter: reads the pipe to its end, prints, and starts the next stage on
      what it wrote. */
  method Filter(input: seq<nat>) returns (printed: seq<nat>)
    requires Positive(input)
    ensures printed == Printed(input)
    decreases |input|
  {
    if input == [] {
      return [];
    }
    var prime := input[0];
    var right: seq<nat> := [];
    var i := 1;
    while i < |input|
      invariant 1 <= i <= |input| && |right| < i
      invariant Sift(prime, input[1..]) == right + Sift(prime, input[i..])
    {
      assert input[i..][1..] == input[i + 1..];
      if input[i] % prime != 0 {
        assert right + ([input[i]] + Sift(prime, input[i + 1..])) == (right + [input[i]]) + Sift(prime, input[i + 1..]);
        right := right + [input[i]];
      }
      i := i + 1;
    }
    assert right == Sift(prime, input[1..]);
    SiftPositive(prime, input[1..]);
    var rest := Filter(right);
    printed := [prime] + rest;
  }

  /** main past its argument check: i stays an int while n is below INT_MAX. */
  method Run(n: int) returns (printed: seq<nat>)
    requires 2 <= n < INT_MAX
    ensures printed == Primes(2, n)
  {
    var pipe: seq<nat> := [];
    var i := 2;
    while i <= n
      invariant 2 <= i <= n + 1 <= INT_MAX && From(2, n) == pipe + From(i, n)
    {
      assert pipe + ([i] + From(i + 1, n)) == (pipe + [i]) + From(i + 1, n);
      pipe := pipe + [i];
      i := i + 1;
    }
    assert pipe == From(2, n);
    SievePrintsPrimes(n);
    printed := Filter(pipe);
  }
}
