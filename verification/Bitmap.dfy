/** One bitmap, two readers: block_is_free as the page-fault handler of the
  cache sees it, byte by byte (fs/bc.c), and the 32-bit words that alloc_block
  and free_block change (fs/fs.c).
 */
module Bitmap {
  import opened Arithmetic
  import opened FsBlocks
  import opened BlockCache
  import FS = FileServer

  // ------------------------------------------------------------------
  // Digits
  // ------------------------------------------------------------------

  /** Binary digit k of n. */
  predicate Digit(n: int, k: nat) {
    n / Pow2(k) % 2 == 1
  }

  /** The number whose binary digits are the low k bits of w. */
  function BitSum(w: bv32, k: nat): nat
    requires k <= 32
  {
    if k == 0 then 0 else BitSum(w, k - 1) + (if FS.Has(w, k - 1) then Pow2(k - 1) else 0)
  }

  lemma {:induction false} SumBelow(w: bv32, k: nat)
    requires k <= 32
    ensures BitSum(w, k) < Pow2(k)
  {
    if k > 0 {
      SumBelow(w, k - 1);
    }
  }

  lemma {:induction false} PowersAdd(a: nat, b: nat)
    ensures Pow2(a + b) == Pow2(a) * Pow2(b)
  {
    if a > 0 {
      PowersAdd(a - 1, b);
    }
  }

  lemma PlusMultiple(x: nat, p: nat, m: nat)
    requires p > 0
    ensures (x + p * m) / p == x / p + m
  {
    var q, r := x / p, x % p;
    assert x + p * m == (q + m) * p + r;
    DivOfSum(q + m, r, p);
  }

  lemma TopDigit(x: nat, p: nat, bit: bool)
    requires x < p
    ensures (x + (if bit then p else 0)) / p == if bit then 1 else 0
  {
    PlusMultiple(x, p, if bit then 1 else 0);
  }

  lemma EvenMore(y: int, m: nat)
    ensures (y + 2 * m) % 2 == y % 2
  {
  }

  lemma SumStep(w: bv32, k: nat)
    requires 0 < k <= 32
    ensures BitSum(w, k) == BitSum(w, k - 1) + (if FS.Has(w, k - 1) then Pow2(k - 1) else 0)
  {
  }

  /** The digits of that number are the bits. */
  lemma {:induction false} DigitOfSum(w: bv32, k: nat, j: nat)
    requires j < k <= 32
    ensures Digit(BitSum(w, k), j) <==> FS.Has(w, j)
  {
    hide FS.Has, BitSum, Digit, Pow2;
    SumStep(w, k);
    SumBelow(w, k - 1);
    if j == k - 1 {
      NewDigit(BitSum(w, k - 1), j, FS.Has(w, j));
    } else {
      DigitOfSum(w, k - 1, j);
      HighDigit(BitSum(w, k - 1), k - 1, j);
    }
  }

  lemma NewDigit(x: nat, j: nat, bit: bool)
    requires x < Pow2(j)
    ensures Digit(x + (if bit then Pow2(j) else 0), j) <==> bit
  {
    TopDigit(x, Pow2(j), bit);
  }

  lemma AddEven(x: nat, p: nat, m: nat)
    requires p > 0
    ensures (x + p * (2 * m)) / p % 2 == x / p % 2
  {
    PlusMultiple(x, p, 2 * m);
    EvenMore(x / p, m);
  }

  /** A higher power of two leaves the digit. */
  lemma HighDigit(x: nat, k: nat, j: nat)
    requires j < k
    ensures Digit(x + Pow2(k), j) <==> Digit(x, j)
  {
    PowersAdd(j, k - j);
    AddEven(x, Pow2(j), Pow2(k - j - 1));
  }

  lemma DivDiv(n: nat, a: nat, b: nat)
    requires a > 0 && b > 0 && a * b > 0
    ensures n / (a * b) == n / a / b
  {
    var q, r := n / a, n % a;
    var s, u := q / b, q % b;
    var low := u * a + r;
    InSquare(a, b, u, r);
    assert n == s * (a * b) + low by {
      assert n == q * a + r && q == s * b + u;
      assert (s * b + u) * a == s * (a * b) + u * a;
    }
    DivOfSum(s, low, a * b);
  }

  lemma InSquare(a: nat, b: nat, u: nat, r: nat)
    requires u < b && r < a
    ensures u * a + r < a * b
  {
    var d := b - 1 - u;
    assert d * a >= 0;
    assert a * b == u * a + d * a + a;
  }

  lemma DigitShift(n: nat, a: nat, j: nat)
    ensures Digit(n, a + j) <==> Digit(n / Pow2(a), j)
  {
    hide Pow2;
    PowersAdd(a, j);
    DivDiv(n, Pow2(a), Pow2(j));
  }

  lemma SmallPowers()
    ensures Pow2(0) == 1 && Pow2(1) == 2 && Pow2(2) == 4 && Pow2(3) == 8 && Pow2(4) == 16
    ensures Pow2(5) == 32 && Pow2(6) == 64 && Pow2(7) == 128 && Pow2(8) == 0x100
    ensures Pow2(16) == 0x1_0000 && Pow2(24) == 0x100_0000
  {
    assert Pow2(8) == 2 * Pow2(7) && Pow2(7) == 2 * Pow2(6) && Pow2(6) == 2 * Pow2(5) && Pow2(5) == 2 * Pow2(4);
    assert Pow2(4) == 2 * Pow2(3) && Pow2(3) == 2 * Pow2(2);
    PowersAdd(8, 8);
    PowersAdd(8, 16);
  }

  /** The low byte has the low digits. */
  lemma LowByte(b: nat, rest: nat, j: nat)
    requires b < 0x100 && j < 8
    ensures Digit(b + 0x100 * rest, j) <==> Digit(b, j)
  {
    var p, m := Pow2(j), Pow2(7 - j);
    SmallPowers();
    PowersAdd(j, 8 - j);
    assert Pow2(8 - j) == 2 * m;
    assert 0x100 * rest == p * (2 * (m * rest));
    PlusMultiple(b, p, 2 * (m * rest));
    EvenMore(b / p, m * rest);
  }

  /** Digit j of byte i of a little-endian word is its digit 8i + j. */
  lemma DigitOfWord(s: Bytes, k: nat, i: nat, j: nat)
    requires k < NINDIRECT && i < 4 && j < 8
    ensures Digit(Word(s, k), 8 * i + j) <==> Digit(s[4 * k + i] as nat, j)
  {
    hide Digit;
    var b0, b1, b2, b3 := s[4 * k] as nat, s[4 * k + 1] as nat, s[4 * k + 2] as nat, s[4 * k + 3] as nat;
    var n := Word(s, k);
    SmallPowers();
    DigitShift(n, 8 * i, j);
    if i == 0 {
      LowByte(b0, b1 + 0x100 * b2 + 0x1_0000 * b3, j);
      assert n / 1 == n;
    } else if i == 1 {
      assert n / 0x100 == b1 + 0x100 * (b2 + 0x100 * b3);
      LowByte(b1, b2 + 0x100 * b3, j);
    } else if i == 2 {
      assert n / 0x1_0000 == b2 + 0x100 * b3;
      LowByte(b2, b3, j);
    } else {
      assert n / 0x100_0000 == b3;
    }
  }

  // ------------------------------------------------------------------
  // The two readers
  // ------------------------------------------------------------------

  /** These words are the bitmap whose bytes the cache shows from block 2 on:
      each is the little-endian number its four bytes spell. */
  ghost predicate Shows(c: Cache, words: seq<bv32>) {
    && |c.disk| <= 32 * |words|
    && (forall i: nat | i < |words| ::
          2 + i / NINDIRECT < |c.disk| && BitSum(words[i], 32) == Word(Logical(c, 2 + i / NINDIRECT), i % NINDIRECT))
  }

  /** The fault handler and the allocator agree on every block. */
  lemma FreeIsBit(c: Cache, words: seq<bv32>, b: nat)
    requires Shows(c, words) && b < |c.disk|
    ensures IsFree(c, b) <==> FS.Bits(words, |c.disk|)[b]
  {
    hide FS.Has, Digit, Word;
    var i := b / 32;
    Places(b);
    var s := Logical(c, 2 + i / NINDIRECT);
    DigitOfSum(words[i], 32, b % 32);
    DigitOfWord(s, i % NINDIRECT, b % 32 / 8, b % 8);
    FreeBitIs(s, b);
  }

  lemma WordPlace(b: nat)
    ensures b / 32 / NINDIRECT == b / BLKBITSIZE && b / 32 % NINDIRECT == b % BLKBITSIZE / 32
  {
    var q, r := b / BLKBITSIZE, b % BLKBITSIZE;
    assert b / 32 == NINDIRECT * q + r / 32;
  }

  lemma BytePlace(r: nat)
    ensures 4 * (r / 32) + r % 32 / 8 == r / 8 && 8 * (r % 32 / 8) + r % 8 == r % 32
  {
  }

  lemma Places(b: nat)
    ensures 2 + b / 32 / NINDIRECT == BitmapBlock(b)
    ensures 4 * (b / 32 % NINDIRECT) + b % 32 / 8 == b % BLKBITSIZE / 8
    ensures 8 * (b % 32 / 8) + b % 8 == b % 32
  {
    WordPlace(b);
    BytePlace(b % BLKBITSIZE);
    BytePlace(b);
    Nested(b);
  }

  lemma Nested(b: nat)
    ensures b % BLKBITSIZE % 32 == b % 32
  {
    var q := b / BLKBITSIZE;
    assert b == 32 * (NINDIRECT * q) + b % BLKBITSIZE;
  }

  lemma FreeBitIs(s: Bytes, b: nat)
    ensures FreeBit(s, b) <==> Digit(s[b % BLKBITSIZE / 8] as nat, b % 8)
  {
  }

  /** Some words are: the ones with those digits. */
  function WordWith(n: nat, k: nat): bv32
    requires k <= 32
  {
    if k == 0 then 0 else if Digit(n, k - 1) then FS.WithBit(WordWith(n, k - 1), k - 1) else WordWith(n, k - 1)
  }

  lemma {:induction false} HasDigits(n: nat, k: nat, j: nat)
    requires k <= 32 && j < 32
    ensures FS.Has(WordWith(n, k), j) <==> j < k && Digit(n, j)
  {
    hide FS.Has, FS.WithBit, Digit;
    if k == 0 {
      NoBits(j);
    } else {
      HasDigits(n, k - 1, j);
      FS.OneBit(WordWith(n, k - 1), k - 1, j);
    }
  }

  lemma NoBits(j: nat)
    requires j < 32
    ensures !FS.Has(0, j)
  {
  }

  lemma {:induction false} SumOfWord(n: nat, k: nat)
    requires k <= 32
    ensures BitSum(WordWith(n, 32), k) == n % Pow2(k)
  {
    hide FS.Has;
    if k > 0 {
      SumOfWord(n, k - 1);
      HasDigits(n, 32, k - 1);
      NextDigit(n, Pow2(k - 1));
    }
  }

  lemma NextDigit(n: nat, p: nat)
    requires p > 0
    ensures n % (2 * p) == n % p + (if n / p % 2 == 1 then p else 0)
  {
    var q, r := n / p, n % p;
    var h, d := q / 2, q % 2;
    assert n == h * (2 * p) + (d * p + r) by {
      assert (2 * h + d) * p == h * (2 * p) + d * p;
    }
    assert d * p + r < 2 * p;
    ModOfSum(h, d * p + r, 2 * p);
  }

  lemma Pow32()
    ensures Pow2(32) == UINT_LIMIT
  {
    hide Pow2;
    SmallPowers();
    PowersAdd(16, 16);
  }

  lemma WordReads(n: nat)
    requires n < UINT_LIMIT
    ensures BitSum(WordWith(n, 32), 32) == n
  {
    hide Pow2, BitSum, WordWith;
    SumOfWord(n, 32);
    Pow32();
  }

  function WordAt(c: Cache, i: nat): bv32
    requires 2 + i / NINDIRECT < |c.disk|
  {
    WordWith(Word(Logical(c, 2 + i / NINDIRECT), i % NINDIRECT), 32)
  }

  lemma RowsInside(i: nat, n: nat)
    requires i < n
    ensures i / NINDIRECT <= (n - 1) / NINDIRECT
  {
  }

  /** Every cache whose disk holds the bitmap shows one. */
  lemma ShowsSome(c: Cache, n: nat) returns (words: seq<bv32>)
    requires |c.disk| <= 32 * n && (n == 0 || 2 + (n - 1) / NINDIRECT < |c.disk|)
    ensures |words| == n && Shows(c, words)
  {
    hide WordWith, BitSum, Word;
    forall i: nat | i < n
      ensures 2 + i / NINDIRECT < |c.disk|
    {
      RowsInside(i, n);
    }
    words := seq(n, i requires 0 <= i < n => WordAt(c, i));
    forall i: nat | i < n
      ensures BitSum(words[i], 32) == Word(Logical(c, 2 + i / NINDIRECT), i % NINDIRECT)
    {
      WordBound(Logical(c, 2 + i / NINDIRECT), i % NINDIRECT);
      WordReads(Word(Logical(c, 2 + i / NINDIRECT), i % NINDIRECT));
    }
  }

  lemma WordBound(s: Bytes, k: nat)
    requires k < NINDIRECT
    ensures Word(s, k) < UINT_LIMIT
  {
  }

  // ------------------------------------------------------------------
  // Allocating, freeing and faulting
  // ------------------------------------------------------------------

  /** Once alloc_block has taken b and the cache shows the bitmap it left, an
      access to b faults it in; before, it would have been a panic. */
  lemma AllocatedFaults(s: Fs, words: seq<bv32>, c: Cache, words': seq<bv32>, c': Cache)
    requires Coherent(c) && BitmapInUse(c) && Shows(c, words) && s.free == FS.Bits(words, |c.disk|)
    requires Coherent(c') && BitmapInUse(c') && Shows(c', words') && |c'.disk| == |c.disk|
    requires FsBlocks.AllocBlock(s).0.free == FS.Bits(words', |c.disk|)
    ensures
      var b := FsBlocks.AllocBlock(s).1;
      b < |c.disk| ==>
        && (b !in c.pages ==> Fault(c, b) == None)
        && (b !in c'.pages ==> Fault(c', b).Some?)
        && (forall x: nat | x < |c.disk| && x != b :: IsFree(c', x) == IsFree(c, x))
  {
    hide IsFree, FS.Bits, FsBlocks.FirstFree, BitmapInUse, Coherent;
    var b := FsBlocks.AllocBlock(s).1;
    forall x: nat | x < |c.disk|
      ensures IsFree(c, x) == s.free[x] && IsFree(c', x) == FS.Bits(words', |c.disk|)[x]
    {
      FreeIsBit(c, words, x);
      FreeIsBit(c', words', x);
    }
    if b < |c.disk| {
      FirstIsFree(s, b);
      if b !in c.pages { FaultSucceeds(c, b); }
      if b !in c'.pages { FaultSucceeds(c', b); }
    }
  }

  lemma FirstIsFree(s: Fs, b: nat)
    requires FsBlocks.AllocBlock(s).1 == b < |s.free|
    ensures s.free[b]
  {
  }

  /** Once free_block has marked b, the next access that faults is a panic. */
  lemma FreedPanics(words: seq<bv32>, c: Cache, b: nat, c': Cache)
    requires Shows(c, words) && b < |c.disk| && |c'.disk| == |c.disk|
    requires Coherent(c') && BitmapInUse(c') && b !in c'.pages
    requires Shows(c', words[b / 32 := FS.WithBit(words[b / 32], b % 32)])
    ensures Fault(c', b) == None
    ensures forall x: nat | x < |c.disk| && x != b :: IsFree(c', x) == IsFree(c, x)
  {
    hide IsFree, FS.Bits, FS.WithBit, FS.Has, BitmapInUse, Coherent;
    var words' := words[b / 32 := FS.WithBit(words[b / 32], b % 32)];
    FS.SetBit(words, |c.disk|, b);
    forall x: nat | x < |c.disk|
      ensures IsFree(c', x) == (x == b || IsFree(c, x))
    {
      FreeIsBit(c, words, x);
      FreeIsBit(c', words', x);
    }
    FaultSucceeds(c', b);
  }
}
