/** Remainders of products and sums, kept apart from where they are used. */
module Arithmetic {

  lemma MulAtLeast(k: int, m: nat)
    ensures k >= 1 ==> k * m >= m
    ensures k <= -1 ==> k * m <= 0 - m
  {
    if k >= 1 {
      assert k * m == (k - 1) * m + m;
    } else if k <= -1 {
      assert k * m == (k + 1) * m - m;
    }
  }

  lemma ModOfSum(q: int, r: nat, m: nat)
    requires 0 < m && r < m
    ensures (q * m + r) % m == r
  {
    var n := q * m + r;
    var k := q - n / m;
    assert k * m == n % m - r;
    MulAtLeast(k, m);
  }

  lemma DivOfSum(q: int, r: nat, m: nat)
    requires 0 < m && r < m
    ensures (q * m + r) / m == q
  {
    ModOfSum(q, r, m);
    var n := q * m + r;
    var k := q - n / m;
    assert k * m == n % m - r;
    MulAtLeast(k, m);
  }

  lemma ModSucc(n: nat, m: nat)
    requires 0 < m
    ensures (n + 1) % m == if n % m == m - 1 then 0 else n % m + 1
  {
    var q := n / m;
    if n % m == m - 1 {
      assert n + 1 == (q + 1) * m + 0;
      ModOfSum(q + 1, 0, m);
    } else {
      assert n + 1 == q * m + (n % m + 1);
      ModOfSum(q, n % m + 1, m);
    }
  }

  lemma ModDifference(x: nat, y: nat, m: nat)
    requires x <= y && 0 < m
    ensures x % m == y % m <==> (y - x) % m == 0
  {
    var q, r := x / m, x % m;
    var q', r' := y / m, y % m;
    assert y - x == (q' - q) * m + (r' - r);
    if r == r' {
      assert y - x == (q' - q) * m;
      ModOfSum(q' - q, 0, m);
    } else if r < r' {
      ModOfSum(q' - q, r' - r, m);
    } else {
      assert y - x == (q' - q - 1) * m + (m + r' - r);
      ModOfSum(q' - q - 1, m + r' - r, m);
    }
  }
}
