/** Division facts that the address arithmetic needs. Conclusions are implications, so that
    no caller has to reason inside an impossible branch. */
module Arith {
  const U64: nat := 0x1_0000_0000_0000_0000
  const U32: nat := 0x1_0000_0000

  type Word = x: nat | x < U64

  /** 64-bit addition. */
  function Plus(a: nat, b: nat): nat { (a + b) % U64 }

  /** (x + m - 1) / m */
  function CeilDiv(x: nat, m: nat): nat
    requires m > 0
  {
    (x + m - 1) / m
  }

  lemma NonNeg(m: nat, k: nat)
    ensures m * k >= 0
  {
  }

  lemma TimesLe(m: nat, a: int, b: int)
    ensures a <= b ==> m * a <= m * b
  {
    if a <= b {
      NonNeg(m, b - a);
      assert m * b - m * a == m * (b - a);
    }
  }

  /** Quotient and remainder are unique. */
  lemma Quotient(m: nat, x: int, q: int, r: int)
    requires m > 0 && x == m * q + r && 0 <= r < m
    ensures x / m == q && x % m == r
  {
    var p := x / m;
    assert x == m * p + x % m;
    assert m * (p + 1) == m * p + m && m * (q + 1) == m * q + m;
    TimesLe(m, p + 1, q);
    TimesLe(m, q + 1, p);
  }

  lemma DivLe(x: int, y: int, m: nat)
    requires m > 0
    ensures x <= y ==> x / m <= y / m
  {
    var p, q := x / m, y / m;
    assert x == m * p + x % m && y == m * q + y % m;
    assert m * (q + 1) == m * q + m;
    TimesLe(m, q + 1, p);
  }

  lemma DivBelow(x: nat, m: nat, n: nat)
    requires m > 0
    ensures x < m * n ==> x / m < n
  {
    var q := x / m;
    assert x == m * q + x % m;
    TimesLe(m, n, q);
  }

  /** Reducing a summand does not change a sum modulo m. */
  lemma ModPlus(m: nat, a: int, j: int)
    requires m > 0
    ensures (a % m + j) % m == (a + j) % m
  {
    var q, p, r := a / m, (a + j) / m, (a + j) % m;
    assert a == m * q + a % m && a + j == m * p + r;
    assert m * (p - q) == m * p - m * q;
    Quotient(m, a % m + j, p - q, r);
  }

  lemma ByteAligned(k: nat)
    ensures 8 * k % 8 == 0 && 8 * k / 8 == k
  {
  }

  lemma {:induction false} SetBelow(s: set<nat>, n: nat)
    requires forall i :: i in s ==> i < n
    ensures |s| <= n
  {
    if n == 0 { assert s == {}; } else { SetBelow(s - {n - 1}, n - 1); }
  }
}
