/** Bitwise operations on machine words as functions on naturals. */
module Bits {

  function Xor(a: nat, b: nat): nat
    decreases a + b
  {
    if a == 0 && b == 0 then 0 else (a + b) % 2 + 2 * Xor(a / 2, b / 2)
  }

  function And(a: nat, b: nat): nat {
    if a == 0 then 0 else (a % 2) * (b % 2) + 2 * And(a / 2, b / 2)
  }

  function Or(a: nat, b: nat): nat
    decreases a + b
  {
    if a == 0 && b == 0 then 0 else (if a % 2 + b % 2 > 0 then 1 else 0) + 2 * Or(a / 2, b / 2)
  }

  /** A multiple of 2^n and a number below 2^n share no bits. */
  lemma {:induction false} OrDisjoint(k: nat, y: nat, n: nat)
    requires y < Exp2(n)
    ensures k * Exp2(n) >= 0 && Or(k * Exp2(n), y) == k * Exp2(n) + y
    decreases n
  {
    if n == 0 {
      OrZero(k);
    } else {
      var x := k * Exp2(n - 1);
      assert k * Exp2(n) == 2 * x;
      OrDisjoint(k, y / 2, n - 1);
      assert (2 * x) / 2 == x && (2 * x) % 2 == 0;
    }
  }

  lemma {:induction false} OrZero(a: nat)
    ensures Or(a, 0) == a
  {
    if a > 0 { OrZero(a / 2); }
  }

  /** m is 2^n - 1 for some n. */
  predicate AllOnes(m: nat) { m == 0 || (m % 2 == 1 && AllOnes(m / 2)) }

  lemma {:induction false} AndOnes(m: nat, x: nat)
    requires AllOnes(m) && x <= m
    ensures And(m, x) == x
  {
    if m > 0 { AndOnes(m / 2, x / 2); }
  }

  lemma {:induction false} XorPair(x: nat, i: nat, y: nat, j: nat)
    requires i <= 1 && j <= 1
    ensures Xor(2 * x + i, 2 * y + j) == 2 * Xor(x, y) + (if i == j then 0 else 1)
  {
    assert (2 * x + i) / 2 == x && (2 * y + j) / 2 == y;
    assert (2 * x + i + (2 * y + j)) % 2 == (i + j) % 2;
  }

  lemma {:induction false} XorCancel(a: nat, b: nat)
    ensures Xor(b, Xor(a, b)) == a
    decreases a + b
  {
    if a == 0 && b == 0 {
    } else {
      var x, i, y, j := a / 2, a % 2, b / 2, b % 2;
      XorCancel(x, y);
      XorPair(x, i, y, j);
      XorPair(y, j, Xor(x, y), if i == j then 0 else 1);
    }
  }

  lemma {:induction false} XorZero(a: nat)
    ensures Xor(a, 0) == a
  {
    if a > 0 { XorZero(a / 2); }
  }

  lemma {:induction false} XorBound(a: nat, b: nat, m: nat)
    requires AllOnes(m) && a <= m && b <= m
    ensures Xor(a, b) <= m
    decreases a + b
  {
    if a != 0 || b != 0 { XorBound(a / 2, b / 2, m / 2); }
  }

  function Exp2(n: nat): nat { if n == 0 then 1 else 2 * Exp2(n - 1) }

  lemma {:induction false} ExpPositive(n: nat)
    ensures Exp2(n) >= 1
  {
    if n > 0 { ExpPositive(n - 1); }
  }

  lemma {:induction false} Exp2Add(m: nat, n: nat)
    ensures Exp2(m + n) == Exp2(m) * Exp2(n)
  {
    if m > 0 {
      Exp2Add(m - 1, n);
      Doubled(Exp2(m - 1), Exp2(n));
    }
  }

  lemma Doubled(x: int, y: int)
    ensures (2 * x) * y == 2 * (x * y)
  {}

  lemma {:induction false} ExpIsOnes(n: nat)
    ensures Exp2(n) >= 1 && AllOnes(Exp2(n) - 1)
  {
    if n > 0 {
      ExpIsOnes(n - 1);
      assert (Exp2(n) - 1) / 2 == Exp2(n - 1) - 1;
    }
  }

  lemma WordIsOnes()
    ensures AllOnes(0xffff_ffff_ffff_ffff)
  {
    hide AllOnes, Exp2;
    Exp2Of64();
    ExpIsOnes(64);
  }

  // ---- Division ----

  lemma DivUnique(n: int, m: int, q: int, r: int)
    requires m > 0 && 0 <= r < m && n == m * q + r
    ensures n / m == q
  {
    var d, e := n / m, n % m;
    assert n == m * d + e;
    assert m * (q - d) == e - r;
    if q > d {
      MulAtLeast(m, q - d);
    } else if q < d {
      assert m * (d - q) == r - e;
      MulAtLeast(m, d - q);
    }
  }

  lemma MulAtLeast(m: int, k: int)
    requires m > 0 && k >= 1
    ensures m * k >= m
  {}

  lemma QuotientBound(x: nat, e: nat)
    requires e >= 1
    ensures 0 <= x / e <= x
  {
    var q, r := x / e, x % e;
    assert x == e * q + r;
    if q > 0 { MulAtLeast(q, e); }
  }

  lemma PositiveFactor(a: int, f: int)
    requires a * f > 0 && f > 0
    ensures a > 0
  {}

  lemma Exp2Of64()
    ensures Exp2(64) == 0x1_0000_0000_0000_0000
  {
    assert Exp2(8) == 256;
    Exp2Add(8, 8);
    Exp2Add(16, 16);
    Exp2Add(32, 32);
  }
}
