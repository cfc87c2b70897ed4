/** The prime field of the Telex tag: residues modulo P = 2^168 - 2^8 - 1 and their operations.
    That P is prime is an explicit hypothesis (`PrimeP`); what the curve code needs of it, absence
    of zero divisors and Fermat's little theorem, is proved from that hypothesis. */
module Fp {

  /** The field prime as the curve parameters give it, most significant byte first. */
  const PARAM_P: seq<int> := [
    0xFF, 0xFF, 0xFF, 0xFF, 0xFF, 0xFF, 0xFF, 0xFF, 0xFF, 0xFF,
    0xFF, 0xFF, 0xFF, 0xFF, 0xFF, 0xFF, 0xFF, 0xFF, 0xFF, 0xFE,
    0xFF]

  function Exp256(n: nat): nat { if n == 0 then 1 else 256 * Exp256(n - 1) }

  /** 2^168 - 2^8 - 1, kept symbolic outside `PValue`. */
  const P: nat := (Exp256Value(); Exp256(|PARAM_P|) - 257)

  lemma PValue()
    ensures P == 0xFFFFFFFFFFFFFFFFFFFFFFFFFFFFFFFFFFFFFFFEFF
  {
    Exp256Value();
  }

  lemma Exp256Value()
    ensures Exp256(|PARAM_P|) == 0x100_0000_0000_0000_0000_0000_0000_0000_0000_0000_0000
  {
    assert |PARAM_P| == 21;
    assert Exp256(7) == 0x100_0000_0000_0000;
    assert Exp256(14) == 0x1_0000_0000_0000_0000_0000_0000_0000;
    assert Exp256(21) == 0x100_0000_0000_0000_0000_0000_0000_0000_0000_0000_0000;
  }

  /** The exponents of inversion and of the square root. */
  const PM2: nat := (PValue(); P - 2)
  const PP1D4: nat := (PValue(); (P + 1) / 4)

  /** The least residue of an integer. */
  function F(a: int): (r: int)
    ensures 0 <= r < P
    decreases if a < 0 then (PValue(); P - a) else a
  {
    PValue();
    if a < 0 then F(a + P) else if a < P then a else F(a - P)
  }

  function FAdd(a: int, b: int): int { F(a + b) }

  function FSub(a: int, b: int): int { F(a - b) }

  function FMul(a: int, b: int): int { F(a * b) }

  ghost predicate PrimeP() {
    forall d :: 1 < d < P ==> P % d != 0
  }

  // ---- F is a ring homomorphism from the integers ----

  lemma FOfF(a: int)
    ensures F(F(a)) == F(a) && 0 <= F(a) < P
  {}

  lemma FShift(x: int)
    ensures F(x + P) == F(x)
  {
    PValue();
  }

  lemma {:induction false} FMultiple(x: int, k: int)
    ensures F(x + k * P) == F(x)
    decreases if k < 0 then -k else k
  {
    hide F;
    if k > 0 {
      FMultiple(x, k - 1);
      FShift(x + (k - 1) * P);
      assert x + k * P == x + (k - 1) * P + P;
    } else if k < 0 {
      FMultiple(x, k + 1);
      FShift(x + k * P);
      assert x + k * P + P == x + (k + 1) * P;
    }
  }

  lemma {:induction false} Quotient(a: int) returns (k: int)
    ensures a == F(a) + k * P
    decreases if a < 0 then (PValue(); P - a) else a
  {
    PValue();
    if a < 0 {
      k := Quotient(a + P);
      k := k - 1;
    } else if a < P {
      k := 0;
    } else {
      k := Quotient(a - P);
      k := k + 1;
    }
  }

  lemma SumOfMultiples(x: int, y: int)
    ensures x * P + y * P == (x + y) * P && (-y) * P == -(y * P)
  {}

  lemma HomAdd(a: int, b: int)
    ensures FAdd(F(a), F(b)) == F(a + b)
  {
    hide F;
    var x := Quotient(a);
    var y := Quotient(b);
    SumOfMultiples(x, y);
    FMultiple(F(a) + F(b), x + y);
  }

  lemma HomSub(a: int, b: int)
    ensures FSub(F(a), F(b)) == F(a - b)
  {
    hide F;
    var x := Quotient(a);
    var y := Quotient(b);
    SumOfMultiples(x, -y);
    FMultiple(F(a) - F(b), x - y);
  }

  lemma ProductOfSums(r: int, x: int, s: int, y: int)
    ensures (r + x * P) * (s + y * P) == r * s + (r * y + x * s + x * y * P) * P
  {}

  lemma HomMul(a: int, b: int)
    ensures FMul(F(a), F(b)) == F(a * b)
  {
    hide F;
    var x := Quotient(a);
    var y := Quotient(b);
    SameProduct(a, b, F(a), F(b), x, y);
  }

  lemma SameProduct(a: int, b: int, r: int, s: int, x: int, y: int)
    requires a == r + x * P && b == s + y * P
    ensures F(a * b) == F(r * s)
  {
    hide F;
    var k := r * y + x * s + x * y * P;
    ProductOfSums(r, x, s, y);
    FMultiple(r * s, k);
  }

  lemma ZeroMul(a: int, b: int)
    requires F(a) == 0
    ensures F(a * b) == 0 && F(b * a) == 0
  {
    HomMul(a, b);
    HomMul(b, a);
  }

  // ---- Euclid's lemma ----

  lemma DivideP(a: int) returns (q: int, r: int)
    requires PrimeP() && 1 < a < P
    ensures P == a * q + r && 0 < r < a
  {
    q, r := P / a, P % a;
  }

  /** Descent along P = a*q + r: when P divides a*b it divides r*b, and r is smaller than a. */
  lemma {:induction false} EuclidSmall(a: int, b: int)
    requires PrimeP() && 0 < a < P && F(a * b) == 0
    ensures F(b) == 0
    decreases a
  {
    if a > 1 {
      var q, r := DivideP(a);
      var k := Quotient(a * b);
      DescentStep(a, b, q, r, k);
      EuclidSmall(r, b);
    }
  }

  lemma DescentStep(a: int, b: int, q: int, r: int, k: int)
    requires P == a * q + r && a * b == k * P
    ensures F(r * b) == 0
  {
    calc {
      r * b;
      (P - a * q) * b;
      b * P - q * (a * b);
      { assert q * (a * b) == q * (k * P) == (q * k) * P; }
      (b - q * k) * P;
    }
    FMultiple(0, b - q * k);
  }

  lemma NoZeroDivisors(a: int, b: int)
    requires PrimeP() && F(a * b) == 0
    ensures F(a) == 0 || F(b) == 0
  {
    if F(a) != 0 {
      HomMul(a, b);
      HomMul(F(a), b);
      FOfF(a);
      EuclidSmall(F(a), b);
    }
  }

  lemma Cancel(a: int, b: int, c: int)
    requires PrimeP() && F(c) != 0 && F(a * c) == F(b * c)
    ensures F(a) == F(b)
  {
    hide F;
    DifferenceZero(a * c, b * c);
    assert a * c - b * c == (a - b) * c;
    NoZeroDivisors(a - b, c);
    DifferenceZero(a, b);
  }

  lemma DifferenceZero(x: int, y: int)
    ensures F(x - y) == 0 <==> F(x) == F(y)
  {
    hide F;
    HomSub(x, y);
    ResidueDifference(F(x), F(y));
  }

  lemma ResidueDifference(x: int, y: int)
    requires 0 <= x < P && 0 <= y < P
    ensures FSub(x, y) == 0 <==> x == y
  {
    if x < y { FShift(x - y); }
  }

  // ---- Powers ----

  function Pow(b: int, e: nat): int {
    if e == 0 then 1 else b * Pow(b, e - 1)
  }

  /** Residue of the e-th power. */
  function FPow(b: int, e: nat): int { F(Pow(b, e)) }

  lemma {:induction false} PowAdd(b: int, m: nat, n: nat)
    ensures Pow(b, m + n) == Pow(b, m) * Pow(b, n)
  {
    if m > 0 {
      PowAdd(b, m - 1, n);
      assert b * (Pow(b, m - 1) * Pow(b, n)) == (b * Pow(b, m - 1)) * Pow(b, n);
    }
  }

  lemma FPowAdd(b: int, m: nat, n: nat)
    ensures FPow(b, m + n) == FMul(FPow(b, m), FPow(b, n))
  {
    PowAdd(b, m, n);
    HomMul(Pow(b, m), Pow(b, n));
  }

  lemma {:induction false} FPowOfF(b: int, e: nat)
    ensures FPow(F(b), e) == FPow(b, e)
  {
    if e > 0 {
      FPowOfF(b, e - 1);
      HomMul(F(b), Pow(F(b), e - 1));
      HomMul(b, Pow(b, e - 1));
      FOfF(b);
    }
  }

  // ---- Fermat's little theorem, by the binomial theorem ----

  function Binomial(n: nat, k: nat): nat {
    if k == 0 then 1 else if n == 0 then 0 else Binomial(n - 1, k - 1) + Binomial(n - 1, k)
  }

  lemma {:induction false} BinomialEnds(n: nat, k: nat)
    ensures k > n ==> Binomial(n, k) == 0
    ensures k == n ==> Binomial(n, k) == 1
  {
    if n > 0 && k >= n { BinomialEnds(n - 1, k - 1); BinomialEnds(n - 1, k); }
  }

  lemma {:induction false} Absorption(n: nat, k: nat)
    requires n >= 1 && k >= 1
    ensures k * Binomial(n, k) == n * Binomial(n - 1, k - 1)
  {
    if n == 1 {
      BinomialEnds(0, k - 1);
      BinomialEnds(1, k);
    } else {
      Absorption(n - 1, k);
      if k >= 2 {
        Absorption(n - 1, k - 1);
        AbsorptionStep(n, k, Binomial(n - 2, k - 2), Binomial(n - 2, k - 1), Binomial(n - 1, k));
      }
    }
  }

  lemma AbsorptionStep(n: int, k: int, x: int, y: int, z: int)
    requires (k - 1) * (x + y) == (n - 1) * x && k * z == (n - 1) * y
    ensures k * (x + y + z) == n * (x + y)
  {
    assert k * (x + y + z) == (k - 1) * (x + y) + (x + y) + k * z;
    assert n * (x + y) == (n - 1) * x + (n - 1) * y + (x + y);
  }

  lemma BinomialDivisible(k: int)
    requires PrimeP() && 0 < k < P
    ensures F(Binomial(P, k)) == 0
  {
    hide F, Binomial;
    Absorption(P, k);
    FMultiple(0, Binomial(P - 1, k - 1));
    FOne();
    assert P * Binomial(P - 1, k - 1) == 0 + Binomial(P - 1, k - 1) * P;
    EuclidSmall(k, Binomial(P, k));
  }

  /** The sum of Binomial(n, j) * a^j for j = 0..m. */
  function BinomialSum(n: nat, a: int, m: nat): int {
    if m == 0 then 1 else Binomial(n, m) * Pow(a, m) + BinomialSum(n, a, m - 1)
  }

  lemma {:induction false} BinomialSumStep(n: nat, a: int, m: nat)
    requires m >= 1
    ensures BinomialSum(n + 1, a, m) == BinomialSum(n, a, m) + a * BinomialSum(n, a, m - 1)
  {
    if m > 1 {
      BinomialSumStep(n, a, m - 1);
      SumStep(Binomial(n, m - 1), Binomial(n, m), a, Pow(a, m - 1), BinomialSum(n, a, m - 2));
    } else {
      assert Pow(a, 1) == a * Pow(a, 0) == a;
      assert BinomialSum(n, a, 0) == 1;
      assert Binomial(n + 1, 1) == Binomial(n, 0) + Binomial(n, 1) == 1 + Binomial(n, 1);
      assert (1 + Binomial(n, 1)) * a == a + Binomial(n, 1) * a;
    }
  }

  lemma SumStep(b: int, c: int, a: int, x: int, s: int)
    ensures (b + c) * (a * x) + a * s == c * (a * x) + a * (b * x + s)
  {}

  lemma {:induction false} BinomialTheorem(n: nat, a: int)
    ensures Pow(1 + a, n) == BinomialSum(n, a, n)
  {
    if n > 0 {
      BinomialTheorem(n - 1, a);
      BinomialSumStep(n - 1, a, n);
      BinomialEnds(n - 1, n);
      LastTerm(n - 1, a, n);
      OnePlus(a, BinomialSum(n - 1, a, n - 1));
    }
  }

  lemma LastTerm(n: nat, a: int, m: nat)
    requires m >= 1 && Binomial(n, m) == 0
    ensures BinomialSum(n, a, m) == BinomialSum(n, a, m - 1)
  {}

  lemma OnePlus(a: int, s: int)
    ensures (1 + a) * s == s + a * s
  {}

  lemma {:induction false} BinomialSumModP(n: nat, a: int, m: nat)
    requires PrimeP() && n == P && m < n
    ensures F(BinomialSum(n, a, m)) == 1
  {
    if m > 0 {
      BinomialSumModP(n, a, m - 1);
      BinomialDivisible(m);
      SumModStep(Binomial(n, m), Pow(a, m), BinomialSum(n, a, m - 1));
    }
  }

  lemma SumModStep(c: int, x: int, s: int)
    requires F(c) == 0 && F(s) == 1
    ensures F(c * x + s) == 1
  {
    hide F;
    ZeroMul(c, x);
    HomAdd(c * x, s);
    HomAdd(0, 1);
    FOne();
  }

  lemma PowZero(n: nat)
    ensures n >= 1 ==> Pow(0, n) == 0
  {}

  lemma BinomialTop(n: nat, b: int)
    requires n >= 1
    ensures Pow(b + 1, n) == Pow(b, n) + BinomialSum(n, b, n - 1)
  {
    BinomialTheorem(n, b);
    BinomialEnds(n, n);
  }

  lemma {:induction false} FermatNat(n: nat, a: nat)
    requires PrimeP() && n == P
    ensures FPow(a, n) == F(a)
  {
    hide Pow, BinomialSum, F;
    if a == 0 {
      PowZero(n);
    } else {
      FermatNat(n, a - 1);
      BinomialTop(n, a - 1);
      BinomialSumModP(n, a - 1, n - 1);
      HomAdd(Pow(a - 1, n), BinomialSum(n, a - 1, n - 1));
      HomAdd(a - 1, 1);
      FOne();
    }
  }

  lemma FOne()
    ensures F(1) == 1 && F(0) == 0
  {
    PValue();
  }

  lemma Fermat(a: int)
    requires PrimeP() && F(a) != 0
    ensures FPow(a, P - 1) == 1
  {
    FOfF(a);
    var r := F(a);
    FermatNat(P, r);
    var x := Pow(r, P - 1);
    assert Pow(r, P) == r * x == x * r;
    Cancel(x, 1, r);
    FPowOfF(a, P - 1);
  }
}
