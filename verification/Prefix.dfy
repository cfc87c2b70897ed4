/** Leading bits of 32-bit addresses: the relation "share the first k bits", the source's search
    for the first set bit, and bit flips. Addresses are naturals below 2^32 in host order. */
module Prefix {
  import opened Bits

  const TWO32: nat := 0x1_0000_0000

  /** a >> n. */
  function Shr(a: nat, n: nat): nat {
    if n == 0 then a else Shr(a / 2, n - 1)
  }

  lemma {:induction false} ShrHalf(a: nat, n: nat)
    ensures Shr(a, n) / 2 == Shr(a, n + 1)
  {
    if n > 0 { ShrHalf(a / 2, n - 1); }
  }

  lemma {:induction false} ShrZero(a: nat, n: nat)
    requires a < Exp2(n)
    ensures Shr(a, n) == 0
  {
    if n > 0 { ShrZero(a / 2, n - 1); }
  }

  /** a >> n is the quotient by 2^n. */
  lemma {:induction false} ShrIsDiv(a: nat, n: nat)
    ensures Exp2(n) >= 1 && Shr(a, n) == a / Exp2(n)
  {
    ExpPositive(n);
    if n > 0 {
      ShrIsDiv(a / 2, n - 1);
      var e := Exp2(n - 1);
      var q, r := a / 2 / e, a / 2 % e;
      assert a / 2 == e * q + r;
      assert a == (2 * e) * q + (2 * r + a % 2);
      DivUnique(a, 2 * e, q, 2 * r + a % 2);
    }
  }

  /** a & (2^n - 1) is the remainder by 2^n. */
  lemma {:induction false} AndIsMod(a: nat, n: nat)
    ensures Exp2(n) >= 1 && And(a, Exp2(n) - 1) == a % Exp2(n)
  {
    ExpPositive(n);
    if n == 0 {
      AndZero(a);
    } else {
      AndIsMod(a / 2, n - 1);
      var e := Exp2(n - 1);
      assert (2 * e - 1) / 2 == e - 1 && (2 * e - 1) % 2 == 1;
      ModTwice(a, e);
    }
  }

  lemma ModTwice(a: nat, e: nat)
    requires e >= 1
    ensures a % (2 * e) == a % 2 + 2 * (a / 2 % e)
  {
    var q, r := a / 2 / e, a / 2 % e;
    assert a / 2 == e * q + r;
    assert a == (2 * e) * q + (2 * r + a % 2);
    DivUnique(a, 2 * e, q, 2 * r + a % 2);
  }

  /** The bits of the three operations, one by one. */
  lemma {:induction false} BitOf(a: nat, b: nat, n: nat)
    ensures Shr(And(a, b), n) % 2 == (Shr(a, n) % 2) * (Shr(b, n) % 2)
    ensures Shr(Or(a, b), n) % 2 == if Shr(a, n) % 2 + Shr(b, n) % 2 > 0 then 1 else 0
    ensures Shr(Xor(a, b), n) % 2 == (Shr(a, n) + Shr(b, n)) % 2
  {
    AndHalf(a, b);
    OrHalf(a, b);
    XorHalf(a, b);
    hide And, Or, Xor;
    if n > 0 { BitOf(a / 2, b / 2, n - 1); }
  }

  lemma AndHalf(a: nat, b: nat)
    ensures And(a, b) / 2 == And(a / 2, b / 2) && And(a, b) % 2 == (a % 2) * (b % 2)
  {
    var x := (a % 2) * (b % 2);
    assert x <= 1;
    Halves(x, And(a / 2, b / 2));
  }

  lemma OrHalf(a: nat, b: nat)
    ensures Or(a, b) / 2 == Or(a / 2, b / 2) && Or(a, b) % 2 == if a % 2 + b % 2 > 0 then 1 else 0
  {
    Halves(if a % 2 + b % 2 > 0 then 1 else 0, Or(a / 2, b / 2));
  }

  lemma XorHalf(a: nat, b: nat)
    ensures Xor(a, b) / 2 == Xor(a / 2, b / 2) && Xor(a, b) % 2 == (a + b) % 2
  {
    Halves((a + b) % 2, Xor(a / 2, b / 2));
  }

  lemma Halves(x: nat, y: nat)
    requires x <= 1
    ensures (x + 2 * y) / 2 == y && (x + 2 * y) % 2 == x
  {}

  /** The first k bits of a, as a number. */
  function Pre(a: nat, k: nat): nat
    requires k <= 32
  {
    Shr(a, 32 - k)
  }

  predicate Same(a: nat, b: nat, k: nat)
    requires k <= 32
  {
    Pre(a, k) == Pre(b, k)
  }

  /** Sharing the first k bits, in terms of quotients. */
  lemma SameIs(a: nat, b: nat, k: nat)
    requires k <= 32
    ensures Exp2(32 - k) >= 1 && (Same(a, b, k) <==> a / Exp2(32 - k) == b / Exp2(32 - k))
  {
    hide Shr, Exp2;
    ShrIsDiv(a, 32 - k);
    ShrIsDiv(b, 32 - k);
  }

  /** Dropping the last bit of a prefix. */
  lemma PreStep(a: nat, k: nat)
    requires 1 <= k <= 32
    ensures Pre(a, k) / 2 == Pre(a, k - 1)
  {
    ShrHalf(a, 32 - k);
  }

  lemma PreAll(a: nat)
    ensures Pre(a, 32) == a
  {}

  lemma {:induction false} SameShorter(a: nat, b: nat, j: nat, k: nat)
    requires j <= k <= 32 && Same(a, b, k)
    ensures Same(a, b, j)
    decreases k - j
  {
    hide Pre;
    if j < k {
      PreStep(a, k);
      PreStep(b, k);
      SameShorter(a, b, j, k - 1);
    }
  }

  /** Two prefixes that differ at bit s and agree before it agree exactly before it. */
  lemma SplitAt(a: nat, b: nat, s: nat, k: nat)
    requires 1 <= s <= 32 && k <= 32 && !Same(a, b, s) && Same(a, b, s - 1)
    ensures Same(a, b, k) <==> k < s
  {
    hide Pre;
    if k < s {
      SameShorter(a, b, k, s - 1);
    } else if Same(a, b, k) {
      SameShorter(a, b, s, k);
    }
  }

  // ---- The first bit in which two addresses differ ----

  /** The first bit in which two different addresses differ, counted from 1. */
  function FirstDiff(a: nat, b: nat): (s: nat)
    requires a < TWO32 && b < TWO32 && a != b
    ensures 1 <= s <= 32 && !Same(a, b, s) && Same(a, b, s - 1)
  {
    PreAll(a);
    PreAll(b);
    PreNone(a);
    PreNone(b);
    FirstFrom(a, b, 1)
  }

  function FirstFrom(a: nat, b: nat, k: nat): (s: nat)
    requires 1 <= k <= 32 && Same(a, b, k - 1) && !Same(a, b, 32)
    ensures k <= s <= 32 && !Same(a, b, s) && Same(a, b, s - 1)
    decreases 32 - k
  {
    if Same(a, b, k) then FirstFrom(a, b, k + 1) else k
  }

  lemma FirstDiffUnique(a: nat, b: nat, s: nat)
    requires a < TWO32 && b < TWO32 && 1 <= s <= 32 && !Same(a, b, s) && Same(a, b, s - 1)
    ensures a != b && FirstDiff(a, b) == s
  {
    hide Pre;
    var f := FirstDiff(a, b);
    SplitAt(a, b, s, f);
    SplitAt(a, b, s, f - 1);
  }

  lemma PreNone(a: nat)
    requires a < TWO32
    ensures Pre(a, 0) == 0
  {
    Exp2Of32();
    ShrZero(a, 32);
  }

  lemma Exp2Of32()
    ensures Exp2(32) == TWO32
  {
    assert Exp2(8) == 256;
    Exp2Add(8, 8);
    Exp2Add(16, 16);
  }

  function Bval(nibble: nat): nat
    requires nibble < 16
  {
    [0, 4, 3, 3, 2, 2, 2, 2, 1, 1, 1, 1, 1, 1, 1, 1][nibble]
  }

  /** From tcpdpriv: the position of the first set bit, counted from 1 at the top; 0 for 0. */
  method BiFfs(v: nat) returns (r: nat)
    requires v < TWO32
    ensures v == 0 ==> r == 0
    ensures v != 0 ==> 1 <= r <= 32 && Exp2(32 - r) <= v < Exp2(33 - r)
  {
    hide Exp2, Above, Bval, ByteAbove, NibbleAbove;
    var value, add := v, 0;
    ghost var e := 0;
    AboveAll(v);
    if value / 0x1_0000 == 0 {
      if value == 0 { return 0; }
      add := add + 16;
    } else {
      Drop16(v, value, e);
      value, e := value / 0x1_0000, e + 16;
    }
    assert 1 <= value < 0x1_0000 && e + add == 16 && Above(v, value, e);
    ByteTest(value);
    if ByteAbove(value) == 0 {
      add := add + 8;
    } else {
      Drop8(v, value, e);
      value, e := value / 0x100, e + 8;
    }
    assert 1 <= value < 0x100 && e + add == 24 && Above(v, value, e);
    NibbleTest(value);
    if NibbleAbove(value) == 0 {
      add := add + 4;
    } else {
      Drop4(v, value, e);
      value, e := value / 0x10, e + 4;
    }
    assert 1 <= value < 0x10 && e + add == 28 && Above(v, value, e);
    r := add + Bval(value % 0x10);
    FfsRange(v, e, value);
    assert 32 - r == e + 4 - Bval(value);
  }

  /** value & 0xFF00 and value & 0xF0, moved down. */
  function ByteAbove(value: nat): nat { (value / 0x100) % 0x100 }

  function NibbleAbove(value: nat): nat { (value / 0x10) % 0x10 }

  lemma ByteTest(value: nat)
    requires 1 <= value < 0x1_0000
    ensures if ByteAbove(value) == 0 then value < 0x100 else 1 <= value / 0x100 < 0x100
  {}

  lemma NibbleTest(value: nat)
    requires 1 <= value < 0x100
    ensures if NibbleAbove(value) == 0 then value < 0x10 else 1 <= value / 0x10 < 0x10
  {}

  lemma ExpSmall()
    ensures Exp2(0) == 1 && Exp2(4) == 0x10 && Exp2(8) == 0x100 && Exp2(16) == 0x1_0000
  {
    assert Exp2(8) == 256;
    Exp2Add(8, 8);
  }

  /** value holds the bits of v above bit e. */
  predicate Above(v: nat, value: nat, e: nat) {
    value * Exp2(e) <= v < (value + 1) * Exp2(e)
  }

  lemma AboveAll(v: nat)
    ensures Above(v, v, 0)
  {}

  lemma DropBits(v: nat, value: nat, e: nat, n: nat, w: nat, q: nat, r: nat)
    requires Above(v, value, e) && w == Exp2(n) && value == w * q + r && r < w
    ensures Above(v, q, e + n)
  {
    hide Exp2;
    Exp2Add(e, n);
    Grouped(Exp2(e), Exp2(n), q, r, value);
    MulMono(Exp2(e), 0, r);
    MulMono(Exp2(e), r + 1, Exp2(n));
  }

  lemma Drop16(v: nat, value: nat, e: nat)
    requires Above(v, value, e)
    ensures Above(v, value / 0x1_0000, e + 16)
  {
    hide Exp2, Above;
    ExpSmall();
    DropBits(v, value, e, 16, 0x1_0000, value / 0x1_0000, value % 0x1_0000);
  }

  lemma Drop8(v: nat, value: nat, e: nat)
    requires Above(v, value, e)
    ensures Above(v, value / 0x100, e + 8)
  {
    hide Exp2, Above;
    ExpSmall();
    DropBits(v, value, e, 8, 0x100, value / 0x100, value % 0x100);
  }

  lemma Drop4(v: nat, value: nat, e: nat)
    requires Above(v, value, e)
    ensures Above(v, value / 0x10, e + 4)
  {
    hide Exp2, Above;
    ExpSmall();
    DropBits(v, value, e, 4, 0x10, value / 0x10, value % 0x10);
  }

  lemma Grouped(x: nat, y: nat, q: nat, r: nat, value: nat)
    requires value == y * q + r
    ensures value * x == q * (x * y) + x * r
    ensures (value + 1) * x == q * (x * y) + x * (r + 1)
    ensures (q + 1) * (x * y) == q * (x * y) + x * y
  {
    assert value * x == y * q * x + r * x;
    assert y * q * x == q * (x * y);
  }

  lemma MulMono(x: nat, a: nat, b: nat)
    requires a <= b
    ensures x * a <= x * b
  {}

  /** The nibble that holds the first set bit decides its position. */
  lemma FfsRange(v: nat, e: nat, value: nat)
    requires e <= 28 && 1 <= value <= 15 && Above(v, value, e)
    ensures var n := e + 4 - Bval(value);
            1 <= Bval(value) <= 4 && Exp2(n) <= v < Exp2(n + 1)
  {
    var j := if value >= 8 then 3 else if value >= 4 then 2 else if value >= 2 then 1 else 0;
    FfsLog(v, e, value, j);
  }

  lemma FfsLog(v: nat, e: nat, value: nat, j: nat)
    requires Above(v, value, e) && Exp2(j) <= value < Exp2(j + 1)
    ensures Exp2(e + j) <= v < Exp2(e + j + 1)
  {
    hide Exp2;
    Exp2Add(e, j);
    Exp2Add(e, j + 1);
    MulMono(Exp2(e), Exp2(j), value);
    MulMono(Exp2(e), value + 1, Exp2(j + 1));
  }

  /** An exclusive or is below 2^m exactly when the operands agree above bit m. */
  lemma {:induction false} XorHigh(a: nat, b: nat, m: nat)
    ensures Xor(a, b) < Exp2(m) <==> Shr(a, m) == Shr(b, m)
  {
    if m == 0 {
      if Xor(a, b) == 0 {
        XorCancel(a, b);
        XorZero(b);
      } else if a == b {
        XorSelf(a);
      }
    } else {
      XorHigh(a / 2, b / 2, m - 1);
      XorPair(a / 2, a % 2, b / 2, b % 2);
      hide Xor;
    }
  }

  lemma {:induction false} XorSelf(a: nat)
    ensures Xor(a, a) == 0
  {
    if a > 0 { XorSelf(a / 2); }
  }

  /** The search for the first set bit of a ^ b finds the first difference. */
  method Swivel(a: nat, b: nat) returns (s: nat)
    requires a < TWO32 && b < TWO32
    ensures a == b ==> s == 0
    ensures a != b ==> s == FirstDiff(a, b)
  {
    hide Pre, Exp2, Shr;
    Exp2Of32();
    ExpIsOnes(32);
    XorBound(a, b, TWO32 - 1);
    s := BiFfs(Xor(a, b));
    XorHigh(a, b, 0);
    if s == 0 {
      ExpZero();
    } else {
      XorHigh(a, b, 32 - s);
      XorHigh(a, b, 33 - s);
      PreIs(a, b, s);
      PreIs(a, b, s - 1);
      FirstDiffUnique(a, b, s);
    }
  }

  lemma ExpZero()
    ensures Exp2(0) == 1 && forall a :: Shr(a, 0) == a
  {}

  lemma PreIs(a: nat, b: nat, k: nat)
    requires k <= 32
    ensures Same(a, b, k) <==> Shr(a, 32 - k) == Shr(b, 32 - k)
  {}

  // ---- Flipping and testing one bit ----

  function Flip(n: nat): (f: nat) {
    if n % 2 == 0 then n + 1 else n - 1
  }

  lemma XorOne(n: nat)
    ensures Xor(n, 1) == Flip(n)
  {
    XorPair(n / 2, n % 2, 0, 1);
    XorZero(n / 2);
    hide Xor;
  }

  lemma {:induction false} AndBound(a: nat, b: nat)
    ensures And(a, b) <= b
  {
    if a > 0 { AndBound(a / 2, b / 2); }
  }

  /** The test a & (1 << n). */
  lemma {:induction false} AndBit(a: nat, n: nat)
    ensures And(a, Exp2(n)) != 0 <==> Shr(a, n) % 2 == 1
  {
    if a == 0 {
      ShrOfZero(n);
    } else if n == 0 {
      AndZero(a / 2);
    } else {
      AndBit(a / 2, n - 1);
      assert Exp2(n) / 2 == Exp2(n - 1) && Exp2(n) % 2 == 0;
    }
  }

  lemma {:induction false} AndZero(a: nat)
    ensures And(a, 0) == 0
  {
    if a > 0 { AndZero(a / 2); }
  }

  lemma {:induction false} ShrOfZero(n: nat)
    ensures Shr(0, n) == 0
  {
    if n > 0 { ShrOfZero(n - 1); }
  }

  lemma {:induction false} ShrBound(a: nat, m: nat, n: nat)
    requires a < Exp2(m + n)
    ensures Shr(a, n) < Exp2(m)
  {
    if n > 0 { ShrBound(a / 2, m, n - 1); }
  }

  /** High bits k over low bits y. */
  lemma {:induction false} ShrJoin(k: nat, y: nat, n: nat)
    requires y < Exp2(n)
    ensures k * Exp2(n) >= 0 && Shr(k * Exp2(n) + y, n) == k
  {
    if n > 0 {
      var x := k * Exp2(n - 1);
      assert k * Exp2(n) == 2 * x;
      ShrJoin(k, y / 2, n - 1);
      assert (2 * x + y) / 2 == x + y / 2;
    }
  }

  lemma JoinBound(k: nat, y: nat, w: nat, n: nat)
    requires y < Exp2(n) && k < Exp2(w)
    ensures k * Exp2(n) + y < Exp2(w + n)
  {
    hide Exp2;
    Exp2Add(w, n);
    MulMono(Exp2(n), k + 1, Exp2(w));
  }

  lemma PreBound(a: nat, k: nat)
    requires a < TWO32 && k <= 32
    ensures Pre(a, k) < Exp2(k)
  {
    Exp2Of32();
    ShrBound(a, k, 32 - k);
  }

  lemma FlipBound(n: nat, k: nat)
    requires n < Exp2(k) && k >= 1
    ensures Flip(n) < Exp2(k)
  {}
}
