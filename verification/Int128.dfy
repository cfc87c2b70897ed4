/** The two-word 128-bit integer used where the compiler has no native one. Word arithmetic here
    wraps modulo 2^64, as the C++ does; the class is proved to compute modulo 2^128. */
module Int128 {
  import opened Bits
  import opened Felem

  const W32: int := 0x1_0000_0000
  const W64: int := 0x1_0000_0000_0000_0000
  const W128: int := 0x1_0000_0000_0000_0000_0000_0000_0000_0000

  function Wrap(x: int): uint64 { (x % W64) as uint64 }

  /** a + b by 32-bit halves. */
  method AddAndCarry(a: uint64, b: uint64) returns (carry: uint64, result: uint64)
    ensures W64 * carry as int + result as int == a as int + b as int
  {
    var a0, a1 := a % 0x1_0000_0000, a / 0x1_0000_0000;
    var b0, b1 := b % 0x1_0000_0000, b / 0x1_0000_0000;
    var tmp := a0 + b0;
    result := tmp % 0x1_0000_0000;
    var c := tmp / 0x1_0000_0000;
    tmp := c + a1 + b1;
    result := result + Wrap(tmp as int * W32);
    carry := tmp / 0x1_0000_0000;
  }

  lemma ProductBound(x: int, y: int, m: int)
    requires 0 <= x <= m && 0 <= y <= m
    ensures 0 <= x * y <= m * m
  {
    assert m * m - x * y == (m - x) * m + x * (m - y);
    assert (m - x) * m >= 0 && x * (m - y) >= 0 && x * y >= 0;
  }

  lemma Halves(a: int, a0: int, a1: int, b: int, b0: int, b1: int)
    requires a == W32 * a1 + a0 && b == W32 * b1 + b0
    ensures a * b == W64 * (a1 * b1) + W32 * (a0 * b1) + W32 * (a1 * b0) + a0 * b0
  {}

  /** The full 128-bit product of two words by schoolbook multiplication of their halves. */
  method MultiplyAndCarry(a: uint64, b: uint64) returns (carry: uint64, result: uint64)
    ensures W64 * carry as int + result as int == a as int * b as int
  {
    var a0, a1 := a % 0x1_0000_0000, a / 0x1_0000_0000;
    var b0, b1 := b % 0x1_0000_0000, b / 0x1_0000_0000;
    ProductBound(a0 as int, b0 as int, W32 - 1);
    ProductBound(a0 as int, b1 as int, W32 - 1);
    ProductBound(a1 as int, b0 as int, W32 - 1);
    ProductBound(a1 as int, b1 as int, W32 - 1);
    Halves(a as int, a0 as int, a1 as int, b as int, b0 as int, b1 as int);
    var p00, p01, p10, p11 := a0 * b0, a0 * b1, a1 * b0, a1 * b1;
    carry, result := SumProducts(p00, p01, p10, p11);
  }

  /** p << 32 keeps the low half of p. */
  lemma WrapShift(p: uint64)
    ensures Wrap(p as int * W32) as int == (p as int % W32) * W32
  {
    var q, r := p as int / W32, p as int % W32;
    assert p as int * W32 == W64 * q + r * W32;
  }

  /** result = p00 + 2^32*(p01 + p10) + 2^64*p11, the carries going into the high word. */
  method SumProducts(p00: uint64, p01: uint64, p10: uint64, p11: uint64) returns (carry: uint64, result: uint64)
    requires p00 as int <= (W32 - 1) * (W32 - 1) && p01 as int <= (W32 - 1) * (W32 - 1)
    requires p10 as int <= (W32 - 1) * (W32 - 1) && p11 as int <= (W32 - 1) * (W32 - 1)
    ensures W64 * carry as int + result as int == W64 * p11 as int + W32 * p01 as int + W32 * p10 as int + p00 as int
  {
    hide Wrap;
    WrapShift(p01);
    WrapShift(p10);
    result := p00;
    carry := p11;
    carry := carry + p01 / 0x1_0000_0000;
    carry := carry + p10 / 0x1_0000_0000;
    var tmp;
    tmp, result := AddAndCarry(result, Wrap(p01 as int * W32));
    carry := carry + tmp;
    tmp, result := AddAndCarry(result, Wrap(p10 as int * W32));
    carry := carry + tmp;
  }

  class Uint128 {
    var lo: uint64
    var hi: uint64

    constructor (top: uint64, bottom: uint64)
      ensures lo == bottom && hi == top
    {
      lo, hi := bottom, top;
    }

    ghost function Val(): (v: int)
      reads this
      ensures 0 <= v < W128
    {
      W64 * hi as int + lo as int
    }

    /** *this += b. The carry test reads b again, so it misses the carry when b is the receiver. */
    method AddAssign(b: Uint128)
      modifies this
      ensures b != this ==> Val() == (old(Val()) + old(b.Val())) % W128
      ensures b == this ==> (Val() == (old(Val()) + old(b.Val())) % W128 <==> old(lo) < 0x8000_0000_0000_0000)
      ensures b == this ==> Val() == CarryLost(old(hi) as int, old(lo) as int)
    {
      hide Wrap, CarryLost;
      DoubledWords(hi as int, lo as int);
      AddWords(hi as int, lo as int, b.hi as int, b.lo as int, (Val() + b.Val()) % W128);
      hi := Wrap(hi as int + b.hi as int);
      lo := Wrap(lo as int + b.lo as int);
      if lo < b.lo {
        hi := Wrap(hi as int + 1);
      }
    }

    /** *this -= b, also when b is the receiver. */
    method SubAssign(b: Uint128)
      modifies this
      ensures Val() == (old(Val()) - old(b.Val())) % W128
    {
      hide Wrap;
      SubWords(hi as int, lo as int, b.hi as int, b.lo as int, (Val() - b.Val()) % W128);
      hi := Wrap(hi as int - b.hi as int);
      if b.lo > lo {
        hi := Wrap(hi as int - 1);
      }
      lo := Wrap(lo as int - b.lo as int);
    }

    /** *this *= b, also when b is the receiver. */
    method MulAssign(b: Uint128)
      modifies this
      ensures Val() == (old(Val()) * old(b.Val())) % W128
    {
      var oldLo, oldBLo := lo, b.lo;
      ghost var h, bh := hi, b.hi;
      var carry;
      carry, lo := MultiplyAndCarry(oldLo, oldBLo);
      hi := Wrap(carry as int + Wrap(oldLo as int * b.hi as int) as int + Wrap(hi as int * oldBLo as int) as int);
      ProductMod(h as int, oldLo as int, bh as int, oldBLo as int, carry as int, lo as int);
    }

    method Less(b: Uint128) returns (r: bool)
      ensures r == (Val() < b.Val())
    {
      r := if hi == b.hi then lo < b.lo else hi < b.hi;
    }

    method LessOrEqual(b: Uint128) returns (r: bool)
      ensures r == (Val() <= b.Val())
    {
      r := if hi == b.hi then lo <= b.lo else hi <= b.hi;
    }
  }

  /** A sum or difference that leaves a word by at most one multiple. */
  lemma WordOf(x: int, c: int)
    requires 0 <= x - W64 * c < W64
    ensures x % W64 == x - W64 * c
  {}

  lemma DoubleWordOf(x: int, d: int)
    requires 0 <= x - W128 * d < W128
    ensures x % W128 == x - W128 * d
  {}

  lemma AddWords(h: int, l: int, bh: int, bl: int, m: int)
    requires 0 <= h < W64 && 0 <= l < W64 && 0 <= bh < W64 && 0 <= bl < W64
    requires m == (W64 * h + l + (W64 * bh + bl)) % W128
    ensures var l1, h1 := Wrap(l + bl) as int, Wrap(h + bh) as int;
            (l1 < bl <==> l + bl >= W64) &&
            W64 * (if l + bl >= W64 then Wrap(h1 + 1) as int else h1) + l1 == m &&
            (l + bl >= W64 ==> W64 * h1 + l1 != m)
  {
    var c := if l + bl >= W64 then 1 else 0;
    var e := if h + bh >= W64 then 1 else 0;
    var d := if h + bh + c >= W64 then 1 else 0;
    WordOf(l + bl, c);
    WordOf(h + bh, e);
    WordOf(h + bh - W64 * e + c, d - e);
    DoubleWordOf(W64 * h + l + (W64 * bh + bl), d);
  }

  /** Twice the value of two words, less the carry between them. */
  ghost function CarryLost(h: int, l: int): int {
    (2 * (W64 * h + l) - if l < 0x8000_0000_0000_0000 then 0 else W64) % W128
  }

  /** Both words doubled, without a carry between them. */
  lemma DoubledWords(h: int, l: int)
    requires 0 <= h < W64 && 0 <= l < W64
    ensures W64 * Wrap(h + h) as int + Wrap(l + l) as int == CarryLost(h, l)
  {
    var c := if l < 0x8000_0000_0000_0000 then 0 else 1;
    var e := if h < 0x8000_0000_0000_0000 then 0 else 1;
    WordOf(l + l, c);
    WordOf(h + h, e);
    DoubleWordOf(2 * (W64 * h + l) - W64 * c, e);
  }

  /** a += a doubles a exactly if no bit moves into the high word; 2^63 becomes 0. */
  method AddToItself(top: uint64, bottom: uint64) returns (r: Uint128)
    ensures var v := W64 * top as int + bottom as int;
            && (r.Val() == 2 * v % W128 <==> bottom < 0x8000_0000_0000_0000)
            && (v == 0x8000_0000_0000_0000 ==> r.Val() == 0 && 2 * v % W128 == W64)
  {
    r := new Uint128(top, bottom);
    r.AddAssign(r);
  }

  lemma SubWords(h: int, l: int, bh: int, bl: int, m: int)
    requires 0 <= h < W64 && 0 <= l < W64 && 0 <= bh < W64 && 0 <= bl < W64
    requires m == (W64 * h + l - (W64 * bh + bl)) % W128
    ensures var l1, h1 := Wrap(l - bl) as int, Wrap(h - bh) as int;
            W64 * (if bl > l then Wrap(h1 - 1) as int else h1) + l1 == m
  {
    var c := if bl > l then 1 else 0;
    var e := if h - bh < 0 then 1 else 0;
    var d := if h - bh - c < 0 then 1 else 0;
    WordOf(l - bl, -c);
    WordOf(h - bh, -e);
    WordOf(h - bh + W64 * e - c, e - d);
    DoubleWordOf(W64 * h + l - (W64 * bh + bl), -d);
  }

  lemma ProductMod(h: int, l: int, bh: int, bl: int, carry: int, lo: int)
    requires W64 * carry + lo == l * bl && 0 <= lo < W64
    ensures var hi := (carry + (l * bh) % W64 + (h * bl) % W64) % W64;
            W64 * hi + lo == ((W64 * h + l) * (W64 * bh + bl)) % W128
  {
    var x, y := l * bh, h * bl;
    ProductExpand(h, l, bh, bl);
    HighWord(carry, x, y, h * bh, lo);
  }

  lemma ProductExpand(h: int, l: int, bh: int, bl: int)
    ensures (W64 * h + l) * (W64 * bh + bl) == W128 * (h * bh) + W64 * (l * bh) + W64 * (h * bl) + l * bl
  {}

  lemma HighWord(carry: int, x: int, y: int, z: int, lo: int)
    requires 0 <= lo < W64
    ensures W64 * ((carry + x % W64 + y % W64) % W64) + lo == (W128 * z + W64 * x + W64 * y + W64 * carry + lo) % W128
  {}

  // ---- Shifts ----

  /** x << n on a word, for n < 64. */
  function Shl(x: uint64, n: nat): uint64 { Wrap(x as int * Exp2(n)) }

  /** x >> n on a word. */
  function Shr(x: uint64, n: nat): uint64 {
    ExpPositive(n);
    QuotientBound(x as nat, Exp2(n));
    (x as nat / Exp2(n)) as uint64
  }

  /** 2^n * 2^(64-n) = 2^64 */
  lemma Complement(n: nat)
    requires n <= 64
    ensures Exp2(n) * Exp2(64 - n) == W64
  {
    hide Exp2;
    Exp2Add(n, 64 - n);
    Exp2Of64();
  }

  lemma ScaledSum(q: int, r: int, e: int, f: int)
    ensures (q * f + r) * e == q * (e * f) + r * e
    ensures (e - q) * f == e * f - q * f && (q + 1) * f == q * f + f
    ensures (f - r) * e == e * f - r * e
  {}

  lemma AtLeast(k: int, e: int)
    requires k >= 1 && e >= 1
    ensures k * e >= e
  {}

  /** Splitting a word x = q*f + r, with e*f = 2^64: x*e is q*2^64 + r*e. */
  lemma ScaledWord(x: int, q: int, r: int, e: int, f: int)
    requires e >= 1 && f >= 1 && e * f == W64 && x == q * f + r && 0 <= r < f && 0 <= x < W64
    ensures x * e == q * W64 + r * e && 0 <= r * e <= W64 - e && (x * e) % W64 == r * e && 0 <= q < e
  {
    ScaledSum(q, r, e, f);
    AtLeast(f - r, e);
    if r > 0 { AtLeast(r, e); }
    PositiveFactor(e - q, f);
    PositiveFactor(q + 1, f);
  }

  lemma ShiftedLeft(hi: int, lo: int, s: int, t: int, q: int, r: int, e: int)
    requires hi * e == s * W64 + t && lo * e == q * W64 + r && 0 <= t + q < W64 && 0 <= r < W64
    ensures W64 * (t + q) + r == ((W64 * hi + lo) * e) % W128
  {
    assert (W64 * hi + lo) * e == W64 * (hi * e) + lo * e;
    DoubleWordOf(W64 * (hi * e) + lo * e, s);
  }

  /** A word split at bit 64 - n: its low part goes up, its high part is what x >> (64 - n) keeps. */
  lemma SplitWord(x: uint64, n: nat) returns (q: int, r: int)
    requires n <= 64
    ensures Shl(x, n) as int == r && Shr(x, 64 - n) as int == q && x as int * Exp2(n) == q * W64 + r
    ensures 0 <= q < Exp2(n) && 0 <= r <= W64 - Exp2(n)
    ensures exists k: nat {:trigger k * Exp2(n)} :: r == k * Exp2(n)
  {
    hide Exp2;
    var e, f := Exp2(n), Exp2(64 - n);
    Complement(n);
    ExpPositive(n);
    ExpPositive(64 - n);
    var k := x as int % f;
    q, r := x as int / f, k * e;
    ScaledWord(x as int, q, k, e, f);
  }

  lemma ShiftNear(hi: uint64, lo: uint64, n: nat)
    requires n < 64
    ensures var h := Or(Shl(hi, n) as nat, Shr(lo, 64 - n) as nat);
            h < W64 && W64 * h + Shl(lo, n) as int == ((W64 * hi as int + lo as int) * Exp2(n)) % W128
  {
    hide Exp2, Or, Shl, Shr;
    var s, t := SplitWord(hi, n);
    var q, r := SplitWord(lo, n);
    var k: nat :| t == k * Exp2(n);
    OrDisjoint(k, q, n);
    ShiftedLeft(hi as int, lo as int, s, t, q, r, Exp2(n));
  }

  lemma ShiftFar(hi: uint64, lo: uint64, n: nat)
    requires 64 <= n < 128
    ensures W64 * Shl(lo, n - 64) as int == ((W64 * hi as int + lo as int) * Exp2(n)) % W128
  {
    hide Exp2;
    Complement(64);
    ExpZero();
    Exp2Add(64, n - 64);
    ShiftedFar(hi as int, lo as int, Exp2(n - 64));
  }

  lemma ShiftOut(v: int, n: nat)
    requires n >= 128
    ensures (v * Exp2(n)) % W128 == 0
  {
    hide Exp2;
    Complement(64);
    ExpZero();
    Exp2Add(64, 64);
    Exp2Add(128, n - 128);
    ShiftedOut(v, Exp2(n - 128));
  }

  /** value << amount as the pair (hi, lo), for every amount >= 0. */
  method ShiftLeft(hi: uint64, lo: uint64, amount: nat) returns (h: uint64, l: uint64)
    ensures W64 * h as int + l as int == ((W64 * hi as int + lo as int) * Exp2(amount)) % W128
  {
    hide Exp2, Or, Shl, Shr;
    ghost var v := W64 * hi as int + lo as int;
    if amount < 64 {
      if amount == 0 {
        ExpZero();
        return hi, lo;
      }
      ShiftNear(hi, lo, amount);
      h := Or(Shl(hi, amount) as nat, Shr(lo, 64 - amount) as nat) as uint64;
      l := Shl(lo, amount);
    } else if amount < 128 {
      ShiftFar(hi, lo, amount);
      h, l := Shl(lo, amount - 64), 0;
    } else {
      ShiftOut(v, amount);
      h, l := 0, 0;
    }
  }

  lemma ExpZero()
    ensures Exp2(0) == 1
  {}

  lemma ShiftedFar(hi: int, lo: int, e: int)
    ensures W64 * ((lo * e) % W64) == ((W64 * hi + lo) * (W64 * e)) % W128
  {
    var x, y := hi * e, lo * e;
    assert (W64 * hi + lo) * (W64 * e) == W128 * x + W64 * y;
  }

  lemma ShiftedOut(v: int, e: int)
    ensures (v * (W64 * W64 * e)) % W128 == 0
  {
    var x := v * e;
    assert v * (W64 * W64 * e) == W128 * x;
  }

  lemma ShiftedRight(hi: int, lo: int, s: int, t: int, q: int, r: int, e: int, f: int)
    requires e >= 1 && e * f == W64 && hi == s * e + t && lo == q * e + r && 0 <= r < e && 0 <= t
    ensures (W64 * hi + lo) / e == W64 * s + (t * f + q)
  {
    calc {
      W64 * hi + lo;
      (e * f) * (s * e + t) + q * e + r;
      { assert (e * f) * (s * e + t) == (e * f) * (s * e) + (e * f) * t == ((e * f) * s) * e + (t * f) * e; }
      ((e * f) * s + t * f + q) * e + r;
      e * (W64 * s + (t * f + q)) + r;
    }
    DivUnique(W64 * hi + lo, e, W64 * s + (t * f + q), r);
  }

  lemma ShiftedRightFar(hi: int, lo: int, q: int, r: int, e: int)
    requires e >= 1 && hi == q * e + r && 0 <= r < e && 0 <= lo < W64
    ensures W64 * e >= 1 && (W64 * hi + lo) / (W64 * e) == q
  {
    assert W64 * hi + lo == (W64 * e) * q + (W64 * r + lo);
    DivUnique(W64 * hi + lo, W64 * e, q, W64 * r + lo);
  }

  lemma ShiftedRightOut(v: int, e: int)
    requires e >= 1 && 0 <= v < W128
    ensures W128 * e >= 1 && v / (W128 * e) == 0
  {
    assert W128 * e >= W128;
    DivUnique(v, W128 * e, 0, v);
  }

  /** value >> amount as the pair (hi, lo), for every amount >= 0. */
  method ShiftRight(hi: uint64, lo: uint64, amount: nat) returns (h: uint64, l: uint64)
    ensures Exp2(amount) >= 1 && W64 * h as int + l as int == (W64 * hi as int + lo as int) / Exp2(amount)
  {
    hide Exp2, Or;
    ghost var x, y := hi as int, lo as int;
    ExpPositive(amount);
    if amount < 64 {
      ghost var e, f := Exp2(amount), Exp2(64 - amount);
      Complement(amount);
      ExpPositive(64 - amount);
      if amount == 0 {
        ExpZero();
        return hi, lo;
      }
      ScaledWord(x, x / e, x % e, f, e);
      ScaledWord(y, y / e, y % e, f, e);
      ShiftedRight(x, y, x / e, x % e, y / e, y % e, e, f);
      OrDisjoint(x % e, y / e, 64 - amount);
      OrSymmetric(Shr(lo, amount) as nat, Shl(hi, 64 - amount) as nat);
      h := Shr(hi, amount);
      l := Or(Shr(lo, amount) as nat, Shl(hi, 64 - amount) as nat) as uint64;
    } else if amount < 128 {
      ghost var e := Exp2(amount - 64);
      Complement(64);
      ExpZero();
      Exp2Add(64, amount - 64);
      ExpPositive(amount - 64);
      ShiftedRightFar(x, y, x / e, x % e, e);
      h, l := 0, Shr(hi, amount - 64);
    } else {
      ghost var e := Exp2(amount - 128);
      Complement(64);
      ExpZero();
      Exp2Add(64, 64);
      Exp2Add(128, amount - 128);
      ExpPositive(amount - 128);
      ShiftedRightOut(W64 * x + y, e);
      h, l := 0, 0;
    }
  }

  lemma {:induction false} OrSymmetric(a: nat, b: nat)
    ensures Or(a, b) == Or(b, a)
    decreases a + b
  {
    if a != 0 || b != 0 { OrSymmetric(a / 2, b / 2); }
  }
}
