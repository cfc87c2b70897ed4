/** Field elements as three 64-bit words in radix 2^56 and products as five 128-bit words.
    Words are bounded newtypes: an addition, multiplication or subtraction that could leave its
    word is a failed proof obligation, so every method here is free of overflow and underflow.
    A C pointer into an array is modelled as the array and an offset. */
module Felem {
  import opened Fp
  import opened Limbs

  newtype uint64 = x: int | 0 <= x < 0x1_0000_0000_0000_0000
  newtype uint128 = x: int | 0 <= x < 0x1_0000_0000_0000_0000_0000_0000_0000_0000

  const B56: int := 0x100_0000_0000_0000
  const B57: int := 0x200_0000_0000_0000
  const B112: int := 0x1_0000_0000_0000_0000_0000_0000_0000
  const B168: int := 0x100_0000_0000_0000_0000_0000_0000_0000_0000_0000_0000
  const B224: int := 0x1_0000_0000_0000_0000_0000_0000_0000_0000_0000_0000_0000_0000_0000_0000
  const B62: int := 0x4000_0000_0000_0000
  const B63: int := 0x8000_0000_0000_0000
  const B118: int := 0x40_0000_0000_0000_0000_0000_0000_0000
  const B119: int := 0x80_0000_0000_0000_0000_0000_0000_0000
  const B127: int := 0x8000_0000_0000_0000_0000_0000_0000_0000
  const B126: int := 0x4000_0000_0000_0000_0000_0000_0000_0000

  ghost predicate Coord(a: array<uint64>, o: nat) { o + 3 <= a.Length }

  /** The limbs themselves. */
  ghost function LimbsAt(a: array<uint64>, o: nat): L3
    requires Coord(a, o)
    reads a
  {
    L3(a[o] as int, a[o + 1] as int, a[o + 2] as int)
  }

  ghost function WordsOf(w: array<uint128>): L5
    requires w.Length == 5
    reads w
  {
    L5(w[0] as int, w[1] as int, w[2] as int, w[3] as int, w[4] as int)
  }

  /** The integer a coordinate stands for. */
  ghost function Val(a: array<uint64>, o: nat): int
    requires Coord(a, o)
    reads a
  {
    a[o] as int + B56 * a[o + 1] as int + B112 * a[o + 2] as int
  }

  /** The field element a coordinate stands for. */
  ghost function R(a: array<uint64>, o: nat): int
    requires Coord(a, o)
    reads a
  {
    F(Val(a, o))
  }

  /** Every limb is below m. */
  ghost predicate Below(a: array<uint64>, o: nat, m: int)
    requires Coord(a, o)
    reads a
  {
    (a[o] as int) < m && (a[o + 1] as int) < m && (a[o + 2] as int) < m
  }

  /** The form `felem_reduce` leaves: the top limb may equal 2^56. */
  ghost predicate Reduced(a: array<uint64>, o: nat)
    requires Coord(a, o)
    reads a
  {
    (a[o] as int) < B56 && (a[o + 1] as int) < B56 && a[o + 2] as int <= B56
  }

  ghost function WVal(w: array<uint128>): int
    requires w.Length == 5
    reads w
  {
    w[0] as int + B56 * w[1] as int + B112 * w[2] as int + B168 * w[3] as int + B224 * w[4] as int
  }

  /** The field element of an unreduced product. */
  ghost function W(w: array<uint128>): int
    requires w.Length == 5
    reads w
  {
    F(WVal(w))
  }

  ghost predicate WBelow(w: array<uint128>, m: int)
    requires w.Length == 5
    reads w
  {
    (w[0] as int) < m && (w[1] as int) < m && (w[2] as int) < m && (w[3] as int) < m && (w[4] as int) < m
  }

  /** The coordinate represents v and its limbs are below m. */
  ghost predicate Is(a: array<uint64>, o: nat, v: int, m: int)
    reads a
  {
    Coord(a, o) && R(a, o) == v && Below(a, o, m)
  }

  /** The product represents v and its words are below m. */
  ghost predicate IsWide(w: array<uint128>, v: int, m: int)
    reads w
  {
    w.Length == 5 && W(w) == v && WBelow(w, m)
  }

  /** Nothing but the three limbs at o changed. */
  twostate predicate OnlyCoord(a: array<uint64>, o: nat)
    reads a
  {
    forall k :: 0 <= k < a.Length && !(o <= k < o + 3) ==> a[k] == old(a[k])
  }

  method Copy(out: array<uint64>, o: nat, inp: array<uint64>, i: nat, ghost v: int, ghost m: int)
    requires Coord(out, o) && Is(inp, i, v, m) && out != inp
    modifies out
    ensures Is(out, o, v, m)
    ensures LimbsAt(out, o) == LimbsAt(inp, i)
    ensures OnlyCoord(out, o)
  {
    hide F;
    out[o], out[o + 1], out[o + 2] := inp[i], inp[i + 1], inp[i + 2];
  }

  // ---- Sums, differences and scalings ----

  const WORD64: int := 0x1_0000_0000_0000_0000
  const WORD128: int := 0x1_0000_0000_0000_0000_0000_0000_0000_0000

  /** out += inp */
  method Sum64(out: array<uint64>, o: nat, inp: array<uint64>, i: nat, ghost u: int, ghost v: int, ghost m: int,
               ghost n: int)
    requires Is(out, o, u, m) && Is(inp, i, v, n) && out != inp && m + n <= WORD64
    modifies out
    ensures Is(out, o, FAdd(u, v), m + n)
    ensures LimbsAt(out, o) == SumL(old(LimbsAt(out, o)), LimbsAt(inp, i))
    ensures OnlyCoord(out, o)
  {
    hide F, FAdd;
    ghost var a, b := Val(out, o), Val(inp, i);
    out[o] := out[o] + inp[i];
    out[o + 1] := out[o + 1] + inp[i + 1];
    out[o + 2] := out[o + 2] + inp[i + 2];
    assert Val(out, o) == a + b;
    HomAdd(a, b);
  }

  /** out -= inp, after adding 3*P limb by limb so that no limb underflows. */
  method Diff64(out: array<uint64>, o: nat, inp: array<uint64>, i: nat, ghost u: int, ghost v: int, ghost m: int)
    requires Is(out, o, u, m) && Is(inp, i, v, B57) && out != inp && m + 3 * B56 <= WORD64
    modifies out
    ensures Is(out, o, FSub(u, v), m + 3 * B56)
    ensures LimbsAt(out, o) == DiffL(old(LimbsAt(out, o)), LimbsAt(inp, i))
    ensures OnlyCoord(out, o)
  {
    PValue();
    hide F, FSub;
    ghost var a, b := Val(out, o), Val(inp, i);
    out[o] := out[o] + 0x2ff_ffff_ffff_fcfd;
    out[o + 1] := out[o + 1] + 0x2ff_ffff_ffff_fffd;
    out[o + 2] := out[o + 2] + 0x2ff_ffff_ffff_fffd;
    assert Val(out, o) == a + 3 * P;
    out[o] := out[o] - inp[i];
    out[o + 1] := out[o + 1] - inp[i + 1];
    out[o + 2] := out[o + 2] - inp[i + 2];
    assert Val(out, o) == a - b + 3 * P;
    FMultiple(a - b, 3);
    HomSub(a, b);
  }

  /** out *= scalar */
  method Scalar64(out: array<uint64>, o: nat, scalar: uint64, ghost v: int, ghost m: int)
    requires Is(out, o, v, m) && 0 < scalar && scalar as int * m <= WORD64
    modifies out
    ensures Is(out, o, FMul(F(scalar as int), v), scalar as int * m)
    ensures LimbsAt(out, o) == ScaleL(old(LimbsAt(out, o)), scalar as int)
    ensures OnlyCoord(out, o)
  {
    hide F, FMul;
    ghost var k := scalar as int;
    ghost var x, y, z := out[o] as int, out[o + 1] as int, out[o + 2] as int;
    LimbTimes(x, k, m);
    LimbTimes(y, k, m);
    LimbTimes(z, k, m);
    ScaleVal(x, y, z, k);
    HomMul(k, Val(out, o));
    out[o], out[o + 1], out[o + 2] := out[o] * scalar, out[o + 1] * scalar, out[o + 2] * scalar;
  }

  lemma LimbTimes(x: int, k: int, m: int)
    requires 0 <= x < m && 0 < k
    ensures 0 <= x * k < k * m
  {}

  lemma ScaleVal(x: int, y: int, z: int, k: int)
    ensures x * k + B56 * (y * k) + B112 * (z * k) == k * (x + B56 * y + B112 * z)
  {}

  method ScaleWords(out: array<uint128>, scalar: uint128, ghost m: int)
    requires out.Length == 5 && WBelow(out, m) && 0 < scalar && scalar as int * m <= WORD128
    modifies out
    ensures WordsOf(out) == ScaleW(old(WordsOf(out)), scalar as int) && WBelow(out, scalar as int * m)
  {
    ghost var k := scalar as int;
    LimbTimes(out[0] as int, k, m);
    LimbTimes(out[1] as int, k, m);
    LimbTimes(out[2] as int, k, m);
    LimbTimes(out[3] as int, k, m);
    LimbTimes(out[4] as int, k, m);
    out[0], out[1], out[2], out[3], out[4] :=
      out[0] * scalar, out[1] * scalar, out[2] * scalar, out[3] * scalar, out[4] * scalar;
  }

  lemma ScaleResidue(w: L5, k: int)
    ensures F(WSum(ScaleW(w, k))) == FMul(F(k), F(WSum(w)))
  {
    hide F;
    ScaleWVal(w.a, w.b, w.c, w.d, w.e, k);
    HomMul(k, WSum(w));
  }

  /** out *= scalar, on an unreduced product. */
  method Scalar128(out: array<uint128>, scalar: uint128, ghost v: int, ghost m: int)
    requires IsWide(out, v, m) && 0 < scalar && scalar as int * m <= WORD128
    modifies out
    ensures IsWide(out, FMul(F(scalar as int), v), scalar as int * m)
    ensures WordsOf(out) == ScaleW(old(WordsOf(out)), scalar as int)
  {
    hide F, FMul, ScaleW, WBelow;
    ScaleResidue(WordsOf(out), scalar as int);
    ScaleWords(out, scalar, m);
  }

  lemma ScaleWVal(x: int, y: int, z: int, u: int, v: int, k: int)
    ensures x * k + B56 * (y * k) + B112 * (z * k) + B168 * (u * k) + B224 * (v * k)
         == k * (x + B56 * y + B112 * z + B168 * u + B224 * v)
  {}

  /** Subtraction of words after adding constants that keep every word positive. */
  method SubtractWords(out: array<uint128>, inp: array<uint128>, ghost m: int, ghost n: int)
    requires out.Length == 5 && inp.Length == 5 && WBelow(out, m) && WBelow(inp, n)
    requires n <= B119 && out != inp && m + 3 * B118 <= WORD128
    modifies out
    ensures WordsOf(out) == DiffW(old(WordsOf(out)), WordsOf(inp)) && WBelow(out, m + 3 * B118)
  {
    var c: uint128 := 0xC0_0000_0000_0000_0000_0000_0000_0000;
    out[0], out[1], out[2], out[3], out[4] :=
      out[0] + (c - 12681408), out[1] + c, out[2] + (c - 49536), out[3] + (c - 192), out[4] + (c - 192);
    out[0], out[1], out[2], out[3], out[4] :=
      out[0] - inp[0], out[1] - inp[1], out[2] - inp[2], out[3] - inp[3], out[4] - inp[4];
  }

  /** out -= inp on unreduced products, after adding (3*2^174 + 3*2^118 + 49344)*P. */
  method Diff128(out: array<uint128>, inp: array<uint128>, ghost u: int, ghost v: int, ghost m: int, ghost n: int)
    requires IsWide(out, u, m) && IsWide(inp, v, n) && n <= B119 && out != inp && m + 3 * B118 <= WORD128
    modifies out
    ensures IsWide(out, FSub(u, v), m + 3 * B118)
    ensures WordsOf(out) == DiffW(old(WordsOf(out)), WordsOf(inp))
  {
    hide F, FSub, DiffW, WBelow;
    DiffWords(WordsOf(out), WordsOf(inp));
    SubtractWords(out, inp, m, n);
  }

  ghost function WSum(w: L5): int { w.a + B56 * w.b + B112 * w.c + B168 * w.d + B224 * w.e }

  /** The constants added before a wide subtraction make up a multiple of P. */
  lemma DiffWords(u: L5, v: L5)
    ensures F(WSum(DiffW(u, v))) == FSub(F(WSum(u)), F(WSum(v)))
  {
    PValue();
    hide F;
    var x, y := WSum(u), WSum(v);
    var k := 3 * 0x4000_0000_0000_0000_0000_0000_0000_0000_0000_0000_0000
             + 0xC0_0000_0000_0000_0000_0000_0000_0000 + 49344;
    assert WSum(DiffW(u, v)) == x - y + k * P;
    FMultiple(x - y, k);
    HomSub(x, y);
  }

  /** out -= inp, an unreduced product minus a coordinate, after adding 192*P. */
  method Diff128By64(out: array<uint128>, inp: array<uint64>, i: nat, ghost u: int, ghost v: int, ghost m: int,
                     ghost n: int)
    requires IsWide(out, u, m) && Is(inp, i, v, n) && n <= B63 && m + 3 * B62 <= WORD128
    modifies out
    ensures IsWide(out, FSub(u, v), m + 3 * B62)
    ensures WordsOf(out) == DiffWL(old(WordsOf(out)), LimbsAt(inp, i))
  {
    PValue();
    hide F, FAdd, FSub, FMul;
    ghost var x, y := WVal(out), Val(inp, i);
    out[0] := out[0] + (0xC000_0000_0000_0000 - 49344);
    out[1] := out[1] + (0xC000_0000_0000_0000 - 192);
    out[2] := out[2] + (0xC000_0000_0000_0000 - 192);
    assert WVal(out) == x + 192 * P;
    out[0] := out[0] - inp[i] as uint128;
    out[1] := out[1] - inp[i + 1] as uint128;
    out[2] := out[2] - inp[i + 2] as uint128;
    assert WVal(out) == x - y + 192 * P;
    FMultiple(x - y, 192);
    HomSub(x, y);
  }

  // ---- Products ----

  lemma MulBound(x: int, y: int, m: int, n: int)
    requires 0 <= x < m && 0 <= y < n
    ensures 0 <= x * y < m * n
  {
    assert m * n - x * y == (m - x) * n + x * (n - y);
    assert (m - x) * n > 0 && x * (n - y) >= 0 && x * y >= 0;
  }

  lemma ProductVal(a: int, b: int, c: int, x: int, y: int, z: int)
    ensures a * x + B56 * (a * y + b * x) + B112 * (a * z + b * y + c * x) + B168 * (b * z + c * y) + B224 * (c * z)
         == (a + B56 * b + B112 * c) * (x + B56 * y + B112 * z)
  {
    var v := x + B56 * y + B112 * z;
    Spread(v, a, b, c, B56, B112);
    Spread(a, x, y, z, B56, B112);
    Spread(b, x, y, z, B56, B112);
    Spread(c, x, y, z, B56, B112);
    RowSum(a * x, a * y, a * z, b * x, b * y, b * z, c * x, c * y, c * z, v * a, v * b, v * c);
  }

  lemma Spread(s: int, x: int, y: int, z: int, m: int, n: int)
    ensures s * (x + m * y + n * z) == s * x + m * (s * y) + n * (s * z)
    ensures (x + m * y + n * z) * s == s * (x + m * y + n * z)
  {
    assert s * (m * y) == m * (s * y);
    assert s * (n * z) == n * (s * z);
  }

  /** The rows of a product in order of weight. */
  lemma RowSum(a0: int, a1: int, a2: int, b0: int, b1: int, b2: int, c0: int, c1: int, c2: int, u: int, v: int, w: int)
    requires u == a0 + B56 * a1 + B112 * a2 && v == b0 + B56 * b1 + B112 * b2 && w == c0 + B56 * c1 + B112 * c2
    ensures a0 + B56 * (a1 + b0) + B112 * (a2 + b1 + c0) + B168 * (b2 + c1) + B224 * c2 == u + B56 * v + B112 * w
  {}

  /** The words of a product stay in range. */
  method MulWords(out: array<uint128>, a: array<uint64>, i: nat, b: array<uint64>, j: nat, ghost m: int, ghost n: int)
    requires out.Length == 5 && Coord(a, i) && Below(a, i, m) && Coord(b, j) && Below(b, j, n) && 3 * (m * n) <= WORD128
    modifies out
    ensures WordsOf(out) == MulL(LimbsAt(a, i), LimbsAt(b, j)) && WBelow(out, 3 * (m * n))
  {
    var a0, a1, a2 := a[i] as uint128, a[i + 1] as uint128, a[i + 2] as uint128;
    var b0, b1, b2 := b[j] as uint128, b[j + 1] as uint128, b[j + 2] as uint128;
    MulBound(a0 as int, b0 as int, m, n);
    MulBound(a0 as int, b1 as int, m, n);
    MulBound(a0 as int, b2 as int, m, n);
    MulBound(a1 as int, b0 as int, m, n);
    MulBound(a1 as int, b1 as int, m, n);
    MulBound(a1 as int, b2 as int, m, n);
    MulBound(a2 as int, b0 as int, m, n);
    MulBound(a2 as int, b1 as int, m, n);
    MulBound(a2 as int, b2 as int, m, n);
    out[0] := a0 * b0;
    out[1] := a0 * b1 + a1 * b0;
    out[2] := a0 * b2 + a1 * b1 + a2 * b0;
    out[3] := a1 * b2 + a2 * b1;
    out[4] := a2 * b2;
  }

  lemma MulResidue(u: L3, v: L3)
    ensures F(WSum(MulL(u, v))) == FMul(F(Sum3(u.x, u.y, u.z)), F(Sum3(v.x, v.y, v.z)))
  {
    hide F;
    ProductVal(u.x, u.y, u.z, v.x, v.y, v.z);
    HomMul(Sum3(u.x, u.y, u.z), Sum3(v.x, v.y, v.z));
  }

  method Mul(out: array<uint128>, a: array<uint64>, i: nat, b: array<uint64>, j: nat,
             ghost u: int, ghost v: int, ghost m: int, ghost n: int)
    requires out.Length == 5 && Is(a, i, u, m) && Is(b, j, v, n) && 3 * (m * n) <= WORD128
    modifies out
    ensures IsWide(out, FMul(u, v), 3 * (m * n))
    ensures WordsOf(out) == MulL(LimbsAt(a, i), LimbsAt(b, j))
  {
    hide F, FMul, MulL, WBelow;
    MulResidue(LimbsAt(a, i), LimbsAt(b, j));
    MulWords(out, a, i, b, j, m, n);
  }

  method SquareWords(out: array<uint128>, a: array<uint64>, i: nat, ghost m: int)
    requires out.Length == 5 && Coord(a, i) && Below(a, i, m) && 3 * (m * m) <= WORD128
    modifies out
    ensures WordsOf(out) == SquareL(LimbsAt(a, i)) && WBelow(out, 3 * (m * m))
  {
    var a0, a1, a2 := a[i] as uint128, a[i + 1] as uint128, a[i + 2] as uint128;
    MulBound(a0 as int, a0 as int, m, m);
    MulBound(a0 as int, a1 as int, m, m);
    MulBound(a0 as int, a2 as int, m, m);
    MulBound(a1 as int, a1 as int, m, m);
    MulBound(a1 as int, a2 as int, m, m);
    MulBound(a2 as int, a2 as int, m, m);
    out[0] := a0 * a0;
    out[1] := a0 * a1 * 2;
    out[2] := a0 * a2 * 2 + a1 * a1;
    out[3] := a1 * a2 * 2;
    out[4] := a2 * a2;
  }

  lemma SquareIsMul(u: L3)
    ensures SquareL(u) == MulL(u, u)
  {}

  method Square(out: array<uint128>, a: array<uint64>, i: nat, ghost v: int, ghost m: int)
    requires out.Length == 5 && Is(a, i, v, m) && 3 * (m * m) <= WORD128
    modifies out
    ensures IsWide(out, FMul(v, v), 3 * (m * m))
    ensures WordsOf(out) == SquareL(LimbsAt(a, i))
  {
    hide F, FMul, MulL, SquareL, WBelow;
    MulResidue(LimbsAt(a, i), LimbsAt(a, i));
    SquareIsMul(LimbsAt(a, i));
    SquareWords(out, a, i, m);
  }

  // ---- Reduction ----

  ghost function Sum3(x: int, y: int, z: int): int { x + B56 * y + B112 * z }

  /** 2^168 = P + 257, so a part h above 2^168 folds back as 257*h. */
  lemma FoldHigh(x: int, y: int, z: int, u: int, v: int)
    ensures F(Sum3(x, y, z) + B168 * u + B224 * v)
         == F(Sum3(x + 257 * (u % B56), y + 257 * (v % B56) + 257 * (u / B56), z + 257 * (v / B56)))
  {
    PValue();
    var h := u + B56 * v;
    assert h == u % B56 + B56 * (u / B56 + v % B56) + B112 * (v / B56);
    assert Sum3(x, y, z) + B168 * u + B224 * v == Sum3(x, y, z) + 257 * h + h * P;
    FMultiple(Sum3(x, y, z) + 257 * h, h);
  }

  lemma FoldTop(x: int, y: int, z: int)
    ensures F(Sum3(x, y, z)) == F(Sum3(x + 257 * (z / B56), y, z % B56))
  {
    PValue();
    var h := z / B56;
    assert Sum3(x, y, z) == Sum3(x + 257 * h, y, z % B56) + h * P;
    FMultiple(Sum3(x + 257 * h, y, z % B56), h);
  }

  lemma Carry(x: int, y: int, z: int)
    ensures Sum3(x, y, z) == Sum3(x % B56, (y + x / B56) % B56, z + (y + x / B56) / B56)
  {}

  const TWO56: uint128 := 0x100_0000_0000_0000

  /** (x << 8) + x */
  function M257(x: uint128): uint128
    requires x < 0x1_0000_0000_0000_0000_0000_0000
  {
    x * 256 + x
  }

  /** One round of reduction: fold the top part of z into x, then carry x -> y -> z.
      x >> 56 is x / 2^56 and x & (2^56 - 1) is x % 2^56. */
  method FoldAndCarry(x: uint128, y: uint128, z: uint128) returns (x': uint128, y': uint128, z': uint128)
    requires (x as int) < B127 && (y as int) < B127 && (z as int) < B127
    ensures F(Sum3(x' as int, y' as int, z' as int)) == F(Sum3(x as int, y as int, z as int))
    ensures L3(x' as int, y' as int, z' as int) == RoundL(L3(x as int, y as int, z as int))
    ensures x' < TWO56 && y' < TWO56 && z' < 0x100_0000_0000_0000_0000
    ensures x < TWO56 && y < TWO56 && z < 0x100_0000_0000_0000_0000 ==> z' <= TWO56
  {
    hide F, Sum3;
    FoldTop(x as int, y as int, z as int);
    x' := x + M257(z / TWO56);
    z' := z % TWO56;
    Carry(x' as int, y as int, z' as int);
    y' := y + x' / TWO56;
    x' := x' % TWO56;
    z' := z' + y' / TWO56;
    y' := y' % TWO56;
  }

  /** Reduce 128-bit coefficients to 64-bit ones. */
  method Reduce(out: array<uint64>, o: nat, inp: array<uint128>, ghost v: int, ghost m: int)
    requires Coord(out, o) && IsWide(inp, v, m) && m <= B126
    modifies out
    ensures Is(out, o, v, B57) && Reduced(out, o)
    ensures LimbsAt(out, o) == ReduceL(WordsOf(inp))
    ensures OnlyCoord(out, o)
  {
    hide F, RoundL, FoldL, Sum3;
    var o0, o1, o2 := FoldWords(inp[0], inp[1], inp[2], inp[3], inp[4]);
    o0, o1, o2 := FoldAndCarry(o0, o1, o2);
    o0, o1, o2 := FoldAndCarry(o0, o1, o2);
    out[o], out[o + 1], out[o + 2] := o0 as uint64, o1 as uint64, o2 as uint64;
    Sum3Is(o0 as int, o1 as int, o2 as int);
  }

  lemma Sum3Is(x: int, y: int, z: int)
    ensures Sum3(x, y, z) == x + B56 * y + B112 * z
  {}

  /** Eliminates the two top words. */
  method FoldWords(a: uint128, b: uint128, c: uint128, d: uint128, e: uint128)
    returns (o0: uint128, o1: uint128, o2: uint128)
    requires (a as int) < B126 && (b as int) < B126 && (c as int) < B126 && (d as int) < B126 && (e as int) < B126
    ensures (o0 as int) < B127 && (o1 as int) < B127 && (o2 as int) < B127
    ensures L3(o0 as int, o1 as int, o2 as int) == FoldL(L5(a as int, b as int, c as int, d as int, e as int))
    ensures F(Sum3(o0 as int, o1 as int, o2 as int)) ==
            F(a as int + B56 * b as int + B112 * c as int + B168 * d as int + B224 * e as int)
  {
    hide F;
    FoldHigh(a as int, b as int, c as int, d as int, e as int);
    o0, o1, o2 := a, b, c;
    o2 := o2 + M257(e / TWO56);
    o1 := o1 + M257(e % TWO56);
    o1 := o1 + M257(d / TWO56);
    o0 := o0 + M257(d % TWO56);
  }

  // ---- Canonical form, negation, zero test ----

  const TWO56M1: uint64 := 0xff_ffff_ffff_ffff
  const TWO56M257: uint64 := 0xff_ffff_ffff_feff

  const TWO57M1: uint64 := 0x1ff_ffff_ffff_ffff
  const TWO56M514: uint64 := 0xff_ffff_ffff_fdfe
  const TWO56W: uint64 := 0x100_0000_0000_0000

  /** The integer left after folding the part of v above 2^168 once. */
  ghost function Folded(v: int): int { v - P * (v / B168) }

  /** What `Contract` makes of an integer v: one folding, then one conditional subtraction of P. */
  ghost function Contracted(v: int): int {
    var t := Folded(v);
    if P <= t < B168 then t - P else t
  }

  lemma FoldedSum(x: int, y: int, z: int)
    requires 0 <= x < B56 && 0 <= y < B56 && 0 <= z
    ensures var t := Sum3(x + 257 * (z / B56), y, z % B56);
            Folded(Sum3(x, y, z)) == t && Contracted(Sum3(x, y, z)) == if P <= t < B168 then t - P else t
  {
    var q, r := z / B56, z % B56;
    TopQuotient(x, y, z, q, r);
    PTimes(q);
    hide F;
  }

  lemma TopQuotient(x: int, y: int, z: int, q: int, r: int)
    requires 0 <= x < B56 && 0 <= y < B56 && z == B56 * q + r && 0 <= r < B56
    ensures Sum3(x, y, z) == B168 * q + Sum3(x, y, r) && Sum3(x, y, z) / B168 == q
  {
    assert 0 <= Sum3(x, y, r) < B168;
  }

  lemma PTimes(q: int)
    ensures P * q == B168 * q - 257 * q
  {
    PValue();
  }

  lemma FoldedReduced(x: int, y: int, z: int)
    requires 0 <= x < B56 && 0 <= y < B56 && 0 <= z <= B56
    ensures Contracted(Sum3(x, y, z)) == F(Sum3(x, y, z)) < P
  {
    PValue();
    var v := Sum3(x, y, z);
    hide F;
    if z == B56 {
      assert v / B168 == 1;
      ResidueIs(v, 1, v - P);
    } else {
      assert v / B168 == 0;
      if v < P { ResidueIs(v, 0, v); } else { ResidueIs(v, 1, v - P); }
    }
  }

  lemma TopLimbs(x: int, y: int, z: int)
    requires 0 <= x < B56 && 0 <= y < B56 && 0 <= z <= B56
    ensures P <= Sum3(x, y, z) < B168 <==> z == B56 - 1 && y == B56 - 1 && x >= B56 - 257
  {
    PValue();
  }

  /** Reduce to the least residue. On limbs as `Reduce` leaves them the result is below P; `Neg`
      also calls this with a larger top limb, where the result can end up just above 2^168. */
  method Contract(out: array<uint64>, o: nat, inp: array<uint64>, i: nat)
    requires Coord(out, o) && Coord(inp, i) && out != inp
    requires (inp[i] as int) < B56 && (inp[i + 1] as int) < B56 && (inp[i + 2] as int) < 4 * B56
    modifies out
    ensures Val(out, o) == Contracted(Val(inp, i))
    ensures Reduced(inp, i) ==> Val(out, o) == R(inp, i) < P
    ensures Reduced(out, o)
    ensures OnlyCoord(out, o)
  {
    hide F, Contracted, Folded;
    var x, y, z := inp[i], inp[i + 1], inp[i + 2];
    ghost var v := Sum3(x as int, y as int, z as int);
    assert v == Val(inp, i);
    FoldedSum(x as int, y as int, z as int);
    var h := z / TWO56W;
    x, y, z := CarryAndSubtract(x + (h * 256 + h), y, z % TWO56W);
    assert Sum3(x as int, y as int, z as int) == Contracted(v);
    if Reduced(inp, i) { FoldedReduced(inp[i] as int, inp[i + 1] as int, inp[i + 2] as int); }
    out[o], out[o + 1], out[o + 2] := x, y, z;
  }

  /** The rest of `Contract`: carry 0 -> 1 -> 2, then subtract P if the value is in P .. 2^168-1. */
  method CarryAndSubtract(x: uint64, y: uint64, z: uint64) returns (x': uint64, y': uint64, z': uint64)
    requires (x as int) < B57 && (y as int) < B56 && (z as int) < B56
    ensures var t := Sum3(x as int, y as int, z as int);
            Sum3(x' as int, y' as int, z' as int) == if P <= t < B168 then t - P else t
    ensures (x' as int) < B56 && (y' as int) < B56 && z' as int <= B56
  {
    PValue();
    Carry(x as int, y as int, z as int);
    y' := y + x / TWO56W;
    x' := x % TWO56W;
    z' := z + y' / TWO56W;
    y' := y' % TWO56W;
    TopLimbs(x' as int, y' as int, z' as int);
    var a: uint64 := if z' == TWO56M1 && y' == TWO56M1 && x' >= TWO56M257 then 1 else 0;
    z', y', x' := z' - TWO56M1 * a, y' - TWO56M1 * a, x' - TWO56M257 * a;
  }

  lemma ResidueIs(x: int, k: int, r: int)
    requires x == r + k * P && 0 <= r < P
    ensures F(x) == r
  {
    FMultiple(r, k);
    assert F(r) == r;
  }

  /** Both sides by the quotient h of 3*P - v by 2^168, which is 0, 1 or 2. */
  lemma NegCases(v: int)
    requires 0 <= v <= 2 * B168 + 2 * B112
    ensures Contracted(3 * P - v) == if P - 513 <= v <= P - 257 then 2 * P - v else F(-v)
    ensures F(2 * P - v) == F(-v)
  {
    PValue();
    hide F;
    FMultiple(-v, 2);
    if v <= P - 514 {
      assert (3 * P - v) / B168 == 2;
      if v == 0 { ResidueIs(-v, 0, 0); } else { ResidueIs(-v, -1, P - v); }
    } else if v <= 3 * P - B168 {
      assert (3 * P - v) / B168 == 1;
      if v <= P { 
        if v == P { ResidueIs(-v, -1, 0); } else { ResidueIs(-v, -1, P - v); }
      } else { 
        ResidueIs(-v, -2, 2 * P - v);
      }
    } else {
      assert (3 * P - v) / B168 == 0;
      if v <= 2 * P {
        ResidueIs(-v, -2, 2 * P - v);
      } else {
        ResidueIs(-v, -3, 3 * P - v);
      }
    }
  }

  /** Negation. The result represents -inp, and it is the least residue unless the input's value
      lies in P-513 .. P-257, where it exceeds the least residue by P. */
  method Neg(out: array<uint64>, o: nat, inp: array<uint64>, i: nat)
    requires Coord(out, o) && Coord(inp, i) && Below(inp, i, B57)
    modifies out
    ensures var v := old(Val(inp, i)); Val(out, o) == if P - 513 <= v <= P - 257 then 2 * P - v else F(-v)
    ensures R(out, o) == F(-old(Val(inp, i)))
    ensures Reduced(out, o)
    ensures OnlyCoord(out, o)
  {
    PValue();
    hide F, Contracted;
    ghost var v := Val(inp, i);
    var t0 := 0x2ff_ffff_ffff_fcfd - inp[i];
    var t1 := 0x2ff_ffff_ffff_fffd - inp[i + 1];
    var t2 := 0x2ff_ffff_ffff_fffd - inp[i + 2];
    t1 := t1 + t0 / TWO56W;
    t0 := t0 % TWO56W;
    t2 := t2 + t1 / TWO56W;
    t1 := t1 % TWO56W;
    var tmp := new uint64[3];
    tmp[0], tmp[1], tmp[2] := t0, t1, t2;
    assert Val(tmp, 0) == 3 * P - v;
    NegCases(v);
    FOfF(-v);
    Contract(out, o, tmp, 0);
  }

  /** The field element of three limbs. */
  ghost function Res(l: L3): int { F(Sum3(l.x, l.y, l.z)) }

  /** Reduction keeps the residue of any words. */
  lemma ReduceResidue(w: L5)
    ensures Res(ReduceL(w)) == F(WSum(w))
  {
    hide F, RoundL, FoldL;
    FoldResidue(w);
    RoundResidue(FoldL(w));
    RoundResidue(RoundL(FoldL(w)));
  }

  lemma FoldResidue(w: L5)
    ensures Res(FoldL(w)) == F(WSum(w))
  {
    hide F;
    FoldHigh(w.a, w.b, w.c, w.d, w.e);
  }

  lemma RoundResidue(u: L3)
    ensures Res(RoundL(u)) == Res(u)
  {
    hide F;
    FoldTop(u.x, u.y, u.z);
    Carry(u.x + 257 * (u.z / B56), u.y, u.z % B56);
  }

  /** The range the zero test is made for: values below 2^169 with the lower limbs carried. */
  ghost predicate Testable(l: L3) { 0 <= l.x < B56 && 0 <= l.y < B56 && 0 <= l.z < B57 }

  /** The limbs of 0, P and 2*P. */
  ghost predicate ZeroForm(l: L3) {
    || l == L3(0, 0, 0)
    || l == L3(B56 - 257, B56 - 1, B56 - 1)
    || l == L3(B56 - 514, B56 - 1, B57 - 1)
  }

  /** In that range the three forms are the representations of 0, all three of them. */
  lemma ZeroForms(l: L3)
    ensures ZeroForm(l) ==> Res(l) == 0
    ensures Testable(l) ==> (ZeroForm(l) <==> Res(l) == 0)
  {
    PValue();
    hide F;
    var n := Sum3(l.x, l.y, l.z);
    if ZeroForm(l) {
      ResidueIs(n, if n == 0 then 0 else if n == P then 1 else 2, 0);
    } else if Testable(l) {
      var k := if n < P then 0 else if n < 2 * P then 1 else 2;
      ResidueIs(n, k, n - k * P);
      NotMultiple(l, k);
    }
  }

  lemma NotMultiple(l: L3, k: int)
    requires Testable(l) && !ZeroForm(l) && 0 <= k <= 2
    ensures Sum3(l.x, l.y, l.z) != k * P
  {
    PValue();
  }

  /** 1 for the limbs of 0, P and 2*P and else 0; so 1 exactly for 0 on testable limbs. */
  method IsZero(inp: array<uint64>, i: nat, ghost v: int) returns (r: uint64)
    requires Coord(inp, i) && R(inp, i) == v
    ensures r == if ZeroForm(LimbsAt(inp, i)) then 1 else 0
    ensures Testable(LimbsAt(inp, i)) ==> r == if v == 0 then 1 else 0
  {
    hide F;
    ZeroForms(LimbsAt(inp, i));
    var x, y, z := inp[i], inp[i + 1], inp[i + 2];
    var zero := x == 0 && y == 0 && z == 0;
    var isP := z == TWO56M1 && y == TWO56M1 && x == TWO56M257;
    var is2P := z == TWO57M1 && y == TWO56M1 && x == TWO56M514;
    r := if zero || isP || is2P then 1 else 0;
  }

  lemma ReducedTestable(a: array<uint64>, o: nat)
    requires Coord(a, o) && Reduced(a, o)
    ensures Testable(LimbsAt(a, o))
  {}
}
