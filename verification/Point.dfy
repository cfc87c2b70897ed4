/** Point doubling and addition on limb arrays. A point is nine consecutive limbs: x, y and z. */
module Point {
  import opened Bits
  import opened Fp
  import opened Felem
  import opened Limbs
  import opened Curve

  ghost predicate IsPtr(a: array<uint64>, o: nat) { o + 9 <= a.Length }

  /** The field coordinates of the point at o. */
  ghost function J(a: array<uint64>, o: nat): Jac
    requires IsPtr(a, o)
    reads a
  {
    Jac(R(a, o), R(a, o + 3), R(a, o + 6))
  }

  /** The nine limbs of the point at o. */
  ghost function PointLimbs(a: array<uint64>, o: nat): P9
    requires IsPtr(a, o)
    reads a
  {
    P9(LimbsAt(a, o), LimbsAt(a, o + 3), LimbsAt(a, o + 6))
  }

  ghost predicate Small(a: array<uint64>, o: nat)
    requires IsPtr(a, o)
    reads a
  {
    Below(a, o, B57) && Below(a, o + 3, B57) && Below(a, o + 6, B57)
  }

  ghost predicate ReducedPoint(a: array<uint64>, o: nat)
    requires IsPtr(a, o)
    reads a
  {
    Reduced(a, o) && Reduced(a, o + 3) && Reduced(a, o + 6)
  }

  twostate predicate OnlyPoint(a: array<uint64>, o: nat)
    reads a
  {
    forall k :: 0 <= k < a.Length && !(o <= k < o + 9) ==> a[k] == old(a[k])
  }

  /** No point stored elsewhere in the array changed. */
  twostate predicate OthersKept(a: array<uint64>, o: nat)
    reads a
  {
    forall k: nat :: IsPtr(a, k) && (k + 9 <= o || o + 9 <= k) ==>
      && J(a, k) == old(J(a, k)) && ReducedPoint(a, k) == old(ReducedPoint(a, k))
      && PointLimbs(a, k) == old(PointLimbs(a, k))
  }

  /** The points are stored at the same place or do not overlap. */
  ghost predicate Aligned(a: array<uint64>, o: nat, b: array<uint64>, i: nat) {
    a == b ==> o == i || o + 9 <= i || i + 9 <= o
  }

  /** Nothing but the coordinate at o changed, so every coordinate elsewhere keeps its value and form. */
  twostate predicate CoordsKept(a: array<uint64>, o: nat)
    reads a
  {
    OnlyCoord(a, o) &&
    (forall k: nat, u, n :: old(Is(a, k, u, n)) && (k + 3 <= o || o + 3 <= k) ==> Is(a, k, u, n)) &&
    (forall k: nat :: Coord(a, k) && (k + 3 <= o || o + 3 <= k) ==>
       R(a, k) == old(R(a, k)) && Reduced(a, k) == old(Reduced(a, k)) && LimbsAt(a, k) == old(LimbsAt(a, k)))
  }

  /** Reduce into a coordinate of a point: every coordinate elsewhere in the array keeps its value. */
  method ReduceInto(out: array<uint64>, o: nat, inp: array<uint128>, ghost v: int, ghost m: int)
    requires Coord(out, o) && IsWide(inp, v, m) && m <= B126
    modifies out
    ensures Is(out, o, v, B57) && Reduced(out, o) && LimbsAt(out, o) == ReduceL(WordsOf(inp))
    ensures CoordsKept(out, o)
  {
    hide F, W, ReduceL, WordsOf;
    Reduce(out, o, inp, v, m);
    assert forall k: nat :: Coord(out, k) && (k + 3 <= o || o + 3 <= k) ==> R(out, k) == old(R(out, k));
  }

  lemma PointIs(a: array<uint64>, o: nat)
    requires IsPtr(a, o) && Small(a, o)
    ensures var p := J(a, o); Is(a, o, p.x, B57) && Is(a, o + 3, p.y, B57) && Is(a, o + 6, p.z, B57)
  {}

  lemma ReducedIs(a: array<uint64>, o: nat)
    requires IsPtr(a, o) && ReducedPoint(a, o)
    ensures var p := J(a, o); Is(a, o, p.x, B57) && Is(a, o + 3, p.y, B57) && Is(a, o + 6, p.z, B57)
    ensures Small(a, o)
  {}

  lemma PointFrom(a: array<uint64>, o: nat, p: Jac)
    requires IsPtr(a, o) && Is(a, o, p.x, B57) && Is(a, o + 3, p.y, B57) && Is(a, o + 6, p.z, B57)
    ensures J(a, o) == p && Small(a, o)
  {}

  // ---- Doubling ----

  function Alpha(p: Jac): int {
    var delta := FMul(p.z, p.z);
    FMul(FSub(p.x, delta), FMul(F(3), FAdd(p.x, delta)))
  }

  /** Six distinct three-limb buffers apart from two other arrays. */
  ghost predicate Scratch(a: array<uint64>, b: array<uint64>, c: array<uint64>, d: array<uint64>, e: array<uint64>,
                          f: array<uint64>, inp: array<uint64>, out: array<uint64>)
  {
    a.Length == 3 && b.Length == 3 && c.Length == 3 && d.Length == 3 && e.Length == 3 && f.Length == 3 &&
    a != b && a != c && a != d && a != e && a != f && b != c && b != d && b != e && b != f &&
    c != d && c != e && c != f && d != e && d != f && e != f &&
    a != inp && b != inp && c != inp && d != inp && e != inp && f != inp &&
    a != out && b != out && c != out && d != out && e != out && f != out
  }

  /** delta = z^2, gamma = y^2, beta = x*gamma, alpha = 3*(x - delta)*(x + delta) */
  method DoubleStart(delta: array<uint64>, gamma: array<uint64>, beta: array<uint64>, alpha: array<uint64>,
                     ftmp: array<uint64>, ftmp2: array<uint64>, tmp: array<uint128>, inp: array<uint64>, i: nat,
                     ghost p: Jac, ghost l: P9)
    requires Scratch(delta, gamma, beta, alpha, ftmp, ftmp2, inp, inp) && tmp.Length == 5
    requires Is(inp, i, p.x, B57) && Is(inp, i + 3, p.y, B57) && Is(inp, i + 6, p.z, B57)
    requires IsPtr(inp, i) && l == PointLimbs(inp, i)
    modifies delta, gamma, beta, alpha, ftmp, ftmp2, tmp
    ensures delta.Length == gamma.Length == beta.Length == alpha.Length == 3
    ensures LimbsAt(delta, 0) == DeltaL(l) && LimbsAt(gamma, 0) == GammaL(l)
    ensures LimbsAt(beta, 0) == BetaL(l) && LimbsAt(alpha, 0) == AlphaL(l)
    ensures Is(delta, 0, FMul(p.z, p.z), B57) && Is(gamma, 0, FMul(p.y, p.y), B57)
    ensures Is(beta, 0, FMul(p.x, FMul(p.y, p.y)), B57) && Is(alpha, 0, Alpha(p), B57)
  {
    hide Is, IsWide, F, FAdd, FSub, FMul, OnlyCoord, Reduced, SumL, DiffL, ScaleL, ScaleW, DiffW, DiffWL, MulL,
         SquareL, ReduceL, LimbsAt, WordsOf;
    ghost var d, g := FMul(p.z, p.z), FMul(p.y, p.y);
    Copy(ftmp, 0, inp, i, p.x, B57);
    Copy(ftmp2, 0, inp, i, p.x, B57);
    Square(tmp, inp, i + 6, p.z, B57);
    Reduce(delta, 0, tmp, d, 3 * (B57 * B57));
    Square(tmp, inp, i + 3, p.y, B57);
    Reduce(gamma, 0, tmp, g, 3 * (B57 * B57));
    Mul(tmp, inp, i, gamma, 0, p.x, g, B57, B57);
    Reduce(beta, 0, tmp, FMul(p.x, g), 3 * (B57 * B57));
    Diff64(ftmp, 0, delta, 0, p.x, d, B57);
    Sum64(ftmp2, 0, delta, 0, p.x, d, B57, B57);
    Scalar64(ftmp2, 0, 3, FAdd(p.x, d), B57 + B57);
    Mul(tmp, ftmp, 0, ftmp2, 0, FSub(p.x, d), FMul(F(3), FAdd(p.x, d)), B57 + 3 * B56, 3 * (B57 + B57));
    Reduce(alpha, 0, tmp, Alpha(p), 3 * ((B57 + 3 * B56) * (3 * (B57 + B57))));
  }

  /** x' = alpha^2 - 8*beta */
  method DoubleX(out: array<uint64>, o: nat, beta: array<uint64>, alpha: array<uint64>, ftmp: array<uint64>,
                 tmp: array<uint128>, ghost p: Jac, ghost l: P9)
    requires IsPtr(out, o) && ftmp.Length == 3 && tmp.Length == 5 && out !in {beta, alpha, ftmp}
    requires ftmp !in {beta, alpha}
    requires Is(beta, 0, FMul(p.x, FMul(p.y, p.y)), B57) && Is(alpha, 0, Alpha(p), B57)
    requires beta.Length == alpha.Length == 3 && LimbsAt(beta, 0) == BetaL(l) && LimbsAt(alpha, 0) == AlphaL(l)
    modifies out, ftmp, tmp
    ensures LimbsAt(out, o) == DoubleXL(l)
    ensures Is(out, o, JDouble(p).x, B57) && Reduced(out, o) && CoordsKept(out, o)
  {
    hide R, Is, IsWide, F, FAdd, FSub, FMul, Reduced, BetaL, AlphaL, SumL, DiffL, ScaleL, ScaleW, DiffW, DiffWL, MulL,
         SquareL, ReduceL, LimbsAt, WordsOf;
    ghost var a, b := Alpha(p), FMul(p.x, FMul(p.y, p.y));
    Square(tmp, alpha, 0, a, B57);
    Copy(ftmp, 0, beta, 0, b, B57);
    Scalar64(ftmp, 0, 8, b, B57);
    Diff128By64(tmp, ftmp, 0, FMul(a, a), FMul(F(8), b), 3 * (B57 * B57), 8 * B57);
    ReduceInto(out, o, tmp, JDouble(p).x, 3 * (B57 * B57) + 3 * B62);
  }

  /** z' = (y + z)^2 - gamma - delta */
  method DoubleZ(out: array<uint64>, o: nat, inp: array<uint64>, i: nat, delta: array<uint64>, gamma: array<uint64>,
                 ftmp: array<uint64>, tmp: array<uint128>, ghost p: Jac, ghost l: P9)
    requires IsPtr(out, o) && ftmp.Length == 3 && tmp.Length == 5
    requires Coord(inp, i + 6) && LimbsAt(inp, i + 3) == l.y && LimbsAt(inp, i + 6) == l.z
    requires delta.Length == gamma.Length == 3 && LimbsAt(delta, 0) == DeltaL(l) && LimbsAt(gamma, 0) == GammaL(l)
    requires delta !in {gamma, ftmp, inp} && ftmp !in {gamma, inp} && out !in {delta, gamma, ftmp}
    requires Is(inp, i + 3, p.y, B57) && Is(inp, i + 6, p.z, B57)
    requires Is(delta, 0, FMul(p.z, p.z), B57) && Is(gamma, 0, FMul(p.y, p.y), B57)
    modifies out, delta, ftmp, tmp
    ensures LimbsAt(out, o + 6) == DoubleZL(l)
    ensures Is(out, o + 6, JDouble(p).z, B57) && Reduced(out, o + 6) && CoordsKept(out, o + 6)
  {
    hide R, Is, IsWide, F, FAdd, FSub, FMul, Reduced, DeltaL, GammaL, SumL, DiffL, ScaleL, ScaleW, DiffW, DiffWL,
         MulL, SquareL, ReduceL, LimbsAt, WordsOf;
    ghost var d, g, yz := FMul(p.z, p.z), FMul(p.y, p.y), FAdd(p.y, p.z);
    Sum64(delta, 0, gamma, 0, d, g, B57, B57);
    Copy(ftmp, 0, inp, i + 3, p.y, B57);
    Sum64(ftmp, 0, inp, i + 6, p.y, p.z, B57, B57);
    Square(tmp, ftmp, 0, yz, B57 + B57);
    Diff128By64(tmp, delta, 0, FMul(yz, yz), FAdd(d, g), 3 * ((B57 + B57) * (B57 + B57)), B57 + B57);
    ReduceInto(out, o + 6, tmp, JDouble(p).z, 3 * ((B57 + B57) * (B57 + B57)) + 3 * B62);
  }

  /** y' = alpha*(4*beta - x') - 8*gamma^2 */
  method DoubleY(out: array<uint64>, o: nat, gamma: array<uint64>, beta: array<uint64>, alpha: array<uint64>,
                 tmp: array<uint128>, tmp2: array<uint128>, ghost p: Jac, ghost l: P9)
    requires IsPtr(out, o) && out !in {gamma, beta, alpha} && beta !in {gamma, alpha}
    requires gamma.Length == beta.Length == alpha.Length == 3 && LimbsAt(gamma, 0) == GammaL(l)
    requires LimbsAt(beta, 0) == BetaL(l) && LimbsAt(alpha, 0) == AlphaL(l) && LimbsAt(out, o) == DoubleXL(l)
    requires tmp.Length == 5 && tmp2.Length == 5 && tmp != tmp2
    requires Is(gamma, 0, FMul(p.y, p.y), B57) && Is(beta, 0, FMul(p.x, FMul(p.y, p.y)), B57)
    requires Is(alpha, 0, Alpha(p), B57)
    requires Is(out, o, JDouble(p).x, B57)
    modifies out, beta, tmp, tmp2
    ensures LimbsAt(out, o + 3) == DoubleYL(l)
    ensures Is(out, o + 3, JDouble(p).y, B57) && Reduced(out, o + 3) && CoordsKept(out, o + 3)
  {
    hide R, Is, IsWide, F, FAdd, FSub, FMul, Reduced, GammaL, BetaL, AlphaL, DoubleXL, SumL, DiffL, ScaleL, ScaleW,
         DiffW, DiffWL, MulL, SquareL, ReduceL, LimbsAt, WordsOf;
    ghost var g := FMul(p.y, p.y);
    ghost var a, b, q := Alpha(p), FMul(p.x, g), JDouble(p);
    Scalar64(beta, 0, 4, b, B57);
    Diff64(beta, 0, out, o, FMul(F(4), b), q.x, 4 * B57);
    ghost var t := FSub(FMul(F(4), b), q.x);
    Mul(tmp, alpha, 0, beta, 0, a, t, B57, 4 * B57 + 3 * B56);
    Square(tmp2, gamma, 0, g, B57);
    Scalar128(tmp2, 8, FMul(g, g), 3 * (B57 * B57));
    Diff128(tmp, tmp2, FMul(a, t), FMul(F(8), FMul(g, g)), 3 * (B57 * (4 * B57 + 3 * B56)), 8 * (3 * (B57 * B57)));
    ReduceInto(out, o + 3, tmp, q.y, 3 * (B57 * (4 * B57 + 3 * B56)) + 3 * B118);
  }

  /** The output coordinates, written in the order x, z, y. */
  method DoubleFinish(out: array<uint64>, o: nat, inp: array<uint64>, i: nat,
                      delta: array<uint64>, gamma: array<uint64>, beta: array<uint64>, alpha: array<uint64>,
                      ftmp: array<uint64>, ftmp2: array<uint64>, tmp: array<uint128>, tmp2: array<uint128>,
                      ghost p: Jac, ghost l: P9)
    requires IsPtr(out, o) && IsPtr(inp, i) && Aligned(out, o, inp, i)
    requires LimbsAt(inp, i + 3) == l.y && LimbsAt(inp, i + 6) == l.z
    requires Scratch(delta, gamma, beta, alpha, ftmp, ftmp2, inp, out) && tmp.Length == 5 && tmp2.Length == 5
    requires tmp != tmp2
    requires Is(inp, i + 3, p.y, B57) && Is(inp, i + 6, p.z, B57)
    requires Is(delta, 0, FMul(p.z, p.z), B57) && Is(gamma, 0, FMul(p.y, p.y), B57)
    requires Is(beta, 0, FMul(p.x, FMul(p.y, p.y)), B57) && Is(alpha, 0, Alpha(p), B57)
    requires LimbsAt(delta, 0) == DeltaL(l) && LimbsAt(gamma, 0) == GammaL(l)
    requires LimbsAt(beta, 0) == BetaL(l) && LimbsAt(alpha, 0) == AlphaL(l)
    modifies out, delta, beta, ftmp, tmp, tmp2
    ensures PointLimbs(out, o) == DoubleL(l)
    ensures var q := JDouble(p); Is(out, o, q.x, B57) && Is(out, o + 3, q.y, B57) && Is(out, o + 6, q.z, B57)
    ensures ReducedPoint(out, o) && OnlyPoint(out, o) && OthersKept(out, o)
  {
    hide R, Is, F, FMul, Reduced, Alpha, JDouble, LimbsAt, DeltaL, GammaL, BetaL, AlphaL, DoubleXL, DoubleYL, DoubleZL;
    DoubleX(out, o, beta, alpha, ftmp, tmp, p, l);
    DoubleZ(out, o, inp, i, delta, gamma, ftmp, tmp, p, l);
    DoubleY(out, o, gamma, beta, alpha, tmp, tmp2, p, l);
  }

  /** Doubling with the local buffers given. */
  method DoubleWith(out: array<uint64>, o: nat, inp: array<uint64>, i: nat,
                    delta: array<uint64>, gamma: array<uint64>, beta: array<uint64>, alpha: array<uint64>,
                    ftmp: array<uint64>, ftmp2: array<uint64>, tmp: array<uint128>, tmp2: array<uint128>,
                    ghost p: Jac, ghost l: P9)
    requires IsPtr(out, o) && IsPtr(inp, i) && Aligned(out, o, inp, i) && Small(inp, i)
    requires Scratch(delta, gamma, beta, alpha, ftmp, ftmp2, inp, out)
    requires tmp.Length == 5 && tmp2.Length == 5 && tmp != tmp2 && p == J(inp, i) && l == PointLimbs(inp, i)
    modifies out, delta, gamma, beta, alpha, ftmp, ftmp2, tmp, tmp2
    ensures J(out, o) == JDouble(p) && PointLimbs(out, o) == DoubleL(l) && ReducedPoint(out, o)
    ensures OnlyPoint(out, o) && OthersKept(out, o)
  {
    hide F, FMul, R, Is, Below, Small, JDouble, Alpha, ReducedPoint, LimbsAt, DeltaL, GammaL, BetaL, AlphaL, DoubleL, J;
    PointIs(inp, i);
    DoubleStart(delta, gamma, beta, alpha, ftmp, ftmp2, tmp, inp, i, p, l);
    DoubleFinish(out, o, inp, i, delta, gamma, beta, alpha, ftmp, ftmp2, tmp, tmp2, p, l);
    PointFrom(out, o, JDouble(p));
  }

  /** (out, o) = 2 * (inp, i), in place or apart. */
  method PointDouble(out: array<uint64>, o: nat, inp: array<uint64>, i: nat)
    requires IsPtr(out, o) && IsPtr(inp, i) && Aligned(out, o, inp, i) && Small(inp, i)
    modifies out
    ensures J(out, o) == JDouble(old(J(inp, i)))
    ensures PointLimbs(out, o) == DoubleL(old(PointLimbs(inp, i)))
    ensures ReducedPoint(out, o)
    ensures OnlyPoint(out, o)
    ensures OthersKept(out, o)
  {
    hide J, Small, JDouble, ReducedPoint, PointLimbs, DoubleL;
    ghost var p, l := J(inp, i), PointLimbs(inp, i);
    var tmp, tmp2 := new uint128[5], new uint128[5];
    var delta, gamma, beta, alpha := new uint64[3], new uint64[3], new uint64[3], new uint64[3];
    var ftmp, ftmp2 := new uint64[3], new uint64[3];
    DoubleWith(out, o, inp, i, delta, gamma, beta, alpha, ftmp, ftmp2, tmp, tmp2, p, l);
  }

  // ---- Addition ----

  ghost predicate Scratch5(a: array<uint64>, b: array<uint64>, c: array<uint64>, d: array<uint64>, e: array<uint64>,
                           x: array<uint64>)
  {
    a.Length == 3 && b.Length == 3 && c.Length == 3 && d.Length == 3 && e.Length == 3 &&
    a != b && a != c && a != d && a != e && b != c && b != d && b != e && c != d && c != e && d != e &&
    a != x && b != x && c != x && d != x && e != x
  }

  /** ftmp = z1^2*x2 - z2^2*x1, ftmp2 = z2^2*x1, ftmp3 = z1^3*y2 - z2^3*y1, ftmp4 = z2^3*y1 */
  method AddStart(ftmp: array<uint64>, ftmp2: array<uint64>, ftmp3: array<uint64>, ftmp4: array<uint64>,
                  ftmp5: array<uint64>,
                  tmp: array<uint128>, tmp2: array<uint128>,
                  a1: array<uint64>, i: nat, a2: array<uint64>, j: nat, ghost p: Jac, ghost q: Jac, ghost l: P9,
                  ghost k: P9)
    requires Scratch5(ftmp, ftmp2, ftmp3, ftmp4, ftmp5, a1) && Scratch5(ftmp, ftmp2, ftmp3, ftmp4, ftmp5, a2)
    requires tmp.Length == 5 && tmp2.Length == 5 && tmp != tmp2
    requires Is(a1, i, p.x, B57) && Is(a1, i + 3, p.y, B57) && Is(a1, i + 6, p.z, B57)
    requires Is(a2, j, q.x, B57) && Is(a2, j + 3, q.y, B57) && Is(a2, j + 6, q.z, B57)
    requires IsPtr(a1, i) && IsPtr(a2, j) && l == PointLimbs(a1, i) && k == PointLimbs(a2, j)
    modifies ftmp, ftmp2, ftmp3, ftmp4, tmp, tmp2
    ensures LimbsAt(ftmp, 0) == XDiffL(l, k) && LimbsAt(ftmp2, 0) == ScaledXL(l, k)
    ensures LimbsAt(ftmp3, 0) == YDiffL(l, k) && LimbsAt(ftmp4, 0) == ScaledYL(l, k)
    ensures Is(ftmp, 0, XDiff(p, q), B57) && Reduced(ftmp, 0)
    ensures Is(ftmp2, 0, FMul(FMul(q.z, q.z), p.x), B57)
    ensures Is(ftmp3, 0, YDiff(p, q), B57) && Reduced(ftmp3, 0)
    ensures Is(ftmp4, 0, FMul(FMul(FMul(q.z, q.z), q.z), p.y), B57)
  {
    hide Is, IsWide, F, FAdd, FSub, FMul, OnlyCoord, Reduced, SumL, DiffL, ScaleL, ScaleW, DiffW, DiffWL, MulL,
         SquareL, ReduceL, LimbsAt, WordsOf;
    ghost var m := 3 * (B57 * B57);
    ghost var zz1, zz2 := FMul(p.z, p.z), FMul(q.z, q.z);
    ghost var c1, c2 := FMul(zz1, p.z), FMul(zz2, q.z);
    Square(tmp, a1, i + 6, p.z, B57);
    Reduce(ftmp, 0, tmp, zz1, m);
    Square(tmp, a2, j + 6, q.z, B57);
    Reduce(ftmp2, 0, tmp, zz2, m);
    Mul(tmp, ftmp, 0, a1, i + 6, zz1, p.z, B57, B57);
    Reduce(ftmp3, 0, tmp, c1, m);
    Mul(tmp, ftmp2, 0, a2, j + 6, zz2, q.z, B57, B57);
    Reduce(ftmp4, 0, tmp, c2, m);
    Mul(tmp, ftmp3, 0, a2, j + 3, c1, q.y, B57, B57);
    Mul(tmp2, ftmp4, 0, a1, i + 3, c2, p.y, B57, B57);
    Reduce(ftmp4, 0, tmp2, FMul(c2, p.y), m);
    Diff128By64(tmp, ftmp4, 0, FMul(c1, q.y), FMul(c2, p.y), m, B57);
    Reduce(ftmp3, 0, tmp, YDiff(p, q), m + 3 * B62);
    Mul(tmp, ftmp, 0, a2, j, zz1, q.x, B57, B57);
    Mul(tmp2, ftmp2, 0, a1, i, zz2, p.x, B57, B57);
    Reduce(ftmp2, 0, tmp2, FMul(zz2, p.x), m);
    Diff128(tmp, tmp2, FMul(zz1, q.x), FMul(zz2, p.x), m, m);
    Reduce(ftmp, 0, tmp, XDiff(p, q), m + 3 * B118);
  }

  /** The coordinates of the sum, written in the order z, x, y. */
  method AddFinish(out: array<uint64>, o: nat,
                   ftmp: array<uint64>, ftmp2: array<uint64>, ftmp3: array<uint64>, ftmp4: array<uint64>,
                   ftmp5: array<uint64>,
                   tmp: array<uint128>, tmp2: array<uint128>,
                   a1: array<uint64>, i: nat, a2: array<uint64>, j: nat, ghost p: Jac, ghost q: Jac, ghost l: P9,
                   ghost k: P9)
    requires Scratch5(ftmp, ftmp2, ftmp3, ftmp4, ftmp5, a1) && Scratch5(ftmp, ftmp2, ftmp3, ftmp4, ftmp5, a2)
    requires Scratch5(ftmp, ftmp2, ftmp3, ftmp4, ftmp5, out)
    requires tmp.Length == 5 && tmp2.Length == 5 && tmp != tmp2 && IsPtr(out, o)
    requires Is(a1, i + 6, p.z, B57) && Is(a2, j + 6, q.z, B57)
    requires Is(ftmp, 0, XDiff(p, q), B57) && Is(ftmp2, 0, FMul(FMul(q.z, q.z), p.x), B57)
    requires Is(ftmp3, 0, YDiff(p, q), B57) && Is(ftmp4, 0, FMul(FMul(FMul(q.z, q.z), q.z), p.y), B57)
    requires Coord(a1, i + 6) && Coord(a2, j + 6) && LimbsAt(a1, i + 6) == l.z && LimbsAt(a2, j + 6) == k.z
    requires LimbsAt(ftmp, 0) == XDiffL(l, k) && LimbsAt(ftmp2, 0) == ScaledXL(l, k)
    requires LimbsAt(ftmp3, 0) == YDiffL(l, k) && LimbsAt(ftmp4, 0) == ScaledYL(l, k)
    modifies out, ftmp, ftmp2, ftmp5, tmp, tmp2
    ensures var s := JSum(p, q); Is(out, o, s.x, B57) && Is(out, o + 3, s.y, B57) && Is(out, o + 6, s.z, B57)
    ensures PointLimbs(out, o) == SumPL(l, k)
    ensures ReducedPoint(out, o) && OnlyPoint(out, o)
  {
    hide Is, IsWide, F, FAdd, FSub, FMul, Reduced, XDiff, YDiff, XDiffL, YDiffL, ScaledXL, ScaledYL, SumXL, SumYL,
         SumL, DiffL, ScaleL, ScaleW, DiffW, DiffWL, MulL, SquareL, ReduceL, LimbsAt, WordsOf;
    ghost var m := 3 * (B57 * B57);
    ghost var u, r, s := XDiff(p, q), YDiff(p, q), JSum(p, q);
    ghost var x1, y1 := FMul(FMul(q.z, q.z), p.x), FMul(FMul(FMul(q.z, q.z), q.z), p.y);
    ghost var uu := FMul(u, u);
    ghost var uuu, v := FMul(uu, u), FMul(x1, uu);
    Mul(tmp, a1, i + 6, a2, j + 6, p.z, q.z, B57, B57);
    Reduce(ftmp5, 0, tmp, FMul(p.z, q.z), m);
    Mul(tmp, ftmp, 0, ftmp5, 0, u, FMul(p.z, q.z), B57, B57);
    ReduceInto(out, o + 6, tmp, s.z, m);
    Copy(ftmp5, 0, ftmp, 0, u, B57);
    Square(tmp, ftmp, 0, u, B57);
    Reduce(ftmp, 0, tmp, uu, m);
    Mul(tmp, ftmp, 0, ftmp5, 0, uu, u, B57, B57);
    Reduce(ftmp5, 0, tmp, uuu, m);
    Mul(tmp, ftmp2, 0, ftmp, 0, x1, uu, B57, B57);
    Reduce(ftmp2, 0, tmp, v, m);
    Mul(tmp, ftmp4, 0, ftmp5, 0, y1, uuu, B57, B57);
    AddXY(out, o, ftmp2, ftmp3, ftmp5, tmp, tmp2, r, v, uuu, FMul(y1, uuu), s, SumPL(l, k));
  }

  /** x3 = r^2 - uuu - 2*v, then y3 = r*(v - x3) - t */
  method AddXY(out: array<uint64>, o: nat, ftmp2: array<uint64>, ftmp3: array<uint64>, ftmp5: array<uint64>,
               tmp: array<uint128>, tmp2: array<uint128>, ghost r: int, ghost v: int, ghost uuu: int, ghost t: int,
               ghost s: Jac, ghost l: P9)
    requires IsPtr(out, o) && ftmp2.Length == ftmp3.Length == ftmp5.Length == 3 && tmp.Length == tmp2.Length == 5
    requires tmp != tmp2
    requires out !in {ftmp2, ftmp3, ftmp5} && ftmp2 !in {ftmp3, ftmp5} && ftmp3 != ftmp5
    requires Is(ftmp2, 0, v, B57) && Is(ftmp3, 0, r, B57) && Is(ftmp5, 0, uuu, B57) && IsWide(tmp, t, 3 * (B57 * B57))
    requires s.x == FSub(FSub(FMul(r, r), uuu), FMul(F(2), v)) && s.y == FSub(FMul(r, FSub(v, s.x)), t)
    requires Is(out, o + 6, s.z, B57) && Reduced(out, o + 6)
    requires LimbsAt(out, o + 6) == l.z && l.x == SumXL(LimbsAt(ftmp3, 0), LimbsAt(ftmp5, 0), LimbsAt(ftmp2, 0))
    requires l.y == SumYL(LimbsAt(ftmp3, 0), LimbsAt(ftmp2, 0), l.x, WordsOf(tmp))
    modifies out, ftmp2, ftmp5, tmp2
    ensures Is(out, o, s.x, B57) && Is(out, o + 3, s.y, B57) && Is(out, o + 6, s.z, B57)
    ensures PointLimbs(out, o) == l
    ensures ReducedPoint(out, o) && OnlyPoint(out, o)
  {
    hide Is, IsWide, F, FAdd, FSub, FMul, Reduced, SumL, DiffL, ScaleL, ScaleW, DiffW, DiffWL, MulL, SquareL, ReduceL,
         LimbsAt, WordsOf;
    ghost var m := 3 * (B57 * B57);
    Square(tmp2, ftmp3, 0, r, B57);
    Diff128By64(tmp2, ftmp5, 0, FMul(r, r), uuu, m, B57);
    Copy(ftmp5, 0, ftmp2, 0, v, B57);
    Scalar64(ftmp5, 0, 2, v, B57);
    Diff128By64(tmp2, ftmp5, 0, FSub(FMul(r, r), uuu), FMul(F(2), v), m + 3 * B62, 2 * B57);
    ReduceInto(out, o, tmp2, s.x, m + 3 * B62 + 3 * B62);
    Diff64(ftmp2, 0, out, o, v, s.x, B57);
    Mul(tmp2, ftmp3, 0, ftmp2, 0, r, FSub(v, s.x), B57, B57 + 3 * B56);
    Diff128(tmp2, tmp, FMul(r, FSub(v, s.x)), t, 3 * (B57 * (B57 + 3 * B56)), m);
    ReduceInto(out, o + 3, tmp2, s.y, 3 * (B57 * (B57 + 3 * B56)) + 3 * B118);
  }

  // ---- Conditional copy ----

  lemma Select(x: nat, y: nat, icopy: nat)
    requires icopy <= 1 && x < WORD64 && y < WORD64
    ensures Xor(y, And(if icopy == 0 then 0 else WORD64 - 1, Xor(x, y))) == if icopy == 1 then x else y
    ensures And(if icopy == 0 then 0 else WORD64 - 1, Xor(x, y)) < WORD64
  {
    hide AllOnes, Xor;
    WordIsOnes();
    XorBound(x, y, WORD64 - 1);
    AndOnes(WORD64 - 1, Xor(x, y));
    XorCancel(x, y);
    XorZero(y);
  }

  /** Copy the coordinate at (inp, i) when icopy is 1 and leave the output alone when it is 0,
      by masking with the all-ones or all-zeros word -icopy. */
  method CopyConditional(out: array<uint64>, o: nat, inp: array<uint64>, i: nat, icopy: uint64)
    requires Coord(out, o) && Coord(inp, i) && icopy <= 1
    requires out == inp ==> o == i || o + 3 <= i || i + 3 <= o
    modifies out
    ensures forall n :: o <= n < o + 3 ==> out[n] == old(if icopy == 1 then inp[n - o + i] else out[n])
    ensures LimbsAt(out, o) == old(if icopy == 1 then LimbsAt(inp, i) else LimbsAt(out, o))
    ensures forall k: nat :: Coord(out, k) && (k + 3 <= o || o + 3 <= k) ==> LimbsAt(out, k) == old(LimbsAt(out, k))
    ensures OnlyCoord(out, o)
  {
    hide Xor, And, F;
    ghost var was := out[..];
    ghost var src := inp[..];
    var mask: uint64 := if icopy == 0 then 0 else 0xffff_ffff_ffff_ffff;
    var k := 0;
    while k < 3
      invariant 0 <= k <= 3
      invariant forall n :: o <= n < o + k ==> out[n] == if icopy == 1 then src[n - o + i] else was[n]
      invariant forall n :: 0 <= n < out.Length && !(o <= n < o + k) ==> out[n] == was[n]
    {
      assert inp[i + k] == src[i + k];
      Select(inp[i + k] as nat, out[o + k] as nat, icopy as nat);
      var t := And(mask as nat, Xor(inp[i + k] as nat, out[o + k] as nat)) as uint64;
      out[o + k] := Xor(out[o + k] as nat, t as nat) as uint64;
      k := k + 1;
    }
  }

  /** What `PointAdd` writes, limb by limb. */
  ghost function AddLimbs(l: P9, k: P9, inPlace: bool): P9 {
    var p, q := ToJac(l), ToJac(k);
    if XDiff(p, q) == 0 && YDiff(p, q) == 0 && !ZeroForm(l.z) && !ZeroForm(k.z) then DoubleL(l)
    else if ZeroForm(k.z) && !inPlace then l
    else if ZeroForm(l.z) then k
    else SumPL(l, k)
  }

  /** Writing over the first operand gives the limbs of the call with separate outputs exactly when
      the second operand is finite or both are infinite with the same limbs. */
  lemma InPlaceLimbs(l: P9, k: P9)
    requires Testable(l.z) && Testable(k.z)
    ensures AddLimbs(l, k, true) == AddLimbs(l, k, false) <==> Res(k.z) != 0 || (Res(l.z) == 0 && l == k)
  {
    hide F, ZeroForm, Testable, DoubleL, XDiff, YDiff, XDiffL, YDiffL, ScaledXL, ScaledYL, MulL, ReduceL, Sum3, WSum;
    ZeroForms(l.z);
    ZeroForms(k.z);
    if Res(k.z) == 0 {
      // The z coordinate of the sum is a product with a zero, and stays zero through reduction.
      var u, zz := XDiffL(l, k), MulL(l.z, k.z);
      MulResidue(l.z, k.z);
      ReduceResidue(zz);
      ZeroTimes(Res(l.z));
      MulResidue(u, ReduceL(zz));
      ReduceResidue(MulL(u, ReduceL(zz)));
      ZeroTimes(Res(u));
      assert Res(SumPL(l, k).z) == 0;
    }
  }

  /** The coordinates and the form of a point are determined by its limbs. */
  lemma SameLimbs(a: array<uint64>, o: nat, l: P9)
    requires IsPtr(a, o) && PointLimbs(a, o) == l
    ensures J(a, o) == ToJac(l) && (ReducedPoint(a, o) <==> ReducedP(l))
  {
    hide F;
  }

  ghost function ToJac(l: P9): Jac { Jac(Res(l.x), Res(l.y), Res(l.z)) }

  ghost predicate ReducedP(l: P9) { ReducedL(l.x) && ReducedL(l.y) && ReducedL(l.z) }

  ghost predicate ReducedL(l: L3) { l.x < B56 && l.y < B56 && l.z <= B56 }

  /** Put the second or the first operand into the output when the other one is at infinity. */
  method CopyPoint(out: array<uint64>, o: nat, a1: array<uint64>, i: nat, a2: array<uint64>, j: nat,
                   z1IsZero: uint64, z2IsZero: uint64)
    requires IsPtr(out, o) && IsPtr(a1, i) && IsPtr(a2, j) && z1IsZero <= 1 && z2IsZero <= 1
    requires Aligned(out, o, a1, i) && (out == a2 ==> o + 9 <= j || j + 9 <= o)
    modifies out
    ensures PointLimbs(out, o) == old(if z2IsZero == 1 && !(out == a1 && o == i) then PointLimbs(a1, i)
                                      else if z1IsZero == 1 then PointLimbs(a2, j) else PointLimbs(out, o))
    ensures OnlyPoint(out, o)
    ensures forall k: nat :: IsPtr(out, k) && (k + 9 <= o || o + 9 <= k) ==>
              PointLimbs(out, k) == old(PointLimbs(out, k))
  {
    hide LimbsAt;
    CopyConditional(out, o, a2, j, z1IsZero);
    CopyConditional(out, o, a1, i, z2IsZero);
    CopyConditional(out, o + 3, a2, j + 3, z1IsZero);
    CopyConditional(out, o + 3, a1, i + 3, z2IsZero);
    CopyConditional(out, o + 6, a2, j + 6, z1IsZero);
    CopyConditional(out, o + 6, a1, i + 6, z2IsZero);
  }

  /** `CopyPoint` in terms of coordinates. */
  method AddCopies(out: array<uint64>, o: nat, a1: array<uint64>, i: nat, a2: array<uint64>, j: nat,
                   z1IsZero: uint64, z2IsZero: uint64)
    requires IsPtr(out, o) && IsPtr(a1, i) && IsPtr(a2, j) && z1IsZero <= 1 && z2IsZero <= 1
    requires Aligned(out, o, a1, i) && (out == a2 ==> o + 9 <= j || j + 9 <= o)
    modifies out
    ensures J(out, o) == old(if z2IsZero == 1 && !(out == a1 && o == i) then J(a1, i)
                             else if z1IsZero == 1 then J(a2, j) else J(out, o))
    ensures PointLimbs(out, o) == old(if z2IsZero == 1 && !(out == a1 && o == i) then PointLimbs(a1, i)
                                      else if z1IsZero == 1 then PointLimbs(a2, j) else PointLimbs(out, o))
    ensures ReducedPoint(out, o) == old(if z2IsZero == 1 && !(out == a1 && o == i) then ReducedPoint(a1, i)
                                        else if z1IsZero == 1 then ReducedPoint(a2, j) else ReducedPoint(out, o))
    ensures OnlyPoint(out, o) && OthersKept(out, o)
  {
    hide F, J, ReducedPoint, PointLimbs, ReducedP, ToJac;
    forall k: nat | IsPtr(out, k)
      ensures J(out, k) == ToJac(PointLimbs(out, k)) && (ReducedPoint(out, k) <==> ReducedP(PointLimbs(out, k)))
    {
      SameLimbs(out, k, PointLimbs(out, k));
    }
    SameLimbs(a1, i, PointLimbs(a1, i));
    SameLimbs(a2, j, PointLimbs(a2, j));
    CopyPoint(out, o, a1, i, a2, j, z1IsZero, z2IsZero);
    forall k: nat | IsPtr(out, k)
      ensures J(out, k) == ToJac(PointLimbs(out, k)) && (ReducedPoint(out, k) <==> ReducedP(PointLimbs(out, k)))
    {
      SameLimbs(out, k, PointLimbs(out, k));
    }
  }

  /** `AddFinish` in terms of whole points. */
  method AddSum(out: array<uint64>, o: nat,
                ftmp: array<uint64>, ftmp2: array<uint64>, ftmp3: array<uint64>, ftmp4: array<uint64>,
                ftmp5: array<uint64>,
                tmp: array<uint128>, tmp2: array<uint128>,
                a1: array<uint64>, i: nat, a2: array<uint64>, j: nat, ghost p: Jac, ghost q: Jac, ghost l: P9,
                ghost k: P9)
    requires Scratch5(ftmp, ftmp2, ftmp3, ftmp4, ftmp5, a1) && Scratch5(ftmp, ftmp2, ftmp3, ftmp4, ftmp5, a2)
    requires Scratch5(ftmp, ftmp2, ftmp3, ftmp4, ftmp5, out)
    requires tmp.Length == 5 && tmp2.Length == 5 && tmp != tmp2 && IsPtr(out, o)
    requires Is(a1, i + 6, p.z, B57) && Is(a2, j + 6, q.z, B57)
    requires Is(ftmp, 0, XDiff(p, q), B57) && Is(ftmp2, 0, FMul(FMul(q.z, q.z), p.x), B57)
    requires Is(ftmp3, 0, YDiff(p, q), B57) && Is(ftmp4, 0, FMul(FMul(FMul(q.z, q.z), q.z), p.y), B57)
    requires Coord(a1, i + 6) && Coord(a2, j + 6) && LimbsAt(a1, i + 6) == l.z && LimbsAt(a2, j + 6) == k.z
    requires LimbsAt(ftmp, 0) == XDiffL(l, k) && LimbsAt(ftmp2, 0) == ScaledXL(l, k)
    requires LimbsAt(ftmp3, 0) == YDiffL(l, k) && LimbsAt(ftmp4, 0) == ScaledYL(l, k)
    modifies out, ftmp, ftmp2, ftmp5, tmp, tmp2
    ensures PointLimbs(out, o) == SumPL(l, k)
    ensures J(out, o) == JSum(p, q) && ReducedPoint(out, o) && OnlyPoint(out, o) && OthersKept(out, o)
  {
    hide F, FMul, Is, JSum, XDiff, YDiff, XDiffL, YDiffL, ScaledXL, ScaledYL, SumPL;
    AddFinish(out, o, ftmp, ftmp2, ftmp3, ftmp4, ftmp5, tmp, tmp2, a1, i, a2, j, p, q, l, k);
    PointFrom(out, o, JSum(p, q));
  }

  /** The four tests of `point_add`; those of the differences are on reduced limbs. */
  method AddTests(ftmp: array<uint64>, ftmp3: array<uint64>, a1: array<uint64>, i: nat, a2: array<uint64>, j: nat,
                  ghost p: Jac, ghost q: Jac, ghost l: P9, ghost k: P9) returns (same: bool, z1: uint64, z2: uint64)
    requires IsPtr(a1, i) && IsPtr(a2, j) && l == PointLimbs(a1, i) && k == PointLimbs(a2, j)
    requires Is(ftmp, 0, XDiff(p, q), B57) && Reduced(ftmp, 0) && Is(ftmp3, 0, YDiff(p, q), B57) && Reduced(ftmp3, 0)
    ensures z1 == (if ZeroForm(l.z) then 1 else 0) && z2 == (if ZeroForm(k.z) then 1 else 0)
    ensures same == (XDiff(p, q) == 0 && YDiff(p, q) == 0 && !ZeroForm(l.z) && !ZeroForm(k.z))
  {
    hide F, XDiff, YDiff, ZeroForm, Testable;
    ReducedTestable(ftmp, 0);
    ReducedTestable(ftmp3, 0);
    var xEqual := IsZero(ftmp, 0, XDiff(p, q));
    var yEqual := IsZero(ftmp3, 0, YDiff(p, q));
    z1 := IsZero(a1, i + 6, R(a1, i + 6));
    z2 := IsZero(a2, j + 6, R(a2, j + 6));
    same := xEqual != 0 && yEqual != 0 && z1 == 0 && z2 == 0;
  }

  /** Addition with the local buffers given. */
  method AddWith(out: array<uint64>, o: nat, a1: array<uint64>, i: nat, a2: array<uint64>, j: nat,
                 ftmp: array<uint64>, ftmp2: array<uint64>, ftmp3: array<uint64>, ftmp4: array<uint64>,
                 ftmp5: array<uint64>, tmp: array<uint128>, tmp2: array<uint128>,
                 ghost p: Jac, ghost q: Jac, ghost l: P9, ghost k: P9)
    requires IsPtr(out, o) && IsPtr(a1, i) && IsPtr(a2, j) && p == J(a1, i) && q == J(a2, j)
    requires l == PointLimbs(a1, i) && k == PointLimbs(a2, j)
    requires Aligned(out, o, a1, i) && (out == a2 ==> o + 9 <= j || j + 9 <= o)
    requires Small(a1, i) && Small(a2, j)
    requires Scratch5(ftmp, ftmp2, ftmp3, ftmp4, ftmp5, a1) && Scratch5(ftmp, ftmp2, ftmp3, ftmp4, ftmp5, a2)
    requires Scratch5(ftmp, ftmp2, ftmp3, ftmp4, ftmp5, out) && tmp.Length == 5 && tmp2.Length == 5 && tmp != tmp2
    modifies out, ftmp, ftmp2, ftmp3, ftmp4, ftmp5, tmp, tmp2
    ensures J(out, o) == AddCases(p, q, ZeroForm(l.z), ZeroForm(k.z), out == a1 && o == i)
    ensures PointLimbs(out, o) == AddLimbs(l, k, out == a1 && o == i)
    ensures old(ReducedPoint(a1, i) && ReducedPoint(a2, j)) || (!ZeroForm(l.z) && !ZeroForm(k.z)) ==>
              ReducedPoint(out, o)
    ensures OnlyPoint(out, o) && OthersKept(out, o)
  {
    hide F, FMul, R, Is, Below, Small, J, JDouble, JSum, XDiff, YDiff, Reduced, LimbsAt, XDiffL, YDiffL, ScaledXL,
         ScaledYL, SumPL, DoubleL, ZeroForm, ToJac, PointLimbs, ReducedPoint;
    PointIs(a1, i);
    PointIs(a2, j);
    SameLimbs(a1, i, l);
    SameLimbs(a2, j, k);
    LimbsZ(a1, i);
    LimbsZ(a2, j);
    AddStart(ftmp, ftmp2, ftmp3, ftmp4, ftmp5, tmp, tmp2, a1, i, a2, j, p, q, l, k);
    var same, z1IsZero, z2IsZero := AddTests(ftmp, ftmp3, a1, i, a2, j, p, q, l, k);
    // In affine coordinates the points are equal: double instead.
    if same {
      PointDouble(out, o, a1, i);
      return;
    }
    AddSum(out, o, ftmp, ftmp2, ftmp3, ftmp4, ftmp5, tmp, tmp2, a1, i, a2, j, p, q, l, k);
    AddCopies(out, o, a1, i, a2, j, z1IsZero, z2IsZero);
  }

  lemma LimbsZ(a: array<uint64>, o: nat)
    requires IsPtr(a, o)
    ensures PointLimbs(a, o).z == LimbsAt(a, o + 6)
  {}

  /** (out, o) = (a1, i) + (a2, j) for all limbs below 2^57; the output may be the first operand. The
      tests for infinity see the limbs: they are right on testable z coordinates. */
  method PointAdd(out: array<uint64>, o: nat, a1: array<uint64>, i: nat, a2: array<uint64>, j: nat)
    requires IsPtr(out, o) && IsPtr(a1, i) && IsPtr(a2, j)
    requires Aligned(out, o, a1, i) && (out == a2 ==> o + 9 <= j || j + 9 <= o)
    requires Small(a1, i) && Small(a2, j)
    modifies out
    ensures PointLimbs(out, o) == AddLimbs(old(PointLimbs(a1, i)), old(PointLimbs(a2, j)), out == a1 && o == i)
    ensures var z1, z2 := ZeroForm(old(PointLimbs(a1, i)).z), ZeroForm(old(PointLimbs(a2, j)).z);
            && J(out, o) == AddCases(old(J(a1, i)), old(J(a2, j)), z1, z2, out == a1 && o == i)
            && (old(ReducedPoint(a1, i) && ReducedPoint(a2, j)) || (!z1 && !z2) ==> ReducedPoint(out, o))
    ensures Testable(old(PointLimbs(a1, i)).z) && Testable(old(PointLimbs(a2, j)).z) ==>
              J(out, o) == AddResult(old(J(a1, i)), old(J(a2, j)), out == a1 && o == i)
    ensures OnlyPoint(out, o)
    ensures OthersKept(out, o)
  {
    hide J, ReducedPoint, AddCases, AddLimbs, PointLimbs, ZeroForm, Small, Testable;
    ghost var p, q, l, k := J(a1, i), J(a2, j), PointLimbs(a1, i), PointLimbs(a2, j);
    TestsRight(a1, i);
    TestsRight(a2, j);
    var ftmp, ftmp2, ftmp3 := new uint64[3], new uint64[3], new uint64[3];
    var ftmp4, ftmp5 := new uint64[3], new uint64[3];
    var tmp, tmp2 := new uint128[5], new uint128[5];
    AddWith(out, o, a1, i, a2, j, ftmp, ftmp2, ftmp3, ftmp4, ftmp5, tmp, tmp2, p, q, l, k);
  }

  lemma TestsRight(a: array<uint64>, o: nat)
    requires IsPtr(a, o)
    ensures Testable(PointLimbs(a, o).z) ==> (ZeroForm(PointLimbs(a, o).z) <==> J(a, o).z == 0)
  {
    hide F;
    ZeroForms(LimbsAt(a, o + 6));
  }

  /** Addition of points as `PointDouble` and `PointAdd` leave them. */
  method AddReduced(out: array<uint64>, o: nat, a1: array<uint64>, i: nat, a2: array<uint64>, j: nat)
    requires IsPtr(out, o) && IsPtr(a1, i) && IsPtr(a2, j)
    requires Aligned(out, o, a1, i) && (out == a2 ==> o + 9 <= j || j + 9 <= o)
    requires ReducedPoint(a1, i) && ReducedPoint(a2, j)
    modifies out
    ensures J(out, o) == AddResult(old(J(a1, i)), old(J(a2, j)), out == a1 && o == i) && ReducedPoint(out, o)
    ensures OnlyPoint(out, o) && OthersKept(out, o)
  {
    hide J, ReducedPoint, AddCases, AddResult, AddLimbs, PointLimbs, ZeroForm, Small, Testable;
    ReducedIs(a1, i);
    ReducedIs(a2, j);
    TestableZ(a1, i);
    TestableZ(a2, j);
    PointAdd(out, o, a1, i, a2, j);
  }

  lemma TestableZ(a: array<uint64>, o: nat)
    requires IsPtr(a, o) && ReducedPoint(a, o)
    ensures Testable(PointLimbs(a, o).z)
  {}
}
