/** `ptwist_pointmul`: multiply an x coordinate, given and returned as 21 bytes, on whichever of
    the two curves it belongs to. */
module Ptwist {
  import opened Bytes
  import opened Fp
  import opened Felem
  import opened Limbs
  import opened FelemPow
  import opened Curve
  import opened Group
  import opened Point
  import opened PointMul
  import opened Twist

  lemma AffineXValue(j: Jac, a: Aff)
    requires PrimeP() && Represents(j, a) && a.Pt? && IsPoint(a)
    ensures FMul(j.x, FMul(FPow(j.z, PM2), FPow(j.z, PM2))) == a.x
  {
    hide F, FMul, Pow, FPow;
    var z := j.z;
    var i := FPow(z, PM2);
    SelfF(z);
    InverseSpec(z);
    PowRange(z, PM2);
    SelfF(i);
    MulIsF(i, i);
    MulF(a.x * (z * z), i * i, j.x, FMul(i, i));
    InverseMonomials(a.x, z, i);
    MulF(z * i, z * i, 1, 1);
    MulIsF(1, 1);
    MulF(a.x, (z * i) * (z * i), F(a.x), F(1 * 1));
    FOne();
    assert 1 * 1 == 1 && a.x * 1 == a.x;
    MulF(a.x, 1, F(a.x), 1);
    SelfF(a.x);
  }

  lemma InverseMonomials(x: int, z: int, i: int)
    ensures (x * (z * z)) * (i * i) == x * ((z * i) * (z * i))
  {}

  lemma InverseSpec(z: int)
    requires PrimeP() && F(z) != 0
    ensures F(z * FPow(z, PM2)) == 1
  {
    hide F, FMul, Pow;
    FPowAdd(z, 1, PM2);
    FPowTwo(z);
    Fermat(z);
    HomMul(z, FPow(z, PM2));
    FOfF(Pow(z, PM2));
  }

  /** The affine x coordinate of a point; at infinity the output is left unwritten. */
  method AffineX(out: array<uint64>, p: array<uint64>)
    requires out.Length == 3 && p.Length == 9 && out != p && ReducedPoint(p, 0)
    modifies out
    ensures var j := J(p, 0); if j.z == 0 then out[..] == old(out[..])
            else Reduced(out, 0) && Val(out, 0) == FMul(j.x, FMul(FPow(j.z, PM2), FPow(j.z, PM2)))
  {
    hide F, FMul, FPow, Is, R, Val, Below, SumL, DiffL, ScaleL, ScaleW, DiffW, DiffWL, MulL, SquareL, ReduceL,
         LimbsAt, WordsOf;
    ghost var j := J(p, 0);
    ReducedIs(p, 0);
    ReducedTestable(p, 6);
    var isInf := IsZero(p, 6, j.z);
    if isInf != 0 { return; }
    var z1, z2, xin := new uint64[3], new uint64[3], new uint64[3];
    InverseBelow(p, j.z);
    Inv(z2, 0, p, 6);
    ghost var i := FPow(j.z, PM2);
    AsIs(z2, 0, i);
    SquareTimes2(xin, z1, z2, p, j.x, i);
    IsValue(xin, 0, FMul(j.x, FMul(i, i)), B57);
    Contract(out, 0, xin, 0);
  }

  lemma InverseBelow(p: array<uint64>, z: int)
    requires p.Length == 9 && Is(p, 6, z, B57)
    ensures R(p, 6) == z && Below(p, 6, B58)
  {}

  /** xin = x * z2^2, with x at (p, 0) */
  method SquareTimes2(xin: array<uint64>, z1: array<uint64>, z2: array<uint64>, p: array<uint64>, ghost x: int,
                      ghost i: int)
    requires xin.Length == 3 && z1.Length == 3 && z1 != p && Is(z2, 0, i, B57) && Is(p, 0, x, B57)
    modifies xin, z1
    ensures Is(xin, 0, FMul(x, FMul(i, i)), B57) && Reduced(xin, 0)
  {
    hide FMul, Is, IsWide, SumL, DiffL, ScaleL, ScaleW, DiffW, DiffWL, MulL, SquareL, ReduceL, LimbsAt, WordsOf;
    var tmp := new uint128[5];
    Square(tmp, z2, 0, i, B57);
    Reduce(z1, 0, tmp, FMul(i, i), 3 * (B57 * B57));
    Felem.Mul(tmp, p, 0, z1, 0, x, FMul(i, i), B57, B57);
    Reduce(xin, 0, tmp, FMul(x, FMul(i, i)), 3 * (B57 * B57));
  }

  lemma AsIs(a: array<uint64>, o: nat, v: int)
    requires Coord(a, o) && Reduced(a, o) && R(a, o) == v
    ensures Is(a, o, v, B57)
  {}

  lemma IsValue(a: array<uint64>, o: nat, v: int, m: int)
    requires Is(a, o, v, m)
    ensures Coord(a, o) && R(a, o) == v && Below(a, o, m)
  {}

  /** The bytes reported for x times k: the coordinate of the multiple of the lifted point, modulo 2^168. */
  function MulBytes(x: seq<uint8>, k: seq<uint8>): seq<uint8>
    requires Times(LeVal(k), Lift(LeVal(x))).Pt?
  {
    ToBytes(OutVal(LeVal(x), Times(LeVal(k), Lift(LeVal(x)))), 21)
  }

  /** z = x^3 - 3x + b, with x at (p, 0) */
  method CurveRhs(z: array<uint64>, p: array<uint64>, ghost x: int)
    requires z.Length == 3 && p.Length == 9 && z != p && Is(p, 0, F(x), B57)
    modifies z
    ensures Is(z, 0, Z(x), B58)
  {
    hide F, FMul, FSub, FAdd, Is, IsWide, OnlyCoord, Reduced, SumL, DiffL, ScaleL, ScaleW, DiffW, DiffWL, MulL,
         SquareL, ReduceL, LimbsAt, WordsOf;
    var three, b, tmp := new uint64[3], new uint64[3], new uint128[5];
    three[0], three[1], three[2] := 3, 0, 0;
    b[0], b[1], b[2] := 0x46d320e01dc7d6, 0x486ebc69bad316, 0x4e355e95cafedd;
    Constants(three, b);
    ghost var r := F(x);
    Square(tmp, p, 0, r, B57);
    Reduce(z, 0, tmp, FMul(r, r), 3 * (B57 * B57));
    Diff64(z, 0, three, 0, FMul(r, r), F(3), B57);
    Felem.Mul(tmp, z, 0, p, 0, FSub(FMul(r, r), F(3)), r, B57 + 3 * B56, B57);
    ghost var t := FMul(FSub(FMul(r, r), F(3)), r);
    Reduce(z, 0, tmp, t, 3 * ((B57 + 3 * B56) * B57));
    Sum64(z, 0, b, 0, t, F(CURVE_B), B57, B57);
    RhsValue(x);
    Widen(z, B57 + B57, B58, Z(x));
  }

  lemma Widen(z: array<uint64>, m: int, n: int, v: int)
    requires Is(z, 0, v, m) && m <= n
    ensures Is(z, 0, v, n)
  {}

  lemma Constants(three: array<uint64>, b: array<uint64>)
    requires three.Length == 3 && b.Length == 3
    requires three[0] == 3 && three[1] == 0 && three[2] == 0
    requires b[0] == 0x46d320e01dc7d6 && b[1] == 0x486ebc69bad316 && b[2] == 0x4e355e95cafedd
    ensures Is(three, 0, F(3), B57) && Is(b, 0, F(CURVE_B), B57)
  {
    assert Val(three, 0) == 3;
    assert Val(b, 0) == CURVE_B;
  }

  lemma RhsValue(x: int)
    ensures FAdd(FMul(FSub(FMul(F(x), F(x)), F(3)), F(x)), F(CURVE_B)) == Z(x)
  {
    hide F, FMul, FSub, FAdd;
    MulF(x, x, F(x), F(x));
    SubF(x * x, 3, F(x * x), F(3));
    MulF(x * x - 3, x, F(x * x - 3), F(x));
    AddF((x * x - 3) * x, CURVE_B, F((x * x - 3) * x), F(CURVE_B));
    assert (x * x - 3) * x == x * x * x - 3 * x;
  }

  /** Put the candidate root of x^3 - 3x + b at (p, 3) and test it. */
  method FindRoot(p: array<uint64>, ghost x: int) returns (isRoot: uint64)
    requires p.Length == 9 && Is(p, 0, F(x), B57)
    modifies p
    ensures Reduced(p, 3) && R(p, 3) == Root(x) && OnlyCoord(p, 3)
    ensures isRoot == if OnMain(x) then 1 else 0
  {
    hide F, FMul, FSub, FPow, Is, IsWide, Z, SumL, DiffL, ScaleL, ScaleW, DiffW, DiffWL, MulL, SquareL, ReduceL,
         LimbsAt, WordsOf;
    var z, r2, tmp := new uint64[3], new uint64[3], new uint128[5];
    CurveRhs(z, p, x);
    IsValue(z, 0, Z(x), B58);
    Sqrt(p, 3, z, 0);
    ghost var r := Root(x);
    AsIs(p, 3, r);
    Square(tmp, p, 3, r, B57);
    Diff128By64(tmp, z, 0, FMul(r, r), Z(x), 3 * (B57 * B57), B58);
    Reduce(r2, 0, tmp, FSub(FMul(r, r), Z(x)), 3 * (B57 * B57) + 3 * B62);
    ReducedTestable(r2, 0);
    IsValue(r2, 0, FSub(FMul(r, r), Z(x)), B57);
    isRoot := IsZero(r2, 0, FSub(FMul(r, r), Z(x)));
    RootTest(x);
  }

  /** Lift the x coordinate at (p, 0) to a point with y at (p, 3) and z = 1, negating x for the twist. */
  method LiftInPlace(p: array<uint64>, ghost x: int) returns (onTwist: bool)
    requires p.Length == 9 && Below(p, 0, B56) && R(p, 0) == F(x)
    modifies p
    ensures ReducedPoint(p, 0) && onTwist == !OnMain(x)
    ensures Represents(J(p, 0), Lift(x))
  {
    hide F, OnMain, Root;
    AsIsBelow(p, 0, F(x));
    var isRoot := FindRoot(p, x);
    assert R(p, 0) == F(x);
    onTwist := isRoot == 0;
    if onTwist {
      NegResidue(p, x);
      Neg(p, 0, p, 0);
    }
    assert R(p, 0) == Lift(x).x && R(p, 3) == Root(x) && Reduced(p, 0) && Reduced(p, 3);
    ghost var was := p[..6];
    p[6], p[7], p[8] := 1, 0, 0;
    assert p[..6] == was;
    assert R(p, 0) == Lift(x).x && R(p, 3) == Root(x);
    assert Val(p, 6) == 1;
    LiftRepresents(x);
    FOne();
  }

  lemma LiftRepresents(x: int)
    ensures Represents(Jac(Lift(x).x, Root(x), 1), Lift(x))
  {
    hide F, FMul, Cubic, Pow;
    FOfF(x);
    FOfF(-x);
    FOfF(Pow(Z(x), PP1D4));
    assert Lift(x).x * (1 * 1) == Lift(x).x && Root(x) * (1 * 1 * 1) == Root(x);
  }

  lemma AsIsBelow(a: array<uint64>, o: nat, v: int)
    requires Coord(a, o) && Below(a, o, B56) && R(a, o) == v
    ensures Is(a, o, v, B57)
  {}

  lemma NegResidue(p: array<uint64>, x: int)
    requires Coord(p, 0) && R(p, 0) == F(x)
    ensures F(-Val(p, 0)) == F(-x)
  {
    NegatedF(Val(p, 0), x);
  }

  lemma RootTest(x: int)
    ensures FSub(FMul(Root(x), Root(x)), Z(x)) == 0 <==> OnMain(x)
  {
    hide F, FPow, Cubic;
    DifferenceZero(FMul(Root(x), Root(x)), Z(x));
    FOfF(Root(x) * Root(x));
    FOfF(Cubic(x, CURVE_B));
  }

  /** Read x, lift it, multiply, take the affine coordinate, negate it back for the twist and write
      it out. When the multiple is infinite the C code reads an unset variable, so nothing is
      promised of the output bytes then. */
  method PtwistPointmul(out: array<uint8>, x: seq<uint8>, seckey: seq<uint8>)
    requires out.Length >= 21 && |x| == 21 && |seckey| == 21
    modifies out
    ensures out[21..] == old(out[21..])
    ensures var a := Lift(LeVal(x));
            Assumed(a, LiftB(LeVal(x))) && Times(LeVal(seckey), a).Pt? ==> out[..21] == MulBytes(x, seckey)
  {
    hide F, FMul, FPow, J, Val, Represents, Assumed, Laws, Lift, LiftB, OnMain, Times, ReducedPoint, ToBytes, LeVal,
         Below, Reduced;
    ghost var v, k := LeVal(x), LeVal(seckey);
    ghost var a, b := Lift(v), LiftB(v);
    if Assumed(a, b) { LawsOfLift(v); }
    var p, q, qx := new uint64[9], new uint64[9], new uint64[3];
    BinToFelem(p, 0, x);
    var onTwist := LiftInPlace(p, v);
    PointMul.PointMul(q, p, seckey, a, b);
    AffineX(qx, q);
    var finite := IsFinite(q);
    if finite {
      ghost var c := Val(qx, 0);
      if onTwist {
        ReducedBelow(qx);
        Neg(qx, 0, qx, 0);
      }
      assert Val(qx, 0) == if onTwist then NegVal(c) else c;
      FelemToBin(out, qx);
      if Laws(a, b) && Times(k, a).Pt? { Finite(J(q, 0), k, a, b); }
    } else {
      if Laws(a, b) { NotFinite(J(q, 0), Times(k, a)); }
      Indeterminate(out);
    }
  }

  /** Bytes computed from an unset variable: any bytes at all. */
  method Indeterminate(out: array<uint8>)
    requires out.Length >= 21
    modifies out
    ensures out[21..] == old(out[21..])
  {
    var i := 0;
    while i < 21
      invariant 0 <= i <= 21 && out[21..] == old(out[21..])
    {
      out[i] := *;
      i := i + 1;
    }
  }

  /** Whether a point is finite; used to tell when `AffineX` left its output unset. */
  method IsFinite(q: array<uint64>) returns (r: bool)
    requires q.Length == 9 && ReducedPoint(q, 0)
    ensures r == (J(q, 0).z != 0)
  {
    ReducedIs(q, 0);
    ReducedTestable(q, 6);
    var z := IsZero(q, 6, J(q, 0).z);
    r := z == 0;
  }

  lemma ReducedBelow(a: array<uint64>)
    requires a.Length == 3 && Reduced(a, 0)
    ensures Below(a, 0, B57)
  {}

  lemma Finite(j: Jac, k: nat, a: Aff, b: int)
    requires Laws(a, b) && Represents(j, Times(k, a)) && Times(k, a).Pt?
    ensures FMul(j.x, FMul(FPow(j.z, PM2), FPow(j.z, PM2))) == Times(k, a).x
  {
    hide F, FMul, FPow, Represents, Times, Add;
    TimesOnCurve(k, a, b);
    AffineXValue(j, Times(k, a));
  }

  lemma NotFinite(j: Jac, q: Aff)
    requires Represents(j, q) && j.z == 0
    ensures q.Inf?
  {}
}
