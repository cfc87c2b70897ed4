/** The projective curve equation Y^2 = X^3 - 3*X*Z^4 + b*Z^6 and its preservation by the formulas
    of `point_double` and `point_add`, for every b and also at infinity. */
module Jacobian {
  import opened Fp
  import opened Curve
  import opened Group

  function JacCubic(x: int, z: int, b: int): int {
    x * x * x - 3 * (x * (z * z * (z * z))) + b * (z * z * (z * z) * (z * z))
  }

  ghost predicate JOnCurve(j: Jac, b: int) {
    IsJac(j) && F(j.y * j.y) == F(JacCubic(j.x, j.z, b))
  }

  lemma CubicScaling(x: int, e: int, b: int)
    ensures (x * e) * (x * e) * (x * e) - 3 * ((x * e) * (e * e)) + b * (e * e * e) == Cubic(x, b) * (e * e * e)
  {}

  lemma SquareScaling(y: int, z: int)
    ensures (y * (z * z * z)) * (y * (z * z * z)) == (y * y) * (z * z * (z * z) * (z * z))
  {}

  lemma JacCubicF(x: int, x': int, z: int, b: int)
    requires F(x) == F(x')
    ensures F(JacCubic(x, z, b)) == F(JacCubic(x', z, b))
  {
    hide F;
    var d := x - x';
    var e := z * z * (z * z);
    DifferenceZero(x, x');
    CubeDifference(x, x', e);
    ZeroMul(d, x * x + x * x' + x' * x' - 3 * e);
    DifferenceZero(JacCubic(x, z, b), JacCubic(x', z, b));
  }

  lemma CubeDifference(x: int, y: int, e: int)
    ensures (x * x * x - 3 * (x * e)) - (y * y * y - 3 * (y * e)) == (x - y) * (x * x + x * y + y * y - 3 * e)
  {
    var s := x * x + x * y + y * y;
    CubesDiffer(x, y);
    DistributeSub(x - y, s, 3 * e);
    assert (x - y) * (3 * e) == 3 * (x * e) - 3 * (y * e);
  }

  lemma CubesDiffer(x: int, y: int)
    ensures x * x * x - y * y * y == (x - y) * (x * x + x * y + y * y)
  {
    var s := x * x + x * y + y * y;
    assert (x - y) * s == x * s - y * s;
    assert x * s == x * x * x + x * x * y + x * y * y;
    assert y * s == x * x * y + x * y * y + y * y * y;
  }

  /** A finite point satisfies the projective equation exactly when its affine point is on the curve. */
  lemma AffineEquation(j: Jac, a: Aff, b: int)
    requires PrimeP() && Represents(j, a) && a.Pt? && IsPoint(a)
    ensures JOnCurve(j, b) <==> OnCurve(a, b)
  {
    hide F, FMul, Cubic, JacCubic;
    var z := j.z;
    var e := z * z;
    var c := e * e * e;
    SelfF(z);
    NonZeroProduct(z, z);
    NonZeroProduct(e, e);
    NonZeroProduct(e * e, e);
    EquationSides(j, a, b);
    if F(a.y * a.y) == F(Cubic(a.x, b)) {
      MulF(a.y * a.y, c, F(a.y * a.y), F(c));
      MulF(Cubic(a.x, b), c, F(a.y * a.y), F(c));
    } else if F((a.y * a.y) * c) == F(Cubic(a.x, b) * c) {
      Cancel(a.y * a.y, Cubic(a.x, b), c);
    }
  }

  lemma EquationSides(j: Jac, a: Aff, b: int)
    requires Represents(j, a) && a.Pt?
    ensures var e := j.z * j.z; var c := e * e * e;
            F(j.y * j.y) == F((a.y * a.y) * c) && F(JacCubic(j.x, j.z, b)) == F(Cubic(a.x, b) * c)
  {
    hide F, FMul, Cubic;
    var z := j.z;
    var e := z * z;
    var y := a.y * (z * z * z);
    FOfF(y);
    MulF(y, y, j.y, j.y);
    MulF(j.y, j.y, j.y, j.y);
    SquareScaling(a.y, z);
    FOfF(a.x * e);
    JacCubicF(j.x, a.x * e, z, b);
    CubicScaling(a.x, e, b);
  }

  /** Every finite Jacobian point stands for some affine point. */
  lemma ToAffine(j: Jac) returns (a: Aff)
    requires PrimeP() && IsJac(j) && j.z != 0
    ensures Represents(j, a) && a.Pt? && IsPoint(a)
  {
    hide F, FMul, FDiv;
    var z := j.z;
    SelfF(z);
    NonZeroProduct(z, z);
    NonZeroProduct(z * z, z);
    a := Pt(FDiv(j.x, z * z), FDiv(j.y, z * z * z));
    DivSpec(j.x, z * z);
    DivSpec(j.y, z * z * z);
    SelfF(j.x);
    SelfF(j.y);
    DivRange(j.x, z * z);
    DivRange(j.y, z * z * z);
  }

  // ---- At infinity the equation is Y^2 = X^3 ----

  lemma EquationAtInfinity(x: int, b: int)
    ensures JacCubic(x, 0, b) == x * x * x
  {}

  /** Any (s^2, s^3) satisfies it; so does (s^2, -s^3). */
  lemma InfinitePoint(j: Jac, s: int, b: int)
    requires IsJac(j) && j.z == 0 && j.x == F(s * s) && (j.y == F(s * s * s) || j.y == F(-(s * s * s)))
    ensures JOnCurve(j, b)
  {
    hide F, FMul, JacCubic;
    var t := s * s * s;
    EquationAtInfinity(j.x, b);
    CubeOfF(s * s, j.x);
    SquareOfF(t);
    SquareOfF(-t);
    NegatedFactor(t, t);
    SixthPower(s);
  }

  lemma SixthPower(s: int)
    ensures (s * s * s) * (s * s * s) == (s * s) * (s * s) * (s * s)
  {}

  lemma CubeOfF(u: int, r: int)
    requires r == F(u)
    ensures F(r * r * r) == F(u * u * u)
  {
    SquareOfF(u);
  }

  lemma DoubleAtInfinity(p: Jac, b: int)
    requires PrimeP() && JOnCurve(p, b) && p.z == 0
    ensures JOnCurve(JDouble(p), b)
  {
    hide F, FAdd, FSub, FMul, JacCubic;
    var x, c := p.x, p.x * p.x * p.x;
    EquationAtInfinity(x, b);
    SelfF(x);
    SelfF(p.y);
    FOne();
    DoubleValuesAtInfinity(p, x, c);
    FormulasAreJac(p, p);
    InfinitePoint(JDouble(p), x * x, b);
  }

  /** With Y^2 = X^3 = c the doubled point is (X^4, X^6, 0). */
  lemma DoubleValuesAtInfinity(p: Jac, x: int, c: int)
    requires IsJac(p) && p.z == 0 && p.x == F(x) && F(p.y * p.y) == F(c) && c == x * x * x
    ensures JDouble(p) == Jac(F((x * x) * (x * x)), F((x * x) * (x * x) * (x * x)), 0)
  {
    hide F, FAdd, FSub, FMul;
    var a, x4 := x * (3 * x), (x * x) * (x * x);
    FOne();
    SelfF(p.y);
    DoubleZ(p);
    ZeroTimes(0);
    MulF(p.y, p.y, p.y, p.y);
    MulF(x, c, p.x, F(c));
    AlphaAtInfinity(p.x, x);
    InfinityXIdentity(x);
    InfinityYIdentity(x);
    XFormula(a, x * c);
    YFormula(a, x * c, x4, c);
  }

  lemma AlphaAtInfinity(fx: int, x: int)
    requires fx == F(x)
    ensures FMul(FSub(fx, 0), FMul(F(3), FAdd(fx, 0))) == F(x * (3 * x))
  {
    hide F, FAdd, FSub, FMul;
    FOne();
    SubF(x, 0, fx, 0);
    AddF(x, 0, fx, 0);
    MulF(3, x, F(3), F(x));
    MulF(x, 3 * x, F(x), F(3 * x));
  }

  lemma XFormula(a: int, t: int)
    ensures FSub(FMul(F(a), F(a)), FMul(F(8), F(t))) == F(a * a - 8 * t)
  {
    hide F, FSub, FMul;
    MulF(a, a, F(a), F(a));
    MulF(8, t, F(8), F(t));
    SubF(a * a, 8 * t, F(a * a), F(8 * t));
  }

  lemma YFormula(a: int, t: int, x: int, c: int)
    ensures FSub(FMul(F(a), FSub(FMul(F(4), F(t)), F(x))), FMul(F(8), FMul(F(c), F(c))))
         == F(a * (4 * t - x) - 8 * (c * c))
  {
    hide F, FSub, FMul;
    MulF(4, t, F(4), F(t));
    SubF(4 * t, x, F(4 * t), F(x));
    MulF(a, 4 * t - x, F(a), F(4 * t - x));
    MulF(c, c, F(c), F(c));
    MulF(8, c * c, F(8), F(c * c));
    SubF(a * (4 * t - x), 8 * (c * c), F(a * (4 * t - x)), F(8 * (c * c)));
  }

  lemma InfinityXIdentity(x: int)
    ensures (x * (3 * x)) * (x * (3 * x)) - 8 * (x * (x * x * x)) == (x * x) * (x * x)
  {}

  lemma InfinityYIdentity(x: int)
    ensures (x * (3 * x)) * (4 * (x * (x * x * x)) - (x * x) * (x * x)) - 8 * ((x * x * x) * (x * x * x))
         == (x * x) * (x * x) * (x * x)
  {}

  /** `point_double` stays on the curve. */
  lemma DoubleKeepsEquation(p: Jac, b: int)
    requires PrimeP() && JOnCurve(p, b)
    ensures JOnCurve(JDouble(p), b)
  {
    hide F, JacCubic, JDouble, Cubic, Add;
    if p.z == 0 {
      DoubleAtInfinity(p, b);
    } else {
      var a := ToAffine(p);
      AffineEquation(p, a, b);
      DoubleRepresents(p, a);
      AddOnCurve(a, a, b);
      if Add(a, a).Pt? { AffineEquation(JDouble(p), Add(a, a), b); } else { OrderTwo(p, a, b); }
    }
  }

  /** Doubling a point with y = 0 gives an infinite point (alpha^2, -alpha^3). */
  lemma OrderTwo(p: Jac, a: Aff, b: int)
    requires PrimeP() && Represents(p, a) && a.Pt? && IsPoint(a) && Add(a, a).Inf?
    ensures JOnCurve(JDouble(p), b)
  {
    hide F, FAdd, FSub, FMul, JacCubic, FDiv;
    FOne();
    assert a.y == 0;
    assert p.y == F(0);
    var x := p.x;
    MulF(0, 0, 0, 0);
    var delta := FMul(p.z, p.z);
    var s := FMul(FSub(p.x, delta), FMul(F(3), FAdd(p.x, delta)));
    ZeroGamma(p, s);
    FormulasAreJac(p, p);
    MulRangeOf(FSub(p.x, delta), FMul(F(3), FAdd(p.x, delta)));
    InfinitePoint(JDouble(p), s, b);
  }

  lemma MulRangeOf(x: int, y: int)
    ensures 0 <= FMul(x, y) < P
  {}

  lemma ZeroGamma(p: Jac, s: int)
    requires IsJac(p) && p.y == 0
    requires s == FMul(FSub(p.x, FMul(p.z, p.z)), FMul(F(3), FAdd(p.x, FMul(p.z, p.z))))
    ensures JDouble(p).z == 0 && JDouble(p).x == F(s * s) && JDouble(p).y == F(-(s * s * s))
  {
    hide F, FAdd, FSub, FMul;
    FOne();
    DoubleZ(p);
    MulRangeOf(FSub(p.x, FMul(p.z, p.z)), FMul(F(3), FAdd(p.x, FMul(p.z, p.z))));
    ZeroTimes(0);
    ZeroTimes(p.x);
    ZeroTimes(F(8));
    ZeroTimes(F(4));
    SquareAndCube(s);
  }

  /** `point_add` stays on the curve, in every case, also when it writes over its first operand and
      the second is infinite. */
  lemma AddKeepsEquation(p: Jac, q: Jac, b: int, inPlace: bool)
    requires PrimeP() && JOnCurve(p, b) && JOnCurve(q, b)
    ensures JOnCurve(AddResult(p, q, inPlace), b)
  {
    hide F, JacCubic, JDouble, JSum, XDiff, YDiff, Cubic, Add;
    if p.z == 0 || (q.z == 0 && !inPlace) {
    } else if q.z == 0 {
      NothingLeft(p, q, b);
      ZeroOnCurve(b);
    } else if XDiff(p, q) == 0 {
      if YDiff(p, q) == 0 {
        DoubleKeepsEquation(p, b);
      } else {
        OppositeSum(p, q);
        FormulasAreJac(p, q);
        InfinitePoint(JSum(p, q), YDiff(p, q), b);
      }
    } else {
      DistinctKeeps(p, q, b);
    }
  }

  lemma DistinctKeeps(p: Jac, q: Jac, b: int)
    requires PrimeP() && JOnCurve(p, b) && JOnCurve(q, b) && p.z != 0 && q.z != 0 && XDiff(p, q) != 0
    ensures JOnCurve(JSum(p, q), b)
  {
    hide F, JacCubic, JDouble, JSum, XDiff, YDiff, Cubic, Add;
    var a := ToAffine(p);
    var c := ToAffine(q);
    AffineEquation(p, a, b);
    AffineEquation(q, c, b);
    AddRepresents(p, q, a, c);
    AddOnCurve(a, c, b);
    FiniteSum(p, q, a, c);
    AffineEquation(JSum(p, q), Add(a, c), b);
  }

  lemma ZeroOnCurve(b: int)
    ensures JOnCurve(Jac(0, 0, 0), b)
  {
    FOne();
    EquationAtInfinity(0, b);
  }

  /** The sum formulas with an infinite second operand on the curve give (0, 0, 0), because its
      coordinates satisfy Y^2 = X^3. */
  lemma NothingLeft(p: Jac, q: Jac, b: int)
    requires JOnCurve(q, b) && q.z == 0
    ensures JSum(p, q) == Jac(0, 0, 0)
  {
    hide F, FMul, FSub, JacCubic;
    FOne();
    var z, x, y := p.z, q.x, q.y;
    EquationAtInfinity(x, b);
    InfinityDiffs(p, q);
    var u, r := XDiff(p, q), YDiff(p, q);
    EqualPowers(z, x, y, u, r);
    var t := FMul(r, r);
    ZeroTimes(0);
    ZeroTimes(p.x);
    ZeroTimes(p.y);
    ZeroTimes(FMul(u, u));
    ZeroTimes(FMul(FMul(u, u), u));
    ZeroTimes(F(2));
    ZeroTimes(r);
    ZeroTimes(u);
    ZeroTimes(z);
    NoDifference(t);
    NoDifference(0);
  }

  lemma NoDifference(t: int)
    ensures FSub(t, t) == 0
  {
    FOne();
    assert t - t == 0;
  }

  /** The differences are z^2 * x and z^3 * y. */
  lemma InfinityDiffs(p: Jac, q: Jac)
    requires q.z == 0
    ensures XDiff(p, q) == F((p.z * p.z) * q.x) && YDiff(p, q) == F((p.z * p.z * p.z) * q.y)
  {
    hide F, FMul, FSub;
    var z := p.z;
    FOne();
    ZeroTimes(0);
    ZeroTimes(p.x);
    ZeroTimes(p.y);
    ProductF(z, z);
    ProductF(z * z, z);
    ProductF(z * z, q.x);
    ProductF(z * z * z, q.y);
    MinusZero((z * z) * q.x);
    MinusZero((z * z * z) * q.y);
  }

  /** A product whose first factor is given by its residue. */
  lemma ProductF(x: int, y: int)
    ensures FMul(F(x), y) == F(x * y) && FMul(x, y) == F(x * y)
  {
    hide F;
    FOfF(x);
    HomMul(x, y);
    HomMul(F(x), y);
  }

  lemma MinusZero(x: int)
    ensures FSub(F(x), 0) == F(x)
  {
    hide F;
    FOfF(x);
    assert F(x) - 0 == F(x);
  }

  /** (z^3 y)^2 and (z^2 x)^3 agree when y^2 and x^3 do. */
  lemma EqualPowers(z: int, x: int, y: int, u: int, r: int)
    requires u == F((z * z) * x) && r == F((z * z * z) * y) && F(y * y) == F(x * x * x)
    ensures FMul(r, r) == FMul(FMul(u, u), u)
  {
    hide F, FMul;
    var a, c := (z * z) * x, (z * z * z) * y;
    MulF(c, c, r, r);
    MulF(a, a, u, u);
    MulF(a * a, a, F(a * a), u);
    PowersSplit(z, x, y);
    SameFactor((z * z) * (z * z) * (z * z), y * y, x * x * x);
  }

  lemma PowersSplit(z: int, x: int, y: int)
    ensures var a, c, w := (z * z) * x, (z * z * z) * y, (z * z) * (z * z) * (z * z);
            c * c == w * (y * y) && a * a * a == w * (x * x * x)
  {
    assert ((z * z * z) * y) * ((z * z * z) * y) == ((z * z * z) * (z * z * z)) * (y * y);
    var e := z * z;
    assert (e * x) * (e * x) * (e * x) == (e * e * e) * (x * x * x);
  }

  lemma SameFactor(w: int, s: int, t: int)
    requires F(s) == F(t)
    ensures F(w * s) == F(w * t)
  {
    hide F;
    HomMul(w, s);
    HomMul(w, t);
  }

  lemma OppositeSum(p: Jac, q: Jac)
    requires XDiff(p, q) == 0
    ensures var r := YDiff(p, q); var s := JSum(p, q); s.z == 0 && s.x == F(r * r) && s.y == F(-(r * r * r))
  {
    hide F, FSub, FMul, YDiff, XDiff;
    var r := YDiff(p, q);
    SumAtInfinity(p, q);
    ZeroTimes(0);
    ZeroTimes(FMul(FMul(q.z, q.z), p.x));
    ZeroTimes(FMul(FMul(FMul(q.z, q.z), q.z), p.y));
    ZeroTimes(F(2));
    YDiffRange(p, q);
    SquareAndCube(r);
  }

  /** r^2 - 0 and r*(0 - r^2) - 0 */
  lemma SquareAndCube(r: int)
    requires 0 <= r < P
    ensures FMul(r, r) == F(r * r) && FSub(F(r * r), 0) == F(r * r)
    ensures FSub(FMul(r, FSub(0, F(r * r))), 0) == F(-(r * r * r))
  {
    hide F, FSub, FMul;
    FOne();
    SelfF(r);
    MulF(r, r, r, r);
    SubF(r * r, 0, F(r * r), 0);
    SubF(0, r * r, 0, F(r * r));
    MulF(r, -(r * r), r, F(-(r * r)));
    NegatedFactor(r * r, r);
    SubF(r * -(r * r), 0, F(r * -(r * r)), 0);
  }

  lemma YDiffRange(p: Jac, q: Jac)
    ensures 0 <= YDiff(p, q) < P
  {}

  lemma FiniteSum(p: Jac, q: Jac, a: Aff, c: Aff)
    requires PrimeP() && Represents(p, a) && Represents(q, c) && a.Pt? && c.Pt? && IsPoint(a) && IsPoint(c)
    requires XDiff(p, q) != 0
    ensures Add(a, c).Pt?
  {
    hide F, FSub, FMul, FDiv, XDiff, YDiff;
    var w, d := p.z * q.z, c.x - a.x;
    DiffsRepresent(p, q, a, c);
    FOne();
    assert d == 0 ==> w * w * d == 0;
  }
}
