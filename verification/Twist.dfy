/** Lifting an x coordinate to a point of the main curve y^2 = x^3 - 3x + b or, negated, of its
    twist y^2 = x^3 - 3x - b, and multiplying x coordinates through that lift. */
module Twist {
  import opened Fp
  import opened Curve
  import opened Group

  const CURVE_B: int := 0x4E355E95CAFEDD486EBC69BAD31646D320E01DC7D6

  /** x^3 - 3x + b */
  function Z(x: int): int { F(Cubic(x, CURVE_B)) }

  /** The candidate square root z^((P+1)/4). */
  function Root(x: int): int { FPow(Z(x), PP1D4) }

  predicate OnMain(x: int) { FMul(Root(x), Root(x)) == Z(x) }

  function Lift(x: int): Aff { Pt(if OnMain(x) then F(x) else F(-x), Root(x)) }

  function LiftB(x: int): int { if OnMain(x) then CURVE_B else -CURVE_B }

  // ---- Square roots ----

  lemma FPowTwo(z: int)
    ensures FPow(z, 2) == FMul(F(z), F(z)) && FPow(z, 1) == F(z) && FPow(z, 0) == 1
  {
    assert Pow(z, 1) == z * Pow(z, 0) == z;
    assert Pow(z, 2) == z * Pow(z, 1) == z * z;
    HomMul(z, z);
  }

  /** z^(P+1) = z^2 for every z. */
  lemma PowPPlus1(z: int)
    requires PrimeP()
    ensures FPow(z, P + 1) == FMul(F(z), F(z))
  {
    hide F, FMul, Pow;
    PValue();
    FPowTwo(z);
    FPowAdd(z, P - 1, 2);
    FOfF(z);
    if F(z) == 0 {
      ZeroPower(z, P - 1);
      FOne();
      ZeroTimes(FPow(z, 2));
      ZeroTimes(0);
    } else {
      Fermat(z);
      OneTimesF(z);
    }
  }

  lemma OneTimesF(z: int)
    ensures FMul(1, FMul(F(z), F(z))) == FMul(F(z), F(z))
  {
    FOfF(F(z) * F(z));
  }

  lemma ZeroPower(z: int, e: nat)
    requires F(z) == 0 && e >= 1
    ensures FPow(z, e) == 0
  {
    ZeroMul(z, Pow(z, e - 1));
  }

  lemma Exponents()
    ensures 4 * PP1D4 == P + 1 && 2 * HALF == P - 1 && HALF % 2 == 1
  {
    PValue();
  }

  const HALF: nat := (PValue(); (P - 1) / 2)

  /** Equal squares have equal or opposite roots. */
  lemma EqualSquares(r: int, y: int)
    requires PrimeP() && 0 <= r < P && 0 <= y < P && F(r * r) == F(y * y)
    ensures r == y || r == F(-y)
  {
    hide F;
    DifferenceZero(r * r, y * y);
    assert r * r - y * y == (r - y) * (r + y);
    NoZeroDivisors(r - y, r + y);
    SumZero(r, y);
  }

  lemma SumZero(r: int, y: int)
    requires 0 <= r < P && 0 <= y < P
    ensures F(r - y) == 0 ==> r == y
    ensures F(r + y) == 0 ==> r == F(-y)
  {
    hide F;
    DifferenceZero(r, y);
    DifferenceZero(r, -y);
    SelfF(r);
    SelfF(y);
  }

  /** The candidate root squares to z or to -z. */
  lemma RootSquare(z: int, r: int)
    requires PrimeP() && 0 <= z < P && r == FPow(z, PP1D4)
    ensures FMul(r, r) == z || FMul(r, r) == F(-z)
  {
    hide F, FMul, FPow;
    var s := FMul(r, r);
    var e: nat := PP1D4;
    Exponents();
    FPowAdd(z, e, e);
    FPowAdd(z, e + e, e + e);
    PowPPlus1(z);
    SelfF(z);
    assert FMul(s, s) == FMul(z, z);
    MulRange(r, r);
    MulIsF(s, s);
    MulIsF(z, z);
    EqualSquares(s, z);
  }

  lemma MulRange(a: int, b: int)
    ensures 0 <= FMul(a, b) < P
  {}

  lemma MulIsF(a: int, b: int)
    ensures FMul(a, b) == F(a * b)
  {}

  lemma {:induction false} PowOfSquare(y: int, k: nat)
    ensures Pow(y * y, k) == Pow(y, 2 * k)
  {
    if k > 0 {
      PowOfSquare(y, k - 1);
      var x := Pow(y, 2 * (k - 1));
      assert Pow(y, 2 * k) == y * Pow(y, 2 * k - 1) == y * (y * x);
      assert (y * y) * x == y * (y * x);
    }
  }

  /** A square's candidate root is a root. */
  lemma SquareHasRoot(z: int, y: int)
    requires PrimeP() && z == F(y * y)
    ensures FMul(FPow(z, PP1D4), FPow(z, PP1D4)) == z
  {
    hide F, FMul, Pow;
    var e: nat := PP1D4;
    Exponents();
    FPowAdd(z, e, e);
    FPowOfF(y * y, e + e);
    PowOfSquare(y, e + e);
    PowPPlus1(y);
    HomMul(y, y);
  }

  lemma {:induction false} OddPowerOfNegation(a: int, h: nat)
    ensures h % 2 == 1 ==> Pow(-a, h) == -Pow(a, h)
    ensures h % 2 == 0 ==> Pow(-a, h) == Pow(a, h)
  {
    if h > 0 {
      OddPowerOfNegation(a, h - 1);
      NegatedProduct(a, Pow(a, h - 1));
    }
  }

  lemma NegatedProduct(a: int, x: int)
    ensures (-a) * x == -(a * x) && (-a) * (-x) == a * x
  {}

  /** -1 is not a square, as P = 3 modulo 4: r^2 = -y^2 forces y = 0. */
  lemma NegatedSquareIsNoSquare(r: int, y: int)
    requires PrimeP() && F(r * r) == F(-(y * y))
    ensures F(y) == 0
  {
    hide F, FMul, Pow, FPow;
    if F(y) != 0 {
      if F(r) == 0 {
        ZeroMul(r, r);
        NegationZero(y * y);
        NoZeroDivisors(y, y);
      } else {
        SquareHalf(r);
        SquareHalf(y);
        Fermat(r);
        Fermat(y);
        FPowOfF(r * r, HALF);
        FPowOfF(-(y * y), HALF);
        HalfOfNegation(y * y);
        MinusOne();
      }
    }
  }

  lemma MinusOne()
    ensures F(-1) != 1
  {}

  lemma NegationZero(a: int)
    requires F(-a) == 0
    ensures F(a) == 0
  {
    NegationOfF(-a);
  }

  lemma SquareHalf(y: int)
    ensures FPow(y * y, HALF) == FPow(y, P - 1)
  {
    hide Pow;
    Exponents();
    PowOfSquare(y, HALF);
  }

  lemma HalfOfNegation(a: int)
    ensures FPow(-a, HALF) == F(-FPow(a, HALF))
  {
    hide F, Pow;
    var h: nat := HALF;
    Exponents();
    OddPowerOfNegation(a, h);
    NegationOfF(Pow(a, h));
  }

  // ---- Lifting ----

  lemma CubicOfNegation(x: int)
    ensures Cubic(-x, -CURVE_B) == -Cubic(x, CURVE_B)
  {
    assert (-x) * (-x) * (-x) == -(x * x * x);
  }

  /** The lifted point lies on the curve it is lifted to, whatever x is. */
  lemma LiftOnCurve(x: int)
    requires PrimeP()
    ensures OnCurve(Lift(x), LiftB(x))
  {
    hide F, FMul, FPow, Cubic;
    var z, r := Z(x), Root(x);
    FOfF(Cubic(x, CURVE_B));
    RootSquare(z, r);
    PowRange(z, PP1D4);
    MulIsF(r, r);
    FOfF(x);
    FOfF(-x);
    if OnMain(x) {
      CubicF(x, CURVE_B);
    } else {
      CubicF(-x, -CURVE_B);
      CubicOfNegation(x);
      NegationOfF(Cubic(x, CURVE_B));
    }
  }

  lemma PowRange(z: int, e: nat)
    ensures 0 <= FPow(z, e) < P
  {}

  /** The x coordinate of a point of the main curve lifts back to that point or its negation. */
  lemma LiftOfMain(a: Aff)
    requires PrimeP() && a.Pt? && OnCurve(a, CURVE_B)
    ensures OnMain(a.x) && (Lift(a.x) == a || Lift(a.x) == Negate(a))
  {
    hide F, FMul, FPow, Cubic;
    var z, r := Z(a.x), Root(a.x);
    SquareHasRoot(z, a.y);
    PowRange(z, PP1D4);
    MulIsF(r, r);
    EqualSquares(r, a.y);
    SelfF(a.x);
  }

  /** The negated x coordinate of a point of the twist, not of order two, lifts back to the point
      or its negation. */
  lemma LiftOfTwist(a: Aff)
    requires PrimeP() && a.Pt? && OnCurve(a, -CURVE_B) && a.y != 0
    ensures var x := F(-a.x); !OnMain(x) && (Lift(x) == a || Lift(x) == Negate(a))
  {
    hide F, FMul, FPow, Cubic;
    var x := F(-a.x);
    var z, r := Z(x), Root(x);
    CubicF(-a.x, CURVE_B);
    CubicOfNegation(-a.x);
    assert - -a.x == a.x;
    NegatedF(Cubic(a.x, -CURVE_B), a.y * a.y);
    assert z == F(-(a.y * a.y));
    SelfF(a.y);
    MulIsF(r, r);
    PowRange(z, PP1D4);
    if OnMain(x) { NegatedSquareIsNoSquare(r, a.y); }
    FOfF(Cubic(x, CURVE_B));
    RootSquare(z, r);
    NegationOfF(-(a.y * a.y));
    assert - -(a.y * a.y) == a.y * a.y;
    EqualSquares(r, a.y);
    NegationOfF(-a.x);
    SelfF(a.x);
  }

  /** The negated x coordinate of a point of order two of the twist lifts to a point of order two of
      the main curve. */
  lemma LiftOfOrderTwo(a: Aff)
    requires PrimeP() && a.Pt? && OnCurve(a, -CURVE_B) && a.y == 0
    ensures var x := F(-a.x); OnMain(x) && Lift(x) == Pt(x, 0)
  {
    hide F, FMul, FPow, Cubic;
    var x := F(-a.x);
    CubicF(-a.x, CURVE_B);
    CubicOfNegation(-a.x);
    assert - -a.x == a.x && a.y * a.y == 0;
    NegatedF(Cubic(a.x, -CURVE_B), 0);
    ZeroF();
    ZeroPower(0, PP1D4);
    ZeroTimes(0);
    FOfF(-a.x);
  }

  lemma ZeroF()
    ensures F(0) == 0 && F(-0) == 0
  {}

  lemma NegatedF(u: int, v: int)
    requires F(u) == F(v)
    ensures F(-u) == F(-v)
  {
    NegationOfF(u);
    NegationOfF(v);
  }

  // ---- The generators ----

  /** The y coordinate that the curve parameters give for x = 2. */
  const MAIN_Y: int := 0xEA6747B75AF8C7F93C1F5E6D320F88B9BE1566D2F2

  const TWIST_Y: int := 0x6938841DC0036454C0AD686A8E7D137D1F4F4823E6

  /** MAIN_Y^2 = 2^3 - 3*2 + b and TWIST_Y^2 = -b modulo p, with the quotients by p. */
  lemma GeneratorNumbers()
    ensures MAIN_Y * MAIN_Y - (2 + CURVE_B) ==
            0xD6A0F8C5FBF1398DBB65BDEA43FC39A047B8ACC714 * 0xFFFFFFFFFFFFFFFFFFFFFFFFFFFFFFFFFFFFFFFEFF
    ensures TWIST_Y * TWIST_Y + CURVE_B ==
            0x2B3F68DA78B57B41FB63C3F634CB6F11337B79FF86 * 0xFFFFFFFFFFFFFFFFFFFFFFFFFFFFFFFFFFFFFFFEFF
  {}

  lemma MultipleOfP(k: int)
    ensures F(k * P) == 0
  {
    PIsZero();
    ZeroMul(P, k);
  }

  lemma PIsZero()
    ensures F(P) == 0
  {}

  lemma GeneratorSquares()
    ensures F(MAIN_Y * MAIN_Y) == F(Cubic(2, CURVE_B)) && F(-(TWIST_Y * TWIST_Y)) == F(CURVE_B)
    ensures 0 < MAIN_Y < P && 0 < TWIST_Y < P
  {
    hide F;
    GeneratorNumbers();
    PValue();
    MultipleOfP(0xD6A0F8C5FBF1398DBB65BDEA43FC39A047B8ACC714);
    DifferenceZero(MAIN_Y * MAIN_Y, 2 + CURVE_B);
    MultipleOfP(-0x2B3F68DA78B57B41FB63C3F634CB6F11337B79FF86);
    DifferenceZero(-(TWIST_Y * TWIST_Y), CURVE_B);
    assert Cubic(2, CURVE_B) == 2 + CURVE_B;
  }

  /** x = 2 is on the main curve, with the y coordinate of the curve parameters or its negation, and
      x = 0 is on the twist. */
  lemma Generators()
    requires PrimeP()
    ensures OnMain(2) && (Lift(2) == Pt(2, MAIN_Y) || Lift(2) == Negate(Pt(2, MAIN_Y))) && !OnMain(0)
  {
    hide F, FMul, FPow, Cubic;
    GeneratorSquares();
    TwoSmall();
    LiftOfMain(Pt(2, MAIN_Y));
    if OnMain(0) {
      MulIsF(Root(0), Root(0));
      CubicOfZero();
      NegatedSquareIsNoSquare(Root(0), TWIST_Y);
      SelfF(TWIST_Y);
    }
  }

  lemma TwoSmall()
    ensures 2 < P
  {
    PValue();
  }

  lemma CubicOfZero()
    ensures Cubic(0, CURVE_B) == CURVE_B
  {}

  // ---- Multiplying x coordinates ----

  /** The values whose negation by `felem_neg` is not the least residue. */
  predicate InWindow(v: int) { P - 513 <= v <= P - 257 }

  function NegVal(v: int): int { if InWindow(v) then 2 * P - v else F(-v) }

  /** The coordinate reported for a finite multiple q of Lift(x). */
  function OutVal(x: int, q: Aff): int
    requires q.Pt?
  {
    if OnMain(x) then q.x else NegVal(q.x)
  }

  /** The multiple k of Lift(x) can be reported: it is finite and, on the twist, not in the
      exceptional window. */
  ghost predicate Reportable(x: int, k: nat) {
    var q := Times(k, Lift(x));
    q.Pt? && (OnMain(x) || !InWindow(q.x))
  }

  /** A multiple that is a point of order two of the twist. */
  ghost predicate TwistOrderTwo(x: int, k: nat) {
    var q := Times(k, Lift(x));
    q.Pt? && !OnMain(x) && q.y == 0
  }

  /** Of a lifted point nothing else has to be assumed. */
  lemma LawsOfLift(x: int)
    requires Assumed(Lift(x), LiftB(x))
    ensures Laws(Lift(x), LiftB(x))
  {
    hide Associative, Times, OnCurve, Lift, LiftB;
    LiftOnCurve(x);
  }

  /** Reporting a multiple loses nothing but its sign, unless it is of order two on the twist. */
  lemma LiftOfOutput(x: int, k: nat)
    requires Assumed(Lift(x), LiftB(x)) && Reportable(x, k)
    ensures var q := Times(k, Lift(x)); var y := OutVal(x, q);
            && 0 <= y < P
            && if TwistOrderTwo(x, k) then OnMain(y) && Lift(y) == Pt(y, 0)
               else OnMain(y) == OnMain(x) && (Lift(y) == q || Lift(y) == Negate(q))
  {
    hide OnMain, Lift, Times, OnCurve, Associative;
    LawsOfLift(x);
    var q := Times(k, Lift(x));
    TimesOnCurve(k, Lift(x), LiftB(x));
    PointRange(q, LiftB(x));
    if OnMain(x) {
      LiftOfMain(q);
    } else if q.y != 0 {
      LiftOfTwist(q);
    } else {
      LiftOfOrderTwo(q);
    }
  }

  lemma PointRange(q: Aff, b: int)
    requires OnCurve(q, b) && q.Pt?
    ensures 0 <= q.x < P && 0 <= q.y < P && 0 <= F(-q.x) < P
  {}

  lemma {:induction false} TimesOfOrderTwo(s: nat, a: Aff)
    requires a.Pt? && a.y == 0
    ensures Times(s, a) == if s % 2 == 0 then Inf else a
  {
    if s > 0 { TimesOfOrderTwo(s - 1, a); }
  }

  /** Multiplying the reported multiple k of Lift(x) by s reports the multiple s*k. */
  lemma TimesOfOutput(x: int, k: nat, s: nat)
    requires Assumed(Lift(x), LiftB(x)) && Reportable(x, k)
    ensures s * k >= 0
    ensures var y := OutVal(x, Times(k, Lift(x))); var q := Times(s * k, Lift(x)); var u := Times(s, Lift(y));
            (u.Pt? <==> q.Pt?) && (q.Pt? ==> OutVal(y, u) == OutVal(x, q))
  {
    hide OnMain, Lift, Times, OnCurve, Associative;
    LawsOfLift(x);
    LiftOfOutput(x, k);
    var q := Times(k, Lift(x));
    TimesOnCurve(k, Lift(x), LiftB(x));
    TimesTimes(s, k, Lift(x), LiftB(x));
    if TwistOrderTwo(x, k) {
      TimesOfOrderTwo(s, q);
      TimesOfOrderTwo(s, Lift(OutVal(x, q)));
    } else {
      TimesNegate(s, q, LiftB(x));
    }
  }

  /** Diffie-Hellman on x coordinates: both orders of multiplication report the same value. */
  lemma XAgreement(x: int, k: nat, s: nat)
    requires Assumed(Lift(x), LiftB(x)) && Reportable(x, k) && Reportable(x, s)
    ensures s * k >= 0
    ensures var y := OutVal(x, Times(k, Lift(x))); var t := OutVal(x, Times(s, Lift(x)));
            var q := Times(s * k, Lift(x)); var u := Times(s, Lift(y)); var v := Times(k, Lift(t));
            && (u.Pt? <==> q.Pt?) && (v.Pt? <==> q.Pt?)
            && (q.Pt? ==> OutVal(y, u) == OutVal(x, q) && OutVal(t, v) == OutVal(x, q))
  {
    hide OnMain, Lift, Times, Assumed, Reportable;
    TimesOfOutput(x, k, s);
    TimesOfOutput(x, s, k);
    assert s * k == k * s;
  }
}
