/** The points of y^2 = x^3 - 3x + b as a group: closure, negation and scalar multiples.
    Associativity of the addition law is an explicit hypothesis; everything else is proved. */
module Group {
  import opened Fp
  import opened Curve

  /** The slope condition: the line of slope l through (x1, y1) also meets the cubic at x2. */
  function Secant(l: int, x1: int, y1: int, x2: int): int {
    x2 * x2 + x1 * x2 + x1 * x1 - 3 - l * (l * (x2 - x1) + 2 * y1)
  }

  // ---- Closure ----

  lemma CubicDifference(x: int, y: int, b: int)
    ensures Cubic(y, b) - Cubic(x, b) == (y - x) * (y * y + x * y + x * x - 3)
  {}

  lemma LineSquare(l: int, t: int, y: int)
    ensures (l * t + y) * (l * t + y) - y * y == t * (l * (l * t + 2 * y))
  {}

  lemma DistributeSub(t: int, x: int, y: int)
    ensures t * (x - y) == t * x - t * y
  {}

  lemma SecantThird(l: int, x1: int, y1: int, x2: int)
    ensures var x3 := l * l - x1 - x2; Secant(l, x1, y1, x3) == Secant(l, x1, y1, x2)
  {
    var x3 := l * l - x1 - x2;
    LineDifference(l, x1, y1, x2, x3);
    SquareDifference(x1, x2, x3);
    assert x3 + x2 + x1 == l * l;
  }

  lemma LineDifference(l: int, x1: int, y1: int, x2: int, x3: int)
    ensures l * (l * (x3 - x1) + 2 * y1) - l * (l * (x2 - x1) + 2 * y1) == (l * l) * (x3 - x2)
  {
    var u, v := l * (x3 - x1), l * (x2 - x1);
    assert u - v == l * (x3 - x2);
    assert l * (u + 2 * y1) - l * (v + 2 * y1) == l * (u - v);
  }

  lemma SquareDifference(x1: int, x2: int, x3: int)
    ensures x3 * x3 - x2 * x2 + x1 * x3 - x1 * x2 == (x3 + x2 + x1) * (x3 - x2)
  {
    DistributeSub(x3 + x2 + x1, x3, x2);
  }

  /** y3^2 - Cubic(x3) for a third point, in terms of the first point's error and the slope condition. */
  lemma ThirdIdentity(l: int, x1: int, y1: int, x2: int, b: int)
    ensures var x3 := l * l - x1 - x2; var y3 := l * (x1 - x3) - y1;
            y3 * y3 - Cubic(x3, b) == y1 * y1 - Cubic(x1, b) - (x3 - x1) * Secant(l, x1, y1, x2)
  {
    var x3 := l * l - x1 - x2;
    var t := x3 - x1;
    var y3 := l * (x1 - x3) - y1;
    CubicDifference(x1, x3, b);
    LineSquare(l, t, y1);
    SecantThird(l, x1, y1, x2);
    NegatedSquare(l, t, y1);
    DistributeSub(t, x3 * x3 + x1 * x3 + x1 * x1 - 3, l * (l * t + 2 * y1));
  }

  lemma NegatedSquare(l: int, t: int, y: int)
    ensures (l * -t - y) * (l * -t - y) == (l * t + y) * (l * t + y)
  {}

  lemma ThirdOnCurve(l: int, x1: int, y1: int, x2: int, b: int)
    requires F(y1 * y1) == F(Cubic(x1, b)) && F(Secant(l, x1, y1, x2)) == 0
    ensures OnCurve(Third(l, x1, y1, x2), b)
  {
    hide F, FAdd, FSub, FMul, Cubic, Secant;
    var x3 := l * l - x1 - x2;
    var y3 := l * (x1 - x3) - y1;
    var e, k := y1 * y1 - Cubic(x1, b), Secant(l, x1, y1, x2);
    ThirdIdentity(l, x1, y1, x2, b);
    ZeroMul(k, x3 - x1);
    DifferenceZero(y1 * y1, Cubic(x1, b));
    DifferenceZero(e, (x3 - x1) * k);
    DifferenceZero(y3 * y3, Cubic(x3, b));
    ThirdY(l, x1, x3, y1);
    FOfF(x3);
    FOfF(y3);
    HomMul(y3, y3);
    HomMul(F(y3), F(y3));
    CubicF(x3, b);
  }

  lemma CubicF(x: int, b: int)
    ensures F(Cubic(F(x), b)) == F(Cubic(x, b))
  {
    hide F;
    var r := F(x);
    FOfF(x);
    DifferenceZero(x, r);
    CubicDifference(r, x, b);
    ZeroMul(x - r, x * x + r * x + r * r - 3);
    DifferenceZero(Cubic(x, b), Cubic(r, b));
  }

  lemma ChordSecant(x1: int, y1: int, x2: int, y2: int, l: int, b: int)
    requires PrimeP() && F(x2 - x1) != 0 && F(l * (x2 - x1)) == F(y2 - y1)
    requires F(y1 * y1) == F(Cubic(x1, b)) && F(y2 * y2) == F(Cubic(x2, b))
    ensures F(Secant(l, x1, y1, x2)) == 0
  {
    hide F, FAdd, FSub, FMul, Cubic;
    var d := x2 - x1;
    var m := l * d + y1;
    CubicDifference(x1, x2, b);
    LineSquare(l, d, y1);
    DistributeSub(d, x2 * x2 + x1 * x2 + x1 * x1 - 3, l * (l * d + 2 * y1));
    assert d * Secant(l, x1, y1, x2) == (Cubic(x2, b) - m * m) - (Cubic(x1, b) - y1 * y1);
    HomAdd(l * d, y1);
    HomAdd(y2 - y1, y1);
    assert F(m) == F(y2);
    HomMul(m, m);
    HomMul(y2, y2);
    DifferenceZero(Cubic(x2, b), m * m);
    DifferenceZero(Cubic(x1, b), y1 * y1);
    DifferenceZero(Cubic(x2, b) - m * m, Cubic(x1, b) - y1 * y1);
    NoZeroDivisors(d, Secant(l, x1, y1, x2));
  }

  lemma TangentSecant(x: int, y: int, l: int)
    requires F(l * (2 * y)) == F(3 * (x * x) - 3)
    ensures F(Secant(l, x, y, x)) == 0
  {
    hide F, FSub;
    assert Secant(l, x, y, x) == (3 * (x * x) - 3) - l * (2 * y);
    DifferenceZero(3 * (x * x) - 3, l * (2 * y));
  }

  /** The sum of two points of a curve is on the same curve. */
  lemma AddOnCurve(p: Aff, q: Aff, b: int)
    requires PrimeP() && OnCurve(p, b) && OnCurve(q, b)
    ensures OnCurve(Add(p, q), b)
  {
    hide F, FAdd, FSub, FMul, FDiv, Cubic, Secant, Third;
    if p.Pt? && q.Pt? {
      if p.x != q.x {
        var l := Chord(p.x, p.y, q.x, q.y);
        DifferentResidues(p.x, q.x);
        DivSpec(q.y - p.y, q.x - p.x);
        ChordSecant(p.x, p.y, q.x, q.y, l, b);
        ThirdOnCurve(l, p.x, p.y, q.x, b);
      } else if p.y == q.y && p.y != 0 {
        var l := Tangent(p.x, p.y);
        SelfF(p.y);
        FTwo();
        NonZeroProduct(2, p.y);
        DivSpec(3 * (p.x * p.x) - 3, 2 * p.y);
        TangentSecant(p.x, p.y, l);
        ThirdOnCurve(l, p.x, p.y, p.x, b);
      }
    }
  }

  // ---- Negation ----

  lemma DivOfNegation(a: int, b: int)
    ensures FDiv(-a, b) == F(-FDiv(a, b))
  {
    hide F, FMul, Pow;
    var i := Pow(b, PM2);
    HomMul(-a, i);
    HomMul(a, i);
    assert (-a) * i == -(a * i);
    NegationOfF(a * i);
  }

  lemma DivOfResidue(a: int, a': int, b: int)
    requires F(a) == F(a')
    ensures FDiv(a, b) == FDiv(a', b)
  {}

  /** The tangent slope at (x, -y) is the negated slope. */
  lemma TangentOfNegation(x: int, y: int)
    requires PrimeP() && 0 < y < P
    ensures Tangent(x, F(-y)) == F(-Tangent(x, y))
  {
    hide F, FMul, FDiv;
    var n := 3 * (x * x) - 3;
    var l, l' := FDiv(n, 2 * y), FDiv(n, 2 * F(-y));
    SelfF(y);
    FTwo();
    NonZeroProduct(2, y);
    NonZeroNegation(y);
    NonZeroProduct(2, F(-y));
    DivSpec(n, 2 * y);
    DivSpec(n, 2 * F(-y));
    HomMul(2, -y);
    HomMul(2, F(-y));
    FOfF(-y);
    HomMul(l', 2 * F(-y));
    HomMul(l', 2 * -y);
    assert (-l') * (2 * y) == l' * (2 * -y);
    Cancel(-l', l, 2 * y);
    DivRange(n, 2 * y);
    DivRange(n, 2 * F(-y));
    NegationSwap(l', l);
  }

  lemma DivRange(a: int, b: int)
    ensures 0 <= FDiv(a, b) < P
  {}

  lemma NegationSwap(l': int, l: int)
    requires F(-l') == F(l) && 0 <= l' < P && 0 <= l < P
    ensures l' == F(-l)
  {
    if l' > 0 { NonZeroNegation(l'); }
  }

  lemma NonZeroNegation(y: int)
    requires 0 < y < P
    ensures F(-y) == P - y != 0 && F(F(-y)) != 0
  {}

  lemma NegatedSlopeX(l: int, s: int)
    ensures F(F(-l) * F(-l) - s) == F(l * l - s)
  {
    hide F, FMul, FSub;
    NegatedFactor(l, l);
    FOfF(-l);
    HomMul(-l, -l);
    HomMul(F(-l), F(-l));
    HomSub(l * l, s);
    HomSub(F(-l) * F(-l), s);
  }

  lemma NegatedSlopeProduct(l: int, d: int)
    ensures F(F(-l) * d) == F(-(l * d))
  {
    hide F, FMul;
    NegatedFactor(l, d);
    FOfF(-l);
    HomMul(F(-l), d);
    HomMul(-l, d);
  }

  lemma NegatedY(u: int, w: int, y: int)
    requires F(u) == F(-w)
    ensures F(u - F(-y)) == F(-F(w - y))
  {
    hide F;
    SubCongruent(u, -w, F(-y));
    SubOfF(-w, -y);
    NegationOfF(w - y);
  }

  lemma NegatedSlopeY(l: int, d: int, y: int)
    ensures F(F(-l) * d - F(-y)) == F(-F(l * d - y))
  {
    hide F;
    NegatedSlopeProduct(l, d);
    NegatedY(F(-l) * d, l * d, y);
  }

  lemma ThirdOfNegation(l: int, x1: int, y1: int, x2: int)
    ensures Third(F(-l), x1, F(-y1), x2) == Negate(Third(l, x1, y1, x2))
  {
    hide F;
    NegatedSlopeX(l, x1 + x2);
    assert l * l - x1 - x2 == l * l - (x1 + x2);
    assert F(-l) * F(-l) - x1 - x2 == F(-l) * F(-l) - (x1 + x2);
    NegatedSlopeY(l, x1 - F(l * l - x1 - x2), y1);
  }

  lemma NegatedFactor(l: int, d: int)
    ensures (-l) * d == -(l * d) && (-l) * (-d) == l * d
  {}

  lemma NegationOfF(a: int)
    ensures F(-F(a)) == F(-a)
  {
    hide F, FSub;
    FOfF(a);
    HomSub(0, a);
    HomSub(0, F(a));
  }

  lemma NegateAdd(p: Aff, q: Aff)
    requires PrimeP() && IsPoint(p) && IsPoint(q)
    ensures Add(Negate(p), Negate(q)) == Negate(Add(p, q))
  {
    hide F, FMul, FSub, FDiv, Third, Tangent;
    if p.Pt? && q.Pt? {
      NegateEqual(p.y, q.y);
      if p.x != q.x {
        NegatedDifference(p.y, q.y);
        DivOfResidue(F(-q.y) - F(-p.y), -(q.y - p.y), q.x - p.x);
        DivOfNegation(q.y - p.y, q.x - p.x);
        ThirdOfNegation(Chord(p.x, p.y, q.x, q.y), p.x, p.y, q.x);
      } else if p.y == q.y && p.y != 0 {
        NonZeroNegation(p.y);
        TangentOfNegation(p.x, p.y);
        ThirdOfNegation(Tangent(p.x, p.y), p.x, p.y, p.x);
      }
    }
  }

  lemma NegateEqual(y1: int, y2: int)
    requires 0 <= y1 < P && 0 <= y2 < P
    ensures F(-y1) == F(-y2) <==> y1 == y2
    ensures F(-y1) == 0 <==> y1 == 0
  {}

  lemma NegatedDifference(y1: int, y2: int)
    ensures F(F(-y2) - F(-y1)) == F(-(y2 - y1))
  {
    hide F;
    HomSub(-y2, -y1);
  }

  // ---- Scalar multiples ----

  function Times(n: nat, p: Aff): Aff {
    if n == 0 then Inf else Add(Times(n - 1, p), p)
  }

  /** The one group law taken as a hypothesis. */
  ghost predicate Associative(b: int) {
    forall p, q, r :: OnCurve(p, b) && OnCurve(q, b) && OnCurve(r, b) ==> Add(Add(p, q), r) == Add(p, Add(q, r))
  }

  lemma {:induction false} TimesOnCurve(n: nat, p: Aff, b: int)
    requires PrimeP() && OnCurve(p, b)
    ensures OnCurve(Times(n, p), b)
  {
    hide OnCurve, Add;
    if n > 0 {
      TimesOnCurve(n - 1, p, b);
      AddOnCurve(Times(n - 1, p), p, b);
    } else {
      InfOnCurve(b);
    }
  }

  lemma InfOnCurve(b: int)
    ensures OnCurve(Inf, b)
  {}

  lemma AddInf(p: Aff)
    ensures Add(p, Inf) == p && Add(Inf, p) == p
  {}

  lemma {:induction false} TimesAdd(m: nat, n: nat, p: Aff, b: int)
    requires PrimeP() && Associative(b) && OnCurve(p, b)
    ensures Times(m + n, p) == Add(Times(m, p), Times(n, p))
  {
    hide OnCurve, Add;
    if n == 0 {
      AddInf(Times(m, p));
    } else {
      TimesAdd(m, n - 1, p, b);
      TimesOnCurve(m, p, b);
      TimesOnCurve(n - 1, p, b);
      assert Add(Add(Times(m, p), Times(n - 1, p)), p) == Add(Times(m, p), Add(Times(n - 1, p), p));
    }
  }

  lemma {:induction false} TimesTimes(m: nat, n: nat, p: Aff, b: int)
    requires PrimeP() && Associative(b) && OnCurve(p, b)
    ensures m * n >= 0 && Times(m * n, p) == Times(m, Times(n, p))
  {
    hide OnCurve, Add;
    if m > 0 {
      TimesTimes(m - 1, n, p, b);
      assert m * n == (m - 1) * n + n;
      TimesAdd((m - 1) * n, n, p, b);
    }
  }

  lemma {:induction false} TimesNegate(n: nat, p: Aff, b: int)
    requires PrimeP() && OnCurve(p, b)
    ensures Times(n, Negate(p)) == Negate(Times(n, p))
  {
    hide Add;
    if n > 0 {
      TimesNegate(n - 1, p, b);
      TimesOnCurve(n - 1, p, b);
      NegateAdd(Times(n - 1, p), p);
    }
  }

  /** What is assumed: P is prime, addition on the curve is associative, and the multiples 1..15 of
      the base point, the table entries, are finite. */
  ghost predicate Assumed(a: Aff, b: int) {
    PrimeP() && Associative(b) && forall k :: 1 <= k <= 15 ==> Times(k, a) != Inf
  }

  /** And the base point is on the curve. */
  ghost predicate Laws(a: Aff, b: int) { Assumed(a, b) && OnCurve(a, b) }
}
