/** The curves y^2 = x^3 - 3x + b over the field, for any b (so for the main curve and its twist):
    the affine group law, the Jacobian formulas of `point_double` and `point_add`, and the proof
    that the formulas compute the group law. */
module Curve {
  import opened Fp

  datatype Aff = Inf | Pt(x: int, y: int)

  datatype Jac = Jac(x: int, y: int, z: int)


  function FDiv(a: int, b: int): int { FMul(F(a), FPow(b, PM2)) }

  // ---- The affine group law ----

  /** The third point of the line of slope l through (x1, y1), reflected. */
  function Third(l: int, x1: int, y1: int, x2: int): Aff {
    var x3 := F(l * l - x1 - x2);
    Pt(x3, F(l * (x1 - x3) - y1))
  }

  function Tangent(x: int, y: int): int { FDiv(3 * (x * x) - 3, 2 * y) }

  function Chord(x1: int, y1: int, x2: int, y2: int): int { FDiv(y2 - y1, x2 - x1) }

  function Add(a: Aff, b: Aff): Aff {
    if a.Inf? then b
    else if b.Inf? then a
    else if a.x != b.x then Third(Chord(a.x, a.y, b.x, b.y), a.x, a.y, b.x)
    else if a.y == b.y && a.y != 0 then Third(Tangent(a.x, a.y), a.x, a.y, a.x)
    else Inf
  }

  function Negate(a: Aff): Aff {
    if a.Inf? then Inf else Pt(a.x, F(-a.y))
  }

  predicate IsPoint(a: Aff) { a.Pt? ==> 0 <= a.x < P && 0 <= a.y < P }

  function Cubic(x: int, b: int): int { x * x * x - 3 * x + b }

  predicate OnCurve(a: Aff, b: int) {
    IsPoint(a) && (a.Pt? ==> F(a.y * a.y) == F(Cubic(a.x, b)))
  }

  lemma DivSpec(a: int, b: int)
    requires PrimeP() && F(b) != 0
    ensures F(FDiv(a, b) * b) == F(a)
  {
    hide F, FMul, Pow;
    var i := Pow(b, PM2);
    assert FPow(b, P - 1) == F(Pow(b, 1 + PM2));
    PowAdd(b, 1, PM2);
    PowOne(b);
    Fermat(b);
    assert F(b * i) == 1;
    HomMul(a, i);
    HomMul(a * i, b);
    HomMul(FDiv(a, b), b);
    FOfF(a * i);
    FOfF(b * i);
    HomMul(a, b * i);
    assert a * i * b == a * (b * i);
    HomMul(a, 1);
    FOne();
    assert a * 1 == a;
  }

  /** And no other residue is the quotient. */
  lemma QuotientUnique(a: int, b: int, c: int)
    requires PrimeP() && F(b) != 0 && 0 <= c < P && F(c * b) == F(a)
    ensures c == FDiv(a, b)
  {
    DivSpec(a, b);
    hide F;
    Cancel(c, FDiv(a, b), b);
    FOfF(F(a) * FPow(b, PM2));
    SelfF(c);
  }

  lemma PowOne(b: int)
    ensures Pow(b, 1) == b
  {
    assert Pow(b, 1) == b * Pow(b, 0);
  }

  // ---- The formulas of the source, over the field ----

  function JDouble(p: Jac): Jac {
    var delta := FMul(p.z, p.z);
    var gamma := FMul(p.y, p.y);
    var beta := FMul(p.x, gamma);
    var alpha := FMul(FSub(p.x, delta), FMul(F(3), FAdd(p.x, delta)));
    var x := FSub(FMul(alpha, alpha), FMul(F(8), beta));
    var s := FAdd(p.y, p.z);
    var z := FSub(FMul(s, s), FAdd(delta, gamma));
    var y := FSub(FMul(alpha, FSub(FMul(F(4), beta), x)), FMul(F(8), FMul(gamma, gamma)));
    Jac(x, y, z)
  }

  /** z1^2*x2 - z2^2*x1, zero when the affine x coordinates agree. */
  function XDiff(p: Jac, q: Jac): int {
    FSub(FMul(FMul(p.z, p.z), q.x), FMul(FMul(q.z, q.z), p.x))
  }

  /** z1^3*y2 - z2^3*y1, zero when the affine y coordinates agree. */
  function YDiff(p: Jac, q: Jac): int {
    FSub(FMul(FMul(FMul(p.z, p.z), p.z), q.y), FMul(FMul(FMul(q.z, q.z), q.z), p.y))
  }

  /** The addition formula proper, for points that are finite and different. */
  function JSum(p: Jac, q: Jac): Jac {
    var u, r := XDiff(p, q), YDiff(p, q);
    var s := FMul(FMul(FMul(q.z, q.z), q.z), p.y);
    var z := FMul(u, FMul(p.z, q.z));
    var uu := FMul(u, u);
    var uuu := FMul(uu, u);
    var v := FMul(FMul(FMul(q.z, q.z), p.x), uu);
    var x := FSub(FSub(FMul(r, r), uuu), FMul(F(2), v));
    var y := FSub(FMul(r, FSub(v, x)), FMul(s, uuu));
    Jac(x, y, z)
  }

  /** The cases of `point_add` for given outcomes of the tests for infinity. When the output is the
      first operand, a second operand at infinity is recognised too late to copy the first. */
  function AddCases(p: Jac, q: Jac, z1: bool, z2: bool, inPlace: bool): Jac {
    if XDiff(p, q) == 0 && YDiff(p, q) == 0 && !z1 && !z2 then JDouble(p)
    else if z2 && !inPlace then p
    else if z1 then q
    else JSum(p, q)
  }

  function AddResult(p: Jac, q: Jac, inPlace: bool): Jac { AddCases(p, q, p.z == 0, q.z == 0, inPlace) }

  function JAdd(p: Jac, q: Jac): Jac { AddResult(p, q, false) }

  // ---- Formulas compute the group law ----

  ghost predicate IsJac(j: Jac) { 0 <= j.x < P && 0 <= j.y < P && 0 <= j.z < P }

  /** j stands for the affine point a = (X/Z^2, Y/Z^3), or for infinity when Z = 0. */
  ghost predicate Represents(j: Jac, a: Aff) {
    IsJac(j) &&
    if a.Inf? then j.z == 0
    else j.z != 0 && j.x == F(a.x * (j.z * j.z)) && j.y == F(a.y * (j.z * j.z * j.z))
  }

  lemma MulF(x: int, y: int, a: int, b: int)
    requires a == F(x) && b == F(y)
    ensures FMul(a, b) == F(x * y)
  {
    HomMul(x, y);
  }

  lemma SubF(x: int, y: int, a: int, b: int)
    requires a == F(x) && b == F(y)
    ensures FSub(a, b) == F(x - y)
  {
    HomSub(x, y);
  }

  lemma AddF(x: int, y: int, a: int, b: int)
    requires a == F(x) && b == F(y)
    ensures FAdd(a, b) == F(x + y)
  {
    HomAdd(x, y);
  }

  lemma SelfF(x: int)
    requires 0 <= x < P
    ensures F(x) == x
  {}

  lemma XDiffIdentity(x1: int, x2: int, z1: int, z2: int)
    ensures (z1 * z1) * (x2 * (z2 * z2)) - (z2 * z2) * (x1 * (z1 * z1)) == (z1 * z2) * (z1 * z2) * (x2 - x1)
    ensures (z2 * z2) * (x1 * (z1 * z1)) == (z1 * z2) * (z1 * z2) * x1
  {}

  lemma YDiffIdentity(y1: int, y2: int, z1: int, z2: int)
    ensures (z1 * z1 * z1) * (y2 * (z2 * z2 * z2)) - (z2 * z2 * z2) * (y1 * (z1 * z1 * z1))
         == (z1 * z2) * (z1 * z2) * (z1 * z2) * (y2 - y1)
  {
    CubeSplit(z1, z2, y1);
    CubeSplit(z2, z1, y2);
  }

  lemma SumXIdentity(u: int, w: int, l: int, x1: int, d: int)
    ensures (w * l * u) * (w * l * u) - (u * u) * (w * w * d) - 2 * ((w * w * x1) * (u * u))
         == (l * l - x1 - (x1 + d)) * ((u * w) * (u * w))
  {}

  lemma SumYIdentity(k: int, l: int, x1: int, x3: int, y1: int)
    ensures (l * k) * (x1 * (k * k) - x3 * (k * k)) - y1 * (k * k * k) == (l * (x1 - x3) - y1) * (k * k * k)
  {}

  lemma SumMonomials(u: int, w: int, l: int, x1: int, y1: int)
    ensures w * l * u == l * (u * w)
    ensures (w * w * x1) * (u * u) == x1 * ((u * w) * (u * w))
    ensures (w * w * w * y1) * ((u * u) * u) == y1 * ((u * w) * (u * w) * (u * w))
  {}

  lemma CubeSplit(z1: int, z2: int, y1: int)
    ensures (z2 * z2 * z2) * (y1 * (z1 * z1 * z1)) == (z1 * z2) * (z1 * z2) * (z1 * z2) * y1
  {}

  /** What `XDiff` and `YDiff` are in terms of the affine points. */
  lemma DiffsRepresent(p: Jac, q: Jac, a: Aff, b: Aff)
    requires Represents(p, a) && Represents(q, b) && a.Pt? && b.Pt?
    ensures var w := p.z * q.z;
            XDiff(p, q) == F(w * w * (b.x - a.x)) && YDiff(p, q) == F(w * w * w * (b.y - a.y))
  {
    hide F, FAdd, FSub, FMul;
    var z1, z2 := p.z, q.z;
    SelfF(z1);
    SelfF(z2);
    MulF(z1, z1, z1, z1);
    MulF(z2, z2, z2, z2);
    MulF(z1 * z1, b.x * (z2 * z2), FMul(z1, z1), q.x);
    MulF(z2 * z2, a.x * (z1 * z1), FMul(z2, z2), p.x);
    SubF((z1 * z1) * (b.x * (z2 * z2)), (z2 * z2) * (a.x * (z1 * z1)),
         FMul(FMul(z1, z1), q.x), FMul(FMul(z2, z2), p.x));
    XDiffIdentity(a.x, b.x, z1, z2);

    var c1, c2 := z1 * z1 * z1, z2 * z2 * z2;
    MulF(z1 * z1, z1, FMul(z1, z1), z1);
    MulF(z2 * z2, z2, FMul(z2, z2), z2);
    MulF(c1, b.y * c2, FMul(FMul(z1, z1), z1), q.y);
    MulF(c2, a.y * c1, FMul(FMul(z2, z2), z2), p.y);
    SubF(c1 * (b.y * c2), c2 * (a.y * c1), FMul(FMul(FMul(z1, z1), z1), q.y), FMul(FMul(FMul(z2, z2), z2), p.y));
    YDiffIdentity(a.y, b.y, z1, z2);
  }

  /** YDiff through a slope l of the chord. */
  lemma SlopeDiff(w: int, l: int, d: int, e: int)
    requires F(l * d) == F(e)
    ensures F(w * w * w * e) == F(w * l * (w * w * d))
  {
    hide F, FMul;
    var c := w * w * w;
    MulF(c, e, F(c), F(e));
    MulF(c, l * d, F(c), F(l * d));
    SlopeMonomials(w, l, d);
  }

  lemma SlopeMonomials(w: int, l: int, d: int)
    ensures (w * w * w) * (l * d) == w * l * (w * w * d)
  {}

  /** The scaled coordinates of an affine point represent it. */
  lemma ScaledRepresents(l: int, x1: int, y1: int, x2: int, k: int)
    requires F(k) != 0
    ensures var x3 := l * l - x1 - x2; var y3 := l * (x1 - x3) - y1;
            Represents(Jac(F(x3 * (k * k)), F(y3 * (k * k * k)), F(k)), Third(l, x1, y1, x2))
  {
    hide F;
    var x3 := l * l - x1 - x2;
    var y3 := l * (x1 - x3) - y1;
    var z := F(k);
    ThirdY(l, x1, x3, y1);
    SquareOfF(k);
    ScaledF(x3, k * k, z * z);
    ScaledF(y3, k * k * k, z * z * z);
  }

  lemma SquareOfF(k: int)
    ensures F(F(k) * F(k)) == F(k * k) && F(F(k) * F(k) * F(k)) == F(k * k * k)
  {
    hide F, FMul;
    var z := F(k);
    FOfF(k);
    MulF(k, k, z, z);
    MulF(z, z, z, z);
    MulF(k * k, k, F(k * k), z);
    MulF(z * z, z, F(k * k), z);
  }

  lemma ScaledF(x: int, c: int, d: int)
    requires F(c) == F(d)
    ensures F(F(x) * d) == F(x * c)
  {
    hide F, FMul;
    FOfF(x);
    MulF(x, c, F(x), F(c));
    MulF(F(x), d, F(x), F(c));
  }

  lemma SubOfF(a: int, b: int)
    ensures F(a - F(b)) == F(a - b)
  {
    hide F, FSub;
    FOfF(b);
    HomSub(a, b);
    HomSub(a, F(b));
  }

  lemma SubCongruent(u: int, v: int, y: int)
    requires F(u) == F(v)
    ensures F(u - y) == F(v - y)
  {
    hide F, FSub;
    HomSub(u, y);
    HomSub(v, y);
  }

  lemma ThirdY(l: int, x1: int, x3: int, y1: int)
    ensures F(l * (x1 - F(x3)) - y1) == F(l * (x1 - x3) - y1)
  {
    hide F, FMul;
    SubOfF(x1, x3);
    HomMul(l, x1 - x3);
    HomMul(l, x1 - F(x3));
    SubCongruent(l * (x1 - F(x3)), l * (x1 - x3), y1);
  }

  lemma SumFormula(p: Jac, q: Jac, w: int, d: int, l: int, x1: int, y1: int)
    requires var u := w * w * d; XDiff(p, q) == F(u) && YDiff(p, q) == F(w * l * u)
    requires FMul(FMul(q.z, q.z), p.x) == F(w * w * x1)
    requires FMul(FMul(FMul(q.z, q.z), q.z), p.y) == F(w * w * w * y1)
    requires FMul(p.z, q.z) == F(w)
    ensures var k := w * w * d * w; var x3 := l * l - x1 - (x1 + d); var y3 := l * (x1 - x3) - y1;
            JSum(p, q) == Jac(F(x3 * (k * k)), F(y3 * (k * k * k)), F(k))
  {
    hide F, FAdd, FSub, FMul, XDiff, YDiff;
    var u := w * w * d;
    var k, r, v, s := u * w, w * l * u, (w * w * x1) * (u * u), (w * w * w * y1) * ((u * u) * u);
    var x3 := l * l - x1 - (x1 + d);
    var fu, fr := XDiff(p, q), YDiff(p, q);
    MulF(u, w, fu, F(w));
    MulF(u, u, fu, fu);
    MulF(u * u, u, F(u * u), fu);
    MulF(w * w * x1, u * u, F(w * w * x1), F(u * u));
    MulF(r, r, fr, fr);
    SubF(r * r, (u * u) * u, F(r * r), F((u * u) * u));
    MulF(2, v, F(2), F(v));
    SubF(r * r - (u * u) * u, 2 * v, F(r * r - (u * u) * u), F(2 * v));
    SumXIdentity(u, w, l, x1, d);
    assert JSum(p, q).x == F(x3 * (k * k));
    MulF(w * w * w * y1, (u * u) * u, F(w * w * w * y1), F((u * u) * u));
    SubF(v, x3 * (k * k), F(v), F(x3 * (k * k)));
    MulF(r, v - x3 * (k * k), fr, F(v - x3 * (k * k)));
    SubF(r * (v - x3 * (k * k)), s, F(r * (v - x3 * (k * k))), F(s));
    SumMonomials(u, w, l, x1, y1);
    SumYIdentity(k, l, x1, x3, y1);
  }

  lemma SumRepresents(p: Jac, q: Jac, a: Aff, b: Aff)
    requires PrimeP() && Represents(p, a) && Represents(q, b) && a.Pt? && b.Pt? && IsPoint(a) && IsPoint(b)
    requires a.x != b.x
    ensures Represents(JSum(p, q), Add(a, b))
  {
    hide F, FAdd, FSub, FMul, FDiv, JSum, XDiff, YDiff;
    var l := Chord(a.x, a.y, b.x, b.y);
    var d, w := b.x - a.x, p.z * q.z;
    DifferentResidues(a.x, b.x);
    DivSpec(b.y - a.y, d);
    DiffsRepresent(p, q, a, b);
    SlopeDiff(w, l, d, b.y - a.y);
    ScaledOperands(p, q, a);
    SumFormula(p, q, w, d, l, a.x, a.y);
    NonZeroProduct(p.z, q.z);
    NonZeroProduct(w, w);
    NonZeroProduct(w * w, d);
    NonZeroProduct(w * w * d, w);
    ScaledRepresents(l, a.x, a.y, b.x, w * w * d * w);
  }

  lemma ScaledOperands(p: Jac, q: Jac, a: Aff)
    requires Represents(p, a) && IsJac(q) && a.Pt?
    ensures var w := p.z * q.z;
            FMul(FMul(q.z, q.z), p.x) == F(w * w * a.x) &&
            FMul(FMul(FMul(q.z, q.z), q.z), p.y) == F(w * w * w * a.y) &&
            FMul(p.z, q.z) == F(w) && F(p.z) == p.z && F(q.z) == q.z
  {
    hide F, FMul;
    var z1, z2 := p.z, q.z;
    SelfF(z1);
    SelfF(z2);
    MulF(z1, z2, z1, z2);
    MulF(z2, z2, z2, z2);
    MulF(z2 * z2, z2, F(z2 * z2), z2);
    MulF(z2 * z2, a.x * (z1 * z1), F(z2 * z2), p.x);
    MulF(z2 * z2 * z2, a.y * (z1 * z1 * z1), F(z2 * z2 * z2), p.y);
    XDiffIdentity(a.x, 0, z1, z2);
    CubeSplit(z1, z2, a.y);
  }

  lemma NonZeroProduct(x: int, y: int)
    requires PrimeP() && F(x) != 0 && F(y) != 0
    ensures F(x * y) != 0
  {
    if F(x * y) == 0 { NoZeroDivisors(x, y); }
  }

  lemma DifferentResidues(x: int, y: int)
    requires 0 <= x < P && 0 <= y < P && x != y
    ensures F(y - x) != 0
  {}

  // ---- Doubling ----

  /** With D = z^2, X = x*D, Y = y*z^3 and k = 2*y*D^2, the coordinates of the doubled point. */
  lemma DoubleZIdentity(y: int, z: int)
    ensures var c := y * (z * z * z);
            (c + z) * (c + z) - (z * z + c * c) == 2 * (y * ((z * z) * (z * z)))
  {
    var c := y * (z * z * z);
    SquareOfSum(c, z);
    assert c * z == y * ((z * z) * (z * z));
  }

  lemma SquareOfSum(c: int, z: int)
    ensures (c + z) * (c + z) - (z * z + c * c) == 2 * (c * z)
  {}

  lemma AlphaIdentity(x: int, e: int)
    ensures (x * e - e) * (3 * (x * e + e)) == (3 * (x * x) - 3) * (e * e)
  {}

  lemma BetaIdentity(x: int, y: int, e: int, g: int)
    requires g == (y * y) * (e * e * e)
    ensures var k := 2 * (y * (e * e));
            4 * ((x * e) * g) == x * (k * k) && 8 * (g * g) == y * (k * k * k)
  {
    var m := y * (e * e);
    assert (x * e) * ((y * y) * (e * e * e)) == x * (m * m);
    assert ((y * y) * (e * e * e)) * ((y * y) * (e * e * e)) == y * (m * m * m);
  }

  lemma GammaIdentity(y: int, z: int)
    ensures (y * (z * z * z)) * (y * (z * z * z)) == (y * y) * ((z * z) * (z * z) * (z * z))
  {}

  lemma AlphaValue(fx: int, x: int, y: int, e: int, l: int)
    requires fx == F(x * e) && F(l * (2 * y)) == F(3 * (x * x) - 3)
    ensures FMul(FSub(fx, F(e)), FMul(F(3), FAdd(fx, F(e)))) == F(l * (2 * (y * (e * e))))
  {
    hide F, FAdd, FSub, FMul;
    SubF(x * e, e, fx, F(e));
    AddF(x * e, e, fx, F(e));
    MulF(3, x * e + e, F(3), F(x * e + e));
    MulF(x * e - e, 3 * (x * e + e), F(x * e - e), F(3 * (x * e + e)));
    AlphaIdentity(x, e);
    MulF(3 * (x * x) - 3, e * e, F(3 * (x * x) - 3), F(e * e));
    MulF(l * (2 * y), e * e, F(l * (2 * y)), F(e * e));
    assert (l * (2 * y)) * (e * e) == l * (2 * (y * (e * e)));
  }

  lemma DoubleFormula(p: Jac, x: int, y: int, l: int)
    requires IsJac(p) && p.x == F(x * (p.z * p.z)) && p.y == F(y * (p.z * p.z * p.z))
    requires F(l * (2 * y)) == F(3 * (x * x) - 3)
    ensures var k := 2 * (y * ((p.z * p.z) * (p.z * p.z))); var x3 := l * l - x - x; var y3 := l * (x - x3) - y;
            JDouble(p) == Jac(F(x3 * (k * k)), F(y3 * (k * k * k)), F(k))
  {
    hide F, FAdd, FSub, FMul;
    var z := p.z;
    var e, c := z * z, y * (z * z * z);
    var g, k := c * c, 2 * (y * (e * e));
    SelfF(z);
    MulF(z, z, z, z);
    MulF(c, c, p.y, p.y);
    MulF(x * e, g, p.x, F(g));
    // z'
    AddF(c, z, p.y, z);
    MulF(c + z, c + z, F(c + z), F(c + z));
    AddF(e, g, F(e), F(g));
    SubF((c + z) * (c + z), e + g, F((c + z) * (c + z)), F(e + g));
    DoubleZIdentity(y, z);
    assert JDouble(p).z == F(k);
    // alpha
    AlphaValue(p.x, x, y, e, l);
    var alpha := F(l * k);
    // x'
    GammaIdentity(y, z);
    BetaIdentity(x, y, e, g);
    var t := (x * e) * g;
    MulF(l * k, l * k, alpha, alpha);
    MulF(8, t, F(8), F(t));
    SubF((l * k) * (l * k), 8 * t, F((l * k) * (l * k)), F(8 * t));
    var x3 := l * l - x - x;
    DoubleXIdentity(l, k, x);
    assert JDouble(p).x == F(x3 * (k * k));
    // y'
    MulF(4, t, F(4), F(t));
    SubF(4 * t, x3 * (k * k), F(4 * t), F(x3 * (k * k)));
    MulF(l * k, 4 * t - x3 * (k * k), alpha, F(4 * t - x3 * (k * k)));
    MulF(g, g, F(g), F(g));
    MulF(8, g * g, F(8), F(g * g));
    SubF((l * k) * (4 * t - x3 * (k * k)), 8 * (g * g), F((l * k) * (4 * t - x3 * (k * k))), F(8 * (g * g)));
    SumYIdentity(k, l, x, x3, y);
  }

  lemma DoubleXIdentity(l: int, k: int, x: int)
    ensures (l * k) * (l * k) - 2 * (x * (k * k)) == (l * l - x - x) * (k * k)
  {}

  lemma DoubleZ(p: Jac)
    requires IsJac(p)
    ensures JDouble(p).z == F(2 * (p.y * p.z))
  {
    hide F, FAdd, FSub, FMul;
    var c, z := p.y, p.z;
    SelfF(c);
    SelfF(z);
    AddF(c, z, c, z);
    MulF(c + z, c + z, F(c + z), F(c + z));
    MulF(z, z, z, z);
    MulF(c, c, c, c);
    AddF(z * z, c * c, F(z * z), F(c * c));
    SubF((c + z) * (c + z), z * z + c * c, F((c + z) * (c + z)), F(z * z + c * c));
    SquareOfSum(c, z);
  }

  lemma FRange()
    ensures forall a :: 0 <= F(a) < P
  {}

  lemma FormulasAreJac(p: Jac, q: Jac)
    ensures IsJac(JDouble(p)) && IsJac(JSum(p, q))
  {
    hide F;
    FRange();
  }

  /** `point_double` computes a + a, also at infinity and at points of order 2. */
  lemma DoubleRepresents(p: Jac, a: Aff)
    requires PrimeP() && Represents(p, a) && IsPoint(a)
    ensures Represents(JDouble(p), Add(a, a))
  {
    hide F, FAdd, FSub, FMul, FDiv, JDouble;
    FormulasAreJac(p, p);
    FOne();
    if a.Inf? || a.y == 0 {
      DoubleZ(p);
      assert a.Pt? ==> p.y == F(0);
      assert p.y == 0 || p.z == 0;
      assert p.y * p.z == 0;
    } else {
      var l := Tangent(a.x, a.y);
      SelfF(a.y);
      SelfF(p.z);
      assert 2 * a.y == a.y * 2;
      FTwo();
      NonZeroProduct(2, a.y);
      DivSpec(3 * (a.x * a.x) - 3, 2 * a.y);
      DoubleFormula(p, a.x, a.y, l);
      var e := p.z * p.z;
      NonZeroProduct(p.z, p.z);
      NonZeroProduct(e, e);
      NonZeroProduct(a.y, e * e);
      NonZeroProduct(2, a.y * (e * e));
      ScaledRepresents(l, a.x, a.y, a.x, 2 * (a.y * (e * e)));
    }
  }

  lemma FTwo()
    ensures F(2) == 2
  {}

  /** `point_add` computes a + b in every case: distinct, equal, opposite and infinite operands. */
  lemma AddRepresents(p: Jac, q: Jac, a: Aff, b: Aff)
    requires PrimeP() && Represents(p, a) && Represents(q, b) && IsPoint(a) && IsPoint(b)
    ensures Represents(JAdd(p, q), Add(a, b))
  {
    hide F, FAdd, FSub, FMul, FDiv, JDouble, JSum, XDiff, YDiff, Third, Chord, Tangent;
    if a.Inf? || b.Inf? {
    } else {
      var w := p.z * q.z;
      var dx, dy := b.x - a.x, b.y - a.y;
      DiffsRepresent(p, q, a, b);
      FiniteProducts(p.z, q.z);
      if XDiff(p, q) == 0 {
        if a.x != b.x {
          DifferentResidues(a.x, b.x);
          NonZeroProduct(w * w, b.x - a.x);
        }
        assert a.x == b.x;
        if YDiff(p, q) == 0 {
          if a.y != b.y {
            DifferentResidues(a.y, b.y);
            NonZeroProduct(w * w * w, b.y - a.y);
          }
          assert a == b;
          DoubleRepresents(p, a);
        } else {
          FOne();
          assert dy == 0 ==> w * w * w * dy == 0;
          FormulasAreJac(p, q);
          SumAtInfinity(p, q);
        }
      } else {
        FOne();
        assert dx == 0 ==> w * w * dx == 0;
        SumRepresents(p, q, a, b);
      }
    }
  }

  lemma FiniteProducts(x: int, y: int)
    requires PrimeP() && 0 < x < P && 0 < y < P
    ensures var w := x * y; F(w * w) != 0 && F(w * w * w) != 0
  {
    hide F;
    SelfF(x);
    SelfF(y);
    NonZeroProduct(x, y);
    NonZeroProduct(x * y, x * y);
    NonZeroProduct((x * y) * (x * y), x * y);
  }

  lemma ZeroTimes(x: int)
    ensures FMul(0, x) == 0 && FMul(x, 0) == 0
  {
    FOne();
  }

  lemma SumAtInfinity(p: Jac, q: Jac)
    requires XDiff(p, q) == 0
    ensures JSum(p, q).z == 0
  {
    ZeroTimes(FMul(p.z, q.z));
  }

  // ---- Writing over the first operand ----

  /** The sum formulas with an infinite second operand give an infinite point. */
  lemma SumWithInfinity(p: Jac, q: Jac)
    requires q.z == 0
    ensures JSum(p, q).z == 0
  {
    hide F, FSub, XDiff, YDiff;
    ZeroTimes(p.z);
    ZeroTimes(XDiff(p, q));
  }

  /** The call that writes over its first operand computes the sum exactly when the second operand
      is finite or the first is infinite. */
  lemma InPlaceExact(p: Jac, q: Jac, a: Aff, b: Aff)
    requires PrimeP() && Represents(p, a) && Represents(q, b) && IsPoint(a) && IsPoint(b)
    ensures Represents(AddResult(p, q, true), Add(a, b)) <==> b.Pt? || a.Inf?
  {
    hide F, JDouble, JSum, XDiff, YDiff;
    AddRepresents(p, q, a, b);
    if b.Inf? && a.Pt? { SumWithInfinity(p, q); }
  }

  /** For instance, adding infinity in place to (0, 0) gives infinity. */
  lemma InPlaceWrong()
    ensures var p, q, a := Jac(0, 0, 1), Jac(1, 1, 0), Pt(0, 0);
            && Represents(p, a) && Represents(q, Inf)
            && Represents(JAdd(p, q), Add(a, Inf)) && !Represents(AddResult(p, q, true), Add(a, Inf))
  {
    hide JDouble, JSum, XDiff, YDiff;
    FOne();
    SumWithInfinity(Jac(0, 0, 1), Jac(1, 1, 0));
  }
}
