/** Colour-space matrices over exact reals. */
module Colour {

  // --- data ---------------------------------------------------------------------------------

  datatype Vector3 = Vector3(x: real, y: real, z: real) {
    function At(i: nat): real
      requires i < 3
    {
      if i == 0 then x else if i == 1 then y else z
    }
  }

  /** Three rows. */
  datatype Matrix3 = Matrix3(r0: Vector3, r1: Vector3, r2: Vector3) {
    function Row(i: nat): Vector3
      requires i < 3
    {
      if i == 0 then r0 else if i == 1 then r1 else r2
    }

    function At(i: nat, j: nat): real
      requires i < 3 && j < 3
    {
      Row(i).At(j)
    }

    function Column(j: nat): Vector3
      requires j < 3
    {
      Vector3(r0.At(j), r1.At(j), r2.At(j))
    }
  }

  const ZERO := Matrix3(Vector3(0.0, 0.0, 0.0), Vector3(0.0, 0.0, 0.0), Vector3(0.0, 0.0, 0.0))
  const IDENTITY := Matrix3(Vector3(1.0, 0.0, 0.0), Vector3(0.0, 1.0, 0.0), Vector3(0.0, 0.0, 1.0))
  const ONES := Vector3(1.0, 1.0, 1.0)

  const D50_X: real := 0.34567
  const D50_Y: real := 0.35850
  const D50_XYZ := Vector3(0.964212, 1.0, 0.825188)

  const BRADFORD := Matrix3(
    Vector3(0.8951, 0.2664, -0.1614),
    Vector3(-0.7502, 1.7135, 0.0367),
    Vector3(0.0389, -0.0685, 1.0296))

  const BRADFORD_INV := Matrix3(
    Vector3(0.9869929, -0.1470543, 0.1599627),
    Vector3(0.4323053, 0.5183603, 0.0492912),
    Vector3(-0.0085287, 0.0400428, 0.9684867))

  const FLT_MAX: real := 340282346638528859811704183484516925440.0

  // --- products ---------------------------------------------------------------------------------

  function Dot(a: Vector3, b: Vector3): real {
    a.x * b.x + a.y * b.y + a.z * b.z
  }

  function Apply(a: Matrix3, v: Vector3): Vector3 {
    Vector3(Dot(a.r0, v), Dot(a.r1, v), Dot(a.r2, v))
  }

  function RowTimes(u: Vector3, b: Matrix3): Vector3 {
    Vector3(Dot(u, b.Column(0)), Dot(u, b.Column(1)), Dot(u, b.Column(2)))
  }

  function Times(a: Matrix3, b: Matrix3): Matrix3 {
    Matrix3(RowTimes(a.r0, b), RowTimes(a.r1, b), RowTimes(a.r2, b))
  }

  /** The diagonal of quotients. */
  function Quotient(a: Vector3, b: Vector3): Matrix3
    requires b.x != 0.0 && b.y != 0.0 && b.z != 0.0
  {
    Matrix3(Vector3(a.x / b.x, 0.0, 0.0), Vector3(0.0, a.y / b.y, 0.0), Vector3(0.0, 0.0, a.z / b.z))
  }

  lemma Distribute(p: real, a: real, b: real, c: real)
    ensures p * (a + b + c) == p * a + p * b + p * c
  {
  }

  lemma RowApplies(u: Vector3, b: Matrix3, v: Vector3)
    ensures Dot(RowTimes(u, b), v) == Dot(u, Apply(b, v))
  {
    Distribute(v.x, u.x * b.r0.x, u.y * b.r1.x, u.z * b.r2.x);
    Distribute(v.y, u.x * b.r0.y, u.y * b.r1.y, u.z * b.r2.y);
    Distribute(v.z, u.x * b.r0.z, u.y * b.r1.z, u.z * b.r2.z);
    Distribute(u.x, b.r0.x * v.x, b.r0.y * v.y, b.r0.z * v.z);
    Distribute(u.y, b.r1.x * v.x, b.r1.y * v.y, b.r1.z * v.z);
    Distribute(u.z, b.r2.x * v.x, b.r2.y * v.y, b.r2.z * v.z);
  }

  /** A product of matrices acts as one after the other. */
  lemma ProductApplies(a: Matrix3, b: Matrix3, v: Vector3)
    ensures Apply(Times(a, b), v) == Apply(a, Apply(b, v))
  {
    hide Dot, RowTimes;
    RowApplies(a.r0, b, v);
    RowApplies(a.r1, b, v);
    RowApplies(a.r2, b, v);
  }

  // --- the white point --------------------------------------------------------------------------------

  datatype Primaries = Primaries(rX: real, rY: real, gX: real, gY: real, bX: real, bY: real, wX: real, wY: real)

  /** `xyY` to XYZ. */
  function XYZ(x: real, y: real, luminance: real): Vector3
    requires y != 0.0
  {
    Vector3(x * luminance / y, luminance, (1.0 - x - y) * luminance / y)
  }

  /** Differences of `x / y` and of `(1 - x) / y` against the red primary. */
  function Slope(p: Primaries, x: real, y: real): real
    requires p.rY != 0.0 && y != 0.0
  {
    x / y - p.rX / p.rY
  }

  function Rise(p: Primaries, x: real, y: real): real
    requires p.rY != 0.0 && y != 0.0
  {
    (1.0 - x) / y - (1.0 - p.rX) / p.rY
  }

  predicate NonZero(p: Primaries) {
    && p.rY != 0.0 && p.gY != 0.0 && p.bY != 0.0 && p.wY != 0.0
    && Slope(p, p.gX, p.gY) != 0.0
    && Rise(p, p.bX, p.bY) * Slope(p, p.gX, p.gY) - Slope(p, p.bX, p.bY) * Rise(p, p.gX, p.gY) != 0.0
  }

  function LuminanceB(p: Primaries): real
    requires NonZero(p)
  {
    (Rise(p, p.wX, p.wY) * Slope(p, p.gX, p.gY) - Slope(p, p.wX, p.wY) * Rise(p, p.gX, p.gY))
    / (Rise(p, p.bX, p.bY) * Slope(p, p.gX, p.gY) - Slope(p, p.bX, p.bY) * Rise(p, p.gX, p.gY))
  }

  function LuminanceG(p: Primaries): real
    requires NonZero(p)
  {
    (Slope(p, p.wX, p.wY) - LuminanceB(p) * Slope(p, p.bX, p.bY)) / Slope(p, p.gX, p.gY)
  }

  function LuminanceR(p: Primaries): real
    requires NonZero(p)
  {
    1.0 - LuminanceG(p) - LuminanceB(p)
  }

  /** The matrix of `ComputeXYZD50` before adaptation. */
  function Unadapted(p: Primaries): Matrix3
    requires NonZero(p)
  {
    var r, g, b := LuminanceR(p) / p.rY, LuminanceG(p) / p.gY, LuminanceB(p) / p.bY;
    Matrix3(Vector3(r * p.rX, g * p.gX, b * p.bX),
            Vector3(LuminanceR(p), LuminanceG(p), LuminanceB(p)),
            Vector3(r * (1.0 - p.rX - p.rY), g * (1.0 - p.gX - p.gY), b * (1.0 - p.bX - p.bY)))
  }

  lemma Divided(n: real, d: real)
    requires d != 0.0
    ensures n / d * d == n
  {
  }

  lemma Regroup(l: real, x: real, y: real)
    requires y != 0.0
    ensures l / y * x == l * (x / y)
    ensures l / y * (1.0 - x - y) == l * ((1.0 - x) / y) - l
  {
    var q := l / y;
    assert l == q * y by { Divided(l, y); }
    var s := x / y;
    assert x == s * y by { Divided(x, y); }
    assert q * (s * y) == (q * y) * s;
    var t := (1.0 - x) / y;
    assert 1.0 - x == t * y by { Divided(1.0 - x, y); }
    assert q * (t * y - y) == (q * y) * t - q * y;
  }

  /** The luminances solve the two equations that put white where it belongs. */
  lemma LuminancesSolve(w: real, g: real, b: real, ow: real, og: real, ob: real, lb: real, lg: real)
    requires lb * (ob * g - b * og) == ow * g - w * og && lg * g == w - lb * b && g != 0.0
    ensures lg * og + lb * ob == ow
  {
    assert (lg * og + lb * ob) * g == (lg * g) * og + lb * (ob * g);
    assert (w - lb * b) * og == w * og - lb * (b * og);
    assert lb * (ob * g - b * og) == lb * (ob * g) - lb * (b * og);
    assert (lg * og + lb * ob) * g == ow * g;
    CancelFactor(lg * og + lb * ob, ow, g);
  }

  lemma CancelFactor(a: real, b: real, g: real)
    requires a * g == b * g && g != 0.0
    ensures a == b
  {
    assert (a - b) * g == 0.0;
  }

  lemma LuminanceFacts(p: Primaries)
    requires NonZero(p)
    ensures var w, g, b := Slope(p, p.wX, p.wY), Slope(p, p.gX, p.gY), Slope(p, p.bX, p.bY);
      var ow, og, ob := Rise(p, p.wX, p.wY), Rise(p, p.gX, p.gY), Rise(p, p.bX, p.bY);
      && LuminanceB(p) * (ob * g - b * og) == ow * g - w * og
      && LuminanceG(p) * g == w - LuminanceB(p) * b && g != 0.0
  {
    hide Slope, Rise;
    var w, g, b := Slope(p, p.wX, p.wY), Slope(p, p.gX, p.gY), Slope(p, p.bX, p.bY);
    var ow, og, ob := Rise(p, p.wX, p.wY), Rise(p, p.gX, p.gY), Rise(p, p.bX, p.bY);
    Divided(ow * g - w * og, ob * g - b * og);
    Divided(w - LuminanceB(p) * b, g);
  }

  /** A row of the matrix applied to ones, for any weights. */
  lemma RowSums(lr: real, lg: real, lb: real, p: Primaries)
    requires p.rY != 0.0 && p.gY != 0.0 && p.bY != 0.0 && lr == 1.0 - lg - lb
    ensures lr / p.rY * p.rX + lg / p.gY * p.gX + lb / p.bY * p.bX
         == p.rX / p.rY + lg * Slope(p, p.gX, p.gY) + lb * Slope(p, p.bX, p.bY)
    ensures lr / p.rY * (1.0 - p.rX - p.rY) + lg / p.gY * (1.0 - p.gX - p.gY) + lb / p.bY * (1.0 - p.bX - p.bY)
         == (1.0 - p.rX) / p.rY + lg * Rise(p, p.gX, p.gY) + lb * Rise(p, p.bX, p.bY) - 1.0
  {
    Regroup(lr, p.rX, p.rY);
    Regroup(lg, p.gX, p.gY);
    Regroup(lb, p.bX, p.bY);
    Weighted(lr, lg, lb, p.rX / p.rY, p.gX / p.gY, p.bX / p.bY);
    Weighted(lr, lg, lb, (1.0 - p.rX) / p.rY, (1.0 - p.gX) / p.gY, (1.0 - p.bX) / p.bY);
  }

  /** Equal amounts of the primaries make the white point. */
  lemma WhiteMapsToWhite(p: Primaries)
    requires NonZero(p)
    ensures Apply(Unadapted(p), ONES) == XYZ(p.wX, p.wY, 1.0)
  {
    hide LuminanceB, LuminanceG, XYZ, Slope, Rise, Apply;
    var lg, lb := LuminanceG(p), LuminanceB(p);
    var w, g, b := Slope(p, p.wX, p.wY), Slope(p, p.gX, p.gY), Slope(p, p.bX, p.bY);
    var ow, og, ob := Rise(p, p.wX, p.wY), Rise(p, p.gX, p.gY), Rise(p, p.bX, p.bY);
    LuminanceFacts(p);
    LuminancesSolve(w, g, b, ow, og, ob, lb, lg);
    RowSums(LuminanceR(p), lg, lb, p);
    WhiteXYZ(p.wX, p.wY);
    WhiteAgainstRed(p);
    OnesSum(Unadapted(p));
  }

  /** A full amount of one primary is a multiple of that primary, of each in its place; its second
      coordinate says which. */
  lemma PrimariesMap(p: Primaries)
    requires NonZero(p)
    ensures var m := Unadapted(p);
      var red, green, blue := Apply(m, Vector3(1.0, 0.0, 0.0)), Apply(m, Vector3(0.0, 1.0, 0.0)), Apply(m, Vector3(0.0, 0.0, 1.0));
      && red == XYZ(p.rX, p.rY, red.y) && green == XYZ(p.gX, p.gY, green.y) && blue == XYZ(p.bX, p.bY, blue.y)
      && red.y + green.y + blue.y == 1.0
  {
    hide LuminanceB, LuminanceG, Slope, Rise, Apply, XYZ;
    UnitColumns(Unadapted(p));
    ShareOf(LuminanceR(p), p.rX, p.rY);
    ShareOf(LuminanceG(p), p.gX, p.gY);
    ShareOf(LuminanceB(p), p.bX, p.bY);
  }

  lemma UnitColumns(m: Matrix3)
    ensures Apply(m, Vector3(1.0, 0.0, 0.0)) == m.Column(0)
    ensures Apply(m, Vector3(0.0, 1.0, 0.0)) == m.Column(1)
    ensures Apply(m, Vector3(0.0, 0.0, 1.0)) == m.Column(2)
  {
  }

  lemma ShareOf(luminance: real, x: real, y: real)
    requires y != 0.0
    ensures XYZ(x, y, luminance) == Vector3(luminance / y * x, luminance, luminance / y * (1.0 - x - y))
  {
    OneQuotient(luminance, x, y);
    OneQuotient(luminance, 1.0 - x - y, y);
  }

  lemma OneQuotient(l: real, x: real, y: real)
    requires y != 0.0
    ensures x * l / y == l / y * x
  {
    Divided(x * l, y);
    Divided(l, y);
    assert (l / y * x) * y == (l / y * y) * x;
    CancelFactor(x * l / y, l / y * x, y);
  }

  lemma OnesSum(m: Matrix3)
    ensures Apply(m, ONES) == Vector3(m.r0.x + m.r0.y + m.r0.z, m.r1.x + m.r1.y + m.r1.z, m.r2.x + m.r2.y + m.r2.z)
  {
  }

  lemma WhiteAgainstRed(p: Primaries)
    requires p.rY != 0.0 && p.wY != 0.0
    ensures p.rX / p.rY + Slope(p, p.wX, p.wY) == p.wX / p.wY
    ensures (1.0 - p.rX) / p.rY + Rise(p, p.wX, p.wY) == (1.0 - p.wX) / p.wY
  {
  }

  lemma Weighted(lr: real, lg: real, lb: real, r: real, g: real, b: real)
    requires lr == 1.0 - lg - lb
    ensures lr * r + lg * g + lb * b == r + lg * (g - r) + lb * (b - r)
  {
    assert (1.0 - lg - lb) * r == r - lg * r - lb * r;
    assert lg * (g - r) == lg * g - lg * r;
    assert lb * (b - r) == lb * b - lb * r;
  }

  lemma WhiteXYZ(x: real, y: real)
    requires y != 0.0
    ensures XYZ(x, y, 1.0) == Vector3(x / y, 1.0, (1.0 - x) / y - 1.0)
  {
    Divided(x, y);
    Divided(1.0 - x, y);
    Divided(1.0 - x - y, y);
    CancelFactor((1.0 - x - y) / y, (1.0 - x) / y - 1.0, y);
  }

  // --- adaptation to D50 ----------------------------------------------------------------------------------

  predicate Adaptable(white: Vector3) {
    var lms := Apply(BRADFORD, white);
    lms.x != 0.0 && lms.y != 0.0 && lms.z != 0.0
  }

  function AdaptationToD50(white: Vector3): Matrix3
    requires Adaptable(white)
  {
    Times(Times(BRADFORD_INV, Quotient(Apply(BRADFORD, D50_XYZ), Apply(BRADFORD, white))), BRADFORD)
  }

  /** `DXToD50`: nothing is adapted when the white point is given as that of D50. */
  function DXToD50(toXYZ: Matrix3, x: real, y: real): Matrix3
    requires y != 0.0 && Adaptable(XYZ(x, y, 1.0))
  {
    if x == D50_X && y == D50_Y then toXYZ else Times(AdaptationToD50(XYZ(x, y, 1.0)), toXYZ)
  }

  function ComputeXYZD50(p: Primaries): Matrix3
    requires NonZero(p) && Adaptable(XYZ(p.wX, p.wY, 1.0))
  {
    DXToD50(Unadapted(p), p.wX, p.wY)
  }

  lemma QuotientMaps(a: Vector3, b: Vector3)
    requires b.x != 0.0 && b.y != 0.0 && b.z != 0.0
    ensures Apply(Quotient(a, b), b) == a
  {
    Divided(a.x, b.x);
    Divided(a.y, b.y);
    Divided(a.z, b.z);
  }

  /** Adaptation takes the source white to one fixed vector, whatever the source. */
  lemma AdaptationMapsWhite(white: Vector3)
    requires Adaptable(white)
    ensures Apply(AdaptationToD50(white), white) == Apply(BRADFORD_INV, Apply(BRADFORD, D50_XYZ))
  {
    hide Apply, Times, Quotient;
    var source, target := Apply(BRADFORD, white), Apply(BRADFORD, D50_XYZ);
    ProductApplies(Times(BRADFORD_INV, Quotient(target, source)), BRADFORD, white);
    ProductApplies(BRADFORD_INV, Quotient(target, source), source);
    QuotientMaps(target, source);
  }

  /** Each response of a colour, scaled as the one of white is. */
  function Conewise(target: Vector3, white: Vector3, v: Vector3): Vector3
    requires white.x != 0.0 && white.y != 0.0 && white.z != 0.0
  {
    Vector3(target.x / white.x * v.x, target.y / white.y * v.y, target.z / white.z * v.z)
  }

  /** Adaptation scales each of the three cone responses by itself. */
  lemma AdaptationScalesCones(white: Vector3, v: Vector3)
    requires Adaptable(white)
    ensures var c, s, d := Apply(BRADFORD, v), Apply(BRADFORD, white), Apply(BRADFORD, D50_XYZ);
      Apply(AdaptationToD50(white), v)
      == Apply(BRADFORD_INV, Conewise(d, s, c))
  {
    hide Apply, Times, Quotient, Conewise;
    var c, s, d := Apply(BRADFORD, v), Apply(BRADFORD, white), Apply(BRADFORD, D50_XYZ);
    QuotientScales(d, s, c);
    ThreeApply(BRADFORD_INV, Quotient(d, s), BRADFORD, v);
  }

  lemma ThreeApply(a: Matrix3, b: Matrix3, c: Matrix3, v: Vector3)
    ensures Apply(Times(Times(a, b), c), v) == Apply(a, Apply(b, Apply(c, v)))
  {
    hide Apply, Times;
    ProductApplies(Times(a, b), c, v);
    ProductApplies(a, b, Apply(c, v));
  }

  lemma QuotientScales(a: Vector3, b: Vector3, v: Vector3)
    requires b.x != 0.0 && b.y != 0.0 && b.z != 0.0
    ensures Apply(Quotient(a, b), v) == Conewise(a, b, v)
  {
  }

  /** The D50 matrix sends each primary where adaptation sends its multiple. */
  lemma AdaptedPrimariesMap(p: Primaries)
    requires NonZero(p) && Adaptable(XYZ(p.wX, p.wY, 1.0))
    ensures var u, m := Unadapted(p), ComputeXYZD50(p);
      var r, g, b := Apply(u, Vector3(1.0, 0.0, 0.0)).y, Apply(u, Vector3(0.0, 1.0, 0.0)).y, Apply(u, Vector3(0.0, 0.0, 1.0)).y;
      && Apply(m, Vector3(1.0, 0.0, 0.0)) == Adapted(p, XYZ(p.rX, p.rY, r))
      && Apply(m, Vector3(0.0, 1.0, 0.0)) == Adapted(p, XYZ(p.gX, p.gY, g))
      && Apply(m, Vector3(0.0, 0.0, 1.0)) == Adapted(p, XYZ(p.bX, p.bY, b))
      && r + g + b == 1.0
  {
    hide Apply, Times, AdaptationToD50, Unadapted, XYZ, Slope, Rise;
    var a := AdaptationToD50(XYZ(p.wX, p.wY, 1.0));
    PrimariesMap(p);
    ProductApplies(a, Unadapted(p), Vector3(1.0, 0.0, 0.0));
    ProductApplies(a, Unadapted(p), Vector3(0.0, 1.0, 0.0));
    ProductApplies(a, Unadapted(p), Vector3(0.0, 0.0, 1.0));
  }

  /** What becomes of a colour when white is taken to D50, unless it is there. */
  function Adapted(p: Primaries, v: Vector3): Vector3
    requires p.wY != 0.0 && Adaptable(XYZ(p.wX, p.wY, 1.0))
  {
    if p.wX == D50_X && p.wY == D50_Y then v else Apply(AdaptationToD50(XYZ(p.wX, p.wY, 1.0)), v)
  }

  /** White comes out independent of the primaries, and exactly at the rounded Bradford product
      unless no adaptation was needed. */
  lemma WhiteIsD50(p: Primaries)
    requires NonZero(p) && Adaptable(XYZ(p.wX, p.wY, 1.0))
    ensures Apply(ComputeXYZD50(p), ONES) ==
      if p.wX == D50_X && p.wY == D50_Y then XYZ(D50_X, D50_Y, 1.0)
      else Apply(BRADFORD_INV, Apply(BRADFORD, D50_XYZ))
  {
    hide Apply, Times, AdaptationToD50, Unadapted;
    WhiteMapsToWhite(p);
    AdaptationMapsWhite(XYZ(p.wX, p.wY, 1.0));
    ProductApplies(AdaptationToD50(XYZ(p.wX, p.wY, 1.0)), Unadapted(p), ONES);
  }

  predicate Near(a: Vector3, b: Vector3, bound: real) {
    && -bound <= a.x - b.x <= bound
    && -bound <= a.y - b.y <= bound
    && -bound <= a.z - b.z <= bound
  }

  /** In both cases it is D50 to six digits. */
  lemma WhiteIsNearD50(p: Primaries)
    requires NonZero(p) && Adaptable(XYZ(p.wX, p.wY, 1.0))
    ensures Near(Apply(ComputeXYZD50(p), ONES), D50_XYZ, 0.000001)
  {
    hide ComputeXYZD50;
    WhiteIsD50(p);
    assert Near(Apply(BRADFORD_INV, Apply(BRADFORD, D50_XYZ)), D50_XYZ, 0.000001);
    assert Near(XYZ(D50_X, D50_Y, 1.0), D50_XYZ, 0.000001);
  }

  // --- the white point of a matrix ---------------------------------------------------------------------------

  function Sum(v: Vector3): real {
    v.x + v.y + v.z
  }

  function Chromaticity(v: Vector3): (real, real)
    requires Sum(v) != 0.0
  {
    (v.x / Sum(v), v.y / Sum(v))
  }

  /** `ComputeWhitePoint` multiplies with a vector that has 1 in its first place only. */
  function ComputeWhitePoint(toXYZ: Matrix3): (real, real)
    requires Sum(Apply(toXYZ, Vector3(1.0, 0.0, 0.0))) != 0.0
  {
    Chromaticity(Apply(toXYZ, Vector3(1.0, 0.0, 0.0)))
  }

  lemma FirstColumn(m: Matrix3)
    ensures Apply(m, Vector3(1.0, 0.0, 0.0)) == m.Column(0)
  {
  }

  lemma WhiteColumns(m: Matrix3)
    ensures Apply(m, ONES) == Plus(m.Column(0), Plus(m.Column(1), m.Column(2)))
  {
  }

  function Plus(u: Vector3, v: Vector3): Vector3 {
    Vector3(u.x + v.x, u.y + v.y, u.z + v.z)
  }

  lemma Fractions(a: real, s: real, b: real, t: real)
    requires s != 0.0 && t != 0.0
    ensures a / s == b / t <==> a * t == b * s
  {
    Divided(a, s);
    Divided(b, t);
    var p, q := a / s, b / t;
    assert a * t == p * s * t && b * s == q * t * s;
    if a * t == b * s {
      assert p * (s * t) == q * (s * t);
      assert s * t != 0.0 by { NonZeroProduct(s, t); }
      CancelFactor(p, q, s * t);
    }
  }

  lemma NonZeroProduct(s: real, t: real)
    requires s != 0.0 && t != 0.0
    ensures s * t != 0.0
  {
    if s * t == 0.0 {
      CancelFactor(s, 0.0, t);
    }
  }

  lemma Parallel(c: Vector3, w: Vector3)
    requires Cross(c, w) == Vector3(0.0, 0.0, 0.0)
    ensures c.x * Sum(w) == w.x * Sum(c) && c.y * Sum(w) == w.y * Sum(c)
  {
    Distribute(c.x, w.x, w.y, w.z);
    Distribute(w.x, c.x, c.y, c.z);
    Distribute(c.y, w.x, w.y, w.z);
    Distribute(w.y, c.x, c.y, c.z);
  }

  lemma ParallelBack(c: Vector3, w: Vector3)
    requires c.x * Sum(w) == w.x * Sum(c) && c.y * Sum(w) == w.y * Sum(c) && Sum(w) != 0.0
    ensures Cross(c, w) == Vector3(0.0, 0.0, 0.0)
  {
    var a, b := Sum(c), Sum(w);
    assert c.z * b == w.z * a by {
      assert c.z == a - c.x - c.y && w.z == b - w.x - w.y;
      assert (a - c.x - c.y) * b == a * b - c.x * b - c.y * b;
      assert (b - w.x - w.y) * a == a * b - w.x * a - w.y * a;
    }
    Vanish(c.y, w.z, c.z, w.y, a, b);
    Vanish(c.z, w.x, c.x, w.z, a, b);
    Vanish(c.x, w.y, c.y, w.x, a, b);
  }

  lemma Vanish(c1: real, w2: real, c2: real, w1: real, a: real, b: real)
    requires c1 * b == w1 * a && c2 * b == w2 * a && b != 0.0
    ensures c1 * w2 - c2 * w1 == 0.0
  {
    assert c1 * w2 * b == (c1 * b) * w2 == (w1 * a) * w2;
    assert c2 * w1 * b == (c2 * b) * w1 == (w2 * a) * w1;
    CancelFactor(c1 * w2, c2 * w1, b);
  }

  /** The result is the chromaticity of the first column, for any matrix. It is that of white
      exactly when the first column is parallel to the sum of all three. */
  lemma WhitePointIsRed(m: Matrix3)
    requires Sum(m.Column(0)) != 0.0 && Sum(Apply(m, ONES)) != 0.0
    ensures Sum(Apply(m, Vector3(1.0, 0.0, 0.0))) != 0.0 && ComputeWhitePoint(m) == Chromaticity(m.Column(0))
    ensures ComputeWhitePoint(m) == Chromaticity(Apply(m, ONES))
       <==> Cross(m.Column(0), Apply(m, ONES)) == Vector3(0.0, 0.0, 0.0)
  {
    hide Apply, Cross, Sum;
    FirstColumn(m);
    var c, w := m.Column(0), Apply(m, ONES);
    Fractions(c.x, Sum(c), w.x, Sum(w));
    Fractions(c.y, Sum(c), w.y, Sum(w));
    if Cross(c, w) == Vector3(0.0, 0.0, 0.0) {
      Parallel(c, w);
    }
    if c.x * Sum(w) == w.x * Sum(c) && c.y * Sum(w) == w.y * Sum(c) {
      ParallelBack(c, w);
    }
  }

  /** For a matrix that is not adapted it is the red primary itself. */
  lemma UnadaptedWhitePoint(p: Primaries)
    requires NonZero(p) && LuminanceR(p) != 0.0
    ensures Sum(Apply(Unadapted(p), Vector3(1.0, 0.0, 0.0))) != 0.0
    ensures ComputeWhitePoint(Unadapted(p)) == (p.rX, p.rY)
    ensures ComputeWhitePoint(Unadapted(p)) == (p.wX, p.wY) <==> p.rX == p.wX && p.rY == p.wY
  {
    hide Apply, Unadapted;
    var q := LuminanceR(p) / p.rY;
    RedColumn(p);
    RedMatrix(Unadapted(p), q, p.rX, p.rY);
  }

  lemma RedMatrix(m: Matrix3, q: real, x: real, y: real)
    requires q != 0.0 && m.Column(0) == Vector3(q * x, q * y, q * (1.0 - x - y))
    ensures Sum(Apply(m, Vector3(1.0, 0.0, 0.0))) != 0.0 && ComputeWhitePoint(m) == (x, y)
  {
    hide Apply, Sum, Chromaticity;
    FirstColumn(m);
    RedShare(q, x, y);
  }

  lemma RedShare(q: real, x: real, y: real)
    requires q != 0.0
    ensures Sum(Vector3(q * x, q * y, q * (1.0 - x - y))) != 0.0
    ensures Chromaticity(Vector3(q * x, q * y, q * (1.0 - x - y))) == (x, y)
  {
    RedSum(q, x, y);
    Share(q * x, q, x);
    Share(q * y, q, y);
    var sum := Sum(Vector3(q * x, q * y, q * (1.0 - x - y)));
    assert sum == q;
    assert q * x / sum == x && q * y / sum == y;
  }

  lemma RedColumn(p: Primaries)
    requires NonZero(p) && LuminanceR(p) != 0.0
    ensures var q := LuminanceR(p) / p.rY;
      q != 0.0 && Unadapted(p).Column(0) == Vector3(q * p.rX, q * p.rY, q * (1.0 - p.rX - p.rY))
  {
    hide LuminanceR, LuminanceG, LuminanceB;
    Divided(LuminanceR(p), p.rY);
  }

  lemma RedSum(q: real, x: real, y: real)
    ensures q * x + q * y + q * (1.0 - x - y) == q
  {
  }

  lemma Share(n: real, q: real, x: real)
    requires q != 0.0 && n == q * x
    ensures n / q == x
  {
    Divided(n, q);
    CancelFactor(n / q, x, q);
  }

  lemma CrossOfSum(u: Vector3, v: Vector3, w: Vector3)
    ensures Dot(w, Cross(u, Plus(u, Plus(v, w)))) == Dot(w, Cross(u, v))
  {
    var t := Plus(u, Plus(v, w));
    CrossPart(u.y, t.z, u.z, t.y, v.z, v.y, w.z, w.y);
    CrossPart(u.z, t.x, u.x, t.z, v.x, v.z, w.x, w.z);
    CrossPart(u.x, t.y, u.y, t.x, v.y, v.x, w.y, w.x);
    CrossVanishes(u, w);
    Spread(w, u, v);
    Spread(w, u, w);
    Distribute(1.0, w.x * (Cross(u, v).x + Cross(u, w).x), w.y * (Cross(u, v).y + Cross(u, w).y),
               w.z * (Cross(u, v).z + Cross(u, w).z));
    assert Cross(u, t) == Plus(Cross(u, v), Cross(u, w));
    DotPlus(w, Cross(u, v), Cross(u, w));
  }

  lemma CrossPart(a: real, t: real, b: real, s: real, v1: real, v2: real, w1: real, w2: real)
    requires t == b + v1 + w1 && s == a + v2 + w2
    ensures a * t - b * s == (a * v1 - b * v2) + (a * w1 - b * w2)
  {
    Distribute(a, b, v1, w1);
    Distribute(b, a, v2, w2);
  }

  lemma DotPlus(w: Vector3, u: Vector3, v: Vector3)
    ensures Dot(w, Plus(u, v)) == Dot(w, u) + Dot(w, v)
  {
    assert w.x * (u.x + v.x) == w.x * u.x + w.x * v.x;
    assert w.y * (u.y + v.y) == w.y * u.y + w.y * v.y;
    assert w.z * (u.z + v.z) == w.z * u.z + w.z * v.z;
  }

  /** So for a matrix that can be inverted it is never right. */
  lemma WhitePointNeverRight(m: Matrix3)
    requires Sum(m.Column(0)) != 0.0 && Sum(Apply(m, ONES)) != 0.0 && Determinant(m) != 0.0
    ensures Sum(Apply(m, Vector3(1.0, 0.0, 0.0))) != 0.0 && ComputeWhitePoint(m) != Chromaticity(Apply(m, ONES))
  {
    hide Apply, Cross, Dot, Determinant, Sum, Chromaticity, ComputeWhitePoint, Matrix3.Column;
    WhitePointIsRed(m);
    var c0, c1, c2 := m.Column(0), m.Column(1), m.Column(2);
    WhiteColumns(m);
    CrossOfSum(c0, c1, c2);
    CrossTurns(c0, c1, c2);
    CrossTurns(c1, c2, c0);
    DeterminantIs(m);
    ZeroDot(c2);
  }

  lemma ZeroDot(v: Vector3)
    ensures Dot(v, Vector3(0.0, 0.0, 0.0)) == 0.0
  {
  }

  /** The matrices that callers pass are adapted to D50: the white point should be that of D50, and
      what is computed is the adapted red primary. */
  lemma AdaptedWhitePoint(p: Primaries)
    requires NonZero(p) && Adaptable(XYZ(p.wX, p.wY, 1.0))
    requires Sum(ComputeXYZD50(p).Column(0)) != 0.0 && Determinant(ComputeXYZD50(p)) != 0.0
    ensures var m := ComputeXYZD50(p);
      && Sum(Apply(m, Vector3(1.0, 0.0, 0.0))) != 0.0 && Sum(Apply(m, ONES)) != 0.0
      && ComputeWhitePoint(m) == Chromaticity(m.Column(0)) && ComputeWhitePoint(m) != Chromaticity(Apply(m, ONES))
      && Near(Apply(m, ONES), D50_XYZ, 0.000001)
  {
    hide ComputeXYZD50, Determinant, Apply, Chromaticity, ComputeWhitePoint, Matrix3.Column;
    WhiteIsNearD50(p);
    WhitePointIsRed(ComputeXYZD50(p));
    WhitePointNeverRight(ComputeXYZD50(p));
  }

  /** The usual matrix of sRGB, adapted to D50: the white point comes out near (0.648, 0.331) and
      not near (0.3457, 0.3585). */
  lemma SrgbWhitePoint()
    ensures var m := Matrix3(Vector3(0.4360747, 0.3850649, 0.1430804),
                             Vector3(0.2225045, 0.7168786, 0.0606169),
                             Vector3(0.0139322, 0.0971045, 0.7141733));
      && Sum(Apply(m, Vector3(1.0, 0.0, 0.0))) != 0.0 && Near(Apply(m, ONES), D50_XYZ, 0.00003)
      && ComputeWhitePoint(m).0 > 0.64 && ComputeWhitePoint(m).1 < 0.34
  {
  }

  // --- inversion ------------------------------------------------------------------------------------------------

  function Determinant(m: Matrix3): real {
    (m.r0.x * m.r1.y - m.r1.x * m.r0.y) * m.r2.z - (m.r0.x * m.r2.y - m.r2.x * m.r0.y) * m.r1.z
    + (m.r1.x * m.r2.y - m.r2.x * m.r1.y) * m.r0.z
  }

  predicate InRange(x: real) {
    -FLT_MAX <= x <= FLT_MAX
  }

  /** The entries of the inverse for a given reciprocal of the determinant. */
  function Scaled(m: Matrix3, inv: real): Matrix3 {
    var a00, a01, a02 := m.r0.x, m.r1.x, m.r2.x;
    var a10, a11, a12 := m.r0.y, m.r1.y, m.r2.y;
    var b0 := (a00 * a11 - a01 * a10) * inv;
    var b1 := (a00 * a12 - a02 * a10) * inv;
    var b2 := (a01 * a12 - a02 * a11) * inv;
    var b3, b4, b5 := m.r0.z * inv, m.r1.z * inv, m.r2.z * inv;
    Matrix3(Vector3(a11 * b5 - a12 * b4, a12 * b3 - a10 * b5, a10 * b4 - a11 * b3),
            Vector3(a02 * b4 - a01 * b5, a00 * b5 - a02 * b3, a01 * b3 - a00 * b4),
            Vector3(b2, -b1, b0))
  }

  predicate AllInRange(m: Matrix3) {
    forall i, j :: 0 <= i < 3 && 0 <= j < 3 ==> InRange(m.At(i, j))
  }

  /** `Invert`: the zero matrix stands for failure. */
  function Invert(m: Matrix3): Matrix3 {
    var det := Determinant(m);
    if det == 0.0 then ZERO
    else if !InRange(1.0 / det) then ZERO
    else if !AllInRange(Scaled(m, 1.0 / det)) then ZERO
    else Scaled(m, 1.0 / det)
  }

  predicate Invertible(m: Matrix3) {
    var det := Determinant(m);
    det != 0.0 && InRange(1.0 / det) && AllInRange(Scaled(m, 1.0 / det))
  }

  function Cross(u: Vector3, v: Vector3): Vector3 {
    Vector3(u.y * v.z - u.z * v.y, u.z * v.x - u.x * v.z, u.x * v.y - u.y * v.x)
  }

  function Scale(u: Vector3, e: real): Vector3 {
    Vector3(u.x * e, u.y * e, u.z * e)
  }

  lemma FactorOut(a: real, b: real, c: real, d: real, e: real)
    ensures a * (b * e) - c * (d * e) == (a * b - c * d) * e
  {
    assert a * (b * e) == (a * b) * e;
    assert c * (d * e) == (c * d) * e;
  }

  /** The inverse, row by row, is made of cross products of the columns. */
  lemma ScaledRows(m: Matrix3, inv: real)
    ensures Scaled(m, inv) == Matrix3(Scale(Cross(m.Column(1), m.Column(2)), inv),
                                      Scale(Cross(m.Column(2), m.Column(0)), inv),
                                      Scale(Cross(m.Column(0), m.Column(1)), inv))
  {
    hide Cross;
    FirstRow(m, inv);
    SecondRow(m, inv);
    ThirdRow(m, inv);
  }

  lemma FirstRow(m: Matrix3, inv: real)
    ensures Scaled(m, inv).r0 == Scale(Cross(m.Column(1), m.Column(2)), inv)
  {
    FactorOut(m.r1.y, m.r2.z, m.r2.y, m.r1.z, inv);
    FactorOut(m.r2.y, m.r0.z, m.r0.y, m.r2.z, inv);
    FactorOut(m.r0.y, m.r1.z, m.r1.y, m.r0.z, inv);
  }

  lemma SecondRow(m: Matrix3, inv: real)
    ensures Scaled(m, inv).r1 == Scale(Cross(m.Column(2), m.Column(0)), inv)
  {
    FactorOut(m.r2.x, m.r1.z, m.r1.x, m.r2.z, inv);
    FactorOut(m.r0.x, m.r2.z, m.r2.x, m.r0.z, inv);
    FactorOut(m.r1.x, m.r0.z, m.r0.x, m.r1.z, inv);
  }

  lemma ThirdRow(m: Matrix3, inv: real)
    ensures Scaled(m, inv).r2 == Scale(Cross(m.Column(0), m.Column(1)), inv)
  {
    assert -((m.r0.x * m.r2.y - m.r2.x * m.r0.y) * inv) == (m.r2.x * m.r0.y - m.r0.x * m.r2.y) * inv;
  }

  /** Cross products of rows and of columns are made of the same minors. */
  lemma FirstMinors(m: Matrix3)
    ensures var c0, c1, c2 := m.Column(0), m.Column(1), m.Column(2);
      Cross(m.r1, m.r2) == Vector3(Cross(c1, c2).x, Cross(c2, c0).x, Cross(c0, c1).x)
  {
  }

  lemma SecondMinors(m: Matrix3)
    ensures var c0, c1, c2 := m.Column(0), m.Column(1), m.Column(2);
      Cross(m.r2, m.r0) == Vector3(Cross(c1, c2).y, Cross(c2, c0).y, Cross(c0, c1).y)
  {
  }

  lemma ThirdMinors(m: Matrix3)
    ensures var c0, c1, c2 := m.Column(0), m.Column(1), m.Column(2);
      Cross(m.r0, m.r1) == Vector3(Cross(c1, c2).z, Cross(c2, c0).z, Cross(c0, c1).z)
  {
  }

  /** And column by column of those of the rows. */
  lemma ScaledColumns(m: Matrix3, inv: real)
    ensures Scaled(m, inv).Column(0) == Scale(Cross(m.r1, m.r2), inv)
    ensures Scaled(m, inv).Column(1) == Scale(Cross(m.r2, m.r0), inv)
    ensures Scaled(m, inv).Column(2) == Scale(Cross(m.r0, m.r1), inv)
  {
    hide Cross, Scaled;
    ScaledRows(m, inv);
    FirstMinors(m);
    SecondMinors(m);
    ThirdMinors(m);
  }

  lemma DotScale(u: Vector3, v: Vector3, e: real)
    ensures Dot(u, Scale(v, e)) == Dot(u, v) * e && Dot(Scale(v, e), u) == Dot(u, v) * e
  {
    var s := Scale(v, e);
    ScaledSum(u.x, u.y, u.z, v.x, v.y, v.z, e);
    assert Dot(u, s) == u.x * s.x + u.y * s.y + u.z * s.z;
    assert Dot(s, u) == s.x * u.x + s.y * u.y + s.z * u.z;
  }

  lemma ScaledSum(a: real, b: real, c: real, x: real, y: real, z: real, e: real)
    ensures a * (x * e) + b * (y * e) + c * (z * e) == (a * x + b * y + c * z) * e
    ensures x * e * a + y * e * b + z * e * c == (a * x + b * y + c * z) * e
  {
    FactorOutOf(a, x, e);
    FactorOutOf(b, y, e);
    FactorOutOf(c, z, e);
    Distribute(e, a * x, b * y, c * z);
  }

  lemma FactorOutOf(a: real, b: real, e: real)
    ensures a * (b * e) == e * (a * b) && (b * e) * a == e * (a * b)
  {
  }

  lemma CrossVanishes(u: Vector3, v: Vector3)
    ensures Dot(u, Cross(u, v)) == 0.0 && Dot(v, Cross(u, v)) == 0.0
  {
    Spread(u, u, v);
    Spread(v, u, v);
  }

  lemma Spread(a: Vector3, u: Vector3, v: Vector3)
    ensures Dot(a, Cross(u, v)) == a.x * u.y * v.z - a.x * u.z * v.y + (a.y * u.z * v.x - a.y * u.x * v.z)
                                   + (a.z * u.x * v.y - a.z * u.y * v.x)
  {
    assert a.x * (u.y * v.z - u.z * v.y) == a.x * u.y * v.z - a.x * u.z * v.y;
    assert a.y * (u.z * v.x - u.x * v.z) == a.y * u.z * v.x - a.y * u.x * v.z;
    assert a.z * (u.x * v.y - u.y * v.x) == a.z * u.x * v.y - a.z * u.y * v.x;
  }

  lemma CrossTurns(u: Vector3, v: Vector3, w: Vector3)
    ensures Dot(u, Cross(v, w)) == Dot(v, Cross(w, u))
  {
    Spread(u, v, w);
    Spread(v, w, u);
  }

  lemma DeterminantIs(m: Matrix3)
    ensures Determinant(m) == Dot(m.r0, Cross(m.r1, m.r2))
    ensures Determinant(m) == Dot(m.Column(0), Cross(m.Column(1), m.Column(2)))
  {
    Spread(m.r0, m.r1, m.r2);
    Spread(m.Column(0), m.Column(1), m.Column(2));
    var a00, a01, a02, a10, a11, a12 := m.r0.x, m.r1.x, m.r2.x, m.r0.y, m.r1.y, m.r2.y;
    assert (a00 * a11 - a01 * a10) * m.r2.z == a00 * a11 * m.r2.z - a01 * a10 * m.r2.z;
    assert (a00 * a12 - a02 * a10) * m.r1.z == a00 * a12 * m.r1.z - a02 * a10 * m.r1.z;
    assert (a01 * a12 - a02 * a11) * m.r0.z == a01 * a12 * m.r0.z - a02 * a11 * m.r0.z;
  }

  lemma LeftInverse(m: Matrix3, inv: real)
    requires Determinant(m) * inv == 1.0
    ensures Times(Scaled(m, inv), m) == IDENTITY
  {
    hide Dot, Cross, Scale, Scaled, Determinant;
    var c0, c1, c2 := m.Column(0), m.Column(1), m.Column(2);
    ScaledRows(m, inv);
    DeterminantIs(m);
    CrossTurns(c0, c1, c2);
    CrossTurns(c1, c2, c0);
    CrossRow(c0, c1, c2, inv);
    CrossRow(c1, c2, c0, inv);
    CrossRow(c2, c0, c1, inv);
  }

  lemma RightInverse(m: Matrix3, inv: real)
    requires Determinant(m) * inv == 1.0
    ensures Times(m, Scaled(m, inv)) == IDENTITY
  {
    hide Dot, Cross, Scale, Scaled, Determinant, Matrix3.Column;
    ScaledColumns(m, inv);
    DeterminantIs(m);
    CrossTurns(m.r0, m.r1, m.r2);
    CrossTurns(m.r1, m.r2, m.r0);
    CrossRow(m.r0, m.r1, m.r2, inv);
    CrossRow(m.r1, m.r2, m.r0, inv);
    CrossRow(m.r2, m.r0, m.r1, inv);
  }

  lemma CrossRow(u: Vector3, v: Vector3, w: Vector3, inv: real)
    ensures var row := Scale(Cross(v, w), inv);
      && Dot(u, row) == Dot(u, Cross(v, w)) * inv && Dot(row, u) == Dot(u, Cross(v, w)) * inv
      && Dot(v, row) == 0.0 && Dot(row, v) == 0.0 && Dot(w, row) == 0.0 && Dot(row, w) == 0.0
  {
    hide Dot, Cross, Scale;
    DotScale(u, Cross(v, w), inv);
    DotScale(v, Cross(v, w), inv);
    DotScale(w, Cross(v, w), inv);
    CrossVanishes(v, w);
  }

  lemma ZeroIsNoInverse(m: Matrix3)
    ensures Times(m, ZERO) != IDENTITY && Times(ZERO, m) != IDENTITY
  {
  }

  /** The result is an inverse on both sides exactly when the determinant is not zero and nothing
      leaves the range of a float; otherwise it is on neither. */
  lemma InvertIff(m: Matrix3)
    ensures Times(m, Invert(m)) == IDENTITY <==> Invertible(m)
    ensures Times(Invert(m), m) == IDENTITY <==> Invertible(m)
  {
    hide Times, Scaled, Determinant, AllInRange;
    ZeroIsNoInverse(m);
    if Invertible(m) {
      var det := Determinant(m);
      Divided(1.0, det);
      LeftInverse(m, 1.0 / det);
      RightInverse(m, 1.0 / det);
    }
  }

  /** Nothing refuses exactly when the determinant is not zero and its reciprocal and all nine entries
      are within the greatest float. */
  lemma InvertibleIs(m: Matrix3)
    ensures var det := Determinant(m);
      Invertible(m) <==>
        && det != 0.0 && WithinFloat(1.0 / det)
        && var s := Scaled(m, 1.0 / det);
           && WithinFloat(s.r0.x) && WithinFloat(s.r0.y) && WithinFloat(s.r0.z)
           && WithinFloat(s.r1.x) && WithinFloat(s.r1.y) && WithinFloat(s.r1.z)
           && WithinFloat(s.r2.x) && WithinFloat(s.r2.y) && WithinFloat(s.r2.z)
  {
    hide Determinant, Scaled;
    if Determinant(m) != 0.0 {
      var s := Scaled(m, 1.0 / Determinant(m));
      assert s.At(0, 0) == s.r0.x && s.At(0, 1) == s.r0.y && s.At(0, 2) == s.r0.z;
      assert s.At(1, 0) == s.r1.x && s.At(1, 1) == s.r1.y && s.At(1, 2) == s.r1.z;
      assert s.At(2, 0) == s.r2.x && s.At(2, 1) == s.r2.y && s.At(2, 2) == s.r2.z;
    }
  }

  /** At most the greatest float, 2^128 - 2^104, on either side of zero. */
  predicate WithinFloat(x: real) {
    x >= -340282346638528859811704183484516925440.0 && !(x > 340282346638528859811704183484516925440.0)
  }

  // --- the loops ----------------------------------------------------------------------------------------------

  /** The first `k` products of row `i` and column `j`. */
  function Partial(a: Matrix3, b: Matrix3, i: nat, j: nat, k: nat): real
    requires i < 3 && j < 3 && k <= 3
  {
    if k == 0 then 0.0 else Partial(a, b, i, j, k - 1) + a.At(i, k - 1) * b.At(k - 1, j)
  }

  lemma PartialIsEntry(a: Matrix3, b: Matrix3, i: nat, j: nat)
    requires i < 3 && j < 3
    ensures Partial(a, b, i, j, 3) == Times(a, b).At(i, j)
  {
    assert Partial(a, b, i, j, 1) == a.At(i, 0) * b.At(0, j);
    assert Partial(a, b, i, j, 2) == a.At(i, 0) * b.At(0, j) + a.At(i, 1) * b.At(1, j);
    assert Times(a, b).At(i, j) == Dot(a.Row(i), b.Column(j));
  }

  /** `operator*` of two matrices: three nested loops that accumulate in place. */
  method Multiply(a: Matrix3, b: Matrix3) returns (c: array2<real>)
    ensures c.Length0 == 3 && c.Length1 == 3
    ensures forall i, j :: 0 <= i < 3 && 0 <= j < 3 ==> c[i, j] == Times(a, b).At(i, j)
  {
    hide Times, Matrix3.At;
    c := new real[3, 3]((_, _) => 0.0);
    for i := 0 to 3
      invariant forall r, s :: 0 <= r < i && 0 <= s < 3 ==> c[r, s] == Times(a, b).At(r, s)
      invariant forall r, s :: i <= r < 3 && 0 <= s < 3 ==> c[r, s] == 0.0
    {
      for j := 0 to 3
        invariant forall r, s :: 0 <= r < 3 && 0 <= s < 3 && (r < i || (r == i && s < j)) ==> c[r, s] == Times(a, b).At(r, s)
        invariant forall r, s :: 0 <= r < 3 && 0 <= s < 3 && (r > i || (r == i && s >= j)) ==> c[r, s] == 0.0
      {
        for k := 0 to 3
          invariant c[i, j] == Partial(a, b, i, j, k)
          invariant forall r, s :: 0 <= r < 3 && 0 <= s < 3 && (r < i || (r == i && s < j)) ==> c[r, s] == Times(a, b).At(r, s)
          invariant forall r, s :: 0 <= r < 3 && 0 <= s < 3 && (r > i || (r == i && s > j)) ==> c[r, s] == 0.0
        {
          c[i, j] := c[i, j] + a.At(i, k) * b.At(k, j);
        }
        PartialIsEntry(a, b, i, j);
      }
    }
  }
}
