/** The point operations of ge.c on limbs. */
module Ge {
  import opened Arith
  import opened Fe
  import opened FeOps
  import opened Prime
  import opened Curve
  import opened Formulas

  datatype P2 = P2(X: Fe, Y: Fe, Z: Fe)
  datatype P3 = P3(X: Fe, Y: Fe, Z: Fe, T: Fe)
  datatype P1p1 = P1p1(X: Fe, Y: Fe, Z: Fe, T: Fe)
  datatype Precomp = Precomp(yplusx: Fe, yminusx: Fe, xy2d: Fe)
  datatype Cached = Cached(YplusX: Fe, YminusX: Fe, Z: Fe, T2d: Fe)

  // Each representation says which point it denotes and how large its limbs are.

  ghost predicate IsP2(r: P2, p: Point) {
    && Bounded(r.X, NARROW) && Bounded(r.Y, NARROW) && Bounded(r.Z, NARROW)
    && IsProjective(Val(r.X), Val(r.Y), Val(r.Z), p)
  }

  ghost predicate IsP3(r: P3, p: Point) {
    && Bounded(r.X, NARROW) && Bounded(r.Y, NARROW) && Bounded(r.Z, NARROW) && Bounded(r.T, NARROW)
    && IsExtended(Val(r.X), Val(r.Y), Val(r.Z), Val(r.T), p)
  }

  ghost predicate IsP1p1(r: P1p1, p: Point) {
    && Bounded(r.X, WIDE) && Bounded(r.Y, WIDE) && Bounded(r.Z, WIDE) && Bounded(r.T, WIDE)
    && IsCompleted(Val(r.X), Val(r.Y), Val(r.Z), Val(r.T), p)
  }

  ghost predicate IsPrecomp(r: Precomp, p: Point) {
    && Bounded(r.yplusx, NARROW) && Bounded(r.yminusx, NARROW) && Bounded(r.xy2d, NARROW)
    && IsCached(Val(r.yplusx), Val(r.yminusx), 1, Val(r.xy2d), p)
  }

  ghost predicate IsCachedPoint(r: Cached, p: Point) {
    && Bounded(r.YplusX, LOOSE) && Bounded(r.YminusX, LOOSE) && Bounded(r.Z, NARROW) && Bounded(r.T2d, NARROW)
    && IsCached(Val(r.YplusX), Val(r.YminusX), Val(r.Z), Val(r.T2d), p)
  }

  const D_LIMBS: Fe := Fe(-10913610, 13857413, -15372611, 6949391, 114729, -8787816, -6275908, -3247719, -18696448, -12055116)
  const D2_LIMBS: Fe := Fe(-21827239, -5839606, -30745221, 13898782, 229458, 15978800, -12551817, -6495438, 29715968, 9444199)

  lemma Constants()
    ensures Bounded(D_LIMBS, TIGHT) && Bounded(D2_LIMBS, TIGHT)
    ensures Cong(Val(D_LIMBS), D(), P) && Cong(Val(D2_LIMBS), 2 * D(), P)
  {
    PValue();
    ValSum(D_LIMBS);
    ValSum(D2_LIMBS);
    hide Cong, D;
    DValue();
    CongByMod(Val(D_LIMBS), D(), P);
    CongByMod(Val(D2_LIMBS), 2 * D(), P);
  }

  // -------------------------------------------------------------------------
  // Addition
  // -------------------------------------------------------------------------

  /** ge_add. */
  method GeAdd(p: P3, q: Cached, ghost a: Point, ghost b: Point) returns (r: P1p1)
    requires CurveLaw() && OnCurve(a) && OnCurve(b) && IsP3(p, a) && IsCachedPoint(q, b)
    ensures IsP1p1(r, Sum(a, b))
  {
    hide CurveLaw, OnCurve, Sum, Cong, Val, Bounded, IsExtended, IsCached, IsCompleted;
    var rX := FeAdd(p.Y, p.X, NARROW, NARROW);
    var rY := FeSub(p.Y, p.X, NARROW, NARROW);
    var rZ := FeMul(rX, q.YplusX, 2 * NARROW, LOOSE);
    rY := FeMul(rY, q.YminusX, 2 * NARROW, LOOSE);
    var rT := FeMul(q.T2d, p.T, NARROW, NARROW);
    rX := FeMul(p.Z, q.Z, NARROW, NARROW);
    AddFormula(Val(p.X), Val(p.Y), Val(p.Z), Val(p.T), a, Val(q.YplusX), Val(q.YminusX), Val(q.Z), Val(q.T2d), b,
               Val(rZ), Val(rY), Val(rT), Val(rX));
    var t0 := FeAdd(rX, rX, TIGHT, TIGHT);
    r := Finish(t0, rZ, rY, rT, 2 * TIGHT);
  }

  /** The last four sums of the additions. */
  method Finish(t0: Fe, rZ0: Fe, rY0: Fe, rT0: Fe, ghost b: nat) returns (r: P1p1)
    requires Bounded(t0, b) && Bounded(rZ0, TIGHT) && Bounded(rY0, TIGHT) && Bounded(rT0, TIGHT)
    requires b + TIGHT <= WIDE
    ensures Bounded(r.X, WIDE) && Bounded(r.Y, WIDE) && Bounded(r.Z, WIDE) && Bounded(r.T, WIDE)
    ensures Val(r.X) == Val(rZ0) - Val(rY0) && Val(r.Y) == Val(rZ0) + Val(rY0)
    ensures Val(r.Z) == Val(t0) + Val(rT0) && Val(r.T) == Val(t0) - Val(rT0)
  {
    hide Val, Bounded;
    var rX := FeSub(rZ0, rY0, TIGHT, TIGHT);
    var rY := FeAdd(rZ0, rY0, TIGHT, TIGHT);
    var rZ := FeAdd(t0, rT0, b, TIGHT);
    var rT := FeSub(t0, rT0, b, TIGHT);
    Widen(rX, 2 * TIGHT, WIDE);
    Widen(rY, 2 * TIGHT, WIDE);
    Widen(rZ, b + TIGHT, WIDE);
    Widen(rT, b + TIGHT, WIDE);
    r := P1p1(rX, rY, rZ, rT);
  }

  /** ge_sub: ge_add with the cached point negated. */
  method GeSub(p: P3, q: Cached, ghost a: Point, ghost b: Point) returns (r: P1p1)
    requires CurveLaw() && OnCurve(a) && OnCurve(b) && IsP3(p, a) && IsCachedPoint(q, b)
    ensures IsP1p1(r, Sum(a, Opposite(b)))
  {
    hide CurveLaw, OnCurve, Sum, Opposite, Cong, Val, Bounded, IsExtended, IsCached, IsCompleted;
    var rX := FeAdd(p.Y, p.X, NARROW, NARROW);
    var rY := FeSub(p.Y, p.X, NARROW, NARROW);
    var rZ := FeMul(rX, q.YminusX, 2 * NARROW, LOOSE);
    rY := FeMul(rY, q.YplusX, 2 * NARROW, LOOSE);
    var rT := FeMul(q.T2d, p.T, NARROW, NARROW);
    rX := FeMul(p.Z, q.Z, NARROW, NARROW);
    NegOnCurve(b);
    CachedNeg(Val(q.YplusX), Val(q.YminusX), Val(q.Z), Val(q.T2d), b);
    NegProduct(Val(rT), Val(q.T2d), Val(p.T));
    AddFormula(Val(p.X), Val(p.Y), Val(p.Z), Val(p.T), a, Val(q.YminusX), Val(q.YplusX), Val(q.Z), -Val(q.T2d), Opposite(b),
               Val(rZ), Val(rY), -Val(rT), Val(rX));
    var t0 := FeAdd(rX, rX, TIGHT, TIGHT);
    var f := Finish(t0, rZ, rY, rT, 2 * TIGHT);
    r := P1p1(f.X, f.Y, f.T, f.Z);
  }

  lemma NegProduct(r: int, c: int, t: int)
    requires Cong(r, c * t, P)
    ensures Cong(-r, -c * t, P)
  {
    hide Cong;
    CongScale(r, c * t, -1, P);
    assert -1 * (c * t) == -c * t;
  }

  /** ge_madd. */
  method GeMadd(p: P3, q: Precomp, ghost a: Point, ghost b: Point) returns (r: P1p1)
    requires CurveLaw() && OnCurve(a) && OnCurve(b) && IsP3(p, a) && IsPrecomp(q, b)
    ensures IsP1p1(r, Sum(a, b))
  {
    hide CurveLaw, OnCurve, Sum, Cong, Val, Bounded, IsExtended, IsCached, IsCompleted;
    var rX := FeAdd(p.Y, p.X, NARROW, NARROW);
    var rY := FeSub(p.Y, p.X, NARROW, NARROW);
    var rZ := FeMul(rX, q.yplusx, 2 * NARROW, NARROW);
    rY := FeMul(rY, q.yminusx, 2 * NARROW, NARROW);
    var rT := FeMul(q.xy2d, p.T, NARROW, NARROW);
    TimesOneCong(Val(p.Z));
    AddFormula(Val(p.X), Val(p.Y), Val(p.Z), Val(p.T), a, Val(q.yplusx), Val(q.yminusx), 1, Val(q.xy2d), b,
               Val(rZ), Val(rY), Val(rT), Val(p.Z));
    var t0 := FeAdd(p.Z, p.Z, NARROW, NARROW);
    r := Finish(t0, rZ, rY, rT, 2 * NARROW);
  }

  lemma TimesOneCong(z: int)
    ensures Cong(z, z * 1, P)
  {
    hide Cong;
    CongRefl(z, P);
  }

  /** ge_msub. */
  method GeMsub(p: P3, q: Precomp, ghost a: Point, ghost b: Point) returns (r: P1p1)
    requires CurveLaw() && OnCurve(a) && OnCurve(b) && IsP3(p, a) && IsPrecomp(q, b)
    ensures IsP1p1(r, Sum(a, Opposite(b)))
  {
    hide CurveLaw, OnCurve, Sum, Opposite, Cong, Val, Bounded, IsExtended, IsCached, IsCompleted;
    var rX := FeAdd(p.Y, p.X, NARROW, NARROW);
    var rY := FeSub(p.Y, p.X, NARROW, NARROW);
    var rZ := FeMul(rX, q.yminusx, 2 * NARROW, NARROW);
    rY := FeMul(rY, q.yplusx, 2 * NARROW, NARROW);
    var rT := FeMul(q.xy2d, p.T, NARROW, NARROW);
    TimesOneCong(Val(p.Z));
    NegOnCurve(b);
    CachedNeg(Val(q.yplusx), Val(q.yminusx), 1, Val(q.xy2d), b);
    NegProduct(Val(rT), Val(q.xy2d), Val(p.T));
    AddFormula(Val(p.X), Val(p.Y), Val(p.Z), Val(p.T), a, Val(q.yminusx), Val(q.yplusx), 1, -Val(q.xy2d), Opposite(b),
               Val(rZ), Val(rY), -Val(rT), Val(p.Z));
    var t0 := FeAdd(p.Z, p.Z, NARROW, NARROW);
    var f := Finish(t0, rZ, rY, rT, 2 * NARROW);
    r := P1p1(f.X, f.Y, f.T, f.Z);
  }

  // -------------------------------------------------------------------------
  // Doubling and conversions
  // -------------------------------------------------------------------------

  /** ge_p2_dbl. */
  method GeP2Dbl(p: P2, ghost a: Point) returns (r: P1p1)
    requires CurveLaw() && OnCurve(a) && IsP2(p, a)
    ensures IsP1p1(r, Sum(a, a))
  {
    hide CurveLaw, OnCurve, Sum, Cong, Val, Bounded, IsProjective, IsCompleted;
    var rX := FeSq(p.X, NARROW);
    var rZ := FeSq(p.Y, NARROW);
    var rT := FeSq2(p.Z, NARROW);
    var rY := FeAdd(p.X, p.Y, NARROW, NARROW);
    var t0 := FeSq(rY, 2 * NARROW);
    DoubleFormula(Val(p.X), Val(p.Y), Val(p.Z), a, Val(rX), Val(rZ), Val(rT), Val(t0));
    rY := FeAdd(rZ, rX, TIGHT, TIGHT);
    rZ := FeSub(rZ, rX, TIGHT, TIGHT);
    rX := FeSub(t0, rY, TIGHT, 2 * TIGHT);
    rT := FeSub(rT, rZ, TIGHT, 2 * TIGHT);
    Widen(rX, 3 * TIGHT, WIDE);
    Widen(rY, 2 * TIGHT, WIDE);
    Widen(rZ, 2 * TIGHT, WIDE);
    Widen(rT, 3 * TIGHT, WIDE);
    r := P1p1(rX, rY, rZ, rT);
  }

  /** ge_p3_to_p2. */
  method GeP3ToP2(p: P3, ghost a: Point) returns (r: P2)
    requires IsP3(p, a)
    ensures IsP2(r, a)
  {
    r := P2(p.X, p.Y, p.Z);
  }

  /** ge_p3_dbl. */
  method GeP3Dbl(p: P3, ghost a: Point) returns (r: P1p1)
    requires CurveLaw() && OnCurve(a) && IsP3(p, a)
    ensures IsP1p1(r, Sum(a, a))
  {
    hide *;
    var q := GeP3ToP2(p, a);
    r := GeP2Dbl(q, a);
  }

  /** ge_p1p1_to_p2. */
  method GeP1p1ToP2(p: P1p1, ghost a: Point) returns (r: P2)
    requires IsPrime(P) && IsP1p1(p, a)
    ensures IsP2(r, a)
  {
    hide IsPrime, Cong, Val, Bounded, IsProjective, IsCompleted;
    var rX := FeMul(p.X, p.T, WIDE, WIDE);
    var rY := FeMul(p.Y, p.Z, WIDE, WIDE);
    var rZ := FeMul(p.Z, p.T, WIDE, WIDE);
    CompletedToExtended(Val(p.X), Val(p.Y), Val(p.Z), Val(p.T), a, Val(rX), Val(rY), Val(rZ), 0);
    Widen(rX, TIGHT, NARROW);
    Widen(rY, TIGHT, NARROW);
    Widen(rZ, TIGHT, NARROW);
    r := P2(rX, rY, rZ);
  }

  /** ge_p1p1_to_p3. */
  method GeP1p1ToP3(p: P1p1, ghost a: Point) returns (r: P3)
    requires IsPrime(P) && IsP1p1(p, a)
    ensures IsP3(r, a)
  {
    hide IsPrime, Cong, Val, Bounded, IsExtended, IsCompleted;
    var rX := FeMul(p.X, p.T, WIDE, WIDE);
    var rY := FeMul(p.Y, p.Z, WIDE, WIDE);
    var rZ := FeMul(p.Z, p.T, WIDE, WIDE);
    var rT := FeMul(p.X, p.Y, WIDE, WIDE);
    CompletedToExtended(Val(p.X), Val(p.Y), Val(p.Z), Val(p.T), a, Val(rX), Val(rY), Val(rZ), Val(rT));
    Widen(rX, TIGHT, NARROW);
    Widen(rY, TIGHT, NARROW);
    Widen(rZ, TIGHT, NARROW);
    Widen(rT, TIGHT, NARROW);
    r := P3(rX, rY, rZ, rT);
  }

  /** ge_p3_to_cached. */
  method GeP3ToCached(p: P3, ghost a: Point) returns (r: Cached)
    requires IsP3(p, a)
    ensures IsCachedPoint(r, a)
  {
    Constants();
    hide Cong, Val, Bounded, Unit, D;
    var plus := FeAdd(p.Y, p.X, NARROW, NARROW);
    var minus := FeSub(p.Y, p.X, NARROW, NARROW);
    var t2d := FeMul(p.T, D2_LIMBS, NARROW, TIGHT);
    Widen(plus, 2 * NARROW, LOOSE);
    Widen(minus, 2 * NARROW, LOOSE);
    Widen(t2d, TIGHT, NARROW);
    CachedFormula(Val(p.X), Val(p.Y), Val(p.Z), Val(p.T), Val(D2_LIMBS), Val(t2d), a);
    r := Cached(plus, minus, p.Z, t2d);
  }

  lemma CachedFormula(X: int, Y: int, Z: int, T: int, c: int, t2d: int, a: Point)
    requires IsExtended(X, Y, Z, T, a) && Cong(c, 2 * D(), P) && Cong(t2d, T * c, P)
    ensures IsCached(Y + X, Y - X, Z, t2d, a)
  {
    hide Cong, Unit, D;
    CongAdd(Y, a.y * Z, X, a.x * Z, P);
    assert a.y * Z + a.x * Z == (a.y + a.x) * Z && a.y * Z - a.x * Z == (a.y - a.x) * Z;
    CongMul(T, a.x * a.y * Z, c, 2 * D(), P);
    assert (a.x * a.y * Z) * (2 * D()) == 2 * D() * (a.x * a.y) * Z;
    CongTrans(t2d, T * c, 2 * D() * (a.x * a.y) * Z, P);
  }

  lemma OriginForms()
    ensures IsProjective(0, 1, 1, O) && IsExtended(0, 1, 1, 0, O) && IsCached(1, 1, 1, 0, O)
  {
    hide D, Unit, Cong;
    CongRefl(0, P);
    CongRefl(1, P);
    OneIsAUnit();
  }

  /** ge_p2_0. */
  function GeP2Zero(): (r: P2)
    ensures IsP2(r, O)
  {
    hide Val, Bounded, Zero, One, IsProjective;
    OriginForms();
    P2(Zero(), One(), One())
  }

  /** ge_p3_0. */
  function GeP3Zero(): (r: P3)
    ensures IsP3(r, O)
  {
    hide Val, Bounded, Zero, One, IsExtended;
    OriginForms();
    P3(Zero(), One(), One(), Zero())
  }
}
