/** The projective addition and doubling formulas agree with the affine addition law. */
module Formulas {
  import opened Arith
  import opened Fe
  import opened Prime
  import opened Curve

  /** x = X/Z, y = Y/Z. */
  ghost predicate IsProjective(X: int, Y: int, Z: int, p: Point) {
    Unit(Z) && Cong(X, p.x * Z, P) && Cong(Y, p.y * Z, P)
  }

  /** x = X/Z, y = Y/Z, XY = ZT. */
  ghost predicate IsExtended(X: int, Y: int, Z: int, T: int, p: Point) {
    IsProjective(X, Y, Z, p) && Cong(T, p.x * p.y * Z, P)
  }

  /** x = X/Z, y = Y/T. */
  ghost predicate IsCompleted(X: int, Y: int, Z: int, T: int, p: Point) {
    Unit(Z) && Unit(T) && Cong(X, p.x * Z, P) && Cong(Y, p.y * T, P)
  }

  /** ((y + x)Z, (y - x)Z, Z, 2dxyZ). */
  ghost predicate IsCached(A: int, B: int, Z: int, C: int, p: Point) {
    Unit(Z) && Cong(A, (p.y + p.x) * Z, P) && Cong(B, (p.y - p.x) * Z, P) && Cong(C, 2 * D() * (p.x * p.y) * Z, P)
  }

  /** A factor u times an affine equation: X = u n, Z = u e and s e = n give X = s Z. */
  lemma Ratio(X: int, Z: int, n: int, e: int, u: int, s: int)
    requires Cong(X, n * u, P) && Cong(Z, e * u, P) && Cong(s * e, n, P)
    ensures Cong(X, s * Z, P)
  {
    hide Cong;
    CongScale(Z, e * u, s, P);
    CongScale(s * e, n, u, P);
    assert s * (e * u) == s * e * u;
    CongTrans(s * Z, s * e * u, n * u, P);
    CongSym(s * Z, n * u, P);
    CongTrans(X, n * u, s * Z, P);
  }

  lemma ScaledUnit(Z: int, e: int, u: int)
    requires IsPrime(P) && Unit(e) && Unit(u) && Cong(Z, e * u, P)
    ensures Unit(Z)
  {
    hide IsPrime, Cong, Unit;
    UnitProduct(e, u);
    UnitCong(Z, e * u);
  }

  /** The four products of ge_add, as multiples of Z1 Z2. */
  lemma AddProducts(X1: int, Y1: int, Z1: int, T1: int, p: Point, A: int, B: int, Z2: int, C: int, q: Point,
                    rZ: int, rY: int, rT: int, rX: int)
    requires IsExtended(X1, Y1, Z1, T1, p) && IsCached(A, B, Z2, C, q)
    requires Cong(rZ, (Y1 + X1) * A, P) && Cong(rY, (Y1 - X1) * B, P) && Cong(rT, C * T1, P) && Cong(rX, Z1 * Z2, P)
    ensures Cong(rZ, (p.y + p.x) * (q.y + q.x) * (Z1 * Z2), P)
    ensures Cong(rY, (p.y - p.x) * (q.y - q.x) * (Z1 * Z2), P)
    ensures Cong(rT, 2 * K(p, q) * (Z1 * Z2), P)
    ensures Cong(2 * rX, 2 * (Z1 * Z2), P)
  {
    hide Cong, Unit, D, K;
    CongAdd(Y1, p.y * Z1, X1, p.x * Z1, P);
    assert p.y * Z1 + p.x * Z1 == (p.y + p.x) * Z1 && p.y * Z1 - p.x * Z1 == (p.y - p.x) * Z1;
    Swap4(Y1 + X1, A, p.y + p.x, Z1, q.y + q.x, Z2, rZ);
    Swap4(Y1 - X1, B, p.y - p.x, Z1, q.y - q.x, Z2, rY);
    Swap4(C, T1, 2 * D() * (q.x * q.y), Z2, p.x * p.y, Z1, rT);
    assert Z2 * Z1 == Z1 * Z2;
    KProduct(p, q);
    CongScale(rX, Z1 * Z2, 2, P);
  }

  lemma KProduct(p: Point, q: Point)
    ensures 2 * D() * (q.x * q.y) * (p.x * p.y) == 2 * K(p, q)
  {
    hide D;
    assert p.x * q.x * p.y * q.y == (q.x * q.y) * (p.x * p.y);
    assert 2 * D() * (q.x * q.y) * (p.x * p.y) == 2 * (D() * ((q.x * q.y) * (p.x * p.y)));
  }

  lemma Swap4(a: int, b: int, s: int, u: int, t: int, v: int, r: int)
    requires Cong(a, s * u, P) && Cong(b, t * v, P) && Cong(r, a * b, P)
    ensures Cong(r, s * t * (u * v), P)
  {
    hide Cong;
    CongMul(a, s * u, b, t * v, P);
    assert (s * u) * (t * v) == s * t * (u * v);
    CongTrans(r, a * b, s * t * (u * v), P);
  }

  /** The completed point of ge_add, ge_sub, ge_madd and ge_msub. */
  lemma AddFormula(X1: int, Y1: int, Z1: int, T1: int, p: Point, A: int, B: int, Z2: int, C: int, q: Point,
                   rZ: int, rY: int, rT: int, rX: int)
    requires CurveLaw() && OnCurve(p) && OnCurve(q)
    requires IsExtended(X1, Y1, Z1, T1, p) && IsCached(A, B, Z2, C, q)
    requires Cong(rZ, (Y1 + X1) * A, P) && Cong(rY, (Y1 - X1) * B, P) && Cong(rT, C * T1, P) && Cong(rX, Z1 * Z2, P)
    ensures IsCompleted(rZ - rY, rZ + rY, 2 * rX + rT, 2 * rX - rT, Sum(p, q))
  {
    hide CurveLaw, IsPrime, OnCurve, Cong, Unit, Sum, K, IsCompleted;
    AddSums(X1, Y1, Z1, T1, p, A, B, Z2, C, q, rZ, rY, rT, rX);
    LawPrime();
    TwoIsAUnit();
    UnitProduct(Z1, Z2);
    UnitProduct(2, Z1 * Z2);
    Completes(rZ - rY, rZ + rY, 2 * rX + rT, 2 * rX - rT, p, q, 2 * (Z1 * Z2));
  }

  lemma AddSums(X1: int, Y1: int, Z1: int, T1: int, p: Point, A: int, B: int, Z2: int, C: int, q: Point,
                rZ: int, rY: int, rT: int, rX: int)
    requires IsExtended(X1, Y1, Z1, T1, p) && IsCached(A, B, Z2, C, q)
    requires Cong(rZ, (Y1 + X1) * A, P) && Cong(rY, (Y1 - X1) * B, P) && Cong(rT, C * T1, P) && Cong(rX, Z1 * Z2, P)
    ensures var u := 2 * (Z1 * Z2);
      && Cong(rZ - rY, (p.x * q.y + p.y * q.x) * u, P) && Cong(rZ + rY, (p.y * q.y + p.x * q.x) * u, P)
      && Cong(2 * rX + rT, (1 + K(p, q)) * u, P) && Cong(2 * rX - rT, (1 - K(p, q)) * u, P)
  {
    hide Cong, K, IsExtended, IsCached;
    AddProducts(X1, Y1, Z1, T1, p, A, B, Z2, C, q, rZ, rY, rT, rX);
    SumsOf(p.x, p.y, q.x, q.y, Z1 * Z2, K(p, q), rZ, rY, rT, rX, P);
  }

  /** The sums and differences of the four products, as multiples of 2w. */
  lemma SumsOf(x1: int, y1: int, x2: int, y2: int, w: int, k: int, rZ: int, rY: int, rT: int, rX: int, m: int)
    requires m > 0 && Cong(rZ, (y1 + x1) * (y2 + x2) * w, m) && Cong(rY, (y1 - x1) * (y2 - x2) * w, m)
    requires Cong(rT, 2 * k * w, m) && Cong(2 * rX, 2 * w, m)
    ensures Cong(rZ - rY, (x1 * y2 + y1 * x2) * (2 * w), m) && Cong(rZ + rY, (y1 * y2 + x1 * x2) * (2 * w), m)
    ensures Cong(2 * rX + rT, (1 + k) * (2 * w), m) && Cong(2 * rX - rT, (1 - k) * (2 * w), m)
  {
    hide Cong;
    CongAdd(rZ, (y1 + x1) * (y2 + x2) * w, rY, (y1 - x1) * (y2 - x2) * w, m);
    CongAdd(2 * rX, 2 * w, rT, 2 * k * w, m);
    Cross(x1, y1, x2, y2, w);
    OneMore(k, w);
  }

  lemma OneMore(k: int, w: int)
    ensures 2 * w + 2 * k * w == (1 + k) * (2 * w) && 2 * w - 2 * k * w == (1 - k) * (2 * w)
  {
  }

  /** Numerators and denominators of the law, all times one unit, are a completed sum. */
  lemma Completes(X: int, Y: int, Z: int, T: int, p: Point, q: Point, u: int)
    requires CurveLaw() && OnCurve(p) && OnCurve(q) && Unit(u)
    requires Cong(X, (p.x * q.y + p.y * q.x) * u, P) && Cong(Y, (p.y * q.y + p.x * q.x) * u, P)
    requires Cong(Z, (1 + K(p, q)) * u, P) && Cong(T, (1 - K(p, q)) * u, P)
    ensures IsCompleted(X, Y, Z, T, Sum(p, q))
  {
    hide *;
    SumSpec(p, q);
    LawPrime();
    LawClosed(p, q);
    CompleteDef(p, q);
    Fractions(X, Y, Z, T, p.x * q.y + p.y * q.x, p.y * q.y + p.x * q.x, 1 + K(p, q), 1 - K(p, q), u, Sum(p, q));
  }

  lemma Fractions(X: int, Y: int, Z: int, T: int, n: int, m: int, e: int, f: int, u: int, s: Point)
    requires IsPrime(P) && Unit(u) && Unit(e) && Unit(f)
    requires Cong(X, n * u, P) && Cong(Y, m * u, P) && Cong(Z, e * u, P) && Cong(T, f * u, P)
    requires Cong(s.x * e, n, P) && Cong(s.y * f, m, P)
    ensures IsCompleted(X, Y, Z, T, s)
  {
    hide IsPrime, Cong, Unit;
    Ratio(X, Z, n, e, u, s.x);
    Ratio(Y, T, m, f, u, s.y);
    ScaledUnit(Z, e, u);
    ScaledUnit(T, f, u);
  }

  lemma Cross(x1: int, y1: int, x2: int, y2: int, w: int)
    ensures (y1 + x1) * (y2 + x2) * w - (y1 - x1) * (y2 - x2) * w == (x1 * y2 + y1 * x2) * (2 * w)
    ensures (y1 + x1) * (y2 + x2) * w + (y1 - x1) * (y2 - x2) * w == (y1 * y2 + x1 * x2) * (2 * w)
  {
    assert (y1 + x1) * (y2 + x2) == y1 * y2 + x1 * x2 + (x1 * y2 + y1 * x2);
    assert (y1 - x1) * (y2 - x2) == y1 * y2 + x1 * x2 - (x1 * y2 + y1 * x2);
    var a, b := y1 * y2 + x1 * x2, x1 * y2 + y1 * x2;
    assert (a + b) * w == a * w + b * w && (a - b) * w == a * w - b * w;
  }

  /** Swapping the first two entries and negating the last caches -q. */
  lemma CachedNeg(A: int, B: int, Z: int, C: int, q: Point)
    requires IsCached(A, B, Z, C, q)
    ensures IsCached(B, A, Z, -C, Opposite(q))
  {
    hide Cong, Unit, D, Opposite;
    NegCong(q);
    var n := Opposite(q);
    CongRefl(q.y, P);
    CongAdd(q.y, q.y, n.x, -q.x, P);
    NegScale(q.y + n.x, q.y - q.x, Z, B);
    assert q.y - -q.x == q.y + q.x;
    NegScale(q.y - n.x, q.y + q.x, Z, A);
    var c := 2 * D() * q.y * Z;
    CongScale(n.x, -q.x, c, P);
    assert 2 * D() * (q.x * q.y) * Z == q.x * c && 2 * D() * (n.x * q.y) * Z == n.x * c by {
      CachedAlgebra(D(), q.x, q.y, Z);
      CachedAlgebra(D(), n.x, q.y, Z);
    }
    CongRefl(0, P);
    CongAdd(0, 0, C, q.x * c, P);
    assert -q.x * c == 0 - q.x * c;
    CongSym(n.x * c, -q.x * c, P);
    CongTrans(-C, -q.x * c, n.x * c, P);
  }

  lemma CachedAlgebra(d: int, x: int, y: int, z: int)
    ensures 2 * d * (x * y) * z == x * (2 * d * y * z)
  {
  }

  lemma NegScale(a: int, b: int, Z: int, B: int)
    requires Cong(a, b, P) && Cong(B, b * Z, P)
    ensures Cong(B, a * Z, P)
  {
    hide Cong;
    CongScale(a, b, Z, P);
    CongSym(a * Z, b * Z, P);
    CongTrans(B, b * Z, a * Z, P);
  }

  /** The completed point of ge_p2_dbl. */
  lemma DoubleFormula(X: int, Y: int, Z: int, p: Point, xx: int, yy: int, zz2: int, t0: int)
    requires CurveLaw() && OnCurve(p) && IsProjective(X, Y, Z, p)
    requires Cong(xx, X * X, P) && Cong(yy, Y * Y, P) && Cong(zz2, 2 * (Z * Z), P) && Cong(t0, (X + Y) * (X + Y), P)
    ensures IsCompleted(t0 - (yy + xx), yy + xx, yy - xx, zz2 - (yy - xx), Sum(p, p))
  {
    hide CurveLaw, IsPrime, OnCurve, Cong, Unit, Sum, K, IsCompleted;
    DoubleSums(X, Y, Z, p, xx, yy, zz2, t0);
    LawPrime();
    UnitProduct(Z, Z);
    Completes(t0 - (yy + xx), yy + xx, yy - xx, zz2 - (yy - xx), p, p, Z * Z);
  }

  lemma DoubleSums(X: int, Y: int, Z: int, p: Point, xx: int, yy: int, zz2: int, t0: int)
    requires OnCurve(p) && IsProjective(X, Y, Z, p)
    requires Cong(xx, X * X, P) && Cong(yy, Y * Y, P) && Cong(zz2, 2 * (Z * Z), P) && Cong(t0, (X + Y) * (X + Y), P)
    ensures var w := Z * Z;
      && Cong(t0 - (yy + xx), (p.x * p.y + p.y * p.x) * w, P) && Cong(yy + xx, (p.y * p.y + p.x * p.x) * w, P)
      && Cong(yy - xx, (1 + K(p, p)) * w, P) && Cong(zz2 - (yy - xx), (1 - K(p, p)) * w, P)
  {
    PPositive();
    hide *;
    DoubleSquares(X, Y, Z, p, xx, yy, t0);
    var w, k := Z * Z, K(p, p);
    var a, b := p.x * p.x, p.y * p.y;
    CongAdd(yy, b * w, xx, a * w, P);
    assert b * w + a * w == (b + a) * w && b * w - a * w == (b - a) * w;
    OnCurveDef(p);
    CongScale(b - a, 1 + k, w, P);
    CongTrans(yy - xx, (b - a) * w, (1 + k) * w, P);
    CongAdd(zz2, 2 * w, yy - xx, (1 + k) * w, P);
    assert 2 * w - (1 + k) * w == (1 - k) * w;
  }

  lemma DoubleSquares(X: int, Y: int, Z: int, p: Point, xx: int, yy: int, t0: int)
    requires IsProjective(X, Y, Z, p)
    requires Cong(xx, X * X, P) && Cong(yy, Y * Y, P) && Cong(t0, (X + Y) * (X + Y), P)
    ensures Cong(xx, p.x * p.x * (Z * Z), P) && Cong(yy, p.y * p.y * (Z * Z), P)
    ensures Cong(t0 - (yy + xx), (p.x * p.y + p.y * p.x) * (Z * Z), P)
  {
    hide Cong, Unit;
    var w := Z * Z;
    Swap4(X, X, p.x, Z, p.x, Z, xx);
    Swap4(Y, Y, p.y, Z, p.y, Z, yy);
    CongAdd(X, p.x * Z, Y, p.y * Z, P);
    assert p.x * Z + p.y * Z == (p.x + p.y) * Z;
    Swap4(X + Y, X + Y, p.x + p.y, Z, p.x + p.y, Z, t0);
    CongAdd(yy, p.y * p.y * w, xx, p.x * p.x * w, P);
    CongAdd(t0, (p.x + p.y) * (p.x + p.y) * w, yy + xx, p.y * p.y * w + p.x * p.x * w, P);
    SquareOfSum(p.x, p.y, w);
  }

  lemma SquareOfSum(x: int, y: int, w: int)
    ensures (x + y) * (x + y) * w - (y * y * w + x * x * w) == (x * y + y * x) * w
  {
    assert (x + y) * (x + y) == x * x + y * y + (x * y + y * x);
    var a, b, c := x * x, y * y, x * y + y * x;
    assert (a + b + c) * w == a * w + b * w + c * w;
  }

  /** ge_p1p1_to_p2 and ge_p1p1_to_p3. */
  lemma CompletedToExtended(X: int, Y: int, Z: int, T: int, p: Point, rX: int, rY: int, rZ: int, rT: int)
    requires IsPrime(P) && IsCompleted(X, Y, Z, T, p)
    requires Cong(rX, X * T, P) && Cong(rY, Y * Z, P) && Cong(rZ, Z * T, P)
    ensures IsProjective(rX, rY, rZ, p)
    ensures Cong(rT, X * Y, P) ==> IsExtended(rX, rY, rZ, rT, p)
  {
    hide IsPrime, Cong, Unit;
    CongScale(X, p.x * Z, T, P);
    CongTrans(rX, X * T, p.x * Z * T, P);
    CongScale(Y, p.y * T, Z, P);
    CongTrans(rY, Y * Z, p.y * T * Z, P);
    CongScale(rZ, Z * T, p.x, P);
    CongScale(rZ, Z * T, p.y, P);
    assert p.x * Z * T == p.x * (Z * T) && p.y * T * Z == p.y * (Z * T);
    CongSym(p.x * rZ, p.x * (Z * T), P);
    CongSym(p.y * rZ, p.y * (Z * T), P);
    CongTrans(rX, p.x * (Z * T), p.x * rZ, P);
    CongTrans(rY, p.y * (Z * T), p.y * rZ, P);
    UnitProduct(Z, T);
    UnitCong(rZ, Z * T);
    if Cong(rT, X * Y, P) {
      Swap4(X, Y, p.x, Z, p.y, T, rT);
      CongScale(rZ, Z * T, p.x * p.y, P);
      CongSym(p.x * p.y * rZ, p.x * p.y * (Z * T), P);
      CongTrans(rT, p.x * p.y * (Z * T), p.x * p.y * rZ, P);
    }
  }
}
