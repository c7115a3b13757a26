/** The twisted Edwards curve -x^2 + y^2 = 1 + d x^2 y^2 over Z/p, its addition, and multiples of points. */
module Curve {
  import opened Arith
  import opened Fe
  import opened Prime
  import EdwardsAlgebra

  /** d t is t times -121665/121666. */
  ghost predicate IsScaled(d: int, t: int) {
    Cong(121666 * (d * t), -121665 * t, P)
  }

  lemma ScaledBy(d: int, t: int)
    requires Cong(121666 * d, -121665, P)
    ensures IsScaled(d, t)
  {
    hide Cong;
    CongScale(121666 * d, -121665, t, P);
    assert 121666 * d * t == 121666 * (d * t);
  }

  ghost predicate IsRatio(d: int) {
    0 <= d < P && forall t: int :: IsScaled(d, t)
  }

  lemma RatioExists()
    ensures exists d: int :: IsRatio(d)
  {
    PValue();
    var d := 37095705934669439343138083508754565189542113879843219016388785533085940283555;
    hide Cong, IsScaled;
    CongByMod(121666 * d, -121665, P);
    forall t: int
      ensures IsScaled(d, t)
    {
      ScaledBy(d, t);
    }
    assert IsRatio(d);
  }

  /** d = -121665/121666. */
  ghost function D(): int {
    hide IsRatio;
    RatioExists();
    var d: int :| IsRatio(d);
    d
  }

  /** An affine point, by residues. */
  datatype Point = Point(x: int, y: int)

  /** A residue that is not zero. */
  ghost predicate Unit(a: int) {
    !Cong(a, 0, P)
  }

  ghost function Inv(a: int): int {
    Pow(a, P - 2) % P
  }

  ghost function K(p: Point, q: Point): int {
    D() * (p.x * q.x * p.y * q.y)
  }

  ghost predicate OnCurve(p: Point) {
    && 0 <= p.x < P && 0 <= p.y < P
    && Cong(p.y * p.y - p.x * p.x, 1 + K(p, p), P)
  }

  ghost function Sum(p: Point, q: Point): Point {
    Point(((p.x * q.y + p.y * q.x) * Inv(1 + K(p, q))) % P, ((p.y * q.y + p.x * q.x) * Inv(1 - K(p, q))) % P)
  }

  /** Both denominators of the addition law are units. */
  ghost predicate Complete(p: Point, q: Point) {
    Unit(1 + K(p, q)) && Unit(1 - K(p, q))
  }

  ghost predicate Associates(p: Point, q: Point, r: Point) {
    Sum(Sum(p, q), r) == Sum(p, Sum(q, r))
  }

  ghost predicate IsNonSquare(d: int, m: int)
    requires m > 0
  {
    forall z: int :: !Cong(z * z, d, m)
  }

  /** The hypotheses: p is prime, d is not a square, and the addition is associative. */
  ghost predicate CurveLaw() {
    && IsPrime(P)
    && IsNonSquare(D(), P)
    && (forall p, q, r :: OnCurve(p) && OnCurve(q) && OnCurve(r) ==> Associates(p, q, r))
  }

  lemma DSpec()
    ensures 0 <= D() < P && Cong(121666 * D(), -121665, P)
  {
    assert IsScaled(D(), 1);
    hide Cong;
  }

  /** The numeral of d: its successor inverts 121666. */
  lemma DValue()
    ensures D() == 37095705934669439343138083508754565189542113879843219016388785533085940283555
  {
    PValue();
    var n := 37095705934669439343138083508754565189542113879843219016388785533085940283555;
    var d := D();
    DSpec();
    hide D, Cong;
    CongByMod(121666 * n, -121665, P);
    CongByMod(121666 * (n + 1), 1, P);
    InverseCancels(121666, d, n, -121665, n + 1);
    CongEq(d, n, P);
  }

  lemma InverseCancels(a: int, d: int, n: int, c: int, inv: int)
    requires Cong(a * d, c, P) && Cong(a * n, c, P) && Cong(a * inv, 1, P)
    ensures Cong(d, n, P)
  {
    hide Cong;
    CongScale(a * d, c, inv, P);
    CongScale(a * n, c, inv, P);
    CongScale(a * inv, 1, d, P);
    CongScale(a * inv, 1, n, P);
    assert a * d * inv == a * inv * d && a * n * inv == a * inv * n;
    CongSym(a * inv * d, 1 * d, P);
    CongSym(a * n * inv, c * inv, P);
    CongTrans(d, a * inv * d, c * inv, P);
    CongTrans(d, c * inv, a * inv * n, P);
    CongTrans(d, a * inv * n, n, P);
  }

  // -------------------------------------------------------------------------
  // The field
  // -------------------------------------------------------------------------

  lemma InvSpec(a: int)
    requires IsPrime(P) && Unit(a)
    ensures Cong(a * Inv(a), 1, P)
  {
    hide Pow, IsPrime, Cong;
    FermatInverse(a, P);
    var w := Pow(a, P - 2);
    CongMod(w, P);
    CongScale(w % P, w, a, P);
    CongTrans(a * (w % P), a * w, 1, P);
  }

  lemma InvZero(a: int)
    requires !Unit(a)
    ensures Inv(a) == 0
  {
    hide Pow, Cong;
    PowZero(a, P - 2, P);
    CongSameMod(Pow(a, P - 2), 0, P);
  }

  lemma UnitProduct(a: int, b: int)
    requires IsPrime(P) && Unit(a) && Unit(b)
    ensures Unit(a * b)
  {
    hide IsPrime, Cong;
    if !Unit(a * b) {
      NoZeroDivisors(a, b, P);
    }
  }

  lemma UnitCong(a: int, b: int)
    requires Cong(a, b, P)
    ensures Unit(a) <==> Unit(b)
  {
    hide Cong;
    if !Unit(b) {
      CongTrans(a, b, 0, P);
    }
    if !Unit(a) {
      CongSym(a, b, P);
      CongTrans(b, a, 0, P);
    }
  }

  /** Units cancel. */
  lemma Cancel(a: int, b: int, u: int)
    requires IsPrime(P) && Unit(u) && Cong(a * u, b * u, P)
    ensures Cong(a, b, P)
  {
    hide IsPrime, Cong;
    CongRefl(b * u, P);
    CongAdd(a * u, b * u, b * u, b * u, P);
    assert a * u - b * u == (a - b) * u;
    NoZeroDivisors(a - b, u, P);
    CongRefl(b, P);
    CongAdd(a - b, 0, b, b, P);
  }

  /** a/u is the one residue that times u gives a. */
  lemma Quotient(a: int, u: int)
    requires IsPrime(P) && Unit(u)
    ensures Cong(((a * Inv(u)) % P) * u, a, P)
  {
    hide IsPrime, Cong, Inv, Unit;
    InvSpec(u);
    var i := Inv(u);
    CongMod(a * i, P);
    CongScale((a * i) % P, a * i, u, P);
    CongScale(u * i, 1, a, P);
    assert a * i * u == (u * i) * a && 1 * a == a;
    CongTrans(((a * i) % P) * u, a * i * u, a, P);
  }

  lemma QuotientUnique(x: int, a: int, u: int)
    requires IsPrime(P) && Unit(u) && 0 <= x < P && Cong(x * u, a, P)
    ensures x == (a * Inv(u)) % P
  {
    hide IsPrime, Cong, Inv, Unit;
    var y := (a * Inv(u)) % P;
    Quotient(a, u);
    CongSym(y * u, a, P);
    CongTrans(x * u, a, y * u, P);
    Cancel(x, y, u);
    CongEq(x, y, P);
  }

  // -------------------------------------------------------------------------
  // The group
  // -------------------------------------------------------------------------

  lemma LawPrime()
    requires CurveLaw()
    ensures IsPrime(P)
  {
  }

  lemma LawAssoc(p: Point, q: Point, r: Point)
    requires CurveLaw() && OnCurve(p) && OnCurve(q) && OnCurve(r)
    ensures Sum(Sum(p, q), r) == Sum(p, Sum(q, r))
  {
    assert Associates(p, q, r);
  }

  lemma SumDef(p: Point, q: Point)
    ensures Sum(p, q).x == ((p.x * q.y + p.y * q.x) * Inv(1 + K(p, q))) % P
    ensures Sum(p, q).y == ((p.y * q.y + p.x * q.x) * Inv(1 - K(p, q))) % P
  {
    hide Inv, K;
  }

  lemma CompleteDef(p: Point, q: Point)
    ensures Complete(p, q) <==> Unit(1 + K(p, q)) && Unit(1 - K(p, q))
  {
    hide Unit, K;
  }

  lemma UnitDef(a: int)
    ensures Unit(a) <==> !Cong(a, 0, P)
  {
    hide Cong;
  }

  lemma PPositive()
    ensures P > 0
  {
  }

  // -------------------------------------------------------------------------
  // The addition law is complete and closed
  // -------------------------------------------------------------------------

  /** A root of -1. */
  const ROOT_OF_MINUS_ONE: int := 0x2b8324804fc1df0b2b4d00993dfbd7a72f431806ad2fe478c4ee1b274a0ea0b0

  lemma ISquared()
    ensures Cong(ROOT_OF_MINUS_ONE * ROOT_OF_MINUS_ONE, -1, P)
  {
    PValue();
    CongByMod(ROOT_OF_MINUS_ONE * ROOT_OF_MINUS_ONE, -1, P);
  }

  lemma LawNonSquare()
    requires CurveLaw()
    ensures IsNonSquare(D(), P)
  {
    hide D, Associates, OnCurve, IsPrime, IsNonSquare;
  }

  /** A number that is no square is not a quotient of squares either. */
  lemma NotSquareRatio(r: int, u: int, d: int, m: int)
    requires IsPrime(m) && m > 0 && IsNonSquare(d, m) && Cong(r * r, d * (u * u), m)
    ensures Cong(u, 0, m)
  {
    hide *;
    if !Cong(u, 0, m) {
      FermatInverse(u, m);
      var v := Pow(u, m - 2);
      RootOfRatio(r, u, v, d, m);
      NoRootOf(r * v, d, m);
    }
  }

  lemma RootOfRatio(r: int, u: int, v: int, d: int, m: int)
    requires m > 0 && Cong(u * v, 1, m) && Cong(r * r, d * (u * u), m)
    ensures Cong((r * v) * (r * v), d, m)
  {
    hide *;
    CongMul(u * v, 1, u * v, 1, m);
    CongScale(r * r, d * (u * u), v * v, m);
    EdwardsAlgebra.SquareOfProduct(r, v);
    EdwardsAlgebra.SquareOfProduct(u, v);
    assert d * (u * u) * (v * v) == d * ((u * u) * (v * v));
    CongScale((u * u) * (v * v), 1, d, m);
    CongTrans((r * v) * (r * v), d * ((u * u) * (v * v)), d, m);
  }

  lemma NoRootOf(z: int, d: int, m: int)
    requires m > 0 && IsNonSquare(d, m)
    ensures !Cong(z * z, d, m)
  {
    hide Cong;
  }

  /** For a root k of 1 and a root i of -1: (i x)^2 + (k y)^2 = y^2 - x^2. */
  lemma RootsOfOne(x: int, y: int, n: int, kk: int)
    requires Cong(n, -1, P) && Cong(kk, 1, P)
    ensures Cong(n * x + kk * y, y - x, P)
  {
    PPositive();
    hide *;
    CongScale(n, -1, x, P);
    CongScale(kk, 1, y, P);
    assert -1 * x == -x && 1 * y == y;
    CongAdd(n * x, -x, kk * y, y, P);
    assert -x + y == y - x;
  }

  /** y1^2 - x1^2 = 1 + d t^2 = k^2 + d t^2 = d t^2 (1 + d w^2) = d t^2 (y2^2 - x2^2). */
  lemma SameNorms(p: Point, q: Point, k: int, t: int, w: int, m: int)
    requires OnCurve(p) && OnCurve(q) && t == p.x * p.y && w == q.x * q.y && m == D() * (t * t) && k == D() * (t * w)
    requires Cong(k * k, 1, P)
    ensures Cong(p.y * p.y - p.x * p.x, m * (q.y * q.y - q.x * q.x), P)
  {
    PPositive();
    hide *;
    OnCurveDef(p);
    OnCurveDef(q);
    KProducts(p, p);
    KProducts(q, q);
    var a, b := p.y * p.y - p.x * p.x, q.y * q.y - q.x * q.x;
    CongScale(b, 1 + K(q, q), m, P);
    SquareOfK(t, w, k, m);
    CongRefl(m, P);
    CongAdd(m, m, k * k, 1, P);
    CongTrans(m * b, m + k * k, m + 1, P);
    CongSym(m * b, m + 1, P);
    CongTrans(a, m + 1, m * b, P);
  }

  /** With t = x1 y1 and k = d x1 y1 x2 y2 a root of 1: (i x1 + k y1)^2 = d t^2 (i x2 + y2)^2, for i a root of -1. */
  lemma RatioOfRoots(p: Point, q: Point, i: int)
    requires OnCurve(p) && OnCurve(q) && Cong(K(p, q) * K(p, q), 1, P) && Cong(i * i, -1, P)
    ensures Cong((i * p.x + K(p, q) * p.y) * (i * p.x + K(p, q) * p.y),
                 D() * (((p.x * p.y) * (i * q.x + q.y)) * ((p.x * p.y) * (i * q.x + q.y))), P)
  {
    PPositive();
    hide *;
    KProducts(p, q);
    var k, t, w, n := K(p, q), p.x * p.y, q.x * q.y, i * i;
    var m, c := D() * (t * t), 2 * (i * (D() * (t * t) * w));
    EdwardsAlgebra.RootIdentity(p.x, p.y, D(), k, i, n, t, w);
    EdwardsAlgebra.ScaledRoot(q.x, q.y, i, n, m, w);
    var x, y, x', y' := p.x * p.x, p.y * p.y, q.x * q.x, q.y * q.y;
    RootsOfOne(x, y, n, k * k);
    CongRefl(1, P);
    RootsOfOne(x', y', n, 1);
    SameNorms(p, q, k, t, w, m);
    CongScale(n * x' + 1 * y', y' - x', m, P);
    CongSym(m * (n * x' + 1 * y'), m * (y' - x'), P);
    CongTrans(n * x + k * k * y, y - x, m * (y' - x'), P);
    CongTrans(n * x + k * k * y, m * (y' - x'), m * (n * x' + 1 * y'), P);
    CongRefl(c, P);
    CongAdd(n * x + k * k * y, m * (n * x' + 1 * y'), c, c, P);
    EdwardsAlgebra.SquareOfProduct(t, i * q.x + q.y);
    var h := (i * q.x + q.y) * (i * q.x + q.y);
    assert D() * ((t * t) * h) == m * h;
  }

  lemma KProducts(p: Point, q: Point)
    ensures K(p, q) == D() * ((p.x * p.y) * (q.x * q.y))
  {
    hide D;
    assert p.x * q.x * p.y * q.y == (p.x * p.y) * (q.x * q.y);
  }

  lemma SquareOfK(t: int, w: int, k: int, m: int)
    requires k == D() * (t * w) && m == D() * (t * t)
    ensures m * (1 + D() * (w * w)) == m + k * k
  {
    hide D;
    EdwardsAlgebra.SquareOfProduct(D(), t * w);
    EdwardsAlgebra.SquareOfProduct(t, w);
    EdwardsAlgebra.FourProduct(D(), t * t, D(), w * w);
  }

  /** d x1 x2 y1 y2 is no root of 1. */
  lemma KIsNoRootOfOne(p: Point, q: Point)
    requires CurveLaw() && OnCurve(p) && OnCurve(q)
    ensures !Cong(K(p, q) * K(p, q), 1, P)
  {
    PPositive();
    ISquared();
    TwoIsAUnit();
    KProducts(p, q);
    hide *;
    LawPrime();
    var k, t := K(p, q), p.x * p.y;
    var i := ROOT_OF_MINUS_ONE;
    if Cong(k * k, 1, P) {
      assert (-i) * (-i) == i * i;
      RatioOfRoots(p, q, i);
      RatioOfRoots(p, q, -i);
      LawNonSquare();
      NotSquareRatio(i * p.x + k * p.y, t * (i * q.x + q.y), D(), P);
      NotSquareRatio(-i * p.x + k * p.y, t * (-i * q.x + q.y), D(), P);
      UnitDef(t * (i * q.x + q.y));
      UnitDef(t * (-i * q.x + q.y));
      // k is a unit, so t and y2 are
      OneIsAUnit();
      UnitCong(k * k, 1);
      UnitParts(k, k);
      UnitParts(D(), t * (q.x * q.y));
      UnitParts(t, q.x * q.y);
      UnitParts(q.x, q.y);
      ZeroParts(t, i * q.x + q.y);
      ZeroParts(t, -i * q.x + q.y);
      CongAdd(i * q.x + q.y, 0, -i * q.x + q.y, 0, P);
      TwiceY(i, q.x, q.y);
      UnitProduct(2, q.y);
      UnitDef(2 * q.y);
    }
  }

  lemma TwiceY(i: int, x: int, y: int)
    ensures (i * x + y) + (-i * x + y) == 2 * y
  {
    assert -i * x == -(i * x);
  }

  lemma TwoIsAUnit()
    ensures Unit(2)
  {
  }

  lemma OneIsAUnit()
    ensures Unit(1)
  {
  }

  lemma UnitParts(a: int, b: int)
    requires Unit(a * b)
    ensures Unit(a) && Unit(b)
  {
    PPositive();
    UnitDef(a);
    UnitDef(b);
    UnitDef(a * b);
    hide *;
    if !Unit(a) {
      CongScale(a, 0, b, P);
    }
    if !Unit(b) {
      CongScale(b, 0, a, P);
    }
  }

  lemma ZeroParts(a: int, b: int)
    requires IsPrime(P) && Unit(a) && !Unit(a * b)
    ensures Cong(b, 0, P)
  {
    UnitDef(b);
    hide *;
    if Unit(b) {
      UnitProduct(a, b);
    }
  }

  /** Both denominators are units for any two points of the curve. */
  lemma LawComplete(p: Point, q: Point)
    requires CurveLaw() && OnCurve(p) && OnCurve(q)
    ensures Complete(p, q)
  {
    PPositive();
    hide *;
    var k := K(p, q);
    KIsNoRootOfOne(p, q);
    CompleteDef(p, q);
    UnitDef(1 + k);
    UnitDef(1 - k);
    CongRefl(1, P);
    if Cong(1 + k, 0, P) {
      CongScale(1 + k, 0, 1 - k, P);
      NoRoot(k);
    }
    if Cong(1 - k, 0, P) {
      CongScale(1 - k, 0, 1 + k, P);
      NoRoot(k);
    }
  }

  lemma NoRoot(k: int)
    requires Cong((1 + k) * (1 - k), 0, P) || Cong((1 - k) * (1 + k), 0, P)
    ensures Cong(k * k, 1, P)
  {
    PPositive();
    hide *;
    assert (1 + k) * (1 - k) == 1 - k * k && (1 - k) * (1 + k) == 1 - k * k;
    CongRefl(k * k, P);
    CongAdd(1 - k * k, 0, k * k, k * k, P);
    CongSym(1, k * k, P);
  }

  /** The sum of two points of the curve is on the curve. */
  lemma LawClosed(p: Point, q: Point)
    requires CurveLaw() && OnCurve(p) && OnCurve(q)
    ensures Complete(p, q) && OnCurve(Sum(p, q))
  {
    PPositive();
    KProducts(p, q);
    hide *;
    LawPrime();
    LawComplete(p, q);
    CompleteDef(p, q);
    SumDef(p, q);
    var k, s := K(p, q), Sum(p, q);
    var S, R := p.y * q.y + p.x * q.x, p.x * q.y + p.y * q.x;
    Quotient(R, 1 + k);
    Quotient(S, 1 - k);
    SumRange(s, R * Inv(1 + k), S * Inv(1 - k));
    ClosureValue(p, q, S, R);
    SumEquation(s.x, s.y, k, S, R, D(), P);
    UnitProduct(1 + k, 1 - k);
    UnitProduct((1 + k) * (1 - k), (1 + k) * (1 - k));
    Cancel(s.y * s.y - s.x * s.x, 1 + D() * ((s.x * s.y) * (s.x * s.y)), ((1 + k) * (1 - k)) * ((1 + k) * (1 - k)));
    KProducts(s, s);
    OnCurveDef(s);
  }

  lemma SumRange(s: Point, a: int, b: int)
    requires s.x == a % P && s.y == b % P
    ensures 0 <= s.x < P && 0 <= s.y < P
  {
  }

  /** S^2 (1 + k)^2 - R^2 (1 - k)^2 - d (SR)^2 = (1 - k^2)^2 for points of the curve. */
  lemma ClosureValue(p: Point, q: Point, S: int, R: int)
    requires OnCurve(p) && OnCurve(q) && S == p.y * q.y + p.x * q.x && R == p.x * q.y + p.y * q.x
    ensures var k := K(p, q);
            Cong((S * S) * ((1 + k) * (1 + k)) - (R * R) * ((1 - k) * (1 - k)) - D() * ((S * R) * (S * R)),
                 (1 - k * k) * (1 - k * k), P)
  {
    PPositive();
    KProducts(p, q);
    hide *;
    var k, t, w := K(p, q), p.x * p.y, q.x * q.y;
    var A, B := p.y * p.y - p.x * p.x, q.y * q.y - q.x * q.x;
    EdwardsAlgebra.ClosureIdentity(p.x, p.y, q.x, q.y, S, R, D(), k);
    Factor(p, q);
    Factor(q, p);
    KComm(p, q);
    CongMul(A - B * (D() * (t * t)), 1 - k * k, B - A * (D() * (w * w)), 1 - k * k, P);
  }

  /** (y1^2 - x1^2) - (y2^2 - x2^2) d (x1 y1)^2 = 1 - k^2. */
  lemma Factor(p: Point, q: Point)
    requires OnCurve(p) && OnCurve(q)
    ensures Cong((p.y * p.y - p.x * p.x) - (q.y * q.y - q.x * q.x) * (D() * ((p.x * p.y) * (p.x * p.y))), 1 - K(p, q) * K(p, q), P)
  {
    PPositive();
    OnCurveDef(p);
    OnCurveDef(q);
    KProducts(p, q);
    KProducts(p, p);
    KProducts(q, q);
    hide *;
    var k, t, w := K(p, q), p.x * p.y, q.x * q.y;
    var m := D() * (t * t);
    var A, B := p.y * p.y - p.x * p.x, q.y * q.y - q.x * q.x;
    CongScale(B, 1 + K(q, q), m, P);
    SquareOfK(t, w, k, m);
    assert (1 + D() * (w * w)) * m == m * (1 + D() * (w * w));
    CongAdd(A, 1 + m, B * m, m + k * k, P);
  }

  /** The curve equation of the sum, times (1 - k^2)^2. */
  lemma SumEquation(x: int, y: int, k: int, S: int, R: int, d: int, m: int)
    requires m > 0 && Cong(x * (1 + k), R, m) && Cong(y * (1 - k), S, m)
    requires Cong((S * S) * ((1 + k) * (1 + k)) - (R * R) * ((1 - k) * (1 - k)) - d * ((S * R) * (S * R)),
                  (1 - k * k) * (1 - k * k), m)
    ensures var M := ((1 + k) * (1 - k)) * ((1 + k) * (1 - k));
            Cong((y * y - x * x) * M, (1 + d * ((x * y) * (x * y))) * M, m)
  {
    hide *;
    var a, b := 1 + k, 1 - k;
    var M := (a * b) * (a * b);
    CongMul(x * a, R, x * a, R, m);
    CongMul(y * b, S, y * b, S, m);
    CongScale((x * a) * (x * a), R * R, b * b, m);
    CongScale((y * b) * (y * b), S * S, a * a, m);
    CongMul(y * b, S, x * a, R, m);
    CongMul((y * b) * (x * a), S * R, (y * b) * (x * a), S * R, m);
    CongScale(((y * b) * (x * a)) * ((y * b) * (x * a)), (S * R) * (S * R), d, m);
    CongAdd(((y * b) * (y * b)) * (a * a), (S * S) * (a * a), ((x * a) * (x * a)) * (b * b), (R * R) * (b * b), m);
    var left := ((y * b) * (y * b)) * (a * a) - ((x * a) * (x * a)) * (b * b);
    var third := d * (((y * b) * (x * a)) * ((y * b) * (x * a)));
    CongAdd(left, (S * S) * (a * a) - (R * R) * (b * b), third, d * ((S * R) * (S * R)), m);
    CongTrans(left - third, (S * S) * (a * a) - (R * R) * (b * b) - d * ((S * R) * (S * R)), (1 - k * k) * (1 - k * k), m);
    CongRefl(third, m);
    CongAdd(left - third, (1 - k * k) * (1 - k * k), third, third, m);
    SumForms(x, y, a, b, d);
    assert a * b == 1 - k * k;
  }

  lemma SumForms(x: int, y: int, a: int, b: int, d: int)
    ensures var M := (a * b) * (a * b);
            && ((y * b) * (y * b)) * (a * a) - ((x * a) * (x * a)) * (b * b) == (y * y - x * x) * M
            && M + d * (((y * b) * (x * a)) * ((y * b) * (x * a))) == (1 + d * ((x * y) * (x * y))) * M
  {
    var M := (a * b) * (a * b);
    EdwardsAlgebra.SquareOfProduct(y, b);
    EdwardsAlgebra.SquareOfProduct(x, a);
    EdwardsAlgebra.SquareOfProduct(a, b);
    assert (y * y) * (b * b) * (a * a) == (y * y) * M;
    assert (x * x) * (a * a) * (b * b) == (x * x) * M;
    EdwardsAlgebra.FourProduct(y, b, x, a);
    EdwardsAlgebra.SquareOfProduct(x * y, a * b);
    assert (y * b) * (x * a) == (x * y) * (a * b);
    assert d * (((x * y) * (x * y)) * M) == (d * ((x * y) * (x * y))) * M;
  }

  /** The sum, without division. */
  lemma SumSpec(p: Point, q: Point)
    requires CurveLaw() && OnCurve(p) && OnCurve(q)
    ensures Cong(Sum(p, q).x * (1 + K(p, q)), p.x * q.y + p.y * q.x, P)
    ensures Cong(Sum(p, q).y * (1 - K(p, q)), p.y * q.y + p.x * q.x, P)
  {
    hide *;
    LawPrime();
    LawClosed(p, q);
    CompleteDef(p, q);
    SumDef(p, q);
    Quotient(p.x * q.y + p.y * q.x, 1 + K(p, q));
    Quotient(p.y * q.y + p.x * q.x, 1 - K(p, q));
  }

  lemma SumUnique(p: Point, q: Point, r: Point)
    requires CurveLaw() && OnCurve(p) && OnCurve(q) && 0 <= r.x < P && 0 <= r.y < P
    requires Cong(r.x * (1 + K(p, q)), p.x * q.y + p.y * q.x, P)
    requires Cong(r.y * (1 - K(p, q)), p.y * q.y + p.x * q.x, P)
    ensures Sum(p, q) == r
  {
    hide *;
    LawPrime();
    LawClosed(p, q);
    CompleteDef(p, q);
    SumDef(p, q);
    QuotientUnique(r.x, p.x * q.y + p.y * q.x, 1 + K(p, q));
    QuotientUnique(r.y, p.y * q.y + p.x * q.x, 1 - K(p, q));
  }

  const O: Point := Point(0, 1)

  ghost function Opposite(p: Point): Point {
    Point((-p.x) % P, p.y)
  }

  lemma ZeroOnCurve()
    ensures OnCurve(O)
  {
    hide Cong, D;
    CongRefl(1, P);
  }

  lemma SumComm(p: Point, q: Point)
    ensures Sum(p, q) == Sum(q, p)
  {
    hide *;
    SumDef(p, q);
    SumDef(q, p);
    KComm(p, q);
    assert p.x * q.y + p.y * q.x == q.x * p.y + q.y * p.x;
    assert p.y * q.y + p.x * q.x == q.y * p.y + q.x * p.x;
  }

  lemma KComm(p: Point, q: Point)
    ensures K(p, q) == K(q, p)
  {
    hide D;
    assert p.x * q.x * p.y * q.y == q.x * p.x * q.y * p.y;
  }

  lemma SumZero(p: Point)
    requires CurveLaw() && OnCurve(p)
    ensures Sum(p, O) == p && Sum(O, p) == p
  {
    hide CurveLaw, Cong, K, OnCurve, Sum;
    KZero(p);
    ZeroOnCurve();
    OnCurveRange(p);
    CongRefl(p.x, P);
    CongRefl(p.y, P);
    SumUnique(p, O, p);
    SumComm(p, O);
  }

  lemma KZero(p: Point)
    ensures K(p, O) == 0
  {
    hide D;
    assert p.x * O.x * p.y * O.y == 0;
  }

  lemma OnCurveRange(p: Point)
    requires OnCurve(p)
    ensures 0 <= p.x < P && 0 <= p.y < P
  {
  }

  lemma NegCong(p: Point)
    ensures Cong(Opposite(p).x, -p.x, P) && Opposite(p).y == p.y && 0 <= Opposite(p).x < P
  {
    hide Cong;
    CongMod(-p.x, P);
  }

  lemma OnCurveDef(p: Point)
    ensures OnCurve(p) <==> 0 <= p.x < P && 0 <= p.y < P && Cong(p.y * p.y - p.x * p.x, 1 + K(p, p), P)
  {
    hide Cong, K;
  }

  lemma KFactor(p: Point, q: Point)
    ensures K(p, q) == (D() * (p.x * (p.y * q.y))) * q.x
  {
    hide D;
    assert p.x * q.x * p.y * q.y == p.x * (p.y * q.y) * q.x;
  }

  lemma NegOnCurve(p: Point)
    requires OnCurve(p)
    ensures OnCurve(Opposite(p))
  {
    hide Cong, K, OnCurve, Opposite;
    var n := Opposite(p);
    NegCong(p);
    OnCurveDef(p);
    OnCurveDef(n);
    NegSquare(p.x, n.x, p.y, D(), P);
    KDef(p, p);
    KDef(n, n);
    var yy := p.y * p.y;
    CongRefl(yy, P);
    CongAdd(yy, yy, n.x * n.x, p.x * p.x, P);
    CongTrans(yy - n.x * n.x, yy - p.x * p.x, 1 + K(p, p), P);
    CongTrans(yy - n.x * n.x, 1 + K(p, p), 1 + K(n, n), P);
  }

  lemma NegSquare(x: int, nx: int, y: int, d: int, m: int)
    requires m > 0 && Cong(nx, -x, m)
    ensures Cong(nx * nx, x * x, m) && Cong(1 + d * (x * x * y * y), 1 + d * (nx * nx * y * y), m)
  {
    hide Cong;
    CongMul(nx, -x, nx, -x, m);
    assert (-x) * (-x) == x * x;
    CongScale(nx * nx, x * x, d * (y * y), m);
    SquaresOfK(d, x, y);
    SquaresOfK(d, nx, y);
    CongRefl(1, m);
    CongAdd(1, 1, nx * nx * (d * (y * y)), x * x * (d * (y * y)), m);
    CongSym(1 + nx * nx * (d * (y * y)), 1 + x * x * (d * (y * y)), m);
  }

  lemma SquaresOfK(d: int, x: int, y: int)
    ensures d * (x * x * y * y) == x * x * (d * (y * y))
  {
    assert x * x * y * y == (x * x) * (y * y);
    assert d * ((x * x) * (y * y)) == (x * x) * (d * (y * y));
  }

  lemma KDef(p: Point, q: Point)
    ensures K(p, q) == D() * (p.x * q.x * p.y * q.y)
  {
    hide D;
  }

  lemma KSquare(p: Point)
    ensures K(p, p) == (p.x * p.x) * (D() * (p.y * p.y))
  {
    hide D;
    SquaresOfK(D(), p.x, p.y);
  }

  lemma SumNeg(p: Point)
    requires CurveLaw() && OnCurve(p)
    ensures Sum(p, Opposite(p)) == O
  {
    hide Cong, K, D, OnCurve, Opposite, Sum, CurveLaw;
    var n := Opposite(p);
    NegOnCurve(p);
    NegCong(p);
    OnCurveDef(p);
    KDef(p, p);
    KDef(p, n);
    SumNegX(p.x, n.x, p.y, P);
    SumNegY(p.x, n.x, p.y, D(), P);
    SumUnique(p, n, O);
  }

  /** x: x y - y x = 0. */
  lemma SumNegX(x: int, nx: int, y: int, m: int)
    requires m > 0 && Cong(nx, -x, m)
    ensures Cong(0, x * y + y * nx, m)
  {
    hide Cong;
    CongScale(nx, -x, y, m);
    CongRefl(x * y, m);
    CongAdd(x * y, x * y, y * nx, y * -x, m);
    assert x * y + y * -x == 0;
    CongSym(x * y + y * nx, 0, m);
  }

  /** y: y y - x x = 1 + d x^2 y^2. */
  lemma SumNegY(x: int, nx: int, y: int, d: int, m: int)
    requires m > 0 && Cong(nx, -x, m) && Cong(y * y - x * x, 1 + d * (x * x * y * y), m)
    ensures Cong(1 - d * (x * nx * y * y), y * y + x * nx, m)
  {
    hide Cong;
    CongScale(nx, -x, x, m);
    assert x * -x == -(x * x);
    CongRefl(y * y, m);
    CongAdd(y * y, y * y, x * nx, x * -x, m);
    var k := d * (x * x * y * y);
    CongTrans(y * y + x * nx, y * y - x * x, 1 + k, m);
    var c := d * (x * (y * y));
    LastFactor(d, x, nx, y);
    LastFactor(d, x, x, y);
    CongScale(nx, -x, c, m);
    assert c * -x == -(c * x);
    CongRefl(1, m);
    CongAdd(1, 1, c * nx, -k, m);
    CongSym(y * y + x * nx, 1 + k, m);
    CongTrans(1 - c * nx, 1 + k, y * y + x * nx, m);
  }

  lemma LastFactor(d: int, x: int, z: int, y: int)
    ensures d * (x * z * y * y) == d * (x * (y * y)) * z
  {
    assert x * z * y * y == x * (y * y) * z;
  }

  /** The curve equation solved for x^2. */
  lemma SolvedForX(x: int, y: int, d: int, m: int)
    requires m > 0 && Cong(y * y - x * x, 1 + d * (x * x * y * y), m)
    ensures Cong(x * x * (1 + d * (y * y)), y * y - 1, m)
  {
    hide Cong;
    SquaresOfK(d, x, y);
    var xx, yy := x * x, y * y;
    var k := xx * (d * yy);
    assert xx * (1 + d * yy) == xx + k;
    CongSym(yy - xx, 1 + k, m);
    CongRefl(xx - 1, m);
    CongAdd(1 + k, yy - xx, xx - 1, xx - 1, m);
    assert 1 + k + (xx - 1) == xx * (1 + d * yy);
  }

  lemma CurvePoint(p: Point)
    requires OnCurve(p)
    ensures Cong(p.y * p.y - p.x * p.x, 1 + D() * (p.x * p.x * p.y * p.y), P)
  {
    hide Cong, K, D;
    KDef(p, p);
  }

  /** 1 + d y^2 is a unit for a point of the curve. */
  lemma DenominatorUnit(p: Point)
    requires OnCurve(p)
    ensures Unit(1 + D() * (p.y * p.y))
  {
    hide Cong, D, OnCurve, Unit;
    CurvePoint(p);
    SolvedForX(p.x, p.y, D(), P);
    var v := 1 + D() * (p.y * p.y);
    UnitDef(v);
    if !Unit(v) {
      NoPole(p.x * p.x, p.y * p.y);
    }
  }

  lemma NoPole(xx: int, t: int)
    requires Cong(xx * (1 + D() * t), t - 1, P)
    ensures !Cong(1 + D() * t, 0, P)
  {
    DPlusOne();
    hide Cong, D;
    var v := 1 + D() * t;
    if Cong(v, 0, P) {
      CongScale(v, 0, xx, P);
      CongSym(xx * v, t - 1, P);
      CongTrans(t - 1, xx * v, 0, P);
      CongScale(t - 1, 0, D(), P);
      CongAdd(v, 0, D() * (t - 1), D() * 0, P);
      SameSum(v, D(), t);
    }
  }

  lemma SameSum(v: int, e: int, t: int)
    requires v == 1 + e * t
    ensures v - e * (t - 1) == 1 + e
  {
  }

  lemma DPlusOne()
    ensures !Cong(1 + D(), 0, P)
  {
    PValue();
    DValue();
    hide D, Cong;
    if Cong(1 + D(), 0, P) {
      CongEq(1 + D(), 0, P);
    }
  }

  /** n times p. */
  ghost function Times(n: nat, p: Point): Point {
    if n == 0 then O else Sum(Times(n - 1, p), p)
  }

  lemma TimesStep(n: nat, p: Point)
    ensures Times(0, p) == O
    ensures Times(n + 1, p) == Sum(Times(n, p), p)
  {
    hide Sum;
  }

  lemma {:induction false} TimesOnCurve(n: nat, p: Point)
    requires CurveLaw() && OnCurve(p)
    ensures OnCurve(Times(n, p))
  {
    hide *;
    if n == 0 {
      TimesStep(0, p);
      ZeroOnCurve();
    } else {
      TimesStep(n - 1, p);
      TimesOnCurve(n - 1, p);
      LawClosed(Times(n - 1, p), p);
    }
  }

  lemma {:induction false} TimesAdd(m: nat, n: nat, p: Point)
    requires CurveLaw() && OnCurve(p)
    ensures Times(m + n, p) == Sum(Times(m, p), Times(n, p))
  {
    hide *;
    TimesOnCurve(m, p);
    TimesOnCurve(n, p);
    if n == 0 {
      TimesStep(0, p);
      SumZero(Times(m, p));
    } else {
      TimesStep(n - 1, p);
      TimesStep(m + n - 1, p);
      TimesAdd(m, n - 1, p);
      TimesOnCurve(n - 1, p);
      LawAssoc(Times(m, p), Times(n - 1, p), p);
    }
  }

  lemma {:induction false} TimesTimes(m: nat, n: nat, p: Point)
    requires CurveLaw() && OnCurve(p)
    ensures m * n >= 0 && Times(m * n, p) == Times(m, Times(n, p))
  {
    hide *;
    TimesOnCurve(n, p);
    if m == 0 {
      assert m * n == 0;
      TimesStep(0, p);
      TimesStep(0, Times(n, p));
    } else {
      TimesStep(m - 1, Times(n, p));
      TimesTimes(m - 1, n, p);
      assert m * n == (m - 1) * n + n;
      TimesAdd((m - 1) * n, n, p);
    }
  }

  /** n times p for any integer n. */
  ghost function Multiple(n: int, p: Point): Point {
    if n >= 0 then Times(n, p) else Opposite(Times(-n, p))
  }

  lemma MultipleDef(n: int, p: Point)
    ensures n >= 0 ==> Multiple(n, p) == Times(n, p)
    ensures n < 0 ==> Multiple(n, p) == Opposite(Times(-n, p))
  {
    hide Times, Opposite;
  }

  lemma MultipleOnCurve(n: int, p: Point)
    requires CurveLaw() && OnCurve(p)
    ensures OnCurve(Multiple(n, p))
  {
    hide *;
    MultipleDef(n, p);
    if n >= 0 {
      TimesOnCurve(n, p);
    } else {
      TimesOnCurve(-n, p);
      NegOnCurve(Times(-n, p));
    }
  }

  /** (a + b) - b = a. */
  lemma SumCancel(a: Point, b: Point)
    requires CurveLaw() && OnCurve(a) && OnCurve(b)
    ensures Sum(Sum(a, b), Opposite(b)) == a
  {
    hide *;
    NegOnCurve(b);
    LawAssoc(a, b, Opposite(b));
    SumNeg(b);
    SumZero(a);
  }

  lemma NegUnique(a: Point, b: Point)
    requires CurveLaw() && OnCurve(a) && OnCurve(b) && Sum(a, b) == O
    ensures b == Opposite(a)
  {
    hide *;
    SumComm(a, b);
    SumCancel(b, a);
    NegOnCurve(a);
    SumZero(Opposite(a));
  }

  lemma NegZero()
    requires CurveLaw()
    ensures Opposite(O) == O
  {
    hide *;
    ZeroOnCurve();
    SumZero(O);
    NegUnique(O, O);
  }

  /** -(a + p) + p = -a. */
  lemma NegSum(a: Point, p: Point)
    requires CurveLaw() && OnCurve(a) && OnCurve(p)
    ensures Sum(Opposite(Sum(a, p)), p) == Opposite(a)
  {
    hide *;
    LawClosed(a, p);
    var b := Opposite(Sum(a, p));
    NegOnCurve(Sum(a, p));
    LawClosed(b, p);
    LawAssoc(b, p, a);
    SumComm(p, a);
    SumComm(b, Sum(a, p));
    SumNeg(Sum(a, p));
    SumComm(Sum(b, p), a);
    NegUnique(a, Sum(b, p));
  }

  /** Adding p once more. */
  lemma MultipleSucc(n: int, p: Point)
    requires CurveLaw() && OnCurve(p)
    ensures Multiple(n + 1, p) == Sum(Multiple(n, p), p)
  {
    hide *;
    MultipleDef(n, p);
    MultipleDef(n + 1, p);
    if n >= 0 {
      TimesStep(n, p);
    } else {
      var k: nat := -n - 1;
      TimesOnCurve(k, p);
      TimesStep(k, p);
      NegSum(Times(k, p), p);
      if k == 0 {
        TimesStep(0, p);
        NegZero();
      }
    }
  }

  lemma {:induction false} MultipleAddNat(m: int, n: nat, p: Point)
    requires CurveLaw() && OnCurve(p)
    ensures Multiple(m + n, p) == Sum(Multiple(m, p), Multiple(n, p))
  {
    hide *;
    MultipleOnCurve(m, p);
    if n == 0 {
      MultipleDef(0, p);
      TimesStep(0, p);
      SumZero(Multiple(m, p));
    } else {
      MultipleAddNat(m, n - 1, p);
      MultipleSucc(m + n - 1, p);
      MultipleSucc(n - 1, p);
      MultipleOnCurve(n - 1, p);
      LawAssoc(Multiple(m, p), Multiple(n - 1, p), p);
    }
  }

  /** (m + n) p = m p + n p. */
  lemma MultipleAdd(m: int, n: int, p: Point)
    requires CurveLaw() && OnCurve(p)
    ensures Multiple(m + n, p) == Sum(Multiple(m, p), Multiple(n, p))
  {
    hide *;
    if n >= 0 {
      MultipleAddNat(m, n, p);
    } else {
      // (m + n) p + (-n) p = m p
      MultipleAddNat(m + n, -n, p);
      MultipleAddNat(n, -n, p);
      MultipleDef(0, p);
      TimesStep(0, p);
      MultipleOnCurve(n, p);
      SumComm(Multiple(n, p), Multiple(-n, p));
      NegUnique(Multiple(-n, p), Multiple(n, p)) by {
        MultipleOnCurve(-n, p);
      }
      MultipleOnCurve(m + n, p);
      MultipleOnCurve(-n, p);
      SumCancel(Multiple(m + n, p), Multiple(-n, p));
    }
  }

  lemma MultipleNeg(n: int, p: Point)
    requires CurveLaw() && OnCurve(p)
    ensures Multiple(-n, p) == Opposite(Multiple(n, p))
  {
    hide *;
    MultipleAdd(n, -n, p);
    MultipleDef(0, p);
    TimesStep(0, p);
    MultipleOnCurve(n, p);
    MultipleOnCurve(-n, p);
    NegUnique(Multiple(n, p), Multiple(-n, p));
  }

  lemma {:induction false} MultipleTimes(m: nat, n: int, p: Point)
    requires CurveLaw() && OnCurve(p)
    ensures Multiple(m * n, p) == Times(m, Multiple(n, p))
  {
    hide *;
    MultipleOnCurve(n, p);
    if m == 0 {
      assert m * n == 0;
      MultipleDef(0, p);
      TimesStep(0, p);
      TimesStep(0, Multiple(n, p));
    } else {
      TimesStep(m - 1, Multiple(n, p));
      MultipleTimes(m - 1, n, p);
      assert m * n == (m - 1) * n + n;
      MultipleAdd((m - 1) * n, n, p);
    }
  }
}
