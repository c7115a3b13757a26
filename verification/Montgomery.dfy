/** The ladder of section 5 of RFC 7748 on residues, and what it computes on the Edwards curve. */
module Montgomery {
  import opened Arith
  import opened Fe
  import opened Prime
  import opened Curve
  import EdwardsAlgebra

  /** Two fractions x2/z2 and x3/z3. */
  datatype Rung = Rung(x2: int, z2: int, x3: int, z3: int)

  /** One step of the ladder as the standard writes it, with a24 = 121665. */
  ghost function Step(r: Rung, u: int): Rung {
    var A, B, C, E := r.x2 + r.z2, r.x2 - r.z2, r.x3 + r.z3, r.x3 - r.z3;
    var AA, BB := A * A, B * B;
    var DA, CB := E * A, C * B;
    Rung(AA * BB, (AA - BB) * (AA + 121665 * (AA - BB)), (DA + CB) * (DA + CB), u * ((DA - CB) * (DA - CB)))
  }

  ghost function Swap(r: Rung, b: int): Rung {
    if b == 1 then Rung(r.x3, r.z3, r.x2, r.z2) else r
  }

  ghost function BitOf(k: nat, t: nat): int {
    (k / Pow2(t)) % 2
  }

  /** The ladder above bit t of a 255-bit scalar, swapping back after each step. */
  ghost function Ladder(k: nat, u: int, t: nat): Rung
    decreases 255 - t
  {
    if t >= 255 then Rung(1, 0, u, 1)
    else Swap(Step(Swap(Ladder(k, u, t + 1), BitOf(k, t)), u), BitOf(k, t))
  }

  ghost function X25519(k: nat, u: int): int {
    (Ladder(k, u, 0).x2 * Inv(Ladder(k, u, 0).z2)) % P
  }

  /** u = (1 + y) / (1 - y), and 0 for the neutral point. */
  ghost function MontgomeryU(p: Point): int {
    ((1 + p.y) * Inv(1 - p.y)) % P
  }

  /** X/Z is the u of p: the y of p is (X - Z)/(X + Z). */
  ghost predicate IsMontgomery(X: int, Z: int, p: Point) {
    Unit(X + Z) && Cong(X - Z, p.y * (X + Z), P)
  }

  lemma MontgomeryDef(X: int, Z: int, p: Point)
    ensures IsMontgomery(X, Z, p) <==> Unit(X + Z) && Cong(X - Z, p.y * (X + Z), P)
  {
    hide Cong;
  }

  // -------------------------------------------------------------------------
  // Units
  // -------------------------------------------------------------------------

  lemma Constants()
    ensures Unit(1) && Unit(2) && Unit(121666) && Cong(121666 * D(), -121665, P)
  {
    PValue();
    hide Cong, D;
    DValue();
    CongByMod(121666 * D(), -121665, P);
    CongSameMod(1, 0, P);
    CongSameMod(2, 0, P);
    CongSameMod(121666, 0, P);
  }

  // -------------------------------------------------------------------------
  // Doubling
  // -------------------------------------------------------------------------

  /** 121666 (1 + 2 d t - d t^2) and 121666 (d t^2 + 2 t - 1), for t = y^2. */
  ghost function Below(t: int): int {
    121666 - 243330 * t + 121665 * (t * t)
  }

  ghost function Above(t: int): int {
    243332 * t - 121666 - 121665 * (t * t)
  }

  lemma ScaledD(d: int, t: int, m: int)
    requires m > 0 && Cong(121666 * d, -121665, m)
    ensures Cong(121666 * (1 + 2 * (d * t) - d * (t * t)), Below(t), m)
    ensures Cong(121666 * (d * (t * t) + 2 * t - 1), Above(t), m)
  {
    hide Cong;
    CongScale(121666 * d, -121665, 2 * t, m);
    CongScale(121666 * d, -121665, t * t, m);
    assert 121666 * d * (2 * t) == 243332 * (d * t) && 121666 * d * (t * t) == 121666 * (d * (t * t));
    ScaledParts(d * t, d * (t * t), t, t * t, m);
  }

  lemma ScaledParts(a: int, b: int, t: int, w: int, m: int)
    requires m > 0 && Cong(243332 * a, -243330 * t, m) && Cong(121666 * b, -121665 * w, m)
    ensures Cong(121666 * (1 + 2 * a - b), 121666 - 243330 * t + 121665 * w, m)
    ensures Cong(121666 * (b + 2 * t - 1), 243332 * t - 121666 - 121665 * w, m)
  {
    hide Cong;
    CongAdd(243332 * a, -243330 * t, 121666 * b, -121665 * w, m);
    CongRefl(121666, m);
    CongAdd(243332 * a - 121666 * b, -243330 * t - -121665 * w, 121666, 121666, m);
    CongRefl(243332 * t - 121666, m);
    CongAdd(121666 * b, -121665 * w, 243332 * t - 121666, 243332 * t - 121666, m);
  }

  /** The y of 2p as a fraction in t = y^2. */
  lemma DoubledY(p: Point)
    requires CurveLaw() && OnCurve(p)
    ensures Unit(Below(p.y * p.y)) && Cong(Above(p.y * p.y), Sum(p, p).y * Below(p.y * p.y), P)
  {
    PPositive();
    hide *;
    LawPrime();
    LawClosed(p, p);
    CompleteDef(p, p);
    SumSpec(p, p);
    CurvePoint(p);
    SolvedForX(p.x, p.y, D(), P);
    DenominatorUnit(p);
    KSquare(p);
    var t, xx, e, k, s := p.y * p.y, p.x * p.x, 1 + D() * (p.y * p.y), K(p, p), Sum(p, p).y;
    DoubledParts(xx, t, e, k);
    Constants();
    ScaledD(D(), t, P);
    Fraction(t + xx, e, 1 - k, s, 1 + 2 * (D() * t) - D() * (t * t), D() * (t * t) + 2 * t - 1, Below(t), Above(t));
  }

  /** From s (1 - k) = n to a fraction without k. */
  lemma Fraction(n: int, e: int, l: int, s: int, h: int, g: int, below: int, above: int)
    requires IsPrime(P) && Unit(e) && Unit(l) && Cong(s * l, n, P)
    requires Cong(l * e, h, P) && Cong(121666 * h, below, P) && Cong(n * e, g, P) && Cong(121666 * g, above, P)
    ensures Unit(below) && Cong(above, s * below, P)
  {
    Constants();
    hide Cong, IsPrime, Unit, D;
    UnitProduct(l, e);
    UnitProduct(121666, l * e);
    CongScale(l * e, h, 121666, P);
    CongTrans(121666 * (l * e), 121666 * h, below, P);
    UnitCong(121666 * (l * e), below);
    CongScale(n * e, g, 121666, P);
    CongTrans(121666 * (n * e), 121666 * g, above, P);
    CongScale(s * l, n, 121666 * e, P);
    Associate(s, l, e);
    Associate(n, 121666, e);
    CongTrans(s * (121666 * (l * e)), 121666 * (n * e), above, P);
    CongScale(121666 * (l * e), below, s, P);
    CongSym(s * (121666 * (l * e)), above, P);
    CongTrans(above, s * (121666 * (l * e)), s * below, P);
  }

  lemma Associate(s: int, l: int, e: int)
    ensures (s * l) * (121666 * e) == s * (121666 * (l * e)) && s * (121666 * e) == 121666 * (s * e)
  {
    assert (s * l) * (121666 * e) == s * (l * (121666 * e)) && l * (121666 * e) == 121666 * (l * e);
  }

  lemma DoubledParts(xx: int, t: int, e: int, k: int)
    requires e == 1 + D() * t && k == xx * (D() * t) && Cong(xx * e, t - 1, P)
    ensures Cong((1 - k) * e, 1 + 2 * (D() * t) - D() * (t * t), P)
    ensures Cong((t + xx) * e, D() * (t * t) + 2 * t - 1, P)
  {
    hide Cong, D;
    var w := D() * t;
    CongScale(xx * e, t - 1, w, P);
    CongRefl(e, P);
    CongAdd(e, e, w * (xx * e), w * (t - 1), P);
    assert (1 - k) * e == e - w * (xx * e) by {
      assert (1 - xx * w) * e == e - xx * w * e && xx * w * e == w * (xx * e);
    }
    assert w * (t - 1) == D() * (t * t) - D() * t;
    CongRefl(t * e, P);
    CongAdd(t * e, t * e, xx * e, t - 1, P);
    assert (t + xx) * e == t * e + xx * e && t * e == t + D() * (t * t);
  }

  /** The first fraction after a step is the u of 2p. */
  lemma DoubleStep(r: Rung, u: int, p: Point)
    requires CurveLaw() && OnCurve(p) && IsMontgomery(r.x2, r.z2, p)
    ensures IsMontgomery(Step(r, u).x2, Step(r, u).z2, Sum(p, p))
  {
    hide *;
    LawPrime();
    MontgomeryDef(r.x2, r.z2, p);
    DoubledY(p);
    var A, B, t, s := r.x2 + r.z2, r.x2 - r.z2, p.y * p.y, Sum(p, p).y;
    StepDef(r, u);
    var x2, z2 := Step(r, u).x2, Step(r, u).z2;
    SquareRatio(A, B, p.y, P);
    DoubleForms(A * A, B * B, t, P);
    UnitProduct(A, A);
    UnitProduct(A * A, A * A);
    Rescale(x2 - z2, x2 + z2, (A * A) * (A * A), Above(t), Below(t), s);
    MontgomeryDef(x2, z2, Sum(p, p));
  }

  lemma SquareRatio(A: int, B: int, y: int, M: int)
    requires M > 0 && Cong(B, y * A, M)
    ensures Cong(B * B, (A * A) * (y * y), M)
  {
    hide Cong;
    CongMul(B, y * A, B, y * A, M);
    Regroup(A, y, y);
  }

  /** A common unit factor m of numerator and denominator. */
  lemma Rescale(n: int, e: int, m: int, above: int, below: int, s: int)
    requires IsPrime(P) && Unit(m) && Unit(below) && Cong(above, s * below, P)
    requires Cong(n, m * above, P) && Cong(e, m * below, P)
    ensures Unit(e) && Cong(n, s * e, P)
  {
    hide Cong, IsPrime, Unit;
    UnitProduct(m, below);
    UnitCong(e, m * below);
    CongScale(above, s * below, m, P);
    CongTrans(n, m * above, m * (s * below), P);
    CongScale(e, m * below, s, P);
    assert m * (s * below) == s * (m * below);
    CongSym(s * e, s * (m * below), P);
    CongTrans(n, s * (m * below), s * e, P);
  }

  lemma StepDef(r: Rung, u: int)
    ensures Step(r, u).x2 == ((r.x2 + r.z2) * (r.x2 + r.z2)) * ((r.x2 - r.z2) * (r.x2 - r.z2))
    ensures var AA, BB := (r.x2 + r.z2) * (r.x2 + r.z2), (r.x2 - r.z2) * (r.x2 - r.z2);
            Step(r, u).z2 == (AA - BB) * (AA + 121665 * (AA - BB))
    ensures var DA, CB := (r.x3 - r.z3) * (r.x2 + r.z2), (r.x3 + r.z3) * (r.x2 - r.z2);
            Step(r, u).x3 == (DA + CB) * (DA + CB) && Step(r, u).z3 == u * ((DA - CB) * (DA - CB))
  {
  }

  /** X - Z and X + Z of the doubled point, as multiples of A^4. */
  lemma DoubleForms(AA: int, BB: int, t: int, M: int)
    requires M > 0 && Cong(BB, AA * t, M)
    ensures Cong(AA * BB - (AA - BB) * (AA + 121665 * (AA - BB)), AA * AA * Above(t), M)
    ensures Cong(AA * BB + (AA - BB) * (AA + 121665 * (AA - BB)), AA * AA * Below(t), M)
  {
    hide Cong, Above, Below;
    var b := AA * t;
    CongScale(BB, b, AA, M);
    CongRefl(AA, M);
    CongAdd(AA, AA, BB, b, M);
    CongScale(AA - BB, AA - b, 121665, M);
    CongAdd(AA, AA, 121665 * (AA - BB), 121665 * (AA - b), M);
    CongMul(AA - BB, AA - b, AA + 121665 * (AA - BB), AA + 121665 * (AA - b), M);
    CongAdd(AA * BB, AA * b, (AA - BB) * (AA + 121665 * (AA - BB)), (AA - b) * (AA + 121665 * (AA - b)), M);
    DoublePolynomial(AA, t);
  }

  lemma DoublePolynomial(m: int, t: int)
    ensures m * (m * t) - (m - m * t) * (m + 121665 * (m - m * t)) == m * m * Above(t)
    ensures m * (m * t) + (m - m * t) * (m + 121665 * (m - m * t)) == m * m * Below(t)
  {
    var n := m * m;
    assert m * (m * t) == n * t;
    assert m - m * t == m * (1 - t);
    assert m + 121665 * (m * (1 - t)) == m * (121666 - 121665 * t);
    Regroup(m, 1 - t, 121666 - 121665 * t);
    assert (1 - t) * (121666 - 121665 * t) == 121666 - 243331 * t + 121665 * (t * t);
    var q := 121666 - 243331 * t + 121665 * (t * t);
    assert n * t - n * q == n * (t - q);
    assert n * t + n * q == n * (t + q);
  }

  lemma Regroup(m: int, a: int, b: int)
    ensures (m * a) * (m * b) == m * m * (a * b)
  {
    assert (m * a) * (m * b) == m * (a * (m * b)) && a * (m * b) == m * (a * b);
  }

  // -------------------------------------------------------------------------
  // Differential addition
  // -------------------------------------------------------------------------

  /** d (1 + a b)^2 + (1 - d a b)^2 = (1 + d)(1 + d a^2 b^2), whatever the sign of b. */
  ghost function Common(d: int, a: int, b: int): int {
    (1 + d) * (1 + d * ((a * b) * (a * b)))
  }

  lemma CommonForms(e: int, a: int, b: int)
    ensures e * ((1 + a * b) * (1 + a * b)) + (1 - e * (a * b)) * (1 - e * (a * b)) == Common(e, a, b)
  {
    var c := a * b;
    assert (1 + c) * (1 + c) == 1 + 2 * c + c * c;
    assert (1 - e * c) * (1 - e * c) == 1 - 2 * (e * c) + e * (e * (c * c)) by {
      assert (e * c) * (e * c) == e * (e * (c * c));
    }
    assert (1 + e) * (1 + e * (c * c)) == 1 + e + e * (c * c) + e * (e * (c * c));
  }

  /** (1 + d a^2)(1 + d b^2) and (a^2 - 1)(b^2 - 1), as differences of squares. */
  lemma Products(a: int, b: int, e: int)
    ensures (1 + e * (a * a)) * (1 + e * (b * b)) == (1 - e * (a * b)) * (1 - e * (a * b)) + e * ((a + b) * (a + b))
    ensures (a * a - 1) * (b * b - 1) == (1 + a * b) * (1 + a * b) - (a + b) * (a + b)
  {
    var c, s := a * b, a * a + b * b;
    EdwardsAlgebra.SquareOfProduct(a, b);
    assert (a + b) * (a + b) == s + 2 * c;
    assert (a * a - 1) * (b * b - 1) == c * c - s + 1;
    ScaledProducts(a * a, b * b, c, e);
  }

  lemma ScaledProducts(p: int, q: int, c: int, e: int)
    requires p * q == c * c
    ensures (1 + e * p) * (1 + e * q) == (1 - e * c) * (1 - e * c) + e * (p + q + 2 * c)
  {
    EdwardsAlgebra.SquareOfProduct(e, c);
    Regroup(e, p, q);
    assert (1 + e * p) * (1 + e * q) == 1 + e * p + e * q + (e * p) * (e * q);
    assert (1 - e * c) * (1 - e * c) == 1 - 2 * (e * c) + (e * c) * (e * c);
    assert e * (p + q + 2 * c) == e * p + e * q + 2 * (e * c);
  }

  /** [(1 + ab)^2 - x^2 (1 - dab)^2] W = (a + b)^2 (1 + d)(1 + d a^2 b^2) for the product x of the two x coordinates. */
  lemma Half(a: int, b: int, x: int, W: int, d: int, M: int)
    requires M > 0 && W == (1 + d * (a * a)) * (1 + d * (b * b)) && Cong(x * x * W, (a * a - 1) * (b * b - 1), M)
    ensures Cong((((1 + a * b) + x * (1 - d * (a * b))) * ((1 + a * b) - x * (1 - d * (a * b)))) * W,
                 (a + b) * (a + b) * Common(d, a, b), M)
  {
    hide Cong, Common;
    Products(a, b, d);
    CommonForms(d, a, b);
    HalfAbstract(1 + a * b, 1 - d * (a * b), x, W, (a + b) * (a + b), d, M);
  }

  lemma HalfAbstract(f: int, g: int, x: int, W: int, t: int, e: int, M: int)
    requires M > 0 && W == g * g + e * t && Cong(x * x * W, f * f - t, M)
    ensures Cong(((f + x * g) * (f - x * g)) * W, t * (e * (f * f) + g * g), M)
  {
    DifferenceOfSquares(f, x, g);
    HalfStep((f + x * g) * (f - x * g), f * f, x * x, g * g, W, t, e, M);
  }

  lemma HalfStep(q: int, p: int, s: int, r: int, W: int, t: int, e: int, M: int)
    requires M > 0 && q == p - s * r && W == r + e * t && Cong(s * W, p - t, M)
    ensures Cong(q * W, t * (e * p + r), M)
  {
    hide Cong;
    SwapFactors(p, s, r, W);
    CongScale(s * W, p - t, r, M);
    CongRefl(p * W, M);
    CongAdd(p * W, p * W, s * W * r, (p - t) * r, M);
    Collapse(p, r, t, e);
  }

  lemma SwapFactors(p: int, s: int, r: int, W: int)
    ensures (p - s * r) * W == p * W - (s * W) * r
  {
    assert (s * r) * W == (s * W) * r;
  }

  lemma DifferenceOfSquares(f: int, x: int, g: int)
    ensures (f + x * g) * (f - x * g) == f * f - (x * x) * (g * g)
  {
    EdwardsAlgebra.SquareOfProduct(x, g);
  }

  lemma Collapse(p: int, r: int, t: int, e: int)
    ensures p * (r + e * t) - (p - t) * r == t * (e * p + r)
  {
    assert p * (r + e * t) == p * r + p * (e * t) && (p - t) * r == p * r - t * r;
    assert t * (e * p + r) == t * (e * p) + t * r && t * (e * p) == p * (e * t);
  }

  /** The y of q - p, without division. */
  lemma DifferenceSpec(p: Point, q: Point)
    requires CurveLaw() && OnCurve(p) && OnCurve(q)
    ensures Cong(Sum(q, Opposite(p)).y * (1 + K(p, q)), p.y * q.y - p.x * q.x, P)
  {
    hide Cong, D, K, OnCurve, CurveLaw, Sum, Opposite;
    var n := Opposite(p);
    NegOnCurve(p);
    NegCong(p);
    SumSpec(q, n);
    var s, c := Sum(q, n).y, D() * (q.x * (q.y * p.y));
    KFactor(q, n);
    KFactor(q, p);
    KComm(p, q);
    CongScale(n.x, -p.x, c, P);
    CongScale(n.x, -p.x, q.x, P);
    Negated(c, q.x, p.x);
    CongRefl(1, P);
    CongAdd(1, 1, K(q, n), -K(p, q), P);
    CongScale(1 - K(q, n), 1 + K(p, q), s, P);
    CongSym(s * (1 - K(q, n)), s * (1 + K(p, q)), P);
    CongTrans(s * (1 + K(p, q)), s * (1 - K(q, n)), q.y * n.y + q.x * n.x, P);
    CongRefl(q.y * p.y, P);
    CongAdd(q.y * p.y, q.y * p.y, q.x * n.x, -(p.x * q.x), P);
    CongTrans(s * (1 + K(p, q)), q.y * n.y + q.x * n.x, q.y * p.y + -(p.x * q.x), P);
  }

  lemma Negated(c: int, x: int, y: int)
    ensures c * -y == -(c * y) && x * -y == -(y * x)
  {
  }

  /** (1 + s)(1 - k) and (1 - s)(1 - k) from s (1 - k) = c + x. */
  lemma OnePlus(s: int, l: int, c: int)
    requires Cong(s * l, c, P)
    ensures Cong((1 + s) * l, l + c, P) && Cong((1 - s) * l, l - c, P)
  {
    hide Cong;
    CongRefl(l, P);
    CongAdd(l, l, s * l, c, P);
    assert (1 + s) * l == l + s * l && (1 - s) * l == l - s * l;
  }

  /** The product of two such factors, one with 1 - k and one with 1 + k. */
  lemma PairProduct(f: int, g: int, l: int, m: int, c: int, e: int, W: int, r: int)
    requires Cong(f * l, c, P) && Cong(g * m, e, P) && Cong(c * e * W, r, P)
    ensures Cong(f * g * (l * m * W), r, P)
  {
    hide Cong;
    CongMul(f * l, c, g * m, e, P);
    CongScale((f * l) * (g * m), c * e, W, P);
    Shuffle(f, g, l, m, W);
    CongTrans(f * g * (l * m * W), c * e * W, r, P);
  }

  lemma Shuffle(f: int, g: int, l: int, m: int, W: int)
    ensures ((f * l) * (g * m)) * W == f * g * (l * m * W)
  {
    assert (f * l) * (g * m) == f * (l * (g * m)) && l * (g * m) == g * (l * m) && f * (g * (l * m)) == (f * g) * (l * m);
    assert ((f * g) * (l * m)) * W == (f * g) * ((l * m) * W);
  }

  /** The product of the two curve equations. */
  lemma ProductOfX(p: Point, q: Point)
    requires OnCurve(p) && OnCurve(q)
    ensures Cong((p.x * q.x) * (p.x * q.x) * ((1 + D() * (p.y * p.y)) * (1 + D() * (q.y * q.y))),
                 (p.y * p.y - 1) * (q.y * q.y - 1), P)
  {
    hide Cong, D, OnCurve;
    CurvePoint(p);
    SolvedForX(p.x, p.y, D(), P);
    CurvePoint(q);
    SolvedForX(q.x, q.y, D(), P);
    var v, w := 1 + D() * (p.y * p.y), 1 + D() * (q.y * q.y);
    CongMul(p.x * p.x * v, p.y * p.y - 1, q.x * q.x * w, q.y * q.y - 1, P);
    EdwardsAlgebra.SquareOfProduct(p.x, q.x);
    Shuffle(p.x * p.x, q.x * q.x, v, w, 1);
  }

  /** (1 + ys)(1 + yd) V = (a + b)^2 C and (1 - ys)(1 - yd) V = (a - b)^2 C, for s = p + q and d = q - p. */
  lemma SumAndDifference(p: Point, q: Point, V: int)
    requires CurveLaw() && OnCurve(p) && OnCurve(q)
    requires V == (1 - K(p, q)) * (1 + K(p, q)) * ((1 + D() * (p.y * p.y)) * (1 + D() * (q.y * q.y)))
    ensures Unit(V)
    ensures var ys, yd := Sum(p, q).y, Sum(q, Opposite(p)).y;
            && Cong((1 + ys) * (1 + yd) * V, (p.y + q.y) * (p.y + q.y) * Common(D(), p.y, q.y), P)
            && Cong((1 - ys) * (1 - yd) * V, (p.y - q.y) * (p.y - q.y) * Common(D(), p.y, q.y), P)
  {
    hide *;
    LawPrime();
    LawClosed(p, q);
    CompleteDef(p, q);
    var a, b, x, k, e := p.y, q.y, p.x * q.x, K(p, q), D();
    var v, w := 1 + e * (a * a), 1 + e * (b * b);
    var W := v * w;
    DenominatorUnit(p);
    DenominatorUnit(q);
    UnitProduct(v, w);
    UnitProduct(1 - k, 1 + k);
    UnitProduct((1 - k) * (1 + k), W);
    SumSpec(p, q);
    DifferenceSpec(p, q);
    var ys, yd := Sum(p, q).y, Sum(q, Opposite(p)).y;
    OnePlus(ys, 1 - k, a * b + x);
    OnePlus(yd, 1 + k, a * b - x);
    KOfProducts(p, q);
    ProductOfX(p, q);
    Half(a, b, x, W, D(), P);
    NegatedSquare(b);
    Half(a, -b, x, W, D(), P);
    CommonSign(D(), a, b);
    Factors(a * b, x, k, e);
    assert a * -b == -(a * b);
    PairProduct(1 + ys, 1 + yd, 1 - k, 1 + k, (1 + a * b) + x * (1 - e * (a * b)), (1 + a * b) - x * (1 - e * (a * b)), W,
                (a + b) * (a + b) * Common(D(), a, b));
    var c := 1 + a * -b;
    assert (c - x * (1 - e * (a * -b))) * (c + x * (1 - e * (a * -b))) == (c + x * (1 - e * (a * -b))) * (c - x * (1 - e * (a * -b)));
    PairProduct(1 - ys, 1 - yd, 1 - k, 1 + k, c - x * (1 - e * (a * -b)), c + x * (1 - e * (a * -b)), W,
                (a - b) * (a - b) * Common(D(), a, b));
  }

  lemma NegatedSquare(b: int)
    ensures -b * -b == b * b
  {
  }

  lemma CommonSign(d: int, a: int, b: int)
    ensures Common(d, a, -b) == Common(d, a, b)
  {
    assert a * -b == -(a * b);
    NegatedSquare(a * b);
  }

  lemma KOfProducts(p: Point, q: Point)
    ensures K(p, q) == (p.x * q.x) * (D() * (p.y * q.y))
  {
    hide D;
    assert p.x * q.x * p.y * q.y == (p.x * q.x) * (p.y * q.y);
    assert D() * ((p.x * q.x) * (p.y * q.y)) == (p.x * q.x) * (D() * (p.y * q.y));
  }

  lemma Factors(c: int, x: int, k: int, e: int)
    requires k == x * (e * c)
    ensures (1 - k) + (c + x) == (1 + c) + x * (1 - e * c) && (1 + k) + (c - x) == (1 + c) - x * (1 - e * c)
    ensures (1 - k) - (c + x) == (1 + -c) - x * (1 - e * -c) && (1 + k) - (c - x) == (1 + -c) + x * (1 - e * -c)
  {
    assert e * -c == -(e * c);
    assert x * (1 - e * c) == x - x * (e * c) && x * (1 + e * c) == x + x * (e * c);
  }

  /** The two identities, with u for the difference, as a sum and a difference. */
  lemma WithU(sq: int, dq: int, c: int, V: int, ys: int, yd: int, u: int, M: int)
    requires M > 0 && Cong(u * (1 - yd), 1 + yd, M)
    requires Cong((1 + ys) * (1 + yd) * V, sq * c, M) && Cong((1 - ys) * (1 - yd) * V, dq * c, M)
    ensures Cong((sq + u * dq) * c, 2 * (1 + yd) * V, M)
    ensures Cong((sq - u * dq) * c, ys * (2 * (1 + yd) * V), M)
  {
    hide *;
    var g, f, dc := 1 + yd, (1 - ys) * V, (u * dq) * c;
    CongSym((1 + ys) * g * V, sq * c, M);
    CongScale((1 - ys) * (1 - yd) * V, dq * c, u, M);
    Turn(u, ys, yd, V, dq, c);
    CongScale(u * (1 - yd), g, f, M);
    CongSym(u * ((1 - ys) * (1 - yd) * V), dc, M);
    CongTrans(dc, u * ((1 - ys) * (1 - yd) * V), (1 - ys) * g * V, M);
    CongAdd(sq * c, (1 + ys) * g * V, dc, (1 - ys) * g * V, M);
    Halves(sq, u * dq, c, ys, g, V);
  }

  /** From the two identities to the u of the sum. */
  lemma DifferenceStep(X: int, Z: int, m: int, sq: int, dq: int, c: int, V: int, ys: int, yd: int, u: int)
    requires IsPrime(P) && Unit(m) && Unit(V) && Unit(1 + yd) && Cong(u * (1 - yd), 1 + yd, P)
    requires Cong((1 + ys) * (1 + yd) * V, sq * c, P) && Cong((1 - ys) * (1 - yd) * V, dq * c, P)
    requires Cong(X, m * sq, P) && Cong(Z, m * (u * dq), P)
    ensures Unit(X + Z) && Cong(X - Z, ys * (X + Z), P)
  {
    Constants();
    PPositive();
    hide *;
    WithU(sq, dq, c, V, ys, yd, u, P);
    var above, below, e := sq - u * dq, sq + u * dq, 2 * (1 + yd) * V;
    UnitProduct(2, 1 + yd);
    UnitProduct(2 * (1 + yd), V);
    UnitCong(below * c, e);
    UnitParts(below, c);
    CongScale(below * c, e, ys, P);
    CongSym(ys * (below * c), ys * e, P);
    CongTrans(above * c, ys * e, ys * (below * c), P);
    Thrice(ys, below, c);
    Cancel(above, ys * below, c);
    CongAdd(X, m * sq, Z, m * (u * dq), P);
    Distribute(m, sq, u * dq);
    Rescale(X - Z, X + Z, m, above, below, ys);
  }

  lemma Thrice(a: int, b: int, c: int)
    ensures a * (b * c) == (a * b) * c
  {
  }

  lemma Distribute(m: int, a: int, b: int)
    ensures m * a + m * b == m * (a + b) && m * a - m * b == m * (a - b)
  {
  }

  lemma Turn(u: int, ys: int, yd: int, V: int, dq: int, c: int)
    ensures u * (dq * c) == (u * dq) * c
    ensures u * ((1 - ys) * (1 - yd) * V) == (u * (1 - yd)) * ((1 - ys) * V)
    ensures (1 + yd) * ((1 - ys) * V) == (1 - ys) * (1 + yd) * V
  {
    var f, h := 1 - ys, 1 - yd;
    assert f * h * V == h * (f * V);
    assert u * (h * (f * V)) == (u * h) * (f * V);
    var g := 1 + yd;
    assert g * (f * V) == f * g * V;
  }

  lemma Halves(sq: int, dq: int, c: int, ys: int, g: int, V: int)
    ensures sq * c + dq * c == (sq + dq) * c && sq * c - dq * c == (sq - dq) * c
    ensures (1 + ys) * g * V + (1 - ys) * g * V == 2 * g * V
    ensures (1 + ys) * g * V - (1 - ys) * g * V == ys * (2 * g * V)
  {
    assert (1 + ys) * g * V == g * V + ys * (g * V) by {
      assert (1 + ys) * g == g + ys * g && ys * g * V == ys * (g * V);
    }
    assert (1 - ys) * g * V == g * V - ys * (g * V) by {
      assert (1 - ys) * g == g - ys * g && ys * g * V == ys * (g * V);
    }
    assert ys * (2 * g * V) == 2 * (ys * (g * V));
  }

  /** The second fraction after a step is the u of p + q, when u is that of q - p. */
  lemma AddStep(r: Rung, u: int, p: Point, q: Point, y: int)
    requires CurveLaw() && OnCurve(p) && OnCurve(q)
    requires IsMontgomery(r.x2, r.z2, p) && IsMontgomery(r.x3, r.z3, q)
    requires Sum(q, Opposite(p)).y == y && Unit(1 + y) && Cong(u * (1 - y), 1 + y, P)
    ensures IsMontgomery(Step(r, u).x3, Step(r, u).z3, Sum(p, q))
  {
    PPositive();
    hide *;
    LawPrime();
    MontgomeryDef(r.x2, r.z2, p);
    MontgomeryDef(r.x3, r.z3, q);
    StepDef(r, u);
    var A, B, C, E := r.x2 + r.z2, r.x2 - r.z2, r.x3 + r.z3, r.x3 - r.z3;
    var X, Z := Step(r, u).x3, Step(r, u).z3;
    CrossTerms(A, B, p.y, C, E, q.y);
    var m := (A * C) * (A * C);
    var sq, dq := (p.y + q.y) * (p.y + q.y), (p.y - q.y) * (p.y - q.y);
    CongScale((E * A - C * B) * (E * A - C * B), m * dq, u, P);
    assert u * (m * dq) == m * (u * dq);
    UnitProduct(A, C);
    UnitProduct(A * C, A * C);
    var V := (1 - K(p, q)) * (1 + K(p, q)) * ((1 + D() * (p.y * p.y)) * (1 + D() * (q.y * q.y)));
    SumAndDifference(p, q, V);
    DifferenceStep(X, Z, m, sq, dq, Common(D(), p.y, q.y), V, Sum(p, q).y, y, u);
    MontgomeryDef(X, Z, Sum(p, q));
  }

  lemma CrossTerms(A: int, B: int, a: int, C: int, E: int, b: int)
    requires Cong(B, a * A, P) && Cong(E, b * C, P)
    ensures Cong((E * A + C * B) * (E * A + C * B), (A * C) * (A * C) * ((a + b) * (a + b)), P)
    ensures Cong((E * A - C * B) * (E * A - C * B), (A * C) * (A * C) * ((a - b) * (a - b)), P)
  {
    PPositive();
    hide *;
    var m := A * C;
    CongScale(E, b * C, A, P);
    CongScale(B, a * A, C, P);
    assert b * C * A == m * b && C * (a * A) == m * a;
    CongAdd(E * A, m * b, C * B, m * a, P);
    Distribute(m, b, a);
    SquareOfMultiple(E * A + C * B, m, b + a, P);
    SquareOfMultiple(E * A - C * B, m, b - a, P);
    NegatedSquare(a - b);
  }

  lemma SquareOfMultiple(s: int, m: int, c: int, M: int)
    requires M > 0 && Cong(s, m * c, M)
    ensures Cong(s * s, m * m * (c * c), M)
  {
    hide *;
    CongMul(s, m * c, s, m * c, M);
    Regroup(m, c, c);
  }

  // -------------------------------------------------------------------------
  // The ladder
  // -------------------------------------------------------------------------

  /** The number that the bits from t up write. */
  ghost function Shifted(k: nat, t: nat): nat {
    hide Pow2;
    k / Pow2(t)
  }

  lemma BitStep(k: nat, t: nat)
    ensures Shifted(k, t) == 2 * Shifted(k, t + 1) + BitOf(k, t) && 0 <= BitOf(k, t) <= 1
  {
    DivDiv(k, Pow2(t), 2);
  }

  lemma ShiftedEnds(k: nat)
    ensures Shifted(k, 0) == k && (k < Pow2(255) ==> Shifted(k, 255) == 0)
  {
    assert Pow2(0) == 1;
    hide Pow2;
    if k < Pow2(255) {
      DivModUnique(k, Pow2(255), 0, k);
    }
  }

  lemma LadderStep(k: nat, u: int, t: nat)
    ensures t >= 255 ==> Ladder(k, u, t) == Rung(1, 0, u, 1)
    ensures t < 255 && BitOf(k, t) == 0 ==> Ladder(k, u, t) == Step(Ladder(k, u, t + 1), u)
    ensures t < 255 && BitOf(k, t) == 1 ==> Ladder(k, u, t) == Swap(Step(Swap(Ladder(k, u, t + 1), 1), u), 1)
  {
    hide Step, BitOf;
  }

  lemma SwapDef(r: Rung)
    ensures Swap(r, 1) == Rung(r.x3, r.z3, r.x2, r.z2)
  {
  }

  /** The start: 1/0 for the neutral point, u/1 for the base point. */
  lemma StartStep(u: int, b: Point)
    requires IsPrime(P) && Cong(u * (1 - b.y), 1 + b.y, P)
    ensures IsMontgomery(1, 0, O) && IsMontgomery(u, 1, b)
  {
    Constants();
    hide Cong, IsPrime, Unit, D;
    CongRefl(1, P);
    var y := b.y;
    CongRefl(1 - y, P);
    CongAdd(u * (1 - y), 1 + y, 1 - y, 1 - y, P);
    assert u * (1 - y) + (1 - y) == (u + 1) * (1 - y);
    UnitCong((u + 1) * (1 - y), 2);
    UnitParts(u + 1, 1 - y);
    CongRefl(u * y - 1, P);
    CongAdd(u * (1 - y), 1 + y, u * y - 1, u * y - 1, P);
    assert u * (1 - y) + (u * y - 1) == u - 1 && 1 + y + (u * y - 1) == y * (u + 1);
  }

  /** q - p and p - q for two consecutive multiples. */
  lemma Neighbours(n: nat, b: Point)
    requires CurveLaw() && OnCurve(b)
    ensures Sum(Times(n + 1, b), Opposite(Times(n, b))).y == b.y
    ensures Sum(Times(n, b), Opposite(Times(n + 1, b))).y == b.y
    ensures OnCurve(Times(n, b)) && OnCurve(Times(n + 1, b))
  {
    hide *;
    var m: int := n;
    TimesOnCurve(n, b);
    TimesOnCurve(n + 1, b);
    MultipleDef(m, b);
    MultipleDef(m + 1, b);
    MultipleNeg(m, b);
    MultipleNeg(m + 1, b);
    MultipleAdd(m + 1, -m, b);
    MultipleAdd(m, -(m + 1), b);
    assert m + 1 + -m == 1 && m + -(m + 1) == -1;
    MultipleDef(1, b);
    MultipleDef(-1, b);
    TimesStep(0, b);
    SumZero(b);
    NegCong(b);
  }

  lemma LawsOfSum(n: nat, b: Point)
    requires CurveLaw() && OnCurve(b)
    ensures Sum(Times(n, b), Times(n, b)) == Times(2 * n, b)
    ensures Sum(Times(n, b), Times(n + 1, b)) == Times(2 * n + 1, b) == Sum(Times(n + 1, b), Times(n, b))
    ensures Sum(Times(n + 1, b), Times(n + 1, b)) == Times(2 * n + 2, b)
  {
    hide *;
    TimesAdd(n, n, b);
    TimesAdd(n, n + 1, b);
    TimesAdd(n + 1, n, b);
    TimesAdd(n + 1, n + 1, b);
  }

  /** After the bits from t up: the u of n b and of (n + 1) b, for the number n that those bits write. */
  lemma {:induction false} LadderMeaning(k: nat, u: int, b: Point, t: nat)
    requires CurveLaw() && OnCurve(b) && Unit(1 + b.y) && Cong(u * (1 - b.y), 1 + b.y, P)
    requires k < Pow2(255) && t <= 255
    ensures IsMontgomery(Ladder(k, u, t).x2, Ladder(k, u, t).z2, Times(Shifted(k, t), b))
    ensures IsMontgomery(Ladder(k, u, t).x3, Ladder(k, u, t).z3, Times(Shifted(k, t) + 1, b))
    decreases 255 - t
  {
    hide *;
    LadderStep(k, u, t);
    if t == 255 {
      LawPrime();
      StartStep(u, b);
      ShiftedEnds(k);
      TimesStep(0, b);
      SumZero(b);
    } else {
      LadderMeaning(k, u, b, t + 1);
      BitStep(k, t);
      var n, r := Shifted(k, t + 1), Ladder(k, u, t + 1);
      Neighbours(n, b);
      LawsOfSum(n, b);
      if BitOf(k, t) == 0 {
        DoubleStep(r, u, Times(n, b));
        AddStep(r, u, Times(n, b), Times(n + 1, b), b.y);
      } else {
        SwapDef(r);
        SwapDef(Step(Swap(r, 1), u));
        DoubleStep(Swap(r, 1), u, Times(n + 1, b));
        AddStep(Swap(r, 1), u, Times(n + 1, b), Times(n, b), b.y);
      }
    }
  }

  /** A fraction for p divides to the u of p, also when its denominator is zero. */
  lemma AffineU(X: int, Z: int, p: Point)
    requires IsPrime(P) && IsMontgomery(X, Z, p)
    ensures (X * Inv(Z)) % P == MontgomeryU(p)
  {
    PPositive();
    Constants();
    MontgomeryUDef(p);
    hide *;
    MontgomeryDef(X, Z, p);
    var y, s := p.y, X + Z;
    CongRefl(s, P);
    CongAdd(s, s, X - Z, y * s, P);
    TwoSums(X, Z, y, s);
    // 2X = (1 + y) s and 2Z = (1 - y) s
    if Unit(Z) {
      UnitProduct(2, Z);
      UnitCong(2 * Z, (1 - y) * s);
      UnitParts(1 - y, s);
      Curve.Quotient(X, Z);
      var x := (X * Inv(Z)) % P;
      CongScale(x * Z, X, 2, P);
      CongTrans(2 * (x * Z), 2 * X, (1 + y) * s, P);
      CongScale(2 * Z, (1 - y) * s, x, P);
      CongSym(x * (2 * Z), x * ((1 - y) * s), P);
      assert 2 * (x * Z) == x * (2 * Z) && x * ((1 - y) * s) == x * (1 - y) * s;
      CongTrans(x * (1 - y) * s, x * (2 * Z), (1 + y) * s, P);
      Cancel(x * (1 - y), 1 + y, s);
      QuotientUnique(x, 1 + y, 1 - y);
    } else {
      UnitDef(Z);
      CongScale(Z, 0, 2, P);
      CongSym(2 * Z, (1 - y) * s, P);
      CongTrans((1 - y) * s, 2 * Z, 0, P);
      UnitDef((1 - y) * s);
      if Unit(1 - y) {
        UnitProduct(1 - y, s);
      }
      InvZero(Z);
      InvZero(1 - y);
    }
  }

  lemma MontgomeryUDef(p: Point)
    ensures MontgomeryU(p) == ((1 + p.y) * Inv(1 - p.y)) % P
  {
    hide Inv;
  }

  lemma TwoSums(X: int, Z: int, y: int, s: int)
    requires s == X + Z && Cong(s + (X - Z), s + y * s, P) && Cong(s - (X - Z), s - y * s, P)
    ensures Cong(2 * X, (1 + y) * s, P) && Cong(2 * Z, (1 - y) * s, P)
  {
    hide Cong;
    assert (1 + y) * s == s + y * s && (1 - y) * s == s - y * s;
  }

  // -------------------------------------------------------------------------
  // The points with y = 1 and y = -1
  // -------------------------------------------------------------------------

  /** With u = 0 both denominators are zero after one step. */
  lemma {:induction false} ZeroLadder(k: nat, t: nat)
    requires t <= 255
    ensures Cong(Ladder(k, 0, t).x2 * Ladder(k, 0, t).z2, 0, P) && Cong(Ladder(k, 0, t).x3 * Ladder(k, 0, t).z3, 0, P)
    ensures t < 255 ==> Cong(Ladder(k, 0, t).z2, 0, P)
    decreases 255 - t
  {
    PPositive();
    hide *;
    LadderStep(k, 0, t);
    if t == 255 {
      CongRefl(0, P);
    } else {
      ZeroLadder(k, t + 1);
      BitStep(k, t);
      var r := Ladder(k, 0, t + 1);
      ZeroStep(r);
      SwapDef(r);
      ZeroStep(Swap(r, 1));
      SwapDef(Step(Swap(r, 1), 0));
    }
  }

  lemma ZeroStep(r: Rung)
    ensures Cong(r.x2 * r.z2, 0, P) ==> Cong(Step(r, 0).z2, 0, P) && Cong(Step(r, 0).x2 * Step(r, 0).z2, 0, P)
    ensures Step(r, 0).z3 == 0 && Cong(Step(r, 0).z3, 0, P) && Cong(Step(r, 0).x3 * Step(r, 0).z3, 0, P)
  {
    PPositive();
    StepDef(r, 0);
    hide *;
    CongRefl(0, P);
    var s := Step(r, 0);
    assert s.x3 * 0 == 0;
    if Cong(r.x2 * r.z2, 0, P) {
      var A, B := r.x2 + r.z2, r.x2 - r.z2;
      assert A * A - B * B == 4 * (r.x2 * r.z2);
      CongScale(r.x2 * r.z2, 0, 4 * (A * A + 121665 * (A * A - B * B)), P);
      assert s.z2 == (r.x2 * r.z2) * (4 * (A * A + 121665 * (A * A - B * B)));
      CongScale(s.z2, 0, s.x2, P);
    }
  }

  /** The multiples of a point with x = 0 have x = 0 and y = 1 or y = -1. */
  lemma {:induction false} TrivialMultiples(k: nat, b: Point)
    requires CurveLaw() && OnCurve(b) && b.x == 0 && (b.y == 1 || b.y == P - 1)
    ensures Times(k, b).x == 0 && (Times(k, b).y == 1 || Times(k, b).y == P - 1)
  {
    hide CurveLaw, OnCurve, Times, Sum, Cong, K, D;
    if k == 0 {
      TimesStep(0, b);
    } else {
      TimesStep(k - 1, b);
      TrivialMultiples(k - 1, b);
      var p := Times(k - 1, b);
      TimesOnCurve(k - 1, b);
      TimesOnCurve(k, b);
      KFactor(p, b);
      SumSpec(p, b);
      OnCurveRange(Sum(p, b));
      SignProduct(p.y, b.y, Sum(p, b).x, Sum(p, b).y);
    }
  }

  lemma SignProduct(a: int, b: int, x: int, y: int)
    requires (a == 1 || a == P - 1) && (b == 1 || b == P - 1) && 0 <= x < P && 0 <= y < P
    requires Cong(x * (1 + 0), 0 * b + a * 0, P) && Cong(y * (1 - 0), a * b + 0 * 0, P)
    ensures x == 0 && (y == 1 || y == P - 1)
  {
    var e := EdgeProduct(a, b);
    hide Cong;
    CongEq(x, 0, P);
    CongTrans(y, a * b, e, P);
    CongEq(y, e, P);
  }

  lemma EdgeProduct(a: int, b: int) returns (e: int)
    requires (a == 1 || a == P - 1) && (b == 1 || b == P - 1)
    ensures (e == 1 || e == P - 1) && Cong(a * b, e, P)
  {
    PPositive();
    SquareOfMinusOne();
    hide Cong;
    if a == 1 {
      e := b;
      CongRefl(b, P);
    } else if b == 1 {
      e := a;
      CongRefl(a, P);
    } else {
      e := 1;
    }
  }

  lemma SquareOfMinusOne()
    ensures Cong((P - 1) * (P - 1), 1, P)
  {
    CongIntro((P - 1) * (P - 1), 1, P - 2, P);
  }

  lemma TrivialX(b: Point)
    requires CurveLaw() && OnCurve(b) && (!Unit(1 + b.y) || !Unit(1 - b.y))
    ensures b.x == 0 && (b.y == 1 || b.y == P - 1) && MontgomeryU(b) == 0
  {
    PPositive();
    hide *;
    LawPrime();
    OnCurveRange(b);
    UnitDef(1 + b.y);
    UnitDef(1 - b.y);
    EdgeY(b.y);
    CurvePoint(b);
    SolvedForX(b.x, b.y, D(), P);
    DenominatorUnit(b);
    UnitDef(1 + D() * (b.y * b.y));
    EdgeSquare(b.y);
    OnlyZero(b.x, 1 + D() * (b.y * b.y), b.y * b.y - 1);
    EdgeU(b);
  }

  lemma OnlyZero(x: int, v: int, r: int)
    requires IsPrime(P) && 0 <= x < P && !Cong(v, 0, P) && Cong(x * x * v, r, P) && Cong(r, 0, P)
    ensures x == 0
  {
    PPositive();
    hide *;
    CongTrans(x * x * v, r, 0, P);
    Thrice(x, x, v);
    NoZeroDivisors(x, x * v, P);
    if !Cong(x, 0, P) {
      NoZeroDivisors(x, v, P);
    }
    CongEq(x, 0, P);
  }

  lemma EdgeY(y: int)
    requires 0 <= y < P && (Cong(1 + y, 0, P) || Cong(1 - y, 0, P))
    ensures y == 1 || y == P - 1
  {
  }

  lemma EdgeSquare(y: int)
    requires y == 1 || y == P - 1
    ensures Cong(y * y - 1, 0, P)
  {
    PValue();
    hide Cong;
    CongByMod(y * y - 1, 0, P);
  }

  lemma EdgeU(p: Point)
    requires p.y == 1 || p.y == P - 1
    ensures MontgomeryU(p) == 0
  {
    PPositive();
    MontgomeryUDef(p);
    hide Inv, MontgomeryU, Cong;
    if p.y == 1 {
      UnitDef(0);
      CongRefl(0, P);
      InvZero(0);
    } else {
      MultipleOfP(Inv(1 - p.y));
    }
  }

  lemma MultipleOfP(i: int)
    ensures (P * i) % P == 0
  {
    DivModUnique(P * i, P, i, 0);
  }

  /** The ladder multiplies: from the u of any point of the curve to the u of k times that point. */
  lemma X25519Multiplies(k: nat, b: Point)
    requires CurveLaw() && OnCurve(b) && k < Pow2(255)
    ensures X25519(k, MontgomeryU(b)) == MontgomeryU(Times(k, b))
  {
    PPositive();
    X25519Def(k, MontgomeryU(b));
    MontgomeryUDef(b);
    hide *;
    LawPrime();
    var u := MontgomeryU(b);
    if Unit(1 + b.y) && Unit(1 - b.y) {
      Curve.Quotient(1 + b.y, 1 - b.y);
      LadderMeaning(k, u, b, 0);
      ShiftedEnds(k);
      AffineU(Ladder(k, u, 0).x2, Ladder(k, u, 0).z2, Times(k, b));
    } else {
      TrivialX(b);
      ZeroLadder(k, 0);
      TrivialMultiples(k, b);
      EdgeU(Times(k, b));
      UnitDef(Ladder(k, 0, 0).z2);
      InvZero(Ladder(k, 0, 0).z2);
    }
  }

  lemma X25519Def(k: nat, u: int)
    ensures X25519(k, u) == (Ladder(k, u, 0).x2 * Inv(Ladder(k, u, 0).z2)) % P
  {
    hide Inv, Ladder;
  }
}
