/** Points as 32-byte strings: ge_p3_tobytes, ge_tobytes and ge_frombytes_negate_vartime of ge.c. */
module PointCodec {
  import opened Arith
  import opened Bits
  import opened Fe
  import opened FeOps
  import opened FeBytes
  import opened FePow
  import opened Prime
  import opened Curve
  import opened Formulas
  import opened Ge
  import opened SquareRoot

  /** s is the form of p that section 5.1.2 of RFC 8032 gives: y in 255 bits, the parity of x on top. */
  ghost predicate IsEncoding(s: seq<byte>, p: Point) {
    |s| == 32 && LE(s) == p.y + (p.x % 2) * Pow2(255)
  }

  lemma EncodingUnique(s: seq<byte>, t: seq<byte>, p: Point)
    requires IsEncoding(s, p) && IsEncoding(t, p)
    ensures s == t
  {
    hide LE, Pow2;
    LEInjective(s, t);
  }

  // -------------------------------------------------------------------------
  // Encoding
  // -------------------------------------------------------------------------

  /** X/Z by an inversion. */
  lemma Affine(X: int, Z: int, recip: int, x: int, c: int)
    requires IsPrime(P) && Unit(Z) && Cong(X, c * Z, P) && Cong(recip, Pow(Z, P - 2), P) && Cong(x, X * recip, P)
    requires 0 <= c < P
    ensures x % P == c
  {
    hide Cong, Pow, IsPrime;
    UnitDef(Z);
    FermatInverse(Z, P);
    AffineResidue(X, Z, recip, x, c, Pow(Z, P - 2), P);
  }

  lemma AffineResidue(X: int, Z: int, recip: int, x: int, c: int, w: int, m: int)
    requires m > 0 && Cong(X, c * Z, m) && Cong(recip, w, m) && Cong(x, X * recip, m) && Cong(Z * w, 1, m) && 0 <= c < m
    ensures x % m == c
  {
    hide Cong;
    CongMul(X, c * Z, recip, w, m);
    assert (c * Z) * w == c * (Z * w);
    CongScale(Z * w, 1, c, m);
    CongTrans(x, X * recip, c * (Z * w), m);
    CongTrans(x, c * (Z * w), c, m);
    CongSameMod(x, c, m);
    DivModUnique(c, m, 0, c);
  }

  lemma InverseExponent()
    ensures 0x7fffffffffffffffffffffffffffffffffffffffffffffffffffffffffffffeb == P - 2
  {
    PValue();
  }

  /** The affine coordinates, as residues. */
  method Normalize(h: P2, ghost p: Point) returns (x: Fe, y: Fe)
    requires IsPrime(P) && IsP2(h, p) && 0 <= p.x < P && 0 <= p.y < P
    ensures Bounded(x, LOOSE) && Bounded(y, LOOSE) && Val(x) % P == p.x && Val(y) % P == p.y
  {
    hide Cong, Val, Pow, IsPrime, Bounded, Unit;
    Widen(h.Z, NARROW, WIDE);
    var recip := Invert(h.Z);
    x := FeMul(h.X, recip, NARROW, TIGHT);
    y := FeMul(h.Y, recip, NARROW, TIGHT);
    Widen(x, TIGHT, LOOSE);
    Widen(y, TIGHT, LOOSE);
    InverseExponent();
    Affine(Val(h.X), Val(h.Z), Val(recip), Val(x), p.x);
    Affine(Val(h.Y), Val(h.Z), Val(recip), Val(y), p.y);
  }

  /** The sign goes into the top bit, which is clear before. */
  lemma SignBit(t: seq<byte>, sign: nat)
    requires |t| == 32 && sign <= 1 && LE(t) < Pow2(255)
    ensures Shl(sign, 7) >= 0 && Xor(t[31], Shl(sign, 7)) < 256
    ensures LE(t[31 := Xor(t[31], Shl(sign, 7))]) == LE(t) + sign * Pow2(255)
  {
    hide LE, Pow2, Xor;
    TopByte(t);
    Pow2Small();
    XorIsSum(t[31], sign, 7);
    var x := Xor(t[31], Shl(sign, 7));
    var r := t[31 := x];
    LESnoc(t, 31);
    LESnoc(r, 31);
    assert t[..32] == t && r[..32] == r && r[..31] == t[..31];
    Pow2Add(7, 248);
    assert (t[31] + sign * 128) * Pow2(248) == t[31] * Pow2(248) + sign * (128 * Pow2(248));
  }

  lemma TopByte(t: seq<byte>)
    requires |t| == 32
    ensures t[31] / 128 == LE(t) / Pow2(255)
    ensures LE(t) < Pow2(255) ==> t[31] < 128
  {
    hide Pow2;
    Pow2Small();
    LEDrop(t, 31);
    assert LE(t[31..]) == t[31] by {
      assert t[31..] == [t[31]] && t[31..][1..] == [];
      assert LE([]) == 0;
    }
    hide LE;
    Pow2Add(248, 7);
    DivDiv(LE(t), Pow2(248), 128);
    if LE(t) < Pow2(255) {
      DivModUnique(LE(t), Pow2(255), 0, LE(t));
    }
  }

  /** fe_tobytes, then the sign of x on the top bit. */
  method StorePoint(s: array<byte>, x: Fe, y: Fe, ghost p: Point)
    requires s.Length >= 32 && Bounded(x, LOOSE) && Bounded(y, LOOSE) && Val(x) % P == p.x && Val(y) % P == p.y
    modifies s
    ensures IsEncoding(s[..32], p) && s[32..] == old(s[32..])
  {
    Pow2Large();
    Limits();
    PBelow();
    hide *;
    var t := FeBytes.ToBytes(y);
    ghost var rest := s[32..];
    for i := 0 to 32
      invariant s[..i] == t[..i] && s[32..] == rest
    {
      s[i] := t[i];
    }
    assert s[..32] == t;
    var sign := FeBytes.IsNegative(x);
    SignBit(t, sign);
    s[31] := Xor(s[31], Shl(sign, 7));
    assert s[..32] == t[31 := Xor(t[31], Shl(sign, 7))];
    EncodingDef(s[..32], p);
  }

  lemma PBelow()
    ensures P <= Pow2(255)
  {
    PValue();
    Pow2Large();
  }

  lemma EncodingDef(s: seq<byte>, p: Point)
    ensures IsEncoding(s, p) <==> |s| == 32 && LE(s) == p.y + (p.x % 2) * Pow2(255)
  {
    hide LE, Pow2;
  }

  /** ge_tobytes. */
  method GeToBytes(s: array<byte>, h: P2, ghost p: Point)
    requires s.Length >= 32 && CurveLaw() && OnCurve(p) && IsP2(h, p)
    modifies s
    ensures IsEncoding(s[..32], p) && s[32..] == old(s[32..])
  {
    hide CurveLaw, OnCurve, IsP2, IsPrime, IsEncoding, Val, Bounded;
    LawPrime();
    OnCurveRange(p);
    var x, y := Normalize(h, p);
    StorePoint(s, x, y, p);
  }

  /** ge_p3_tobytes. */
  method GeP3ToBytes(s: array<byte>, h: P3, ghost p: Point)
    requires s.Length >= 32 && CurveLaw() && OnCurve(p) && IsP3(h, p)
    modifies s
    ensures IsEncoding(s[..32], p) && s[32..] == old(s[32..])
  {
    hide CurveLaw, OnCurve, IsP2, IsP3, IsPrime, IsEncoding, Val, Bounded;
    LawPrime();
    OnCurveRange(p);
    var q := GeP3ToP2(h, p);
    var x, y := Normalize(q, p);
    StorePoint(s, x, y, p);
  }

  // -------------------------------------------------------------------------
  // Decoding
  // -------------------------------------------------------------------------

  /** The y coordinate that s carries. */
  ghost function YOf(s: seq<byte>): int {
    (LE(s) % Pow2(255)) % P
  }

  ghost function SignOf(s: seq<byte>): int {
    LE(s) / Pow2(255)
  }

  /** p has the y of s, and of its two x the one with the parity of s. */
  ghost predicate IsDecoding(s: seq<byte>, p: Point) {
    OnCurve(p) && p.y == YOf(s) && (p.x == 0 || p.x % 2 == SignOf(s))
  }

  const SQRT_M1: Fe := Fe(-32595792, -7943725, 9377950, 3500415, 12389472, -272473, -25146209, -2005654, 326686, 11406482)

  lemma SqrtMinusOne()
    ensures Bounded(SQRT_M1, TIGHT) && Cong(Val(SQRT_M1) * Val(SQRT_M1), -1, P)
  {
    PValue();
    ValSum(SQRT_M1);
    hide Cong;
    CongByMod(Val(SQRT_M1) * Val(SQRT_M1), -1, P);
  }

  /** u = y^2 - 1 and v = d y^2 + 1. */
  ghost predicate IsFraction(u: int, v: int, y: int) {
    Cong(u, y * y - 1, P) && Cong(v, D() * (y * y) + 1, P)
  }

  lemma FractionDef(u: int, v: int, y: int)
    ensures IsFraction(u, v, y) <==> Cong(u, y * y - 1, P) && Cong(v, D() * (y * y) + 1, P)
  {
    hide Cong, D;
  }

  /** (x, y) is on the curve exactly when x is a root of u/v. */
  lemma CurveEquation(u: int, v: int, x: int, y: int)
    requires IsFraction(u, v, y) && 0 <= x < P && 0 <= y < P
    ensures Cong(v * (x * x), u, P) <==> OnCurve(Point(x, y))
  {
    hide Cong, D, OnCurve, K, IsFraction;
    FractionDef(u, v, y);
    var p := Point(x, y);
    OnCurveDef(p);
    KSquare(p);
    var l, r := (D() * (y * y) + 1) * (x * x), y * y - 1;
    CongScale(v, D() * (y * y) + 1, x * x, P);
    var k := K(p, p);
    assert (D() * (y * y) + 1) * (x * x) == (x * x) * (D() * (y * y)) + x * x;
    assert l - r == (1 + k) - (y * y - x * x);
    if Cong(v * (x * x), u, P) {
      CongSym(v * (x * x), l, P);
      CongTrans(l, v * (x * x), u, P);
      CongTrans(l, u, r, P);
      SameDifference(l, r, 1 + k, y * y - x * x);
      CongSym(1 + k, y * y - x * x, P);
    }
    if OnCurve(p) {
      CongSym(y * y - x * x, 1 + k, P);
      SameDifference(1 + k, y * y - x * x, l, r);
      CongTrans(v * (x * x), l, r, P);
      CongSym(u, r, P);
      CongTrans(v * (x * x), r, u, P);
    }
  }

  lemma SameDifference(a: int, b: int, c: int, e: int)
    requires Cong(a, b, P) && a - b == c - e
    ensures Cong(c, e, P)
  {
  }

  /** If v is zero then u is not. */
  lemma NoCommonRoot(u: int, v: int, y: int)
    requires IsFraction(u, v, y) && !Unit(v)
    ensures Unit(u)
  {
    hide Cong, D, Unit, IsFraction;
    FractionDef(u, v, y);
    UnitDef(u);
    UnitDef(v);
    if !Unit(u) {
      CongSym(u, y * y - 1, P);
      CongTrans(y * y - 1, u, 0, P);
      CongRefl(1, P);
      CongAdd(y * y - 1, 0, 1, 1, P);
      CongScale(y * y, 1, D(), P);
      CongAdd(D() * (y * y), D() * 1, 1, 1, P);
      CongTrans(v, D() * (y * y) + 1, D() * 1 + 1, P);
      CongSym(v, D() * 1 + 1, P);
      CongTrans(D() * 1 + 1, v, 0, P);
      OnePlusD();
    }
  }

  lemma OnePlusD()
    ensures !Cong(D() * 1 + 1, 0, P)
  {
    DPlusOne();
    hide Cong;
  }

  /** u v^3 (u v^7)^((p-5)/8), step by step. */
  lemma CandidateSteps(u: int, v: int, vv: int, v3: int, x1: int, x2: int, x3: int, x4: int, x5: int, x6: int)
    requires Cong(vv, v * v, P) && Cong(v3, vv * v, P) && Cong(x1, v3 * v3, P) && Cong(x2, x1 * v, P)
    requires Cong(x3, x2 * u, P) && Cong(x4, Pow(x3, E), P) && Cong(x5, x4 * v3, P) && Cong(x6, x5 * u, P)
    ensures Cong(x6, Candidate(u, v), P)
  {
    hide Cong, Pow;
    PowSmall(v);
    var c3 := Pow(v, 3);
    CongScale(vv, v * v, v, P);
    CongTrans(v3, vv * v, c3, P);
    CongMul(v3, c3, v3, c3, P);
    CongTrans(x1, v3 * v3, c3 * c3, P);
    CongScale(x1, c3 * c3, v, P);
    CongTrans(x2, x1 * v, Pow(v, 7), P);
    CongScale(x2, Pow(v, 7), u, P);
    var b := u * Pow(v, 7);
    assert Pow(v, 7) * u == b;
    CongTrans(x3, x2 * u, b, P);
    PowCong(x3, b, E, P);
    CongTrans(x4, Pow(x3, E), Pow(b, E), P);
    CongMul(x4, Pow(b, E), v3, c3, P);
    CongTrans(x5, x4 * v3, Pow(b, E) * c3, P);
    CongScale(x5, Pow(b, E) * c3, u, P);
    CongTrans(x6, x5 * u, Pow(b, E) * c3 * u, P);
    assert Pow(b, E) * c3 * u == u * c3 * Pow(b, E);
    CandidateDef(u, v);
  }

  /** u and v of the decoder, from y. */
  method Fraction(Y: Fe, ghost y: int) returns (u: Fe, v: Fe)
    requires Bounded(Y, NARROW) && Cong(Val(Y), y, P)
    ensures Bounded(u, TIGHT + 1) && Bounded(v, TIGHT + 1) && IsFraction(Val(u), Val(v), y)
  {
    Ge.Constants();
    hide Val, Cong, Bounded, D, One;
    u := FeSq(Y, NARROW);
    ghost var yy := Val(u);
    v := FeMul(u, Ge.D_LIMBS, TIGHT, TIGHT);
    ghost var dyy := Val(v);
    u := FeSub(u, One(), TIGHT, 1);
    v := FeAdd(v, One(), TIGHT, 1);
    CongMul(Val(Y), y, Val(Y), y, P);
    CongTrans(yy, Val(Y) * Val(Y), y * y, P);
    CongMul(yy, y * y, Val(Ge.D_LIMBS), D(), P);
    assert (y * y) * D() == D() * (y * y);
    CongTrans(dyy, yy * Val(Ge.D_LIMBS), D() * (y * y), P);
    CongRefl(1, P);
    CongAdd(yy, y * y, 1, 1, P);
    CongAdd(dyy, D() * (y * y), 1, 1, P);
  }

  /** x = u v^3 (u v^7)^((p-5)/8). */
  method CandidateRoot(u: Fe, v: Fe) returns (x: Fe)
    requires Bounded(u, 2 * TIGHT) && Bounded(v, 2 * TIGHT)
    ensures Bounded(x, TIGHT) && Cong(Val(x), Candidate(Val(u), Val(v)), P)
  {
    hide Val, Cong, Bounded, Pow, Candidate;
    var vv := FeSq(v, 2 * TIGHT);
    var v3 := FeMul(vv, v, TIGHT, 2 * TIGHT);
    var x1 := FeSq(v3, TIGHT);
    var x2 := FeMul(x1, v, TIGHT, 2 * TIGHT);
    var x3 := FeMul(x2, u, TIGHT, 2 * TIGHT);
    Widen(x3, TIGHT, WIDE);
    var x4 := Pow22523(x3);
    var x5 := FeMul(x4, v3, TIGHT, TIGHT);
    x := FeMul(x5, u, TIGHT, 2 * TIGHT);
    CandidateSteps(Val(u), Val(v), Val(vv), Val(v3), Val(x1), Val(x2), Val(x3), Val(x4), Val(x5), Val(x));
  }

  /** A root of u/v if there is one. */
  method Root(u: Fe, v: Fe, ghost y: int) returns (found: bool, x: Fe)
    requires IsPrime(P) && Bounded(u, TIGHT + 1) && Bounded(v, TIGHT + 1) && IsFraction(Val(u), Val(v), y)
    ensures Bounded(x, TIGHT)
    ensures found ==> Cong(Val(v) * (Val(x) * Val(x)), Val(u), P)
    ensures !found ==> forall z :: !Cong(Val(v) * (z * z), Val(u), P)
  {
    SqrtMinusOne();
    Limits();
    hide *;
    Widen(u, TIGHT + 1, 2 * TIGHT);
    Widen(v, TIGHT + 1, 2 * TIGHT);
    x := CandidateRoot(u, v);
    ghost var c := Val(x);
    var xx := FeSq(x, TIGHT);
    var vxx := FeMul(xx, v, TIGHT, TIGHT + 1);
    RootTimes(Val(v), c, Val(xx), Val(vxx));
    var check := FeSub(vxx, u, TIGHT, TIGHT + 1);
    Widen(check, TIGHT + (TIGHT + 1), LOOSE);
    ZeroTest(Val(check), Val(vxx), Val(u), Val(v) * (c * c));
    found := true;
    if FeBytes.IsNonzero(check) {
      check := FeAdd(vxx, u, TIGHT, TIGHT + 1);
      Widen(check, TIGHT + (TIGHT + 1), LOOSE);
      ZeroTest(Val(check), Val(vxx), -Val(u), Val(v) * (c * c));
      if FeBytes.IsNonzero(check) {
        found := false;
        forall z
          ensures !Cong(Val(v) * (z * z), Val(u), P)
        {
          NoRoot(Val(u), Val(v), y, c, z);
        }
        return;
      }
      x := FeMul(x, SQRT_M1, TIGHT, TIGHT);
      TurnedRoot(Val(u), Val(v), c, Val(SQRT_M1), Val(x), P);
    }
  }

  lemma Limits()
    ensures P > 0 && TIGHT > 0 && TIGHT <= NARROW && 2 * TIGHT + 1 <= LOOSE <= WIDE && 2 * NARROW <= WIDE < 0x1fff_ffff
  {
  }

  lemma RootTimes(v: int, c: int, xx: int, vxx: int)
    requires Cong(xx, c * c, P) && Cong(vxx, xx * v, P)
    ensures Cong(vxx, v * (c * c), P)
  {
    hide Cong;
    CongScale(xx, c * c, v, P);
    assert (c * c) * v == v * (c * c);
    CongTrans(vxx, xx * v, v * (c * c), P);
  }

  lemma ZeroTest(check: int, a: int, b: int, c: int)
    requires check == a - b && Cong(a, c, P)
    ensures check % P == 0 <==> Cong(c, b, P)
  {
    CongSameMod(a - b, 0, P);
    hide Cong;
    CongRefl(b, P);
    if Cong(a - b, 0, P) {
      CongAdd(a - b, 0, b, b, P);
      CongSym(a, c, P);
      CongTrans(c, a, b, P);
    }
    if Cong(c, b, P) {
      CongTrans(a, c, b, P);
      CongAdd(a, b, b, b, P);
    }
  }

  lemma NoRoot(u: int, v: int, y: int, c: int, z: int)
    requires IsPrime(P) && IsFraction(u, v, y) && Cong(c, Candidate(u, v), P)
    requires !Cong(v * (c * c), u, P) && !Cong(v * (c * c), -u, P)
    ensures !Cong(v * (z * z), u, P)
  {
    hide Cong, Candidate, IsPrime, IsFraction, Unit;
    if Cong(v * (z * z), u, P) {
      if Unit(v) {
        var k := Candidate(u, v);
        CongSym(v * (z * z), u, P);
        CandidateSquared(u, v, z);
        CongMul(c, k, c, k, P);
        CongScale(c * c, k * k, v, P);
        if Cong(v * (k * k), u, P) {
          CongTrans(v * (c * c), v * (k * k), u, P);
        } else {
          CongTrans(v * (c * c), v * (k * k), -u, P);
        }
      } else {
        NoCommonRoot(u, v, y);
        UnitDef(u);
        UnitDef(v);
        CongScale(v, 0, z * z, P);
        CongSym(v * (z * z), u, P);
        CongTrans(u, v * (z * z), 0, P);
      }
    }
  }

  // -------------------------------------------------------------------------
  // The sign
  // -------------------------------------------------------------------------

  /** The point that the decoder negates. */
  ghost function Signed(c: int, y: int, sign: int): Point {
    if c % 2 == sign then Point(c, y) else Opposite(Point(c, y))
  }

  lemma SignedParity(c: int, y: int, sign: int)
    requires 0 <= c < P && 0 <= sign <= 1
    ensures Signed(c, y, sign).y == y && (Signed(c, y, sign).x == 0 || Signed(c, y, sign).x % 2 == sign)
    ensures Opposite(Signed(c, y, sign)) == Point(if c % 2 == sign then (-c) % P else c, y)
  {
    PValue();
    var n := (-c) % P;
    if c == 0 {
      assert n == 0;
    } else {
      assert n == P - c && n % 2 == 1 - c % 2 && (-n) % P == c;
    }
  }

  lemma SignedOnCurve(c: int, y: int, sign: int)
    requires OnCurve(Point(c, y))
    ensures OnCurve(Signed(c, y, sign))
  {
    hide OnCurve, Opposite;
    NegOnCurve(Point(c, y));
  }

  lemma SignByte(s: seq<byte>)
    requires |s| == 32
    ensures Shr(s[31], 7) == SignOf(s) && 0 <= SignOf(s) <= 1
  {
    hide LE, Pow2;
    TopByte(s);
    Pow2Small();
  }

  /** The last step of the decoder: negate when the sign matches, and multiply out. */
  method Finish(x0: Fe, Y: Fe, negate: bool, ghost c: int, ghost y: int) returns (h: P3)
    requires Bounded(x0, TIGHT) && Bounded(Y, NARROW) && Cong(Val(x0), c, P) && Cong(Val(Y), y, P)
    ensures IsP3(h, Point(if negate then (-c) % P else c, y))
  {
    hide Val, Cong, Bounded, Unit, One, Neg;
    var x := x0;
    ghost var e := c;
    if negate {
      x := FeNeg(x, TIGHT);
      CongScale(Val(x0), c, -1, P);
      assert -1 * Val(x0) == -Val(x0) && -1 * c == -c;
      CongMod(-c, P);
      e := (-c) % P;
      CongTrans(Val(x), -c, e, P);
    }
    var t := FeMul(x, Y, TIGHT, NARROW);
    CongMul(Val(x), e, Val(Y), y, P);
    CongTrans(Val(t), Val(x) * Val(Y), e * y, P);
    Widen(x, TIGHT, NARROW);
    Widen(t, TIGHT, NARROW);
    Widen(One(), 1, NARROW);
    OneIsAUnit();
    assert e * 1 == e && y * 1 == y && e * y * 1 == e * y;
    h := P3(x, Y, One(), t);
  }

  /** ge_frombytes_negate_vartime: 0 and the opposite of the decoded point, or -1 when no point has that y. */
  method GeFromBytesNegateVartime(s: seq<byte>) returns (r: int, h: P3, ghost p: Point)
    requires IsPrime(P) && |s| == 32
    ensures r == 0 || r == -1
    ensures r == 0 ==> IsDecoding(s, p) && IsP3(h, Opposite(p))
    ensures r == -1 ==> forall x :: !OnCurve(Point(x, YOf(s)))
  {
    Limits();
    YOfDef(s);
    hide *;
    var Y := FeBytes.FromBytes(s);
    ghost var n := LE(s) % Pow2(255);
    ghost var y := YOf(s);
    CongMod(n, P);
    CongTrans(Val(Y), n, y, P);
    var u, v := Fraction(Y, y);
    var found, x := Root(u, v, y);
    h := GeP3Zero();
    p := O;
    if !found {
      forall z
        ensures !OnCurve(Point(z, y))
      {
        if OnCurve(Point(z, y)) {
          OnCurveRange(Point(z, y));
          CurveEquation(Val(u), Val(v), z, y);
        }
      }
      return -1, h, p;
    }
    ghost var c := Val(x) % P;
    Reduced(Val(u), Val(v), Val(x));
    CurveEquation(Val(u), Val(v), c, y);
    SignByte(s);
    p := Signed(c, y, SignOf(s));
    DecodingDef(s, p);
    SignedOnCurve(c, y, SignOf(s));
    SignedParity(c, y, SignOf(s));
    Widen(x, TIGHT, LOOSE);
    CongMod(Val(x), P);
    h := Finish(x, Y, FeBytes.IsNegative(x) == Shr(s[31], 7), c, y);
    r := 0;
  }

  lemma YOfDef(s: seq<byte>)
    ensures Pow2(255) > 0 && P > 0 && YOf(s) == (LE(s) % Pow2(255)) % P && 0 <= YOf(s) < P
  {
    hide LE, Pow2;
  }

  lemma DecodingDef(s: seq<byte>, p: Point)
    ensures IsDecoding(s, p) <==> OnCurve(p) && p.y == YOf(s) && (p.x == 0 || p.x % 2 == SignOf(s))
  {
    hide OnCurve, YOf, SignOf;
  }

  lemma Reduced(u: int, v: int, x: int)
    requires Cong(v * (x * x), u, P)
    ensures Cong(v * ((x % P) * (x % P)), u, P)
  {
    hide Cong;
    CongMod(x, P);
    CongMul(x % P, x, x % P, x, P);
    CongScale((x % P) * (x % P), x * x, v, P);
    CongTrans(v * ((x % P) * (x % P)), v * (x * x), u, P);
  }

  // -------------------------------------------------------------------------
  // Round trip
  // -------------------------------------------------------------------------

  /** A string decodes to one point at most. */
  lemma DecodingUnique(s: seq<byte>, p: Point, q: Point)
    requires IsPrime(P) && IsDecoding(s, p) && IsDecoding(s, q)
    ensures p == q
  {
    hide Cong, IsPrime, OnCurve, LE, Pow2, Unit, D, YOf, SignOf;
    var y := p.y;
    OnCurveRange(p);
    OnCurveRange(q);
    CongRefl(y * y - 1, P);
    CongRefl(D() * (y * y) + 1, P);
    CurveEquation(y * y - 1, D() * (y * y) + 1, p.x, y);
    CurveEquation(y * y - 1, D() * (y * y) + 1, q.x, y);
    DenominatorUnit(p);
    assert D() * (y * y) + 1 == 1 + D() * (y * y);
    RootsOpposite(y * y - 1, D() * (y * y) + 1, p.x, q.x);
    OppositeParity(p.x, q.x);
  }

  lemma OppositeParity(a: int, b: int)
    requires 0 <= a < P && 0 <= b < P && (Cong(a, b, P) || Cong(a, -b, P))
    requires a == 0 || b == 0 || a % 2 == b % 2
    ensures a == b
  {
    PValue();
    if Cong(a, b, P) {
      CongEq(a, b, P);
    } else {
      Halves(a, b);
    }
  }

  lemma Halves(a: int, b: int)
    requires 0 <= a < P && 0 <= b < P && Cong(a, -b, P)
    ensures (a == 0 && b == 0) || a + b == P
  {
  }

  /** Decoding as section 5.1.3 of RFC 8032 has it: y is below p, and x has the parity of s even when it is zero. */
  ghost predicate IsStandardDecoding(s: seq<byte>, p: Point) {
    OnCurve(p) && p.y == LE(s) % Pow2(255) < P && p.x % 2 == SignOf(s)
  }

  /** The strings that the standard decodes are the encodings of points. */
  lemma StandardIsEncoding(s: seq<byte>, p: Point)
    requires |s| == 32
    ensures IsStandardDecoding(s, p) <==> OnCurve(p) && IsEncoding(s, p)
  {
    PValue();
    hide OnCurve, LE, Pow2;
    Pow2Large();
    if OnCurve(p) && IsEncoding(s, p) {
      OnCurveRange(p);
      DivModUnique(LE(s), Pow2(255), p.x % 2, p.y);
    }
  }

  /** The decoder takes two kinds of strings more: those with y from p up, and those with x zero and the sign bit set. */
  lemma DecodesMore(s: seq<byte>, p: Point)
    requires |s| == 32
    ensures IsStandardDecoding(s, p) <==> IsDecoding(s, p) && LE(s) % Pow2(255) < P && (p.x == 0 ==> SignOf(s) == 0)
  {
    hide OnCurve, LE, Pow2;
    Pow2Large();
    if LE(s) % Pow2(255) < P {
      SmallResidue(LE(s) % Pow2(255), P);
    }
  }

  lemma SmallResidue(n: nat, m: int)
    requires n < m
    ensures n % m == n
  {
  }

  /** Both kinds exist: the neutral point has the string of p + 1, and the one of 2^255 + 1. */
  lemma NeutralDecodesMore(s: seq<byte>)
    requires |s| == 32 && (LE(s) == P + 1 || LE(s) == Pow2(255) + 1)
    ensures IsDecoding(s, O) && !IsStandardDecoding(s, O)
  {
    PValue();
    hide OnCurve, LE, Pow2;
    Pow2Large();
    ZeroOnCurve();
  }

  /** The encoding of a point on the curve decodes to that point. */
  lemma EncodingDecodes(s: seq<byte>, p: Point)
    requires OnCurve(p) && IsEncoding(s, p)
    ensures IsDecoding(s, p)
  {
    PValue();
    hide OnCurve, LE, Pow2;
    OnCurveRange(p);
    Pow2Large();
    DivModUnique(LE(s), Pow2(255), p.x % 2, p.y);
  }

  /** Two points with the same encoding are the same. */
  lemma EncodingInjective(s: seq<byte>, p: Point, q: Point)
    requires IsPrime(P) && OnCurve(p) && OnCurve(q) && IsEncoding(s, p) && IsEncoding(s, q)
    ensures p == q
  {
    hide OnCurve, IsEncoding, IsDecoding, IsPrime;
    EncodingDecodes(s, p);
    EncodingDecodes(s, q);
    DecodingUnique(s, p, q);
  }
}
