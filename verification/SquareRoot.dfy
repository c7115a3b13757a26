/** Roots of u/v modulo 2^255-19: when the candidate that point decoding computes is one, up to a factor sqrt(-1). */
module SquareRoot {
  import opened Arith
  import opened Fe
  import opened Prime
  import opened Curve

  /** (p - 5) / 8. */
  const E: nat := 0x0fffffff_ffffffff_ffffffff_ffffffff_ffffffff_ffffffff_ffffffff_fffffffd

  lemma {:induction false} PowOfProduct(a: int, b: int, n: nat)
    ensures Pow(a * b, n) == Pow(a, n) * Pow(b, n)
  {
    hide Pow;
    if n == 0 {
      PowStep(a, 0);
      PowStep(b, 0);
      PowStep(a * b, 0);
    } else {
      PowOfProduct(a, b, n - 1);
      PowStep(a, n - 1);
      PowStep(b, n - 1);
      PowStep(a * b, n - 1);
      Regroup(a, b, Pow(a, n - 1), Pow(b, n - 1));
    }
  }

  lemma PowStep(a: int, n: nat)
    ensures Pow(a, 0) == 1 && Pow(a, n + 1) == a * Pow(a, n)
  {
  }

  lemma Regroup(a: int, b: int, c: int, e: int)
    ensures (a * b) * (c * e) == (a * c) * (b * e)
  {
    assert (a * b) * (c * e) == a * (b * (c * e)) && b * (c * e) == c * (b * e);
  }

  lemma {:induction false} PowOfPow(a: int, m: nat, n: nat)
    ensures m * n >= 0 && Pow(Pow(a, m), n) == Pow(a, m * n)
  {
    if n > 0 {
      PowOfPow(a, m, n - 1);
      assert m * n == m + m * (n - 1);
      PowAdd(a, m, m * (n - 1));
    }
  }

  lemma PowSmall(a: int)
    ensures Pow(a, 1) == a && Pow(a, 2) == a * a && Pow(a, 3) == a * a * a
    ensures Pow(a, 4) == Pow(a, 3) * a && Pow(a, 7) == Pow(a, 3) * Pow(a, 3) * a
  {
    assert Pow(a, 1) == a * Pow(a, 0);
    assert Pow(a, 2) == a * Pow(a, 1);
    PowAdd(a, 2, 1);
    PowAdd(a, 3, 1);
    PowAdd(a, 3, 3);
    PowAdd(a, 6, 1);
  }

  /** u v^3 (u v^7)^((p-5)/8). */
  ghost function Candidate(u: int, v: int): int {
    u * Pow(v, 3) * Pow(u * Pow(v, 7), E)
  }

  lemma CandidateDef(u: int, v: int)
    ensures Candidate(u, v) == u * Pow(v, 3) * Pow(u * Pow(v, 7), E)
  {
    hide Pow;
  }

  lemma CandidateCong(u: int, u': int, v: int)
    requires Cong(u, u', P)
    ensures Cong(Candidate(u, v), Candidate(u', v), P)
  {
    hide Cong, Pow;
    CongScale(u, u', Pow(v, 3), P);
    CongScale(u, u', Pow(v, 7), P);
    PowCong(u * Pow(v, 7), u' * Pow(v, 7), E, P);
    CongMul(u * Pow(v, 3), u' * Pow(v, 3), Pow(u * Pow(v, 7), E), Pow(u' * Pow(v, 7), E), P);
  }

  /** For u = v x^2 the candidate is v^(p-1) x^((p+3)/4). */
  lemma CandidateOfSquare(v: int, x: int)
    ensures Candidate(v * (x * x), v) == Pow(v, P - 1) * Pow(x, 2 * E + 2)
  {
    PValue();
    hide Pow;
    PowSmall(v);
    PowSmall(x);
    var q := x * x;
    PowAdd(v, 1, 7);
    assert (v * q) * Pow(v, 7) == (v * Pow(v, 7)) * q;
    PowOfProduct(Pow(v, 8), q, E);
    PowOfPow(v, 8, E);
    PowOfPow(x, 2, E);
    CandidateDef(v * q, v);
    var V, X := Pow(v, 8 * E), Pow(x, 2 * E);
    assert v * q * Pow(v, 3) == (Pow(v, 3) * v) * q;
    Regroup(Pow(v, 4), q, V, X);
    assert Pow(v, 4) * V == V * Pow(v, 4) && q * X == X * q;
    PowAdd(v, 8 * E, 4);
    PowAdd(x, 2 * E, 2);
    assert 8 * E + 4 == P - 1;
  }

  /** x^((p-1)/2) is 1 or -1 unless x is 0. */
  lemma EulerSign(x: int)
    requires IsPrime(P) && Unit(x)
    ensures Cong(Pow(x, 4 * E + 2), 1, P) || Cong(Pow(x, 4 * E + 2), -1, P)
  {
    PValue();
    hide Cong, Pow, IsPrime;
    var w := Pow(x, 4 * E + 2);
    PowAdd(x, 4 * E + 2, 4 * E + 2);
    assert 4 * E + 2 + (4 * E + 2) == P - 1;
    UnitDef(x);
    Fermat(x, P);
    CongRefl(1, P);
    CongAdd(w * w, 1, 1, 1, P);
    assert (w - 1) * (w + 1) == w * w - 1;
    NoZeroDivisors(w - 1, w + 1, P);
    if Cong(w - 1, 0, P) {
      CongAdd(w - 1, 0, 1, 1, P);
    } else {
      CongAdd(w + 1, 0, 1, 1, P);
      assert w + 1 - 1 == w;
    }
  }

  /** Whenever u/v has a root, v c^2 is u or -u. */
  lemma CandidateSquared(u: int, v: int, x: int)
    requires IsPrime(P) && Unit(v) && Cong(u, v * (x * x), P)
    ensures Cong(v * (Candidate(u, v) * Candidate(u, v)), u, P) || Cong(v * (Candidate(u, v) * Candidate(u, v)), -u, P)
  {
    hide Cong, Pow, IsPrime, Candidate, Unit;
    var c := Candidate(u, v);
    var k := Pow(x, 2 * E + 2);
    CandidateCong(u, v * (x * x), v);
    CandidateOfSquare(v, x);
    UnitDef(v);
    Fermat(v, P);
    CongScale(Pow(v, P - 1), 1, k, P);
    assert 1 * k == k;
    CongTrans(c, Pow(v, P - 1) * k, k, P);
    CongMul(c, k, c, k, P);
    PowAdd(x, 2 * E + 2, 2 * E + 2);
    PowAdd(x, 2, 4 * E + 2);
    PowSmall(x);
    var w := Pow(x, 4 * E + 2);
    assert k * k == (x * x) * w;
    CongScale(c * c, (x * x) * w, v, P);
    assert v * ((x * x) * w) == (v * (x * x)) * w;
    CongSym(u, v * (x * x), P);
    if Unit(x) {
      EulerSign(x);
      var s := if Cong(w, 1, P) then 1 else -1;
      CongMul(v * (x * x), u, w, s, P);
      CongTrans(v * (c * c), (v * (x * x)) * w, u * s, P);
    } else {
      RootOfZero(u, v, c, x, w);
    }
  }

  lemma RootOfZero(u: int, v: int, c: int, x: int, w: int)
    requires !Unit(x) && Cong(u, v * (x * x), P) && Cong(v * (c * c), (v * (x * x)) * w, P)
    ensures Cong(v * (c * c), u, P)
  {
    hide Cong;
    CongScale(x, 0, v * x, P);
    assert v * x * x == v * (x * x);
    CongScale(v * (x * x), 0, w, P);
    CongTrans(u, v * (x * x), 0, P);
    CongTrans(v * (c * c), (v * (x * x)) * w, 0, P);
    CongSym(u, 0, P);
    CongTrans(v * (c * c), 0, u, P);
  }

  /** A root of -u/v times a root of -1 is a root of u/v. */
  lemma TurnedRoot(u: int, v: int, c: int, i: int, x: int, M: int)
    requires M > 0 && Cong(v * (c * c), -u, M) && Cong(i * i, -1, M) && Cong(x, c * i, M)
    ensures Cong(v * (x * x), u, M)
  {
    hide Cong;
    CongMul(x, c * i, x, c * i, M);
    CongScale(x * x, (c * i) * (c * i), v, M);
    assert v * ((c * i) * (c * i)) == (v * (c * c)) * (i * i);
    CongMul(v * (c * c), -u, i * i, -1, M);
    assert -u * -1 == u;
    CongTrans(v * (x * x), (v * (c * c)) * (i * i), u, M);
  }

  /** Two roots of the same u/v are equal or opposite. */
  lemma RootsOpposite(u: int, v: int, x: int, z: int)
    requires IsPrime(P) && Unit(v) && Cong(v * (x * x), u, P) && Cong(v * (z * z), u, P)
    ensures Cong(x, z, P) || Cong(x, -z, P)
  {
    hide Cong, IsPrime, Unit;
    CongSym(v * (z * z), u, P);
    CongTrans(v * (x * x), u, v * (z * z), P);
    assert v * (x * x) == (x * x) * v && v * (z * z) == (z * z) * v;
    Cancel(x * x, z * z, v);
    CongRefl(z * z, P);
    CongAdd(x * x, z * z, z * z, z * z, P);
    assert (x - z) * (x + z) == x * x - z * z;
    NoZeroDivisors(x - z, x + z, P);
    CongRefl(z, P);
    if Cong(x - z, 0, P) {
      CongAdd(x - z, 0, z, z, P);
    } else {
      CongAdd(x + z, 0, z, z, P);
      assert x + z - z == x;
    }
  }
}
