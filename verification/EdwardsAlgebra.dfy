/** Polynomial identities behind the Edwards addition law, over the integers. */
module EdwardsAlgebra {

  lemma SquareOfSum(a: int, b: int)
    ensures (a + b) * (a + b) == a * a + 2 * (a * b) + b * b
    ensures (a - b) * (a - b) == a * a - 2 * (a * b) + b * b
  {
  }

  lemma SquareOfProduct(a: int, b: int)
    ensures (a * b) * (a * b) == (a * a) * (b * b)
  {
    assert (a * b) * (a * b) == a * (b * (a * b)) && b * (a * b) == a * (b * b) && a * (a * (b * b)) == (a * a) * (b * b);
  }

  lemma FourProduct(a: int, b: int, c: int, f: int)
    ensures (a * b) * (c * f) == (a * c) * (b * f) == (a * f) * (b * c)
  {
    assert (a * b) * (c * f) == a * (b * (c * f)) && b * (c * f) == c * (b * f) && b * (c * f) == f * (b * c);
    assert a * (c * (b * f)) == (a * c) * (b * f) && a * (f * (b * c)) == (a * f) * (b * c);
  }

  /** S = bf + ac and R = af + bc. */
  lemma CrossSquares(a: int, b: int, c: int, f: int, S: int, R: int)
    requires S == b * f + a * c && R == a * f + b * c
    ensures S * S - R * R == (b * b - a * a) * (f * f - c * c)
    ensures S * S + R * R == (b * b + a * a) * (f * f + c * c) + 4 * ((a * b) * (c * f))
    ensures S * R == (a * b) * (f * f + c * c) + (c * f) * (a * a + b * b)
  {
    SquareOfSum(b * f, a * c);
    SquareOfSum(a * f, b * c);
    SquareOfProduct(b, f);
    SquareOfProduct(a, c);
    SquareOfProduct(a, f);
    SquareOfProduct(b, c);
    FourProduct(a, b, c, f);
    var A, B, C, F := a * a, b * b, c * c, f * f;
    assert (B - A) * (F - C) == B * F - B * C - A * F + A * C;
    assert (B + A) * (F + C) == B * F + B * C + A * F + A * C;
    CrossProduct(a, b, c, f);
  }

  lemma CrossProduct(a: int, b: int, c: int, f: int)
    ensures (b * f + a * c) * (a * f + b * c) == (a * b) * (f * f + c * c) + (c * f) * (a * a + b * b)
  {
    assert (b * f + a * c) * (a * f + b * c) == (b * f) * (a * f) + (b * f) * (b * c) + (a * c) * (a * f) + (a * c) * (b * c);
    FourProduct(b, f, a, f);
    FourProduct(b, f, b, c);
    FourProduct(a, c, a, f);
    FourProduct(a, c, b, c);
    assert (a * b) * (f * f + c * c) == (a * b) * (f * f) + (a * b) * (c * c);
    assert (c * f) * (a * a + b * b) == (c * f) * (a * a) + (c * f) * (b * b);
  }

  /** The part of the identity without e: (SR)^2 - 2abcf (S^2 + R^2) = (ab)^2 (f^2 - c^2)^2 + (cf)^2 (b^2 - a^2)^2. */
  lemma CoreIdentity(u: int, w: int, G: int, F: int, A: int, B: int)
    requires F * F == B * B + 4 * (w * w) && G * G == A * A + 4 * (u * u)
    ensures (u * F + w * G) * (u * F + w * G) - 2 * (u * w) * (G * F + 4 * (u * w)) == (u * u) * (B * B) + (w * w) * (A * A)
  {
    SquareOfSum(u * F, w * G);
    SquareOfProduct(u, F);
    SquareOfProduct(w, G);
    SquareOfProduct(u, w);
    FourProduct(u, F, w, G);
    assert (u * w) * (G * F + 4 * (u * w)) == (u * w) * (G * F) + 4 * ((u * w) * (u * w));
    assert (u * u) * (B * B + 4 * (w * w)) == (u * u) * (B * B) + 4 * ((u * u) * (w * w));
    assert (w * w) * (A * A + 4 * (u * u)) == (w * w) * (A * A) + 4 * ((w * w) * (u * u));
  }

  lemma SumOfSquares(a: int, b: int)
    ensures (a * a + b * b) * (a * a + b * b) == (b * b - a * a) * (b * b - a * a) + 4 * ((a * b) * (a * b))
  {
    SquareOfProduct(a, b);
    SquareOfSum(a * a, b * b);
    SquareOfSum(b * b, a * a);
  }

  /** The identity behind closure, for e = d (ab)(cf). */
  lemma ClosureIdentity(a: int, b: int, c: int, f: int, S: int, R: int, d: int, e: int)
    requires S == b * f + a * c && R == a * f + b * c && e == d * ((a * b) * (c * f))
    ensures var A, B, u, w := b * b - a * a, f * f - c * c, a * b, c * f;
            (S * S) * ((1 + e) * (1 + e)) - (R * R) * ((1 - e) * (1 - e)) - d * ((S * R) * (S * R))
            == (A - B * (d * (u * u))) * (B - A * (d * (w * w)))
  {
    var A, B, u, w := b * b - a * a, f * f - c * c, a * b, c * f;
    var G, F := a * a + b * b, f * f + c * c;
    CrossSquares(a, b, c, f, S, R);
    SumOfSquares(a, b);
    SumOfSquares(c, f);
    CoreIdentity(u, w, G, F, A, B);
    ClosureLeft(S * S, R * R, S * R, d, e, A * B, G * F, u * w, (u * u) * (B * B) + (w * w) * (A * A));
    ClosureRight(A, B, u, w, d, e);
  }

  lemma ClosureLeft(s: int, r: int, m: int, d: int, e: int, ab: int, gf: int, t: int, core: int)
    requires s - r == ab && s + r == gf + 4 * t && e == d * t && m * m - 2 * t * (gf + 4 * t) == core
    ensures s * ((1 + e) * (1 + e)) - r * ((1 - e) * (1 - e)) - d * (m * m) == ab * (1 + e * e) - d * core
  {
    SquareTimes(s, e);
    SquareTimes(r, e);
    TwoTerms(s, r, 1 + e * e);
    TwoTerms(s, r, e);
    DoubleTerm(d, t, gf + 4 * t, e);
    TwoTerms(m * m, 2 * t * (gf + 4 * t), d);
  }

  lemma SquareTimes(s: int, e: int)
    ensures s * ((1 + e) * (1 + e)) == s * (1 + e * e) + 2 * (s * e)
    ensures s * ((1 - e) * (1 - e)) == s * (1 + e * e) - 2 * (s * e)
  {
    SquareOfSum(1, e);
    var q := 1 + e * e;
    assert s * (q + 2 * e) == s * q + 2 * (s * e) && s * (q - 2 * e) == s * q - 2 * (s * e);
  }

  lemma TwoTerms(s: int, r: int, q: int)
    ensures s * q + r * q == (s + r) * q && s * q - r * q == (s - r) * q
    ensures q * s - q * r == q * (s - r)
  {
  }

  lemma DoubleTerm(d: int, t: int, g: int, e: int)
    requires e == d * t
    ensures d * (2 * t * g) == 2 * (g * e)
  {
    assert 2 * t * g == t * (2 * g) && d * (t * (2 * g)) == (d * t) * (2 * g);
  }

  lemma ClosureRight(A: int, B: int, u: int, w: int, d: int, e: int)
    requires e == d * (u * w)
    ensures (A - B * (d * (u * u))) * (B - A * (d * (w * w))) == (A * B) * (1 + e * e) - d * ((u * u) * (B * B) + (w * w) * (A * A))
  {
    var p, q := d * (u * u), d * (w * w);
    assert p * q == e * e by {
      SquareOfProduct(d, u * w);
      SquareOfProduct(u, w);
      FourProduct(d, u * u, d, w * w);
    }
    assert (A - B * p) * (B - A * q) == A * B - (A * A) * q - (B * B) * p + (B * p) * (A * q) by {
      assert (A - B * p) * (B - A * q) == A * B - A * (A * q) - (B * p) * B + (B * p) * (A * q);
      assert A * (A * q) == (A * A) * q && (B * p) * B == (B * B) * p;
    }
    FourProduct(B, p, A, q);
    assert d * ((u * u) * (B * B) + (w * w) * (A * A)) == (B * B) * p + (A * A) * q by {
      assert d * ((u * u) * (B * B)) == (B * B) * (d * (u * u));
      assert d * ((w * w) * (A * A)) == (A * A) * (d * (w * w));
    }
    assert (A * B) * (1 + e * e) == A * B + (A * B) * (e * e) && B * A == A * B;
  }

  /** The identities behind completeness: with i^2 = n, t = ab, w = cf and e = d t w. */
  lemma RootIdentity(a: int, b: int, d: int, e: int, i: int, n: int, t: int, w: int)
    requires t == a * b && e == d * (t * w) && i * i == n
    ensures (i * a + e * b) * (i * a + e * b) == n * (a * a) + (e * e) * (b * b) + 2 * (i * (d * (t * t) * w))
  {
    SquareOfSum(i * a, e * b);
    SquareOfProduct(i, a);
    SquareOfProduct(e, b);
    FourProduct(i, a, e, b);
    ThirdPower(d, t, w);
    assert (i * e) * t == i * (e * t);
  }

  lemma ThirdPower(d: int, t: int, w: int)
    ensures d * (t * w) * t == d * (t * t) * w
  {
    assert (t * w) * t == (t * t) * w;
    assert d * (t * w) * t == d * ((t * w) * t) && d * ((t * t) * w) == d * (t * t) * w;
  }

  lemma ScaledRoot(c: int, f: int, i: int, n: int, m: int, w: int)
    requires i * i == n && w == c * f
    ensures m * ((i * c + f) * (i * c + f)) == m * (n * (c * c) + f * f) + 2 * (i * (m * w))
  {
    SquareOfSum(i * c, f);
    SquareOfProduct(i, c);
    assert i * c * f == i * w;
    assert m * (n * (c * c) + 2 * (i * w) + f * f) == m * (n * (c * c) + f * f) + m * (2 * (i * w));
    assert m * (2 * (i * w)) == 2 * (i * (m * w));
  }
}
