/** Division, powers and congruences over the unbounded integers. */
module Arith {

  function Pow2(n: nat): (p: int)
    ensures p >= 1
  {
    if n == 0 then 1 else 2 * Pow2(n - 1)
  }

  lemma {:induction false} Pow2Add(m: nat, n: nat)
    ensures Pow2(m + n) == Pow2(m) * Pow2(n)
  {
    if m != 0 {
      Pow2Add(m - 1, n);
      assert 2 * (Pow2(m - 1) * Pow2(n)) == (2 * Pow2(m - 1)) * Pow2(n);
    }
  }

  ghost function Pow(b: int, e: nat): int
    decreases e
  {
    if e == 0 then 1 else b * Pow(b, e - 1)
  }

  lemma {:induction false} PowAdd(b: int, m: nat, n: nat)
    ensures Pow(b, m + n) == Pow(b, m) * Pow(b, n)
    decreases m
  {
    if m != 0 {
      PowAdd(b, m - 1, n);
      assert b * (Pow(b, m - 1) * Pow(b, n)) == (b * Pow(b, m - 1)) * Pow(b, n);
    }
  }

  /** The powers that the limb layouts use. */
  lemma Pow2Small()
    ensures Pow2(0) == 0x1
    ensures Pow2(1) == 0x2 && Pow2(2) == 0x4 && Pow2(3) == 0x8 && Pow2(4) == 0x10
    ensures Pow2(6) == 0x40 && Pow2(7) == 0x80
    ensures Pow2(5) == 0x20
    ensures Pow2(8) == 0x100
    ensures Pow2(16) == 0x10000
  {
    Pow2Add(8, 8);
  }

  lemma Pow2Words()
    ensures Pow2(21) == 0x200000
    ensures Pow2(26) == 0x4000000
    ensures Pow2(32) == 0x100000000
    ensures Pow2(42) == 0x40000000000
    ensures Pow2(51) == 0x8000000000000
    ensures Pow2(63) == 0x8000000000000000
  {
    Pow2Small();
    hide Pow2;
    Pow2Add(16, 5);
    Pow2Add(21, 5);
    Pow2Add(16, 16);
    Pow2Add(21, 21);
    Pow2Add(26, 16);
    Pow2Add(42, 8);
    Pow2Add(50, 1);
    Pow2Add(42, 21);
  }

  lemma Pow2Large()
    ensures Pow2(84) == 0x1000000000000000000000
    ensures Pow2(105) == 0x200000000000000000000000000
    ensures Pow2(126) == 0x40000000000000000000000000000000
    ensures Pow2(231) == 0x8000000000000000000000000000000000000000000000000000000000
    ensures Pow2(252) == 0x1000000000000000000000000000000000000000000000000000000000000000
    ensures Pow2(255) == 0x8000000000000000000000000000000000000000000000000000000000000000
    ensures Pow2(256) == 0x10000000000000000000000000000000000000000000000000000000000000000
  {
    Pow2Small();
    Pow2Words();
    hide Pow2;
    Pow2Add(63, 21);
    Pow2Add(84, 21);
    Pow2Add(63, 63);
    Pow2Add(126, 105);
    Pow2Add(126, 126);
    Pow2Add(252, 1);
    Pow2Add(253, 1);
    Pow2Add(254, 1);
    Pow2Add(255, 1);
  }

  /** Quotient and remainder are the only pair that fits. */
  lemma DivModUnique(n: int, d: int, q: int, r: int)
    requires d > 0 && 0 <= r < d && n == q * d + r
    ensures n / d == q && n % d == r
  {
    var q', r' := n / d, n % d;
    assert n == q' * d + r';
    assert (q - q') * d == r' - r && (q' - q) * d == r - r';
    assert q == q' by {
      if q > q' {
        MulGrows(q - q', d);
      } else if q < q' {
        MulGrows(q' - q, d);
      }
    }
  }

  lemma MulGrows(a: int, d: int)
    requires a >= 1 && d >= 0
    ensures a * d >= d
  {
    assert a * d == d + (a - 1) * d;
    assert (a - 1) * d >= 0;
  }

  lemma MulMono(a: int, b: int, d: int)
    requires a <= b && d >= 0
    ensures a * d <= b * d && d * a <= d * b
  {
    assert (b - a) * d >= 0;
    assert b * d == a * d + (b - a) * d;
  }

  lemma NatProduct(x: int, y: int, p: int, q: int)
    requires 0 <= x <= p && 0 <= y <= q
    ensures 0 <= x * y <= p * q
  {
    MulMono(x, p, y);
    MulMono(y, q, p);
  }

  lemma ProductBound(x: int, y: int, p: int, q: int)
    requires -p <= x <= p && -q <= y <= q
    ensures -(p * q) <= x * y <= p * q
  {
    assert (p - x) * (q + y) >= 0;
    assert (p + x) * (q - y) >= 0;
    assert (p + x) * (q + y) >= 0;
    assert (p - x) * (q - y) >= 0;
    assert (p - x) * (q + y) == p * q + p * y - x * q - x * y;
    assert (p + x) * (q - y) == p * q - p * y + x * q - x * y;
    assert (p + x) * (q + y) == p * q + p * y + x * q + x * y;
    assert (p - x) * (q - y) == p * q - p * y - x * q + x * y;
  }

  lemma DivDiv(n: int, a: int, b: int)
    requires a > 0 && b > 0
    ensures a * b > 0 && (n / a) / b == n / (a * b)
  {
    var q := n / a;
    var r := n % a;
    var q2 := q / b;
    var r2 := q % b;
    assert a * b > 0;
    assert n == a * q + r && q == b * q2 + r2;
    calc {
      n;
      a * (b * q2 + r2) + r;
      q2 * (a * b) + (a * r2 + r);
    }
    MulMono(r2, b - 1, a);
    assert a * (b - 1) == a * b - a;
    assert 0 <= a * r2;
    DivModUnique(n, a * b, q2, a * r2 + r);
  }

  lemma ModDiv(n: int, a: int, b: int)
    requires a > 0 && b > 0
    ensures a * b > 0 && (n % (a * b)) / a == (n / a) % b
  {
    var q := n / a;
    var r := n % a;
    var q2 := q / b;
    var r2 := q % b;
    assert a * b > 0;
    calc {
      n;
      a * (b * q2 + r2) + r;
      q2 * (a * b) + (a * r2 + r);
    }
    MulMono(r2, b - 1, a);
    assert a * (b - 1) == a * b - a;
    assert 0 <= a * r2;
    DivModUnique(n, a * b, q2, a * r2 + r);
    DivModUnique(a * r2 + r, a, r2, r);
  }

  lemma ModMod(n: int, a: int, b: int)
    requires a > 0 && b > 0
    ensures a * b > 0 && (n % (a * b)) % a == n % a
  {
    assert a * b > 0;
    var q := n / (a * b);
    var r := n % (a * b);
    assert n == (a * b) * q + r;
    var q1 := r / a;
    assert r == a * q1 + r % a;
    assert (a * b) * q == (b * q) * a;
    assert n == (b * q + q1) * a + r % a by {
      assert (b * q + q1) * a == (b * q) * a + q1 * a;
    }
    DivModUnique(n, a, b * q + q1, r % a);
  }

  lemma AddMultiple(n: int, k: int, d: int)
    requires d > 0
    ensures (n + k * d) / d == n / d + k
  {
    DivModUnique(n + k * d, d, n / d + k, n % d);
  }

  lemma ModMultiple(n: int, k: int, d: int)
    requires d > 0
    ensures (n + k * d) % d == n % d
  {
    DivModUnique(n + k * d, d, n / d + k, n % d);
  }

  // -------------------------------------------------------------------------
  // Congruence
  // -------------------------------------------------------------------------

  ghost predicate Cong(a: int, b: int, m: int)
    requires m > 0
  {
    exists k: int :: a - b == k * m
  }

  lemma CongIntro(a: int, b: int, k: int, m: int)
    requires m > 0 && a - b == k * m
    ensures Cong(a, b, m)
  {
  }

  lemma CongElim(a: int, b: int, m: int) returns (k: int)
    requires m > 0 && Cong(a, b, m)
    ensures a == b + k * m
  {
    k :| a - b == k * m;
  }

  lemma CongByMod(a: int, b: int, m: int)
    requires m > 0 && (a - b) % m == 0
    ensures Cong(a, b, m)
  {
    CongIntro(a, b, (a - b) / m, m);
  }

  lemma CongRefl(a: int, m: int)
    requires m > 0
    ensures Cong(a, a, m)
  {
    CongIntro(a, a, 0, m);
  }

  lemma CongSym(a: int, b: int, m: int)
    requires m > 0 && Cong(a, b, m)
    ensures Cong(b, a, m)
  {
    var k := CongElim(a, b, m);
    CongIntro(b, a, -k, m);
  }

  lemma CongTrans(a: int, b: int, c: int, m: int)
    requires m > 0 && Cong(a, b, m) && Cong(b, c, m)
    ensures Cong(a, c, m)
  {
    var k := CongElim(a, b, m);
    var l := CongElim(b, c, m);
    assert (k + l) * m == k * m + l * m;
    CongIntro(a, c, k + l, m);
  }

  lemma CongAdd(a: int, b: int, c: int, d: int, m: int)
    requires m > 0 && Cong(a, b, m) && Cong(c, d, m)
    ensures Cong(a + c, b + d, m)
    ensures Cong(a - c, b - d, m)
  {
    var k := CongElim(a, b, m);
    var l := CongElim(c, d, m);
    assert (k + l) * m == k * m + l * m;
    assert (k - l) * m == k * m - l * m;
    CongIntro(a + c, b + d, k + l, m);
    CongIntro(a - c, b - d, k - l, m);
  }

  lemma CongMul(a: int, b: int, c: int, d: int, m: int)
    requires m > 0 && Cong(a, b, m) && Cong(c, d, m)
    ensures Cong(a * c, b * d, m)
  {
    CongScale(a, b, c, m);
    CongScale(c, d, b, m);
    CongTrans(a * c, b * c, b * d, m);
  }

  lemma CongScale(a: int, b: int, c: int, m: int)
    requires m > 0 && Cong(a, b, m)
    ensures Cong(a * c, b * c, m) && Cong(c * a, c * b, m)
  {
    var k := CongElim(a, b, m);
    assert (b + k * m) * c == b * c + (k * c) * m;
    CongIntro(a * c, b * c, k * c, m);
  }

  lemma CongMod(a: int, m: int)
    requires m > 0
    ensures Cong(a % m, a, m) && Cong(a, a % m, m)
  {
    CongIntro(a, a % m, a / m, m);
    CongSym(a, a % m, m);
  }

  /** Congruent residues are equal. */
  lemma CongEq(a: int, b: int, m: int)
    requires m > 0 && 0 <= a < m && 0 <= b < m && Cong(a, b, m)
    ensures a == b
  {
    var k := CongElim(a, b, m);
    if k >= 1 {
      MulGrows(k, m);
    } else if k <= -1 {
      MulGrows(-k, m);
    }
  }

  lemma CongSameMod(a: int, b: int, m: int)
    requires m > 0
    ensures Cong(a, b, m) <==> a % m == b % m
  {
    CongMod(a, m);
    CongMod(b, m);
    if Cong(a, b, m) {
      CongTrans(a % m, a, b, m);
      CongTrans(a % m, b, b % m, m);
      CongEq(a % m, b % m, m);
    }
    if a % m == b % m {
      CongTrans(a, a % m, b, m);
    }
  }
}
