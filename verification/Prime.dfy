/** What primality gives: no zero divisors, Fermat's theorem, inverses. */
module Prime {
  import opened Arith

  ghost predicate IsPrime(p: int) {
    p > 1 && forall d :: 1 < d < p ==> p % d != 0
  }

  /** Euclid's lemma, by descent on the first factor. */
  lemma {:induction false} Descent(a: nat, b: int, p: int)
    requires IsPrime(p) && 0 < a < p && Cong(a * b, 0, p)
    ensures Cong(b, 0, p)
    decreases a
  {
    hide Cong;
    if a == 1 {
    } else {
      var q, r := p / a, p % a;
      assert r != 0;
      assert p == a * q + r;
      assert r * b == b * p - q * (a * b) by {
        assert (p - a * q) * b == p * b - (a * q) * b;
        assert (a * q) * b == q * (a * b);
      }
      CongIntro(b * p, 0, b, p);
      CongScale(a * b, 0, q, p);
      CongAdd(b * p, 0, q * (a * b), q * 0, p);
      assert q * 0 == 0;
      Descent(r, b, p);
    }
  }

  lemma NoZeroDivisors(a: int, b: int, p: int)
    requires IsPrime(p) && Cong(a * b, 0, p)
    ensures Cong(a, 0, p) || Cong(b, 0, p)
  {
    hide Cong, IsPrime;
    assert p > 1 by { PrimeAboveOne(p); }
    var r := a % p;
    CongMod(a, p);
    if r == 0 {
      CongSym(r, a, p);
    } else {
      CongScale(r, a, b, p);
      CongTrans(r * b, a * b, 0, p);
      Descent(r, b, p);
    }
  }

  lemma PrimeAboveOne(p: int)
    requires IsPrime(p)
    ensures p > 1
  {
  }

  // -------------------------------------------------------------------------
  // Fermat's theorem, by the binomial theorem
  // -------------------------------------------------------------------------

  ghost function Choose(n: nat, k: nat): nat {
    if k == 0 then 1 else if n == 0 then 0 else Choose(n - 1, k - 1) + Choose(n - 1, k)
  }

  lemma {:induction false} ChooseAbove(n: nat, k: nat)
    requires k > n
    ensures Choose(n, k) == 0
  {
    if n != 0 {
      ChooseAbove(n - 1, k - 1);
      ChooseAbove(n - 1, k);
    }
  }

  lemma {:induction false} ChooseFull(n: nat)
    ensures Choose(n, n) == 1
  {
    if n != 0 {
      ChooseFull(n - 1);
      ChooseAbove(n - 1, n);
    }
  }

  /** k C(n, k) = n C(n-1, k-1). */
  lemma {:induction false} ChooseAbsorb(n: nat, k: nat)
    requires 1 <= n && 1 <= k
    ensures k * Choose(n, k) == n * Choose(n - 1, k - 1)
    decreases n
  {
    if n == 1 {
      if k >= 2 {
        ChooseAbove(1, k);
        ChooseAbove(0, k - 1);
      }
    } else {
      ChooseAbsorb(n - 1, k);
      if k == 1 {
        assert Choose(n, 1) == Choose(n - 1, 0) + Choose(n - 1, 1);
      } else {
        ChooseAbsorb(n - 1, k - 1);
        ChooseStep(n, k);
        ChooseStep(n - 1, k - 1);
        hide Choose;
        AbsorbAlgebra(n, k, Choose(n - 2, k - 2), Choose(n - 2, k - 1), Choose(n - 1, k - 1), Choose(n - 1, k));
      }
    }
  }

  lemma ChooseStep(n: nat, k: nat)
    requires n >= 1 && k >= 1
    ensures Choose(n, k) == Choose(n - 1, k - 1) + Choose(n - 1, k)
  {
  }

  lemma AbsorbAlgebra(n: int, k: int, a: int, b: int, c: int, d: int)
    requires c == a + b && (k - 1) * c == (n - 1) * a && k * d == (n - 1) * b
    ensures k * (c + d) == n * c
  {
    assert k * (c + d) == (k - 1) * c + c + k * d;
    assert n * c == (n - 1) * a + (n - 1) * b + c;
  }

  /** The terms 0, ..., m - 1 of the binomial expansion of (x + 1)^n. */
  ghost function Binomial(x: int, n: nat, m: nat): int {
    if m == 0 then 0 else Binomial(x, n, m - 1) + Choose(n, m - 1) * Pow(x, m - 1)
  }

  lemma {:induction false} BinomialStep(x: int, n: nat, m: nat)
    requires n >= 1 && m >= 1
    ensures Binomial(x, n, m) == Binomial(x, n - 1, m) + x * Binomial(x, n - 1, m - 1)
  {
    if m == 1 {
    } else {
      BinomialStep(x, n, m - 1);
      TermStep(x, n, m);
      TermStep(x, n - 1, m);
      TermStep(x, n - 1, m - 1);
      ChooseStep(n, m - 1);
      assert Pow(x, m - 1) == x * Pow(x, m - 2);
      hide Binomial, Choose, Pow;
      BinomialAlgebra(x, Choose(n - 1, m - 2), Choose(n - 1, m - 1), Pow(x, m - 2), Binomial(x, n - 1, m - 2));
    }
  }

  lemma TermStep(x: int, n: nat, m: nat)
    requires m >= 1
    ensures Binomial(x, n, m) == Binomial(x, n, m - 1) + Choose(n, m - 1) * Pow(x, m - 1)
  {
  }

  lemma BinomialAlgebra(x: int, c: int, d: int, w: int, t: int)
    ensures (c + d) * (x * w) == d * (x * w) + x * (c * w)
    ensures x * (t + c * w) == x * t + x * (c * w)
  {
  }

  lemma Collect(x: int, b: int, w: int)
    ensures 0 * w == 0 && b + x * b == (x + 1) * b
  {
  }

  lemma {:induction false} BinomialTheorem(x: int, n: nat)
    ensures Binomial(x, n, n + 1) == Pow(x + 1, n)
  {
    if n == 0 {
      assert Binomial(x, 0, 1) == Binomial(x, 0, 0) + Choose(0, 0) * Pow(x, 0);
    } else {
      assert Pow(x + 1, n) == (x + 1) * Pow(x + 1, n - 1);
      hide Binomial, Choose, Pow;
      BinomialTheorem(x, n - 1);
      BinomialStep(x, n, n + 1);
      ChooseAbove(n - 1, n);
      TermStep(x, n - 1, n + 1);
      Collect(x, Binomial(x, n - 1, n), Pow(x, n));
    }
  }

  lemma ChooseDivisible(p: nat, k: nat)
    requires IsPrime(p) && 0 < k < p
    ensures Cong(Choose(p, k), 0, p)
  {
    ChooseAbsorb(p, k);
    hide Cong, Choose;
    CongIntro(k * Choose(p, k), 0, Choose(p - 1, k - 1), p);
    Descent(k, Choose(p, k), p);
  }

  /** The inner terms vanish: the first m terms are congruent to 1. */
  lemma {:induction false} BinomialCollapse(x: int, p: nat, m: nat)
    requires IsPrime(p) && 1 <= m <= p
    ensures Cong(Binomial(x, p, m), 1, p)
  {
    if m == 1 {
      assert Binomial(x, p, 1) == Binomial(x, p, 0) + Choose(p, 0) * Pow(x, 0);
      CongRefl(1, p);
    } else {
      BinomialCollapse(x, p, m - 1);
      ChooseDivisible(p, m - 1);
      hide Cong, Choose, Pow;
      var c, w := Choose(p, m - 1), Pow(x, m - 1);
      CongScale(c, 0, w, p);
      CongAdd(Binomial(x, p, m - 1), 1, c * w, 0 * w, p);
    }
  }

  lemma FreshmansDream(x: int, p: nat)
    requires IsPrime(p)
    ensures Cong(Pow(x + 1, p), Pow(x, p) + 1, p)
  {
    BinomialTheorem(x, p);
    BinomialCollapse(x, p, p);
    ChooseFull(p);
    assert Binomial(x, p, p + 1) == Binomial(x, p, p) + Choose(p, p) * Pow(x, p);
    hide Cong, Choose, Pow, Binomial;
    CongRefl(Pow(x, p), p);
    CongAdd(Binomial(x, p, p), 1, Pow(x, p), Pow(x, p), p);
  }

  lemma {:induction false} FermatNat(x: nat, p: nat)
    requires IsPrime(p)
    ensures Cong(Pow(x, p), x, p)
  {
    if x == 0 {
      assert Pow(0, p) == 0 * Pow(0, p - 1);
      CongRefl(0, p);
    } else {
      FermatNat(x - 1, p);
      FreshmansDream(x - 1, p);
      hide Cong, Pow;
      CongRefl(1, p);
      CongAdd(Pow(x - 1, p), x - 1, 1, 1, p);
      CongTrans(Pow(x, p), Pow(x - 1, p) + 1, x, p);
    }
  }

  lemma {:induction false} PowCong(a: int, b: int, e: nat, m: int)
    requires m > 0 && Cong(a, b, m)
    ensures Cong(Pow(a, e), Pow(b, e), m)
  {
    hide Cong;
    if e == 0 {
      CongRefl(1, m);
    } else {
      PowCong(a, b, e - 1, m);
      CongMul(a, b, Pow(a, e - 1), Pow(b, e - 1), m);
    }
  }

  /** Fermat: x^(p-1) is 1 for every x that p does not divide. */
  lemma Fermat(x: int, p: nat)
    requires IsPrime(p) && !Cong(x, 0, p)
    ensures Cong(Pow(x, p - 1), 1, p)
  {
    PrimeAboveOne(p);
    hide Cong, IsPrime;
    var r := x % p;
    CongMod(x, p);
    FermatNat(r, p);
    PowCong(x, r, p, p);
    CongTrans(Pow(x, p), Pow(r, p), r, p);
    CongTrans(Pow(x, p), r, x, p);
    var w := Pow(x, p - 1);
    assert Pow(x, p) == x * w;
    CongRefl(x, p);
    CongAdd(x * w, x, x, x, p);
    assert x * w - x == x * (w - 1);
    assert Cong(x * (w - 1), 0, p);
    NoZeroDivisors(x, w - 1, p);
    CongRefl(1, p);
    CongAdd(w - 1, 0, 1, 1, p);
  }

  /** x^(p-2) inverts x. */
  lemma FermatInverse(x: int, p: nat)
    requires IsPrime(p) && !Cong(x, 0, p)
    ensures p >= 2 && Cong(x * Pow(x, p - 2), 1, p)
  {
    PrimeAboveOne(p);
    Fermat(x, p);
    assert Pow(x, p - 1) == x * Pow(x, p - 2);
  }

  lemma PowZero(x: int, e: nat, p: int)
    requires p > 0 && e > 0 && Cong(x, 0, p)
    ensures Cong(Pow(x, e), 0, p)
  {
    assert Pow(x, e) == x * Pow(x, e - 1);
    hide Cong;
    CongScale(x, 0, Pow(x, e - 1), p);
  }
}
