/** Where the constants of SHA-512 come from: sections 4.2.3 and 5.3.5 of FIPS 180-4. */
module Sha512Constants {
  import opened Arith
  import opened Prime
  import opened Sha512Spec

  const PRIMES: seq<nat> :=
    [2, 3, 5, 7, 11, 13, 17, 19, 23, 29, 31, 37, 41, 43, 47, 53] +
    [59, 61, 67, 71, 73, 79, 83, 89, 97, 101, 103, 107, 109, 113, 127, 131] +
    [137, 139, 149, 151, 157, 163, 167, 173, 179, 181, 191, 193, 197, 199, 211, 223] +
    [227, 229, 233, 239, 241, 251, 257, 263, 269, 271, 277, 281, 283, 293, 307, 311] +
    [313, 317, 331, 337, 347, 349, 353, 359, 367, 373, 379, 383, 389, 397, 401, 409]

  // -------------------------------------------------------------------------
  // The first eighty primes
  // -------------------------------------------------------------------------

  /** No prime below 20 divides n, unless it is n. */
  predicate Survives(n: nat) {
    && n >= 2
    && (n % 2 != 0 || n == 2) && (n % 3 != 0 || n == 3) && (n % 5 != 0 || n == 5) && (n % 7 != 0 || n == 7)
    && (n % 11 != 0 || n == 11) && (n % 13 != 0 || n == 13) && (n % 17 != 0 || n == 17) && (n % 19 != 0 || n == 19)
  }

  /** A number with a divisor below 20 has a prime one. */
  lemma SmallDivisor(n: nat, d: nat)
    requires 1 < d < 21 && d < n && n % d == 0
    ensures !Survives(n)
  {
    if d % 2 == 0 {
      Divides(n, d, 2);
    } else if d % 3 == 0 {
      Divides(n, d, 3);
    } else if d % 5 == 0 {
      Divides(n, d, 5);
    } else {
      assert d == 7 || d == 11 || d == 13 || d == 17 || d == 19;
    }
  }

  lemma Divides(n: nat, d: nat, p: nat)
    requires p > 0 && d > 0 && d % p == 0 && n % d == 0
    ensures n % p == 0
  {
    var a, b := d / p, n / d;
    assert n == (a * p) * b;
    assert (a * p) * b == (a * b) * p;
    DivModUnique(n, p, a * b, 0);
  }

  lemma SurvivesIsPrime(n: nat)
    requires n < 441
    ensures Survives(n) <==> IsPrime(n)
  {
    if Survives(n) {
      forall d | 1 < d < n
        ensures n % d != 0
      {
        if n % d == 0 {
          hide Survives;
          Cofactor(n, d);
          SmallDivisor(n, if d < 21 then d else n / d);
        }
      }
    }
  }

  lemma Cofactor(n: nat, d: nat)
    requires 1 < d < n < 441 && n % d == 0
    ensures 1 < n / d < n && n % (n / d) == 0 && (d >= 21 ==> n / d < 21)
  {
    var q := n / d;
    assert n == q * d;
    if q <= 1 {
      MulMono(q, 1, d);
    }
    if d >= 21 && q >= 21 {
      MulMono(21, q, d);
    }
    MulMono(2, d, q);
    DivModUnique(n, q, d, 0);
  }

  /** How many numbers below n survive. */
  ghost function Survivors(n: nat): nat {
    if n == 0 then 0 else Survivors(n - 1) + if Survives(n - 1) then 1 else 0
  }

  function One(n: nat): nat {
    if Survives(n) then 1 else 0
  }

  /** Only the odd numbers of ten count. */
  lemma Ten(n: nat)
    requires n > 2 && n % 2 == 0
    ensures Survivors(n + 10) == Survivors(n) + One(n + 1) + One(n + 3) + One(n + 5) + One(n + 7) + One(n + 9)
  {
    Two(n);
    Two(n + 2);
    Two(n + 4);
    Two(n + 6);
    Two(n + 8);
    hide Survivors, One;
  }

  lemma Two(n: nat)
    requires n > 2 && n % 2 == 0
    ensures Survivors(n + 2) == Survivors(n) + One(n + 1)
  {
    SurvivorsStep(n);
    SurvivorsStep(n + 1);
  }

  lemma SurvivorsStep(n: nat)
    ensures Survivors(n + 1) == Survivors(n) + One(n) && Survivors(0) == 0
  {
    hide Survives;
  }

  lemma SurvivorsTo10()
    ensures Survivors(10) == 4
  {
  }

  lemma SurvivorsTo50()
    ensures Survivors(50) == 15
  {
    hide Survivors;
    SurvivorsTo10();
    Ten(10);
    Ten(20);
    Ten(30);
    Ten(40);
  }

  lemma SurvivorsTo110()
    ensures Survivors(110) == 29
  {
    hide Survivors;
    SurvivorsTo50();
    Ten(50);
    Ten(60);
    Ten(70);
    Ten(80);
    Ten(90);
    Ten(100);
  }

  lemma SurvivorsTo170()
    ensures Survivors(170) == 39
  {
    hide Survivors;
    SurvivorsTo110();
    Ten(110);
    Ten(120);
    Ten(130);
    Ten(140);
    Ten(150);
    Ten(160);
  }

  lemma SurvivorsTo230()
    ensures Survivors(230) == 50
  {
    hide Survivors;
    SurvivorsTo170();
    Ten(170);
    Ten(180);
    Ten(190);
    Ten(200);
    Ten(210);
    Ten(220);
  }

  lemma SurvivorsTo290()
    ensures Survivors(290) == 61
  {
    hide Survivors;
    SurvivorsTo230();
    Ten(230);
    Ten(240);
    Ten(250);
    Ten(260);
    Ten(270);
    Ten(280);
  }

  lemma SurvivorsTo350()
    ensures Survivors(350) == 70
  {
    hide Survivors;
    SurvivorsTo290();
    Ten(290);
    Ten(300);
    Ten(310);
    Ten(320);
    Ten(330);
    Ten(340);
  }

  lemma SurvivorsTo410()
    ensures Survivors(410) == 80
  {
    hide Survivors;
    SurvivorsTo350();
    Ten(350);
    Ten(360);
    Ten(370);
    Ten(380);
    Ten(390);
    Ten(400);
  }

  /** An ascending list of as many survivors as there are has them all. */
  lemma {:induction false} ListIsComplete(s: seq<nat>, n: nat)
    requires forall i :: 0 <= i < |s| ==> s[i] < n && Survives(s[i])
    requires forall i, j :: 0 <= i < j < |s| ==> s[i] < s[j]
    ensures |s| <= Survivors(n)
    ensures |s| == Survivors(n) ==> forall x: nat :: x < n && Survives(x) ==> x in s
  {
    hide Survives;
    var k := |s| - 1;
    if n == 0 {
      assert s == [];
    } else if k >= 0 && s[k] == n - 1 {
      ListIsComplete(s[..k], n - 1);
      assert s == s[..k] + [s[k]];
    } else {
      ListIsComplete(s, n - 1);
    }
  }

  /** The table lists the first eighty primes, all of them and in order. */
  lemma PrimesInOrder()
    ensures |PRIMES| == 80 && forall i, j :: 0 <= i < j < 80 ==> PRIMES[i] < PRIMES[j]
    ensures forall n: nat :: n in PRIMES <==> IsPrime(n) && n < 410
  {
    Ascending();
    SurvivorsTo410();
    hide Survives, Survivors;
    ListIsComplete(PRIMES, 410);
    forall n: nat | n < 410
      ensures Survives(n) <==> IsPrime(n)
    {
      SurvivesIsPrime(n);
    }
    assert forall t :: 0 <= t < |PRIMES| ==> PRIMES[t] in PRIMES;
  }

  /** Each entry of the table survives, and is followed by a larger one. */
  ghost predicate InPlace(t: nat) {
    t < |PRIMES| && PRIMES[t] < 410 && Survives(PRIMES[t]) && (t + 1 < |PRIMES| ==> PRIMES[t] < PRIMES[t + 1])
  }

  lemma Row0InPlace()
    ensures forall t :: 0 <= t < 16 ==> InPlace(t)
  {
  }

  lemma Row1InPlace()
    ensures forall t :: 16 <= t < 32 ==> InPlace(t)
  {
  }

  lemma Row2InPlace()
    ensures forall t :: 32 <= t < 48 ==> InPlace(t)
  {
  }

  lemma Row3InPlace()
    ensures forall t :: 48 <= t < 64 ==> InPlace(t)
  {
  }

  lemma Row4InPlace()
    ensures forall t :: 64 <= t < 80 ==> InPlace(t)
  {
  }

  lemma Ascending()
    ensures |PRIMES| == 80 && forall i, j :: 0 <= i < j < 80 ==> PRIMES[i] < PRIMES[j]
    ensures forall t :: 0 <= t < 80 ==> PRIMES[t] < 410 && Survives(PRIMES[t])
  {
    Row0InPlace();
    Row1InPlace();
    Row2InPlace();
    Row3InPlace();
    Row4InPlace();
    assert forall t :: 0 <= t < 80 ==> InPlace(t);
    AllInPlace();
    hide Survives, InPlace;
    forall i, j | 0 <= i < j < 80
      ensures PRIMES[i] < PRIMES[j]
    {
      Larger(i, j);
    }
  }

  lemma AllInPlace()
    ensures |PRIMES| == 80 && forall t: nat :: InPlace(t) ==> PRIMES[t] < 410 && Survives(PRIMES[t])
  {
    hide Survives;
  }

  lemma {:induction false} Larger(i: nat, j: nat)
    requires i < j < |PRIMES| && forall t :: 0 <= t < j ==> InPlace(t)
    ensures PRIMES[i] < PRIMES[j]
  {
    hide Survives;
    assert InPlace(j - 1);
    if i < j - 1 {
      Larger(i, j - 1);
    }
  }

  // -------------------------------------------------------------------------
  // Roots
  // -------------------------------------------------------------------------

  /** w is the first 64 bits of the fractional part of the cube root of n, whose integer part is c. */
  predicate IsCubeFraction(w: nat, n: nat, c: nat) {
    var x := c * 0x1_0000_0000_0000_0000 + w;
    x * x * x <= n * 0x1_0000_0000_0000_0000_0000_0000_0000_0000_0000_0000_0000_0000 < (x + 1) * (x + 1) * (x + 1)
  }

  predicate IsSquareFraction(w: nat, n: nat, c: nat) {
    var x := c * 0x1_0000_0000_0000_0000 + w;
    x * x <= n * 0x1_0000_0000_0000_0000_0000_0000_0000_0000 < (x + 1) * (x + 1)
  }

  /** The integer part of a cube root below 8. */
  function CubeRoot(n: nat): nat {
    if n < 8 then 1 else if n < 27 then 2 else if n < 64 then 3 else if n < 125 then 4
    else if n < 216 then 5 else if n < 343 then 6 else 7
  }

  lemma CubeRootIsRoot(n: nat)
    requires 0 < n < 512
    ensures var c := CubeRoot(n); c * c * c <= n < (c + 1) * (c + 1) * (c + 1)
  {
  }

  lemma Row0IsRoots()
    ensures |K| == |PRIMES| == 80 && forall t :: 0 <= t < 16 ==> IsCubeFraction(K[t], PRIMES[t], CubeRoot(PRIMES[t]))
  {
  }

  lemma Row1IsRoots()
    ensures |K| == |PRIMES| == 80 && forall t :: 16 <= t < 32 ==> IsCubeFraction(K[t], PRIMES[t], CubeRoot(PRIMES[t]))
  {
  }

  lemma Row2IsRoots()
    ensures |K| == |PRIMES| == 80 && forall t :: 32 <= t < 48 ==> IsCubeFraction(K[t], PRIMES[t], CubeRoot(PRIMES[t]))
  {
  }

  lemma Row3IsRoots()
    ensures |K| == |PRIMES| == 80 && forall t :: 48 <= t < 64 ==> IsCubeFraction(K[t], PRIMES[t], CubeRoot(PRIMES[t]))
  {
  }

  lemma Row4IsRoots()
    ensures |K| == |PRIMES| == 80 && forall t :: 64 <= t < 80 ==> IsCubeFraction(K[t], PRIMES[t], CubeRoot(PRIMES[t]))
  {
  }

  /** Each word of K is the first 64 bits of the fractional part of the cube root of the prime at its place. */
  lemma KIsCubeRoots(t: nat)
    requires t < 80
    ensures |K| == |PRIMES| == 80 && IsPrime(PRIMES[t])
    ensures var c := CubeRoot(PRIMES[t]); IsCubeFraction(K[t], PRIMES[t], c) && c * c * c <= PRIMES[t] < (c + 1) * (c + 1) * (c + 1)
  {
    PrimesInOrder();
    assert PRIMES[t] in PRIMES;
    CubeRootIsRoot(PRIMES[t]);
    Row0IsRoots();
    Row1IsRoots();
    Row2IsRoots();
    Row3IsRoots();
    Row4IsRoots();
    hide *;
  }

  /** The integer part of a square root below 5. */
  function SquareRoot(n: nat): nat {
    if n < 4 then 1 else if n < 9 then 2 else if n < 16 then 3 else 4
  }

  /** The initial hash value is the first 64 bits of the fractional parts of the square roots of the first eight primes. */
  lemma H0IsSquareRoots()
    ensures |PRIMES| == 80
    ensures var h: seq<word> := [H0.a, H0.b, H0.c, H0.d, H0.e, H0.f, H0.g, H0.h];
            forall t :: 0 <= t < 8 ==> var c := SquareRoot(PRIMES[t]);
              IsSquareFraction(h[t], PRIMES[t], c) && c * c <= PRIMES[t] < (c + 1) * (c + 1)
  {
  }
}
