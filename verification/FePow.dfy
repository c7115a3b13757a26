/** Powers of field elements: the squaring chains fe_invert and fe_pow22523 of fe.c. */
module FePow {
  import opened Arith
  import opened Fe
  import opened FeOps

  /** t is z to the k, within the bound every product accepts. */
  ghost predicate IsPow(t: Fe, z: Fe, k: nat) {
    Bounded(t, WIDE) && Cong(Val(t), Pow(Val(z), k), P)
  }

  lemma TightIsWide(t: Fe)
    requires Bounded(t, TIGHT)
    ensures Bounded(t, WIDE)
  {
  }

  lemma PowBound(t: Fe, z: Fe, k: nat)
    requires IsPow(t, z, k)
    ensures Bounded(t, WIDE)
  {
  }

  lemma MulIsPow(s: Fe, t: Fe, z: Fe, k: nat, l: nat)
    requires Bounded(s, WIDE) && Bounded(t, WIDE)
    requires Cong(Val(s), Pow(Val(z), k), P) && Cong(Val(t), Pow(Val(z), l), P)
    ensures IsPow(Mul(s, t), z, k + l) && Bounded(Mul(s, t), TIGHT)
  {
    hide Pow, Mul, Cong, Val;
    TightIsWide(Mul(s, t));
    var x := Val(z);
    PowAdd(x, k, l);
    CongMul(Val(s), Pow(x, k), Val(t), Pow(x, l), P);
    CongTrans(Val(Mul(s, t)), Val(s) * Val(t), Pow(x, k) * Pow(x, l), P);
  }

  lemma PowOne(z: Fe)
    requires Bounded(z, WIDE)
    ensures IsPow(z, z, 1)
  {
    assert Pow(Val(z), 1) == Val(z) * Pow(Val(z), 0);
    hide Val, Cong, Bounded;
    CongRefl(Val(z), P);
  }

  /** fe_mul on powers of z. */
  method MulPow(s: Fe, t: Fe, ghost z: Fe, ghost k: nat, ghost l: nat) returns (r: Fe)
    requires IsPow(s, z, k) && IsPow(t, z, l)
    ensures IsPow(r, z, k + l) && Bounded(r, TIGHT)
  {
    hide Pow, Mul, Cong, Val, Bounded;
    PowBound(s, z, k);
    PowBound(t, z, l);
    MulIsPow(s, t, z, k, l);
    r := Mul(s, t);
  }

  /** fe_sq on a power of z. */
  method SqPow(t: Fe, ghost z: Fe, ghost k: nat) returns (r: Fe)
    requires IsPow(t, z, k)
    ensures IsPow(r, z, 2 * k)
  {
    hide Pow, Mul, Sq, Cong, Val, Bounded;
    PowBound(t, z, k);
    MulIsPow(t, t, z, k, k);
    r := Sq(t);
  }

  /** k doubled n times. */
  ghost function Doubled(k: nat, n: nat): nat {
    if n == 0 then k else 2 * Doubled(k, n - 1)
  }

  lemma {:induction false} DoubledIsShift(k: nat, n: nat)
    ensures Doubled(k, n) == k * Pow2(n)
  {
    if n != 0 {
      DoubledIsShift(k, n - 1);
    }
  }

  /** Squaring n - 1 times multiplies the exponent by 2^(n-1). */
  method SqLoop(t0: Fe, n: nat, ghost z: Fe, ghost k: nat, ghost e: nat) returns (t: Fe)
    requires n >= 1 && IsPow(t0, z, k) && e == k * Pow2(n - 1)
    ensures IsPow(t, z, e)
  {
    hide IsPow;
    DoubledIsShift(k, n - 1);
    t := t0;
    for i := 1 to n
      invariant IsPow(t, z, Doubled(k, i - 1))
    {
      t := SqPow(t, z, Doubled(k, i - 1));
    }
  }

  lemma ShiftValues()
    ensures Pow2(0) == 0x1
    ensures Pow2(1) == 0x2
    ensures Pow2(4) == 0x10
    ensures Pow2(9) == 0x200
    ensures Pow2(19) == 0x80000
    ensures Pow2(49) == 0x2000000000000
    ensures Pow2(99) == 0x8000000000000000000000000
  {
    hide Pow2;
    Pow2Small();
    Pow2Add(8, 1);
    Pow2Add(9, 9);
    Pow2Add(18, 1);
    Pow2Add(19, 19);
    Pow2Add(38, 9);
    Pow2Add(47, 2);
    Pow2Add(49, 49);
    Pow2Add(98, 1);
  }

  /** fe_invert: z to the p - 2. */
  method Invert(z: Fe) returns (out: Fe)
    requires Bounded(z, WIDE)
    ensures Bounded(out, TIGHT) && IsPow(out, z, 0x7fffffffffffffffffffffffffffffffffffffffffffffffffffffffffffffeb)
  {
    hide IsPow, Bounded, Pow2;
    ShiftValues();
    PowOne(z);
    var t0: Fe, t1: Fe, t2: Fe, t3: Fe;
    t0 := SqPow(z, z, 0x1);
    t0 := SqLoop(t0, 1, z, 0x2, 0x2);
    t1 := SqPow(t0, z, 0x2);
    t1 := SqLoop(t1, 2, z, 0x4, 0x8);
    t1 := MulPow(z, t1, z, 0x1, 0x8);
    t0 := MulPow(t0, t1, z, 0x2, 0x9);
    t2 := SqPow(t0, z, 0xb);
    t2 := SqLoop(t2, 1, z, 0x16, 0x16);
    t1 := MulPow(t1, t2, z, 0x9, 0x16);
    t2 := SqPow(t1, z, 0x1f);
    t2 := SqLoop(t2, 5, z, 0x3e, 0x3e0);
    t1 := MulPow(t2, t1, z, 0x3e0, 0x1f);
    t2 := SqPow(t1, z, 0x3ff);
    t2 := SqLoop(t2, 10, z, 0x7fe, 0xffc00);
    t2 := MulPow(t2, t1, z, 0xffc00, 0x3ff);
    t3 := SqPow(t2, z, 0xfffff);
    t3 := SqLoop(t3, 20, z, 0x1ffffe, 0xfffff00000);
    t2 := MulPow(t3, t2, z, 0xfffff00000, 0xfffff);
    t2 := SqPow(t2, z, 0xffffffffff);
    t2 := SqLoop(t2, 10, z, 0x1fffffffffe, 0x3fffffffffc00);
    t1 := MulPow(t2, t1, z, 0x3fffffffffc00, 0x3ff);
    t2 := SqPow(t1, z, 0x3ffffffffffff);
    t2 := SqLoop(t2, 50, z, 0x7fffffffffffe, 0xffffffffffffc000000000000);
    t2 := MulPow(t2, t1, z, 0xffffffffffffc000000000000, 0x3ffffffffffff);
    t3 := SqPow(t2, z, 0xfffffffffffffffffffffffff);
    t3 := SqLoop(t3, 100, z, 0x1ffffffffffffffffffffffffe, 0xfffffffffffffffffffffffff0000000000000000000000000);
    t2 := MulPow(t3, t2, z, 0xfffffffffffffffffffffffff0000000000000000000000000, 0xfffffffffffffffffffffffff);
    t2 := SqPow(t2, z, 0xffffffffffffffffffffffffffffffffffffffffffffffffff);
    t2 := SqLoop(t2, 50, z, 0x1fffffffffffffffffffffffffffffffffffffffffffffffffe, 0x3fffffffffffffffffffffffffffffffffffffffffffffffffc000000000000);
    t1 := MulPow(t2, t1, z, 0x3fffffffffffffffffffffffffffffffffffffffffffffffffc000000000000, 0x3ffffffffffff);
    t1 := SqPow(t1, z, 0x3ffffffffffffffffffffffffffffffffffffffffffffffffffffffffffffff);
    t1 := SqLoop(t1, 5, z, 0x7fffffffffffffffffffffffffffffffffffffffffffffffffffffffffffffe, 0x7fffffffffffffffffffffffffffffffffffffffffffffffffffffffffffffe0);
    out := MulPow(t1, t0, z, 0x7fffffffffffffffffffffffffffffffffffffffffffffffffffffffffffffe0, 0xb);
  }

  /** fe_pow22523: z to the 2^252 - 3. */
  method Pow22523(z: Fe) returns (out: Fe)
    requires Bounded(z, WIDE)
    ensures Bounded(out, TIGHT) && IsPow(out, z, 0xffffffffffffffffffffffffffffffffffffffffffffffffffffffffffffffd)
  {
    hide IsPow, Bounded, Pow2;
    ShiftValues();
    PowOne(z);
    var t0: Fe, t1: Fe, t2: Fe;
    t0 := SqPow(z, z, 0x1);
    t0 := SqLoop(t0, 1, z, 0x2, 0x2);
    t1 := SqPow(t0, z, 0x2);
    t1 := SqLoop(t1, 2, z, 0x4, 0x8);
    t1 := MulPow(z, t1, z, 0x1, 0x8);
    t0 := MulPow(t0, t1, z, 0x2, 0x9);
    t0 := SqPow(t0, z, 0xb);
    t0 := SqLoop(t0, 1, z, 0x16, 0x16);
    t0 := MulPow(t1, t0, z, 0x9, 0x16);
    t1 := SqPow(t0, z, 0x1f);
    t1 := SqLoop(t1, 5, z, 0x3e, 0x3e0);
    t0 := MulPow(t1, t0, z, 0x3e0, 0x1f);
    t1 := SqPow(t0, z, 0x3ff);
    t1 := SqLoop(t1, 10, z, 0x7fe, 0xffc00);
    t1 := MulPow(t1, t0, z, 0xffc00, 0x3ff);
    t2 := SqPow(t1, z, 0xfffff);
    t2 := SqLoop(t2, 20, z, 0x1ffffe, 0xfffff00000);
    t1 := MulPow(t2, t1, z, 0xfffff00000, 0xfffff);
    t1 := SqPow(t1, z, 0xffffffffff);
    t1 := SqLoop(t1, 10, z, 0x1fffffffffe, 0x3fffffffffc00);
    t0 := MulPow(t1, t0, z, 0x3fffffffffc00, 0x3ff);
    t1 := SqPow(t0, z, 0x3ffffffffffff);
    t1 := SqLoop(t1, 50, z, 0x7fffffffffffe, 0xffffffffffffc000000000000);
    t1 := MulPow(t1, t0, z, 0xffffffffffffc000000000000, 0x3ffffffffffff);
    t2 := SqPow(t1, z, 0xfffffffffffffffffffffffff);
    t2 := SqLoop(t2, 100, z, 0x1ffffffffffffffffffffffffe, 0xfffffffffffffffffffffffff0000000000000000000000000);
    t1 := MulPow(t2, t1, z, 0xfffffffffffffffffffffffff0000000000000000000000000, 0xfffffffffffffffffffffffff);
    t1 := SqPow(t1, z, 0xffffffffffffffffffffffffffffffffffffffffffffffffff);
    t1 := SqLoop(t1, 50, z, 0x1fffffffffffffffffffffffffffffffffffffffffffffffffe, 0x3fffffffffffffffffffffffffffffffffffffffffffffffffc000000000000);
    t0 := MulPow(t1, t0, z, 0x3fffffffffffffffffffffffffffffffffffffffffffffffffc000000000000, 0x3ffffffffffff);
    t0 := SqPow(t0, z, 0x3ffffffffffffffffffffffffffffffffffffffffffffffffffffffffffffff);
    t0 := SqLoop(t0, 2, z, 0x7fffffffffffffffffffffffffffffffffffffffffffffffffffffffffffffe, 0xffffffffffffffffffffffffffffffffffffffffffffffffffffffffffffffc);
    out := MulPow(t0, z, z, 0xffffffffffffffffffffffffffffffffffffffffffffffffffffffffffffffc, 0x1);
  }
}
