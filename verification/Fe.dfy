/** The field Z/(2^255-19): ten-limb elements, carries, and the operations without products (fe.c). */
module Fe {
  import opened Arith
  import opened Bits

  /** 2^255 - 19. A proof that needs its digits asks for them with PValue. */
  ghost const P: int := FieldPrime()

  ghost predicate IsTimes(p: int, t: int) {
    t * p == t * 0x7fffffff_ffffffff_ffffffff_ffffffff_ffffffff_ffffffff_ffffffff_ffffffed
  }

  ghost predicate IsFieldPrime(p: int) {
    forall t: int :: IsTimes(p, t)
  }

  ghost function FieldPrime(): (p: int)
    ensures p > 0x1_0000_0000
  {
    assert IsFieldPrime(0x7fffffff_ffffffff_ffffffff_ffffffff_ffffffff_ffffffff_ffffffff_ffffffed);
    var p: int :| IsFieldPrime(p);
    assert IsTimes(p, 1);
    p
  }

  lemma PValue()
    ensures P == 0x7fffffff_ffffffff_ffffffff_ffffffff_ffffffff_ffffffff_ffffffff_ffffffed
  {
    assert IsTimes(P, 1);
  }

  /** An element, limbs of 26 and 25 bits in turn; each operation reads all its limbs before it writes. */
  datatype Fe = Fe(v0: int, v1: int, v2: int, v3: int, v4: int, v5: int, v6: int, v7: int, v8: int, v9: int)

  /** 2^26 for even limbs, 2^25 for odd ones: what a unit of the next limb is worth. */
  function Radix(even: bool): int {
    if even then 0x4000000 else 0x2000000
  }

  /** Limbs in radix 2^25.5: the even ones have 26 bits, the odd ones 25. */
  ghost function LimbSum(s: seq<int>, even: bool): int {
    if |s| == 0 then 0 else s[0] + Radix(even) * LimbSum(s[1..], !even)
  }

  ghost function Limbs(h: Fe): (s: seq<int>)
    ensures |s| == 10
  {
    [h.v0, h.v1, h.v2, h.v3, h.v4, h.v5, h.v6, h.v7, h.v8, h.v9]
  }

  ghost function Val(h: Fe): int {
    LimbSum(Limbs(h), true)
  }

  lemma ValSum(h: Fe)
    ensures Val(h) == h.v0 + 0x4000000 * h.v1 + 0x8000000000000 * h.v2 + 0x20000000000000000000 * h.v3
                      + 0x40000000000000000000000000 * h.v4 + 0x100000000000000000000000000000000 * h.v5 + 0x200000000000000000000000000000000000000 * h.v6
                      + 0x800000000000000000000000000000000000000000000 * h.v7 + 0x1000000000000000000000000000000000000000000000000000 * h.v8
                      + 0x4000000000000000000000000000000000000000000000000000000000 * h.v9
  {
    ghost var s5 := LastLimbs(h);
    ghost var s4 := Joined(h.v4, s5, true);
    ghost var s3 := Joined(h.v3, s4, false);
    ghost var s2 := Joined(h.v2, s3, true);
    ghost var s1 := Joined(h.v1, s2, false);
    ghost var s0 := Joined(h.v0, s1, true);
    assert s0 == [h.v0, h.v1, h.v2, h.v3, h.v4, h.v5, h.v6, h.v7, h.v8, h.v9];
    hide LimbSum;
  }

  lemma LastLimbs(h: Fe) returns (s: seq<int>)
    ensures s == [h.v5, h.v6, h.v7, h.v8, h.v9]
    ensures LimbSum(s, false) == h.v5 + 0x2000000 * h.v6 + 0x8000000000000 * h.v7 + 0x10000000000000000000 * h.v8
                                 + 0x40000000000000000000000000 * h.v9
  {
    assert LimbSum([], true) == 0;
    hide LimbSum;
    s := Joined(h.v9, [], false);
    s := Joined(h.v8, s, true);
    s := Joined(h.v7, s, false);
    s := Joined(h.v6, s, true);
    s := Joined(h.v5, s, false);
  }

  lemma Joined(a: int, s: seq<int>, even: bool) returns (t: seq<int>)
    ensures t == [a] + s
    ensures LimbSum(t, even) == a + Radix(even) * LimbSum(s, !even)
  {
    t := [a] + s;
    assert t[1..] == s;
  }

  /** Odd limbs within b, even limbs within 2b. */
  ghost predicate Bounded(h: Fe, b: int) {
    && -2 * b <= h.v0 <= 2 * b && -b <= h.v1 <= b
    && -2 * b <= h.v2 <= 2 * b && -b <= h.v3 <= b
    && -2 * b <= h.v4 <= 2 * b && -b <= h.v5 <= b
    && -2 * b <= h.v6 <= 2 * b && -b <= h.v7 <= b
    && -2 * b <= h.v8 <= 2 * b && -b <= h.v9 <= b
  }

  /** 1.65 * 2^25, 1.1 * 2^25, 1.1 * 2^24 and 1.01 * 2^24, rounded down. */
  const WIDE: int := 55364812
  const LOOSE: int := 36909875
  const NARROW: int := 18454937
  const TIGHT: int := 16944988

  // -------------------------------------------------------------------------
  // Carries
  // -------------------------------------------------------------------------

  // Limbs by index

  function Limb(h: Fe, k: nat): int {
    if k == 0 then h.v0 else if k == 1 then h.v1 else if k == 2 then h.v2 else if k == 3 then h.v3
    else if k == 4 then h.v4 else if k == 5 then h.v5 else if k == 6 then h.v6 else if k == 7 then h.v7
    else if k == 8 then h.v8 else if k == 9 then h.v9 else 0
  }

  function WithLimb(h: Fe, k: nat, x: int): Fe
    requires k < 10
  {
    if k == 0 then h.(v0 := x) else if k == 1 then h.(v1 := x) else if k == 2 then h.(v2 := x) else if k == 3 then h.(v3 := x)
    else if k == 4 then h.(v4 := x) else if k == 5 then h.(v5 := x) else if k == 6 then h.(v6 := x) else if k == 7 then h.(v7 := x)
    else if k == 8 then h.(v8 := x) else h.(v9 := x)
  }

  lemma LimbAt(h: Fe, k: nat)
    requires k < 10
    ensures Limb(h, k) == Limbs(h)[k]
  {
  }

  /** What limb k of a sum is worth. */
  ghost function Weight(even: bool, k: nat): int
    decreases k
  {
    if k == 0 then 1 else Radix(even) * Weight(!even, k - 1)
  }

  lemma {:induction false} WeightNext(even: bool, k: nat)
    ensures Weight(even, k + 1) == Radix(even == (k % 2 == 0)) * Weight(even, k)
    decreases k
  {
    if k != 0 {
      WeightNext(!even, k - 1);
    }
  }

  lemma {:induction false} SumChanged(s: seq<int>, even: bool, k: nat, x: int)
    requires k < |s|
    ensures LimbSum(s[k := x], even) == LimbSum(s, even) + Weight(even, k) * (x - s[k])
  {
    if k > 0 {
      SumChanged(s[1..], !even, k - 1, x);
      assert s[k := x][1..] == s[1..][k - 1 := x];
    } else {
      assert s[k := x][1..] == s[1..];
    }
  }

  lemma {:induction false} SumSnoc(s: seq<int>, even: bool, x: int)
    ensures LimbSum(s + [x], even) == LimbSum(s, even) + Weight(even, |s|) * x
    decreases |s|
  {
    if s == [] {
      assert [x][1..] == [];
    } else {
      SumSnoc(s[1..], !even, x);
      assert (s + [x])[1..] == s[1..] + [x];
    }
  }

  /** The first n limbs as a number. */
  ghost function FirstLimbs(h: Fe, n: nat): int
    requires n <= 10
  {
    LimbSum(Limbs(h)[..n], true)
  }

  lemma FirstLimbsAll(h: Fe)
    ensures FirstLimbs(h, 0) == 0 && FirstLimbs(h, 10) == Val(h)
  {
    assert Limbs(h)[..10] == Limbs(h);
  }

  lemma FirstLimbsStep(h: Fe, n: nat)
    requires n < 10
    ensures FirstLimbs(h, n + 1) == FirstLimbs(h, n) + Weight(true, n) * Limb(h, n)
  {
    hide LimbSum, Weight, Limb, Limbs;
    LimbAt(h, n);
    assert Limbs(h)[..n + 1] == Limbs(h)[..n] + [Limb(h, n)];
    SumSnoc(Limbs(h)[..n], true, Limb(h, n));
  }

  /** The limbs of a number are worth 1, 2^26, 2^51, 2^77, ... */
  lemma TrueWeight(k: nat)
    ensures Weight(true, k + 1) == Radix(k % 2 == 0) * Weight(true, k)
  {
    WeightNext(true, k);
  }

  lemma ValChanged(h: Fe, k: nat, x: int)
    requires k < 10
    ensures Val(WithLimb(h, k, x)) == Val(h) + Weight(true, k) * (x - Limb(h, k))
  {
    hide LimbSum, Weight;
    SumChanged(Limbs(h), true, k, x);
    assert Limbs(WithLimb(h, k, x)) == Limbs(h)[k := x];
  }

  /** A carry out of limb k into the next keeps the value. */
  lemma CarryKeeps(h: Fe, k: nat, carry: int)
    requires k < 9
    ensures var low, up := Limb(h, k) - carry * Radix(k % 2 == 0), Limb(h, k + 1) + carry;
            var r := WithLimb(WithLimb(h, k, low), k + 1, up);
            && Val(r) == Val(h) && Limb(r, k) == low && Limb(r, k + 1) == up
            && Radix(k % 2 == 0) * (up - Limb(h, k + 1)) == Limb(h, k) - low
  {
    hide Val, Weight, Radix, Limb, WithLimb;
    var radix := Radix(k % 2 == 0);
    var g := WithLimb(h, k, Limb(h, k) - carry * radix);
    ValChanged(h, k, Limb(h, k) - carry * radix);
    ValChanged(g, k + 1, Limb(h, k + 1) + carry);
    OtherLimb(h, k, Limb(h, k) - carry * radix, k + 1);
    OtherLimb(h, k, Limb(h, k) - carry * radix, k);
    OtherLimb(g, k + 1, Limb(h, k + 1) + carry, k);
    OtherLimb(g, k + 1, Limb(h, k + 1) + carry, k + 1);
    TrueWeight(k);
    var w := Weight(true, k);
    assert w * -(carry * radix) + radix * w * carry == 0;
  }

  lemma OtherLimb(h: Fe, k: nat, x: int, j: nat)
    requires k < 10
    ensures Limb(WithLimb(h, k, x), j) == if j == k then x else Limb(h, j)
  {
  }

  lemma RoundedCarry(x: int, even: bool)
    ensures var radix := Radix(even); var carry := (x + radix / 2) / radix;
            radix > 0 && -radix <= 2 * (x - carry * radix) < radix
            && (Int64(x + radix / 2) ==> -0x100_0000_0000 <= carry <= 0x100_0000_0000)
  {
  }

  /** Rounded carry of limb k into limb k + 1. */
  function Carry(h: Fe, k: nat): (r: Fe)
    requires k < 9 && Int64(Limb(h, k) + Radix(k % 2 == 0) / 2)
    requires Int64(Limb(h, k + 1)) && -0x7800_0000_0000_0000 <= Limb(h, k + 1) <= 0x7800_0000_0000_0000
    ensures r == WithLimb(WithLimb(h, k, Limb(r, k)), k + 1, Limb(r, k + 1))
    ensures -Radix(k % 2 == 0) <= 2 * Limb(r, k) < Radix(k % 2 == 0)
    ensures Radix(k % 2 == 0) * (Limb(r, k + 1) - Limb(h, k + 1)) == Limb(h, k) - Limb(r, k)
    ensures Val(r) == Val(h)
  {
    hide Val, Limb, WithLimb, Radix;
    var radix := Radix(k % 2 == 0);
    RoundedCarry(Limb(h, k), k % 2 == 0);
    var carry: int64 := (Limb(h, k) + radix / 2) / radix;
    var up: int64 := Limb(h, k + 1) + carry;
    CarryKeeps(h, k, carry);
    WithLimb(WithLimb(h, k, Limb(h, k) - carry * radix), k + 1, up)
  }

  /** Rounded carry of limb 9 into limb 0: 2^255 is congruent to 19. */
  function CarryTop(h: Fe): (r: Fe)
    requires Int64(h.v9 + 0x1000000) && -0x7800_0000_0000_0000 <= h.v0 <= 0x7800_0000_0000_0000
    ensures r == h.(v9 := r.v9, v0 := r.v0)
    ensures -0x1000000 <= r.v9 < 0x1000000 && 0x2000000 * (r.v0 - h.v0) == 19 * (h.v9 - r.v9)
    ensures Cong(Val(r), Val(h), P)
  {
    var carry: int64 := (h.v9 + 0x1000000) / 0x2000000;
    var up: int64 := h.v0 + carry * 19;
    var r := h.(v9 := h.v9 - carry * 0x2000000, v0 := up);
    ValSum(h);
    ValSum(r);
    PValue();
    CongIntro(Val(r), Val(h), -carry, P);
    r
  }

  predicate Int64(x: int) {
    -0x8000_0000_0000_0000 <= x <= 0x7fff_ffff_ffff_ffff
  }

  ghost predicate Within(h: Fe, b: int) {
    && -b <= h.v0 <= b
    && -b <= h.v1 <= b
    && -b <= h.v2 <= b
    && -b <= h.v3 <= b
    && -b <= h.v4 <= b
    && -b <= h.v5 <= b
    && -b <= h.v6 <= b
    && -b <= h.v7 <= b
    && -b <= h.v8 <= b
    && -b <= h.v9 <= b
  }

  /** The twelve carries at the end of fe_mul, fe_sq and fe_sq2: 0, 4, 1, 5, 2, 6, 3, 7, 4, 8, 9, 0. */
  function CarryProduct(h: Fe): (r: Fe)
    requires Within(h, 0x7000_0000_0000_0000)
    ensures Bounded(r, TIGHT)
    ensures Cong(Val(r), Val(h), P)
  {
    hide Val, Cong, CarryFirst, CarryLast;
    CarryLast(CarryFirst(h))
  }

  function CarryFirst(h: Fe): (r: Fe)
    requires Within(h, 0x7000_0000_0000_0000)
    ensures -0x2000000 <= r.v0 <= 0x2000000 && -0x7800_0000_0000_0000 <= r.v9 <= 0x7800_0000_0000_0000
    ensures Bounded(r.(v9 := 0), TIGHT) && -0x1000000 <= r.v1 <= 0x1000000
    ensures Val(r) == Val(h)
  {
    hide Val, Carry, CarryStart;
    var h1 := Carry(Carry(Carry(Carry(CarryStart(h), 2), 6), 3), 7);
    Carry(Carry(h1, 4), 8)
  }

  function CarryStart(h: Fe): (r: Fe)
    requires Within(h, 0x7000_0000_0000_0000)
    ensures Within(r, 0x7100_0000_0000_0000)
    ensures -0x2000000 <= r.v0 <= 0x2000000 && -0x1000000 <= r.v1 <= 0x1000000
    ensures -0x2000000 <= r.v4 <= 0x2000000 && -0x1000000 <= r.v5 <= 0x1000000
    ensures Val(r) == Val(h)
  {
    hide Val, Carry;
    Carry(Carry(Carry(Carry(h, 0), 4), 1), 5)
  }

  function CarryLast(h: Fe): (r: Fe)
    requires -0x2000000 <= h.v0 <= 0x2000000 && -0x7800_0000_0000_0000 <= h.v9 <= 0x7800_0000_0000_0000
    requires Bounded(h.(v9 := 0), TIGHT) && -0x1000000 <= h.v1 <= 0x1000000
    ensures Bounded(r, TIGHT)
    ensures Cong(Val(r), Val(h), P)
  {
    hide Val, Cong, Carry, CarryTop;
    Carry(CarryTop(h), 0)
  }

  /** The ten carries of fe_mul121666 and fe_frombytes. */
  function CarryParallel(h: Fe): (r: Fe)
    requires Within(h, 0x1000_0000_0000)
    ensures Bounded(r, NARROW)
    ensures Cong(Val(r), Val(h), P)
  {
    hide Val, Cong, CarryOdd, CarryEven;
    CarryEven(CarryOdd(h))
  }

  function CarryOdd(h: Fe): (r: Fe)
    requires Within(h, 0x1000_0000_0000)
    ensures Within(r, 0x1100_0000_0000)
    ensures -0x1000000 <= r.v1 <= 0x1000000 && -0x1000000 <= r.v3 <= 0x1000000 && -0x1000000 <= r.v5 <= 0x1000000
    ensures -0x1000000 <= r.v7 <= 0x1000000 && -0x1000000 <= r.v9 <= 0x1000000
    ensures Cong(Val(r), Val(h), P)
  {
    hide Val, Cong, CarryTop, CarryInner;
    CarryInner(CarryTop(h))
  }

  function CarryInner(h: Fe): (r: Fe)
    requires Within(h.(v0 := 0), 0x1000_0000_0000)
    ensures r.v0 == h.v0 && r.v9 == h.v9 && Within(r.(v0 := 0), 0x1010_0000_0000)
    ensures -0x1000000 <= r.v1 <= 0x1000000 && -0x1000000 <= r.v3 <= 0x1000000
    ensures -0x1000000 <= r.v5 <= 0x1000000 && -0x1000000 <= r.v7 <= 0x1000000
    ensures Val(r) == Val(h)
  {
    hide Val, Carry;
    Carry(Carry(Carry(Carry(h, 1), 3), 5), 7)
  }

  function CarryEven(h: Fe): (r: Fe)
    requires Within(h, 0x1100_0000_0000)
    requires -0x1000000 <= h.v1 <= 0x1000000 && -0x1000000 <= h.v3 <= 0x1000000 && -0x1000000 <= h.v5 <= 0x1000000
    requires -0x1000000 <= h.v7 <= 0x1000000 && -0x1000000 <= h.v9 <= 0x1000000
    ensures Bounded(r, NARROW)
    ensures Val(r) == Val(h)
  {
    hide Val, Carry;
    Carry(Carry(Carry(Carry(Carry(h, 0), 2), 4), 6), 8)
  }
}
