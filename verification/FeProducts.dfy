/** Products of field elements: fe_mul, fe_sq and fe_sq2 of fe.c. */
module FeProducts {
  import opened Arith
  import opened Bits
  import opened Fe

  /** A 32 by 32 bit product, taken in 64 bits; every product of fe.c meets these bounds. */
  function Prod(a: int32, b: int32): (p: int64)
    requires -4 * WIDE - 4 <= a <= 4 * WIDE + 4 && -38 * WIDE <= b <= 38 * WIDE
    ensures -0x800_0000_0000_0000 <= p <= 0x800_0000_0000_0000
  {
    ProductBound(a, b, 4 * WIDE + 4, 38 * WIDE);
    a * b
  }

  /** The products and sums of fe_mul; the typed locals of its two halves are the int32 and int64 variables. */
  function MulLimbs(f: Fe, g: Fe): (h: Fe)
    requires Bounded(f, WIDE) && Bounded(g, WIDE)
    ensures Within(h, 0x5000_0000_0000_0000)
  {
    hide MulLow, MulHigh;
    MulLow(f, g).(v5 := MulHigh(f, g).v5, v6 := MulHigh(f, g).v6, v7 := MulHigh(f, g).v7,
                  v8 := MulHigh(f, g).v8, v9 := MulHigh(f, g).v9)
  }

  /** h0, ..., h4. */
  function MulLow(f: Fe, g: Fe): (h: Fe)
    requires Bounded(f, WIDE) && Bounded(g, WIDE)
    ensures Within(h, 0x5000_0000_0000_0000)
  {
    hide Prod;
    var Fe(f0, f1, f2, f3, f4, f5, f6, f7, f8, f9) := f;
    var Fe(g0, g1, g2, g3, g4, g5, g6, g7, g8, g9) := g;
    var g1_19: int32 := 19 * g1;
    var g2_19: int32 := 19 * g2;
    var g3_19: int32 := 19 * g3;
    var g4_19: int32 := 19 * g4;
    var g5_19: int32 := 19 * g5;
    var g6_19: int32 := 19 * g6;
    var g7_19: int32 := 19 * g7;
    var g8_19: int32 := 19 * g8;
    var g9_19: int32 := 19 * g9;
    var f1_2: int32 := 2 * f1;
    var f3_2: int32 := 2 * f3;
    var f5_2: int32 := 2 * f5;
    var f7_2: int32 := 2 * f7;
    var f9_2: int32 := 2 * f9;
    var f0g0: int64 := Prod(f0, g0);
    var f0g1: int64 := Prod(f0, g1);
    var f0g2: int64 := Prod(f0, g2);
    var f0g3: int64 := Prod(f0, g3);
    var f0g4: int64 := Prod(f0, g4);
    var f1g0: int64 := Prod(f1, g0);
    var f1g1_2: int64 := Prod(f1_2, g1);
    var f1g2: int64 := Prod(f1, g2);
    var f1g3_2: int64 := Prod(f1_2, g3);
    var f1g9_38: int64 := Prod(f1_2, g9_19);
    var f2g0: int64 := Prod(f2, g0);
    var f2g1: int64 := Prod(f2, g1);
    var f2g2: int64 := Prod(f2, g2);
    var f2g8_19: int64 := Prod(f2, g8_19);
    var f2g9_19: int64 := Prod(f2, g9_19);
    var f3g0: int64 := Prod(f3, g0);
    var f3g1_2: int64 := Prod(f3_2, g1);
    var f3g7_38: int64 := Prod(f3_2, g7_19);
    var f3g8_19: int64 := Prod(f3, g8_19);
    var f3g9_38: int64 := Prod(f3_2, g9_19);
    var f4g0: int64 := Prod(f4, g0);
    var f4g6_19: int64 := Prod(f4, g6_19);
    var f4g7_19: int64 := Prod(f4, g7_19);
    var f4g8_19: int64 := Prod(f4, g8_19);
    var f4g9_19: int64 := Prod(f4, g9_19);
    var f5g5_38: int64 := Prod(f5_2, g5_19);
    var f5g6_19: int64 := Prod(f5, g6_19);
    var f5g7_38: int64 := Prod(f5_2, g7_19);
    var f5g8_19: int64 := Prod(f5, g8_19);
    var f5g9_38: int64 := Prod(f5_2, g9_19);
    var f6g4_19: int64 := Prod(f6, g4_19);
    var f6g5_19: int64 := Prod(f6, g5_19);
    var f6g6_19: int64 := Prod(f6, g6_19);
    var f6g7_19: int64 := Prod(f6, g7_19);
    var f6g8_19: int64 := Prod(f6, g8_19);
    var f7g3_38: int64 := Prod(f7_2, g3_19);
    var f7g4_19: int64 := Prod(f7, g4_19);
    var f7g5_38: int64 := Prod(f7_2, g5_19);
    var f7g6_19: int64 := Prod(f7, g6_19);
    var f7g7_38: int64 := Prod(f7_2, g7_19);
    var f8g2_19: int64 := Prod(f8, g2_19);
    var f8g3_19: int64 := Prod(f8, g3_19);
    var f8g4_19: int64 := Prod(f8, g4_19);
    var f8g5_19: int64 := Prod(f8, g5_19);
    var f8g6_19: int64 := Prod(f8, g6_19);
    var f9g1_38: int64 := Prod(f9_2, g1_19);
    var f9g2_19: int64 := Prod(f9, g2_19);
    var f9g3_38: int64 := Prod(f9_2, g3_19);
    var f9g4_19: int64 := Prod(f9, g4_19);
    var f9g5_38: int64 := Prod(f9_2, g5_19);
    var h0: int64 := f0g0 + f1g9_38 + f2g8_19 + f3g7_38 + f4g6_19 + f5g5_38 + f6g4_19 + f7g3_38 + f8g2_19 + f9g1_38;
    var h1: int64 := f0g1 + f1g0 + f2g9_19 + f3g8_19 + f4g7_19 + f5g6_19 + f6g5_19 + f7g4_19 + f8g3_19 + f9g2_19;
    var h2: int64 := f0g2 + f1g1_2 + f2g0 + f3g9_38 + f4g8_19 + f5g7_38 + f6g6_19 + f7g5_38 + f8g4_19 + f9g3_38;
    var h3: int64 := f0g3 + f1g2 + f2g1 + f3g0 + f4g9_19 + f5g8_19 + f6g7_19 + f7g6_19 + f8g5_19 + f9g4_19;
    var h4: int64 := f0g4 + f1g3_2 + f2g2 + f3g1_2 + f4g0 + f5g9_38 + f6g8_19 + f7g7_38 + f8g6_19 + f9g5_38;
    Fe(h0, h1, h2, h3, h4, 0, 0, 0, 0, 0)
  }

  /** h5, ..., h9. */
  function MulHigh(f: Fe, g: Fe): (h: Fe)
    requires Bounded(f, WIDE) && Bounded(g, WIDE)
    ensures Within(h, 0x5000_0000_0000_0000)
  {
    hide Prod;
    var Fe(f0, f1, f2, f3, f4, f5, f6, f7, f8, f9) := f;
    var Fe(g0, g1, g2, g3, g4, g5, g6, g7, g8, g9) := g;
    var g6_19: int32 := 19 * g6;
    var g7_19: int32 := 19 * g7;
    var g8_19: int32 := 19 * g8;
    var g9_19: int32 := 19 * g9;
    var f1_2: int32 := 2 * f1;
    var f3_2: int32 := 2 * f3;
    var f5_2: int32 := 2 * f5;
    var f7_2: int32 := 2 * f7;
    var f9_2: int32 := 2 * f9;
    var f0g5: int64 := Prod(f0, g5);
    var f0g6: int64 := Prod(f0, g6);
    var f0g7: int64 := Prod(f0, g7);
    var f0g8: int64 := Prod(f0, g8);
    var f0g9: int64 := Prod(f0, g9);
    var f1g4: int64 := Prod(f1, g4);
    var f1g5_2: int64 := Prod(f1_2, g5);
    var f1g6: int64 := Prod(f1, g6);
    var f1g7_2: int64 := Prod(f1_2, g7);
    var f1g8: int64 := Prod(f1, g8);
    var f2g3: int64 := Prod(f2, g3);
    var f2g4: int64 := Prod(f2, g4);
    var f2g5: int64 := Prod(f2, g5);
    var f2g6: int64 := Prod(f2, g6);
    var f2g7: int64 := Prod(f2, g7);
    var f3g2: int64 := Prod(f3, g2);
    var f3g3_2: int64 := Prod(f3_2, g3);
    var f3g4: int64 := Prod(f3, g4);
    var f3g5_2: int64 := Prod(f3_2, g5);
    var f3g6: int64 := Prod(f3, g6);
    var f4g1: int64 := Prod(f4, g1);
    var f4g2: int64 := Prod(f4, g2);
    var f4g3: int64 := Prod(f4, g3);
    var f4g4: int64 := Prod(f4, g4);
    var f4g5: int64 := Prod(f4, g5);
    var f5g0: int64 := Prod(f5, g0);
    var f5g1_2: int64 := Prod(f5_2, g1);
    var f5g2: int64 := Prod(f5, g2);
    var f5g3_2: int64 := Prod(f5_2, g3);
    var f5g4: int64 := Prod(f5, g4);
    var f6g0: int64 := Prod(f6, g0);
    var f6g1: int64 := Prod(f6, g1);
    var f6g2: int64 := Prod(f6, g2);
    var f6g3: int64 := Prod(f6, g3);
    var f6g9_19: int64 := Prod(f6, g9_19);
    var f7g0: int64 := Prod(f7, g0);
    var f7g1_2: int64 := Prod(f7_2, g1);
    var f7g2: int64 := Prod(f7, g2);
    var f7g8_19: int64 := Prod(f7, g8_19);
    var f7g9_38: int64 := Prod(f7_2, g9_19);
    var f8g0: int64 := Prod(f8, g0);
    var f8g1: int64 := Prod(f8, g1);
    var f8g7_19: int64 := Prod(f8, g7_19);
    var f8g8_19: int64 := Prod(f8, g8_19);
    var f8g9_19: int64 := Prod(f8, g9_19);
    var f9g0: int64 := Prod(f9, g0);
    var f9g6_19: int64 := Prod(f9, g6_19);
    var f9g7_38: int64 := Prod(f9_2, g7_19);
    var f9g8_19: int64 := Prod(f9, g8_19);
    var f9g9_38: int64 := Prod(f9_2, g9_19);
    var h5: int64 := f0g5 + f1g4 + f2g3 + f3g2 + f4g1 + f5g0 + f6g9_19 + f7g8_19 + f8g7_19 + f9g6_19;
    var h6: int64 := f0g6 + f1g5_2 + f2g4 + f3g3_2 + f4g2 + f5g1_2 + f6g0 + f7g9_38 + f8g8_19 + f9g7_38;
    var h7: int64 := f0g7 + f1g6 + f2g5 + f3g4 + f4g3 + f5g2 + f6g1 + f7g0 + f8g9_19 + f9g8_19;
    var h8: int64 := f0g8 + f1g7_2 + f2g6 + f3g5_2 + f4g4 + f5g3_2 + f6g2 + f7g1_2 + f8g0 + f9g9_38;
    var h9: int64 := f0g9 + f1g8 + f2g7 + f3g6 + f4g5 + f5g4 + f6g3 + f7g2 + f8g1 + f9g0;
    Fe(0, 0, 0, 0, 0, h5, h6, h7, h8, h9)
  }

  /** The products and sums of fe_sq, and of fe_sq2 before it doubles them. */
  function SqLimbs(f: Fe): (h: Fe)
    requires Bounded(f, WIDE)
    ensures Within(h, 0x3000_0000_0000_0000)
  {
    hide Prod;
    var Fe(f0, f1, f2, f3, f4, f5, f6, f7, f8, f9) := f;
    var f0_2: int32 := 2 * f0;
    var f1_2: int32 := 2 * f1;
    var f2_2: int32 := 2 * f2;
    var f3_2: int32 := 2 * f3;
    var f4_2: int32 := 2 * f4;
    var f5_2: int32 := 2 * f5;
    var f6_2: int32 := 2 * f6;
    var f7_2: int32 := 2 * f7;
    var f5_38: int32 := 38 * f5;
    var f6_19: int32 := 19 * f6;
    var f7_38: int32 := 38 * f7;
    var f8_19: int32 := 19 * f8;
    var f9_38: int32 := 38 * f9;
    var f0f0: int64 := Prod(f0, f0);
    var f0f1_2: int64 := Prod(f0_2, f1);
    var f0f2_2: int64 := Prod(f0_2, f2);
    var f0f3_2: int64 := Prod(f0_2, f3);
    var f0f4_2: int64 := Prod(f0_2, f4);
    var f0f5_2: int64 := Prod(f0_2, f5);
    var f0f6_2: int64 := Prod(f0_2, f6);
    var f0f7_2: int64 := Prod(f0_2, f7);
    var f0f8_2: int64 := Prod(f0_2, f8);
    var f0f9_2: int64 := Prod(f0_2, f9);
    var f1f1_2: int64 := Prod(f1_2, f1);
    var f1f2_2: int64 := Prod(f1_2, f2);
    var f1f3_4: int64 := Prod(f1_2, f3_2);
    var f1f4_2: int64 := Prod(f1_2, f4);
    var f1f5_4: int64 := Prod(f1_2, f5_2);
    var f1f6_2: int64 := Prod(f1_2, f6);
    var f1f7_4: int64 := Prod(f1_2, f7_2);
    var f1f8_2: int64 := Prod(f1_2, f8);
    var f1f9_76: int64 := Prod(f1_2, f9_38);
    var f2f2: int64 := Prod(f2, f2);
    var f2f3_2: int64 := Prod(f2_2, f3);
    var f2f4_2: int64 := Prod(f2_2, f4);
    var f2f5_2: int64 := Prod(f2_2, f5);
    var f2f6_2: int64 := Prod(f2_2, f6);
    var f2f7_2: int64 := Prod(f2_2, f7);
    var f2f8_38: int64 := Prod(f2_2, f8_19);
    var f2f9_38: int64 := Prod(f2, f9_38);
    var f3f3_2: int64 := Prod(f3_2, f3);
    var f3f4_2: int64 := Prod(f3_2, f4);
    var f3f5_4: int64 := Prod(f3_2, f5_2);
    var f3f6_2: int64 := Prod(f3_2, f6);
    var f3f7_76: int64 := Prod(f3_2, f7_38);
    var f3f8_38: int64 := Prod(f3_2, f8_19);
    var f3f9_76: int64 := Prod(f3_2, f9_38);
    var f4f4: int64 := Prod(f4, f4);
    var f4f5_2: int64 := Prod(f4_2, f5);
    var f4f6_38: int64 := Prod(f4_2, f6_19);
    var f4f7_38: int64 := Prod(f4, f7_38);
    var f4f8_38: int64 := Prod(f4_2, f8_19);
    var f4f9_38: int64 := Prod(f4, f9_38);
    var f5f5_38: int64 := Prod(f5, f5_38);
    var f5f6_38: int64 := Prod(f5_2, f6_19);
    var f5f7_76: int64 := Prod(f5_2, f7_38);
    var f5f8_38: int64 := Prod(f5_2, f8_19);
    var f5f9_76: int64 := Prod(f5_2, f9_38);
    var f6f6_19: int64 := Prod(f6, f6_19);
    var f6f7_38: int64 := Prod(f6, f7_38);
    var f6f8_38: int64 := Prod(f6_2, f8_19);
    var f6f9_38: int64 := Prod(f6, f9_38);
    var f7f7_38: int64 := Prod(f7, f7_38);
    var f7f8_38: int64 := Prod(f7_2, f8_19);
    var f7f9_76: int64 := Prod(f7_2, f9_38);
    var f8f8_19: int64 := Prod(f8, f8_19);
    var f8f9_38: int64 := Prod(f8, f9_38);
    var f9f9_38: int64 := Prod(f9, f9_38);
    var h0: int64 := f0f0 + f1f9_76 + f2f8_38 + f3f7_76 + f4f6_38 + f5f5_38;
    var h1: int64 := f0f1_2 + f2f9_38 + f3f8_38 + f4f7_38 + f5f6_38;
    var h2: int64 := f0f2_2 + f1f1_2 + f3f9_76 + f4f8_38 + f5f7_76 + f6f6_19;
    var h3: int64 := f0f3_2 + f1f2_2 + f4f9_38 + f5f8_38 + f6f7_38;
    var h4: int64 := f0f4_2 + f1f3_4 + f2f2 + f5f9_76 + f6f8_38 + f7f7_38;
    var h5: int64 := f0f5_2 + f1f4_2 + f2f3_2 + f6f9_38 + f7f8_38;
    var h6: int64 := f0f6_2 + f1f5_4 + f2f4_2 + f3f3_2 + f7f9_76 + f8f8_19;
    var h7: int64 := f0f7_2 + f1f6_2 + f2f5_2 + f3f4_2 + f8f9_38;
    var h8: int64 := f0f8_2 + f1f7_4 + f2f6_2 + f3f5_4 + f4f4 + f9f9_38;
    var h9: int64 := f0f9_2 + f1f8_2 + f2f7_2 + f3f6_2 + f4f5_2;
    Fe(h0, h1, h2, h3, h4, h5, h6, h7, h8, h9)
  }

  // -------------------------------------------------------------------------
  // The value of the product
  // -------------------------------------------------------------------------

  /** What x in limb i of one factor and y in limb j of the other put into limb (i + j) mod 10. */
  ghost function Counted(i: nat, j: nat, x: int, y: int): int {
    if i % 2 == 1 && j % 2 == 1 then if i + j >= 10 then (2 * x) * (19 * y) else (2 * x) * y
    else if i + j >= 10 then x * (19 * y) else x * y
  }

  lemma CountedIsTimes(i: nat, j: nat, x: int, y: int)
    ensures Counted(i, j, x, y) == Counted(i, j, 1, 1) * (x * y)
  {
  }

  lemma {:induction false} WeightAdd(i: nat, j: nat)
    ensures Weight(true, i) * Weight(true, j) == (if i % 2 == 1 && j % 2 == 1 then 2 else 1) * Weight(true, i + j)
  {
    if j > 0 {
      WeightAdd(i, j - 1);
      TrueWeight(j - 1);
      TrueWeight(i + j - 1);
      hide Weight, Radix;
      RadixUp(i, j - 1, Weight(true, i), Weight(true, j - 1), Weight(true, i + j - 1), Weight(true, j), Weight(true, i + j));
    }
  }

  lemma RadixUp(i: nat, j: nat, u: int, v: int, w: int, v': int, w': int)
    requires u * v == (if i % 2 == 1 && j % 2 == 1 then 2 else 1) * w
    requires v' == Radix(j % 2 == 0) * v && w' == Radix((i + j) % 2 == 0) * w
    ensures u * v' == (if i % 2 == 1 && (j + 1) % 2 == 1 then 2 else 1) * w'
  {
    assert u * (Radix(j % 2 == 0) * v) == Radix(j % 2 == 0) * (u * v);
  }

  lemma WeightWraps(m: nat)
    ensures Weight(true, m + 10) == (P + 19) * Weight(true, m)
  {
    PValue();
    assert Weight(true, 10) == 0x8000000000000000000000000000000000000000000000000000000000000000;
    hide Weight;
    WeightAdd(m, 10);
  }

  lemma CountFits(i: nat, j: nat)
    requires i < 10 && j < 10
    ensures Cong(Weight(true, (i + j) % 10) * Counted(i, j, 1, 1), Weight(true, i) * Weight(true, j), P)
  {
    hide Weight, Cong;
    WeightAdd(i, j);
    var m := (i + j) % 10;
    var w, c := Weight(true, m), if i % 2 == 1 && j % 2 == 1 then 2 else 1;
    if i + j < 10 {
      CongRefl(w * c, P);
    } else {
      WeightWraps(m);
      assert w * (c * 19) - c * ((P + 19) * w) == -(c * w) * P;
      CongIntro(w * (c * 19), c * ((P + 19) * w), -(c * w), P);
    }
  }

  /** The limb of the other factor whose product with limb i counts in limb m. */
  ghost function Partner(i: nat, m: nat): nat
    requires i < 10 && m < 10
  {
    if m >= i then m - i else m + 10 - i
  }

  /** What x in limb i of one factor puts into limb m. */
  ghost function Entry(i: nat, m: nat, x: int, g: Fe): int
    requires i < 10 && m < 10
  {
    Counted(i, Partner(i, m), x, Limb(g, Partner(i, m)))
  }

  /** h and x times the first n limbs of g, where x is limb i of the other factor. */
  ghost function Part(h: Fe, i: nat, x: int, g: Fe, n: nat): Fe
    requires i < 10 && n <= 10
  {
    if n == 0 then h else
    var r, m := Part(h, i, x, g, n - 1), (i + n - 1) % 10;
    WithLimb(r, m, Limb(r, m) + Counted(i, n - 1, x, Limb(g, n - 1)))
  }

  lemma {:induction false} PartLimb(h: Fe, i: nat, x: int, g: Fe, n: nat, m: nat)
    requires i < 10 && n <= 10 && m < 10
    ensures Limb(Part(h, i, x, g, n), m) == Limb(h, m) + if Partner(i, m) < n then Entry(i, m, x, g) else 0
  {
    hide Counted, Limb, WithLimb;
    if n > 0 {
      PartLimb(h, i, x, g, n - 1, m);
      var r, k := Part(h, i, x, g, n - 1), (i + n - 1) % 10;
      OtherLimb(r, k, Limb(r, k) + Counted(i, n - 1, x, Limb(g, n - 1)), m);
    }
  }

  lemma {:induction false} PartVal(h: Fe, i: nat, x: int, g: Fe, n: nat)
    requires i < 10 && n <= 10
    ensures Cong(Val(Part(h, i, x, g, n)), Val(h) + Weight(true, i) * x * FirstLimbs(g, n), P)
  {
    hide Cong, Val, Counted, Limb, WithLimb, Weight, FirstLimbs;
    if n == 0 {
      FirstLimbsAll(g);
      CongRefl(Val(h), P);
    } else {
      PartVal(h, i, x, g, n - 1);
      var r, m, y := Part(h, i, x, g, n - 1), (i + n - 1) % 10, Limb(g, n - 1);
      ValChanged(r, m, Limb(r, m) + Counted(i, n - 1, x, y));
      CountFits(i, n - 1);
      CountedIsTimes(i, n - 1, x, y);
      FirstLimbsStep(g, n - 1);
      OneTerm(Val(r), Val(h), Weight(true, m), Counted(i, n - 1, 1, 1), Weight(true, i), Weight(true, n - 1), x, y,
              FirstLimbs(g, n - 1), P);
    }
  }

  lemma OneTerm(v: int, u: int, w: int, c: int, wi: int, wj: int, x: int, y: int, s: int, m: int)
    requires m > 0 && Cong(v, u + wi * x * s, m) && Cong(w * c, wi * wj, m)
    ensures Cong(v + w * (c * (x * y)), u + wi * x * (s + wj * y), m)
  {
    hide Cong;
    CongScale(w * c, wi * wj, x * y, m);
    CongAdd(v, u + wi * x * s, x * y * (w * c), x * y * (wi * wj), m);
    assert x * y * (w * c) == w * (c * (x * y));
    SameTerm(u, wi, x, s, wj, y);
  }

  lemma SameTerm(u: int, wi: int, x: int, s: int, wj: int, y: int)
    ensures u + wi * x * s + x * y * (wi * wj) == u + wi * x * (s + wj * y)
  {
    assert wi * x * (s + wj * y) == wi * x * s + wi * x * (wj * y);
  }

  /** The products of the first n limbs of f with all of g. */
  ghost function Products(f: Fe, g: Fe, n: nat): Fe
    requires n <= 10
  {
    if n == 0 then Fe(0, 0, 0, 0, 0, 0, 0, 0, 0, 0) else Part(Products(f, g, n - 1), n - 1, Limb(f, n - 1), g, 10)
  }

  /** Limb m of those products. */
  ghost function Column(f: Fe, g: Fe, m: nat, n: nat): int
    requires m < 10 && n <= 10
    decreases n
  {
    if n == 0 then 0 else Column(f, g, m, n - 1) + Entry(n - 1, m, Limb(f, n - 1), g)
  }

  lemma {:induction false} ProductsLimb(f: Fe, g: Fe, m: nat, n: nat)
    requires n <= 10 && m < 10
    ensures Limb(Products(f, g, n), m) == Column(f, g, m, n)
  {
    if n > 0 {
      hide Entry, Limb, Part;
      ProductsLimb(f, g, m, n - 1);
      PartLimb(Products(f, g, n - 1), n - 1, Limb(f, n - 1), g, 10, m);
    }
  }

  lemma {:induction false} ProductsVal(f: Fe, g: Fe, n: nat)
    requires n <= 10
    ensures Cong(Val(Products(f, g, n)), FirstLimbs(f, n) * Val(g), P)
  {
    hide Cong, Part, Limb, Weight, FirstLimbs, Val;
    if n == 0 {
      NoLimbs();
      FirstLimbsAll(f);
      CongRefl(0, P);
    } else {
      ProductsVal(f, g, n - 1);
      var h, x := Products(f, g, n - 1), Limb(f, n - 1);
      PartVal(h, n - 1, x, g, 10);
      FirstLimbsAll(g);
      FirstLimbsStep(f, n - 1);
      OneProduct(Val(Products(f, g, n)), Val(h), FirstLimbs(f, n - 1), Weight(true, n - 1), x, Val(g), P);
    }
  }

  lemma OneProduct(v: int, u: int, s: int, w: int, x: int, y: int, m: int)
    requires m > 0 && Cong(v, u + w * x * y, m) && Cong(u, s * y, m)
    ensures Cong(v, (s + w * x) * y, m)
  {
    hide Cong;
    CongRefl(w * x * y, m);
    CongAdd(u, s * y, w * x * y, w * x * y, m);
    CongTrans(v, u + w * x * y, s * y + w * x * y, m);
  }

  lemma NoLimbs()
    ensures Val(Fe(0, 0, 0, 0, 0, 0, 0, 0, 0, 0)) == 0
  {
    ValSum(Fe(0, 0, 0, 0, 0, 0, 0, 0, 0, 0));
  }

  lemma ColumnSum(f: Fe, g: Fe, m: nat)
    requires m < 10
    ensures Column(f, g, m, 10)
            == Entry(0, m, f.v0, g) + Entry(1, m, f.v1, g) + Entry(2, m, f.v2, g) + Entry(3, m, f.v3, g) + Entry(4, m, f.v4, g)
               + Entry(5, m, f.v5, g) + Entry(6, m, f.v6, g) + Entry(7, m, f.v7, g) + Entry(8, m, f.v8, g) + Entry(9, m, f.v9, g)
  {
    hide Entry;
  }

  /** The sums of fe_mul are the columns. */
  lemma LowColumns(f: Fe, g: Fe)
    requires Bounded(f, WIDE) && Bounded(g, WIDE)
    ensures var h := MulLow(f, g);
            h.v0 == Column(f, g, 0, 10) && h.v1 == Column(f, g, 1, 10) && h.v2 == Column(f, g, 2, 10)
            && h.v3 == Column(f, g, 3, 10) && h.v4 == Column(f, g, 4, 10)
  {
    ColumnSum(f, g, 0);
    ColumnSum(f, g, 1);
    ColumnSum(f, g, 2);
    ColumnSum(f, g, 3);
    ColumnSum(f, g, 4);
    hide Column;
  }

  lemma HighColumns(f: Fe, g: Fe)
    requires Bounded(f, WIDE) && Bounded(g, WIDE)
    ensures var h := MulHigh(f, g);
            h.v5 == Column(f, g, 5, 10) && h.v6 == Column(f, g, 6, 10) && h.v7 == Column(f, g, 7, 10)
            && h.v8 == Column(f, g, 8, 10) && h.v9 == Column(f, g, 9, 10)
  {
    ColumnSum(f, g, 5);
    ColumnSum(f, g, 6);
    ColumnSum(f, g, 7);
    ColumnSum(f, g, 8);
    ColumnSum(f, g, 9);
    hide Column;
  }

  lemma MulLimbsVal(f: Fe, g: Fe)
    requires Bounded(f, WIDE) && Bounded(g, WIDE)
    ensures Cong(Val(MulLimbs(f, g)), Val(f) * Val(g), P)
  {
    LowColumns(f, g);
    HighColumns(f, g);
    hide Column, MulLow, MulHigh, Val, Cong, Products, FirstLimbs;
    forall m: nat | m < 10
      ensures Limb(Products(f, g, 10), m) == Column(f, g, m, 10)
    {
      ProductsLimb(f, g, m, 10);
    }
    SameLimbs(MulLimbs(f, g), Products(f, g, 10));
    ProductsVal(f, g, 10);
    FirstLimbsAll(f);
  }

  lemma SameLimbs(h: Fe, r: Fe)
    requires forall m: nat :: m < 10 ==> Limb(h, m) == Limb(r, m)
    ensures h == r
  {
    var limb := (k: nat) => Limb(h, k) == Limb(r, k);
    assert limb(0) && limb(1) && limb(2) && limb(3) && limb(4) && limb(5) && limb(6) && limb(7) && limb(8) && limb(9);
  }

  // -------------------------------------------------------------------------
  // Squares
  // -------------------------------------------------------------------------

  /** The product of two different limbs, counted twice, and that of a limb with itself. */
  ghost function Paired(i: nat, j: nat, x: int, y: int): int {
    if i + j < 10 then if i % 2 == 1 && j % 2 == 1 then (2 * x) * (2 * y) else (2 * x) * y
    else if j % 2 == 0 then (2 * x) * (19 * y)
    else if i % 2 == 1 then (2 * x) * (38 * y) else x * (38 * y)
  }

  ghost function Single(i: nat, x: int): int {
    if i < 5 then if i % 2 == 1 then (2 * x) * x else x * x
    else if i % 2 == 1 then x * (38 * x) else x * (19 * x)
  }

  lemma PairedIsBoth(i: nat, j: nat, x: int, y: int)
    ensures Paired(i, j, x, y) == Counted(i, j, x, y) + Counted(j, i, y, x)
    ensures Single(i, x) == Counted(i, i, x, x)
  {
  }

  /** Limb m of the square: each pair of limbs at the smaller index. */
  ghost function SqColumn(f: Fe, m: nat, n: nat): int
    requires m < 10 && n <= 10
    decreases n
  {
    if n == 0 then 0 else
    var i, j := n - 1, Partner(n - 1, m);
    SqColumn(f, m, n - 1) + if i < j then Paired(i, j, Limb(f, i), Limb(f, j)) else if i == j then Single(i, Limb(f, i)) else 0
  }

  /** The sums of fe_sq are those columns. */
  lemma SqColumns(f: Fe)
    requires Bounded(f, WIDE)
    ensures var h := SqLimbs(f);
            && h.v0 == SqColumn(f, 0, 10) && h.v1 == SqColumn(f, 1, 10) && h.v2 == SqColumn(f, 2, 10) && h.v3 == SqColumn(f, 3, 10)
            && h.v4 == SqColumn(f, 4, 10) && h.v5 == SqColumn(f, 5, 10) && h.v6 == SqColumn(f, 6, 10) && h.v7 == SqColumn(f, 7, 10)
            && h.v8 == SqColumn(f, 8, 10) && h.v9 == SqColumn(f, 9, 10)
  {
  }

  // Summing over pairs of partners is summing over all.

  ghost function Total(t: seq<int>, n: nat): int
    requires n <= |t|
    decreases n
  {
    if n == 0 then 0 else Total(t, n - 1) + t[n - 1]
  }

  ghost function PairTotal(t: seq<int>, m: nat, n: nat): int
    requires |t| == 10 && m < 10 && n <= 10
    decreases n
  {
    if n == 0 then 0 else
    var i, j := n - 1, Partner(n - 1, m);
    PairTotal(t, m, n - 1) + if i < j then t[i] + t[j] else if i == j then t[i] else 0
  }

  lemma PairsAreAll(t: seq<int>, m: nat)
    requires |t| == 10 && m < 10
    ensures PairTotal(t, m, 10) == Total(t, 10)
  {
    hide *;
    if m < 3 {
      FirstPairs(t, m);
    } else if m < 6 {
      MiddlePairs(t, m);
    } else {
      LastPairs(t, m);
    }
  }

  lemma FirstPairs(t: seq<int>, m: nat)
    requires |t| == 10 && m < 3
    ensures PairTotal(t, m, 10) == Total(t, 10)
  {
  }

  lemma MiddlePairs(t: seq<int>, m: nat)
    requires |t| == 10 && 3 <= m < 6
    ensures PairTotal(t, m, 10) == Total(t, 10)
  {
  }

  lemma LastPairs(t: seq<int>, m: nat)
    requires |t| == 10 && 6 <= m < 10
    ensures PairTotal(t, m, 10) == Total(t, 10)
  {
  }

  ghost function Entries(f: Fe, m: nat): (t: seq<int>)
    requires m < 10
    ensures |t| == 10
  {
    seq(10, i requires 0 <= i < 10 => Entry(i, m, Limb(f, i), f))
  }

  lemma {:induction false} ColumnTotals(f: Fe, m: nat, n: nat)
    requires m < 10 && n <= 10
    ensures Column(f, f, m, n) == Total(Entries(f, m), n)
    ensures SqColumn(f, m, n) == PairTotal(Entries(f, m), m, n)
  {
    if n > 0 {
      ColumnTotals(f, m, n - 1);
      var i, j := n - 1, Partner(n - 1, m);
      PairedIsBoth(i, j, Limb(f, i), Limb(f, j));
      assert Partner(j, m) == i;
      hide Paired, Single, Counted, Limb;
    }
  }

  /** The 55 products of fe_sq are the 100 of fe_mul. */
  lemma SqLimbsAreMul(f: Fe)
    requires Bounded(f, WIDE)
    ensures SqLimbs(f) == MulLimbs(f, f)
  {
    SqColumns(f);
    LowColumns(f, f);
    HighColumns(f, f);
    hide SqColumn, Column, SqLimbs, MulLow, MulHigh;
    forall m: nat | m < 10
      ensures SqColumn(f, m, 10) == Column(f, f, m, 10)
    {
      ColumnTotals(f, m, 10);
      PairsAreAll(Entries(f, m), m);
    }
  }
}
