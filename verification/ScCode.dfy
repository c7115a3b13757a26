/** Byte strings in and out of the scalar limbs, the schoolbook product, and the two entry points of sc.c. */
module ScCode {
  import opened Arith
  import opened Bits
  import opened Sc

  // -------------------------------------------------------------------------
  // Loading
  // -------------------------------------------------------------------------

  function LoadScalar(b: seq<byte>): (s: seq<nat>)
    requires |b| == 32
    ensures |s| == 12
  {
    hide Load3, Load4, And, Shr;
    [
      And(0x1fffff, Load3(b, 0)), And(0x1fffff, Shr(Load4(b, 2), 5)),
      And(0x1fffff, Shr(Load3(b, 5), 2)), And(0x1fffff, Shr(Load4(b, 7), 7)),
      And(0x1fffff, Shr(Load4(b, 10), 4)), And(0x1fffff, Shr(Load3(b, 13), 1)),
      And(0x1fffff, Shr(Load4(b, 15), 6)), And(0x1fffff, Shr(Load3(b, 18), 3)),
      And(0x1fffff, Load3(b, 21)), And(0x1fffff, Shr(Load4(b, 23), 5)),
      And(0x1fffff, Shr(Load3(b, 26), 2)), Shr(Load4(b, 28), 7)
    ]
  }

  function LoadWide(b: seq<byte>): (s: seq<nat>)
    requires |b| == 64
    ensures |s| == 24
  {
    hide Load3, Load4, And, Shr;
    [
      And(0x1fffff, Load3(b, 0)), And(0x1fffff, Shr(Load4(b, 2), 5)),
      And(0x1fffff, Shr(Load3(b, 5), 2)), And(0x1fffff, Shr(Load4(b, 7), 7)),
      And(0x1fffff, Shr(Load4(b, 10), 4)), And(0x1fffff, Shr(Load3(b, 13), 1)),
      And(0x1fffff, Shr(Load4(b, 15), 6)), And(0x1fffff, Shr(Load3(b, 18), 3)),
      And(0x1fffff, Load3(b, 21)), And(0x1fffff, Shr(Load4(b, 23), 5)),
      And(0x1fffff, Shr(Load3(b, 26), 2)), And(0x1fffff, Shr(Load4(b, 28), 7)),
      And(0x1fffff, Shr(Load4(b, 31), 4)), And(0x1fffff, Shr(Load3(b, 34), 1)),
      And(0x1fffff, Shr(Load4(b, 36), 6)), And(0x1fffff, Shr(Load3(b, 39), 3)),
      And(0x1fffff, Load3(b, 42)), And(0x1fffff, Shr(Load4(b, 44), 5)),
      And(0x1fffff, Shr(Load3(b, 47), 2)), And(0x1fffff, Shr(Load4(b, 49), 7)),
      And(0x1fffff, Shr(Load4(b, 52), 4)), And(0x1fffff, Shr(Load3(b, 55), 1)),
      And(0x1fffff, Shr(Load4(b, 57), 6)), Shr(Load4(b, 60), 3)
    ]
  }

  /** A limb that masks w loaded bits, after a shift, is a 21-bit field of the whole number. */
  lemma MaskedLimb(n: nat, p: nat, w: nat, q: nat)
    requires q + 21 <= w
    ensures Shr(Field(n, p, w), q) >= 0
    ensures And(0x1fffff, Shr(Field(n, p, w), q)) == Field(n, p + q, 21)
  {
    Pow2Words();
    hide Pow2, And;
    FieldOfField(n, p, w, q, 21);
    MaskIsMod(Shr(Field(n, p, w), q), 21);
  }

  lemma UnshiftedLimb(n: nat, p: nat)
    ensures And(0x1fffff, Field(n, p, 24)) == Field(n, p, 21)
  {
    MaskedLimb(n, p, 24, 0);
    Pow2Small();
  }

  lemma {:induction false} ValOfFields(s: seq<int>, n: nat)
    requires |s| >= 1
    requires forall k :: 0 <= k < |s| - 1 ==> s[k] == Field(n, 21 * k, 21)
    requires s[|s| - 1] == n / Pow2(21 * (|s| - 1))
    ensures Val(s) == n
  {
    Pow2Small();
    Pow2Words();
    hide Pow2;
    if |s| == 1 {
      assert s[1..] == [];
    } else {
      var t, m := s[1..], n / 0x200000;
      forall k | 0 <= k < |t| - 1
        ensures t[k] == Field(m, 21 * k, 21)
      {
        DivDiv(n, 0x200000, Pow2(21 * k));
        Pow2Add(21, 21 * k);
      }
      DivDiv(n, 0x200000, Pow2(21 * (|t| - 1)));
      Pow2Add(21, 21 * (|t| - 1));
      ValOfFields(t, m);
      assert s[0] == Field(n, 0, 21);
    }
  }

  lemma ScalarLow(b: seq<byte>)
    requires |b| == 32
    ensures forall k :: 0 <= k < 6 ==> LoadScalar(b)[k] == Field(LE(b), 21 * k, 21)
  {
    hide LE, Load3, Load4, And, Field;
    var n := LE(b);
    Load3Field(b, 0); UnshiftedLimb(n, 0);
    Load4Field(b, 2); MaskedLimb(n, 16, 32, 5);
    Load3Field(b, 5); MaskedLimb(n, 40, 24, 2);
    Load4Field(b, 7); MaskedLimb(n, 56, 32, 7);
    Load4Field(b, 10); MaskedLimb(n, 80, 32, 4);
    Load3Field(b, 13); MaskedLimb(n, 104, 24, 1);
  }

  lemma ScalarHigh(b: seq<byte>)
    requires |b| == 32
    ensures forall k :: 6 <= k < 11 ==> LoadScalar(b)[k] == Field(LE(b), 21 * k, 21)
  {
    hide LE, Load3, Load4, And, Field;
    var n := LE(b);
    Load4Field(b, 15); MaskedLimb(n, 120, 32, 6);
    Load3Field(b, 18); MaskedLimb(n, 144, 24, 3);
    Load3Field(b, 21); UnshiftedLimb(n, 168);
    Load4Field(b, 23); MaskedLimb(n, 184, 32, 5);
    Load3Field(b, 26); MaskedLimb(n, 208, 24, 2);
  }

  lemma Wide0(b: seq<byte>)
    requires |b| == 64
    ensures forall k :: 0 <= k < 6 ==> LoadWide(b)[k] == Field(LE(b), 21 * k, 21)
  {
    hide LE, Load3, Load4, And, Field;
    var n := LE(b);
    Load3Field(b, 0); UnshiftedLimb(n, 0);
    Load4Field(b, 2); MaskedLimb(n, 16, 32, 5);
    Load3Field(b, 5); MaskedLimb(n, 40, 24, 2);
    Load4Field(b, 7); MaskedLimb(n, 56, 32, 7);
    Load4Field(b, 10); MaskedLimb(n, 80, 32, 4);
    Load3Field(b, 13); MaskedLimb(n, 104, 24, 1);
  }

  lemma Wide1(b: seq<byte>)
    requires |b| == 64
    ensures forall k :: 6 <= k < 12 ==> LoadWide(b)[k] == Field(LE(b), 21 * k, 21)
  {
    hide LE, Load3, Load4, And, Field;
    var n := LE(b);
    Load4Field(b, 15); MaskedLimb(n, 120, 32, 6);
    Load3Field(b, 18); MaskedLimb(n, 144, 24, 3);
    Load3Field(b, 21); UnshiftedLimb(n, 168);
    Load4Field(b, 23); MaskedLimb(n, 184, 32, 5);
    Load3Field(b, 26); MaskedLimb(n, 208, 24, 2);
    Load4Field(b, 28); MaskedLimb(n, 224, 32, 7);
  }

  lemma Wide2(b: seq<byte>)
    requires |b| == 64
    ensures forall k :: 12 <= k < 18 ==> LoadWide(b)[k] == Field(LE(b), 21 * k, 21)
  {
    hide LE, Load3, Load4, And, Field;
    var n := LE(b);
    Load4Field(b, 31); MaskedLimb(n, 248, 32, 4);
    Load3Field(b, 34); MaskedLimb(n, 272, 24, 1);
    Load4Field(b, 36); MaskedLimb(n, 288, 32, 6);
    Load3Field(b, 39); MaskedLimb(n, 312, 24, 3);
    Load3Field(b, 42); UnshiftedLimb(n, 336);
    Load4Field(b, 44); MaskedLimb(n, 352, 32, 5);
  }

  lemma Wide3(b: seq<byte>)
    requires |b| == 64
    ensures forall k :: 18 <= k < 23 ==> LoadWide(b)[k] == Field(LE(b), 21 * k, 21)
  {
    hide LE, Load3, Load4, And, Field;
    var n := LE(b);
    Load3Field(b, 47); MaskedLimb(n, 376, 24, 2);
    Load4Field(b, 49); MaskedLimb(n, 392, 32, 7);
    Load4Field(b, 52); MaskedLimb(n, 416, 32, 4);
    Load3Field(b, 55); MaskedLimb(n, 440, 24, 1);
    Load4Field(b, 57); MaskedLimb(n, 456, 32, 6);
  }

  lemma FieldRange(n: nat, p: nat)
    ensures 0 <= Field(n, p, 21) < 0x200000
  {
    Pow2Words();
  }

  lemma ScalarTop(b: seq<byte>)
    requires |b| == 32
    ensures LoadScalar(b)[11] == LE(b) / Pow2(231)
    ensures 0 <= LoadScalar(b)[11] < 0x2000000
  {
    hide LE, Load3, Load4, And, Field, Pow2;
    Load4Field(b, 28);
    LEBound(b);
    Pow2Words();
    Pow2Small();
    TopField(LE(b), 224, 32, 7);
  }

  lemma WideTop(b: seq<byte>)
    requires |b| == 64
    ensures LoadWide(b)[23] == LE(b) / Pow2(483)
    ensures 0 <= LoadWide(b)[23] < 0x20000000
  {
    hide LE, Load3, Load4, And, Field, Pow2;
    Load4Field(b, 60);
    LEBound(b);
    Pow2Words();
    Pow2Small();
    TopField(LE(b), 480, 32, 3);
  }

  /** The whole string is loaded and every limb is small. */
  lemma LoadScalarValue(b: seq<byte>)
    requires |b| == 32
    ensures Val(LoadScalar(b)) == LE(b)
    ensures forall k :: 0 <= k < 11 ==> LoadScalar(b)[k] < 0x200000
    ensures LoadScalar(b)[11] < 0x2000000
  {
    hide LoadScalar, Val, LE, Field, Pow2;
    var n, s := LE(b), LoadScalar(b);
    ScalarLow(b);
    ScalarHigh(b);
    ScalarTop(b);
    ValOfFields(s, n);
    forall k | 0 <= k < 11
      ensures s[k] < 0x200000
    {
      FieldRange(n, 21 * k);
    }
  }

  lemma TopField(n: nat, p: nat, w: nat, q: nat)
    requires n < Pow2(p + w) && q <= w
    ensures Shr(Field(n, p, w), q) == n / Pow2(p + q)
  {
    hide Pow2;
    Pow2Add(p, w);
    var x := n / Pow2(p);
    assert 0 <= x < Pow2(w) by {
      if x >= Pow2(w) {
        MulMono(Pow2(w), x, Pow2(p));
      }
    }
    DivModUnique(x, Pow2(w), 0, x);
    DivDiv(n, Pow2(p), Pow2(q));
    Pow2Add(p, q);
  }

  lemma LoadWideValue(b: seq<byte>)
    requires |b| == 64
    ensures Val(LoadWide(b)) == LE(b)
    ensures Within(LoadWide(b), 0, 24, 0x2000_0000)
  {
    hide LoadWide, Val, LE, Field, Pow2;
    var n, s := LE(b), LoadWide(b);
    Wide0(b);
    Wide1(b);
    Wide2(b);
    Wide3(b);
    WideTop(b);
    ValOfFields(s, n);
    forall k | 0 <= k < 23
      ensures 0 <= s[k] < 0x200000
    {
      FieldRange(n, 21 * k);
    }
  }

  // -------------------------------------------------------------------------
  // The schoolbook product
  // -------------------------------------------------------------------------

  /** The 23 sums of sc_muladd and a zero top limb. */
  function Products(a: seq<int>, b: seq<int>, c: seq<int>): (s: seq<int>)
    requires |a| == |b| == |c| == 12
    ensures |s| == 24
  {
    [
      c[0] + a[0] * b[0],
      c[1] + a[0] * b[1] + a[1] * b[0],
      c[2] + a[0] * b[2] + a[1] * b[1] + a[2] * b[0],
      c[3] + a[0] * b[3] + a[1] * b[2] + a[2] * b[1] + a[3] * b[0],
      c[4] + a[0] * b[4] + a[1] * b[3] + a[2] * b[2] + a[3] * b[1] + a[4] * b[0],
      c[5] + a[0] * b[5] + a[1] * b[4] + a[2] * b[3] + a[3] * b[2] + a[4] * b[1] + a[5] * b[0],
      c[6] + a[0] * b[6] + a[1] * b[5] + a[2] * b[4] + a[3] * b[3] + a[4] * b[2] + a[5] * b[1] + a[6] * b[0],
      c[7] + a[0] * b[7] + a[1] * b[6] + a[2] * b[5] + a[3] * b[4] + a[4] * b[3] + a[5] * b[2] + a[6] * b[1] + a[7] * b[0],
      c[8] + a[0] * b[8] + a[1] * b[7] + a[2] * b[6] + a[3] * b[5] + a[4] * b[4] + a[5] * b[3] + a[6] * b[2] + a[7] * b[1] + a[8] * b[0],
      c[9] + a[0] * b[9] + a[1] * b[8] + a[2] * b[7] + a[3] * b[6] + a[4] * b[5] + a[5] * b[4] + a[6] * b[3] + a[7] * b[2] + a[8] * b[1] + a[9] * b[0],
      c[10] + a[0] * b[10] + a[1] * b[9] + a[2] * b[8] + a[3] * b[7] + a[4] * b[6] + a[5] * b[5] + a[6] * b[4] + a[7] * b[3] + a[8] * b[2] + a[9] * b[1] + a[10] * b[0],
      c[11] + a[0] * b[11] + a[1] * b[10] + a[2] * b[9] + a[3] * b[8] + a[4] * b[7] + a[5] * b[6] + a[6] * b[5] + a[7] * b[4] + a[8] * b[3] + a[9] * b[2] + a[10] * b[1] + a[11] * b[0],
      a[1] * b[11] + a[2] * b[10] + a[3] * b[9] + a[4] * b[8] + a[5] * b[7] + a[6] * b[6] + a[7] * b[5] + a[8] * b[4] + a[9] * b[3] + a[10] * b[2] + a[11] * b[1],
      a[2] * b[11] + a[3] * b[10] + a[4] * b[9] + a[5] * b[8] + a[6] * b[7] + a[7] * b[6] + a[8] * b[5] + a[9] * b[4] + a[10] * b[3] + a[11] * b[2],
      a[3] * b[11] + a[4] * b[10] + a[5] * b[9] + a[6] * b[8] + a[7] * b[7] + a[8] * b[6] + a[9] * b[5] + a[10] * b[4] + a[11] * b[3],
      a[4] * b[11] + a[5] * b[10] + a[6] * b[9] + a[7] * b[8] + a[8] * b[7] + a[9] * b[6] + a[10] * b[5] + a[11] * b[4],
      a[5] * b[11] + a[6] * b[10] + a[7] * b[9] + a[8] * b[8] + a[9] * b[7] + a[10] * b[6] + a[11] * b[5],
      a[6] * b[11] + a[7] * b[10] + a[8] * b[9] + a[9] * b[8] + a[10] * b[7] + a[11] * b[6],
      a[7] * b[11] + a[8] * b[10] + a[9] * b[9] + a[10] * b[8] + a[11] * b[7],
      a[8] * b[11] + a[9] * b[10] + a[10] * b[9] + a[11] * b[8],
      a[9] * b[11] + a[10] * b[10] + a[11] * b[9],
      a[10] * b[11] + a[11] * b[10],
      a[11] * b[11],
      0
    ]
  }

  /** The first n terms of the convolution of a and b at k. */
  ghost function Conv(a: seq<int>, b: seq<int>, k: nat, n: nat): int
    requires |a| == |b| == 12 && n <= 12
    decreases n
  {
    if n == 0 then 0
    else Conv(a, b, k, n - 1) + (if n - 1 <= k < n + 11 then a[n - 1] * b[k - (n - 1)] else 0)
  }

  lemma ProductsA(a: seq<int>, b: seq<int>, c: seq<int>)
    requires |a| == |b| == |c| == 12
    ensures forall k :: 0 <= k < 6 ==> Products(a, b, c)[k] == (if k < 12 then c[k] else 0) + Conv(a, b, k, 12)
  {
    assert Products(a, b, c)[0] == c[0] + Conv(a, b, 0, 12);
    assert Products(a, b, c)[1] == c[1] + Conv(a, b, 1, 12);
    assert Products(a, b, c)[2] == c[2] + Conv(a, b, 2, 12);
    assert Products(a, b, c)[3] == c[3] + Conv(a, b, 3, 12);
    assert Products(a, b, c)[4] == c[4] + Conv(a, b, 4, 12);
    assert Products(a, b, c)[5] == c[5] + Conv(a, b, 5, 12);
  }

  lemma ProductsB(a: seq<int>, b: seq<int>, c: seq<int>)
    requires |a| == |b| == |c| == 12
    ensures forall k :: 6 <= k < 12 ==> Products(a, b, c)[k] == (if k < 12 then c[k] else 0) + Conv(a, b, k, 12)
  {
    assert Products(a, b, c)[6] == c[6] + Conv(a, b, 6, 12);
    assert Products(a, b, c)[7] == c[7] + Conv(a, b, 7, 12);
    assert Products(a, b, c)[8] == c[8] + Conv(a, b, 8, 12);
    assert Products(a, b, c)[9] == c[9] + Conv(a, b, 9, 12);
    assert Products(a, b, c)[10] == c[10] + Conv(a, b, 10, 12);
    assert Products(a, b, c)[11] == c[11] + Conv(a, b, 11, 12);
  }

  lemma ProductsC(a: seq<int>, b: seq<int>, c: seq<int>)
    requires |a| == |b| == |c| == 12
    ensures forall k :: 12 <= k < 18 ==> Products(a, b, c)[k] == Conv(a, b, k, 12)
  {
    assert Products(a, b, c)[12] == Conv(a, b, 12, 12);
    assert Products(a, b, c)[13] == Conv(a, b, 13, 12);
    assert Products(a, b, c)[14] == Conv(a, b, 14, 12);
    assert Products(a, b, c)[15] == Conv(a, b, 15, 12);
    assert Products(a, b, c)[16] == Conv(a, b, 16, 12);
    assert Products(a, b, c)[17] == Conv(a, b, 17, 12);
  }

  lemma ProductsD(a: seq<int>, b: seq<int>, c: seq<int>)
    requires |a| == |b| == |c| == 12
    ensures forall k :: 18 <= k < 23 ==> Products(a, b, c)[k] == Conv(a, b, k, 12)
  {
    assert Products(a, b, c)[18] == Conv(a, b, 18, 12);
    assert Products(a, b, c)[19] == Conv(a, b, 19, 12);
    assert Products(a, b, c)[20] == Conv(a, b, 20, 12);
    assert Products(a, b, c)[21] == Conv(a, b, 21, 12);
    assert Products(a, b, c)[22] == Conv(a, b, 22, 12);
  }

  ghost function ConvSeq(a: seq<int>, b: seq<int>, n: nat): seq<int>
    requires |a| == |b| == 12 && n <= 12
  {
    seq(24, k requires 0 <= k < 24 => Conv(a, b, k, n))
  }

  ghost function Scale(x: int, b: seq<int>): seq<int> {
    seq(|b|, j requires 0 <= j < |b| => x * b[j])
  }

  lemma {:induction false} ValScale(x: int, b: seq<int>)
    ensures Val(Scale(x, b)) == x * Val(b)
  {
    if |b| != 0 {
      ValScale(x, b[1..]);
      assert Scale(x, b)[1..] == Scale(x, b[1..]);
    }
  }

  lemma {:induction false} ValAdd(s: seq<int>, t: seq<int>, u: seq<int>)
    requires |s| == |t| == |u| && forall k :: 0 <= k < |s| ==> u[k] == s[k] + t[k]
    ensures Val(u) == Val(s) + Val(t)
  {
    if |s| != 0 {
      ValAdd(s[1..], t[1..], u[1..]);
    }
  }

  lemma {:induction false} ValShift(t: seq<int>, i: nat)
    ensures Val(seq(i, _ => 0) + t) == Pow2(21 * i) * Val(t)
  {
    if i == 0 {
      assert seq(0, _ => 0) + t == t;
    } else {
      ValShift(t, i - 1);
      assert (seq(i, _ => 0) + t)[1..] == seq(i - 1, _ => 0) + t;
      Pow2Words();
      Pow2Add(21, 21 * (i - 1));
    }
  }

  lemma ValPad(t: seq<int>, n: nat)
    ensures Val(t + seq(n, _ => 0)) == Val(t)
  {
    ValSplit(t + seq(n, _ => 0), |t|);
    assert (t + seq(n, _ => 0))[..|t|] == t && (t + seq(n, _ => 0))[|t|..] == seq(n, _ => 0);
    ValZero(seq(n, _ => 0));
  }

  lemma ValSnoc(a: seq<int>, i: nat)
    requires i < |a|
    ensures Val(a[..i + 1]) == Val(a[..i]) + Pow2(21 * i) * a[i]
  {
    ValSplit(a[..i + 1], i);
    assert a[..i + 1][..i] == a[..i] && a[..i + 1][i..] == [a[i]];
    assert Val([a[i]]) == a[i];
  }

  /** Row n of the product adds a[n-1] times b, moved n - 1 limbs up. */
  lemma {:induction false} ConvVal(a: seq<int>, b: seq<int>, n: nat)
    requires |a| == |b| == 12 && n <= 12
    ensures Val(ConvSeq(a, b, n)) == Val(a[..n]) * Val(b)
  {
    if n == 0 {
      ValZero(ConvSeq(a, b, 0));
    } else {
      hide Pow2;
      ConvVal(a, b, n - 1);
      var i := n - 1;
      ConvRow(a, b, i);
      ValSnoc(a, i);
      hide Val;
      OneMoreRow(Val(a[..i]), Pow2(21 * i), a[i], Val(b));
    }
  }

  lemma OneMoreRow(v: int, w: int, x: int, y: int)
    ensures (v + w * x) * y == v * y + w * (x * y)
  {
    assert (w * x) * y == w * (x * y);
  }

  lemma ConvRow(a: seq<int>, b: seq<int>, i: nat)
    requires |a| == |b| == 12 && i < 12
    ensures Val(ConvSeq(a, b, i + 1)) == Val(ConvSeq(a, b, i)) + Pow2(21 * i) * (a[i] * Val(b))
  {
    hide Val, Pow2;
    var row := seq(i, _ => 0) + Scale(a[i], b);
    var full := row + seq(12 - i, _ => 0);
    ValAdd(ConvSeq(a, b, i), full, ConvSeq(a, b, i + 1));
    ValPad(row, 12 - i);
    ValShift(Scale(a[i], b), i);
    ValScale(a[i], b);
  }

  /** Every term is at most 2^46, except the one of limb 22. */
  lemma {:induction false} ConvBound(a: seq<int>, b: seq<int>, k: nat, n: nat)
    requires |a| == |b| == 12 && n <= 12 && SmallLimbs(a) && SmallLimbs(b)
    ensures 0 <= Conv(a, b, k, n)
    ensures k != 22 ==> Conv(a, b, k, n) <= n * 0x4000_0000_0000
    ensures k == 22 ==> Conv(a, b, k, n) <= 0x4_0000_0000_0000
    decreases n
  {
    if n != 0 {
      ConvBound(a, b, k, n - 1);
      if n - 1 <= k < n + 11 {
        TermBound(a, b, n - 1, k - (n - 1));
        if k == 22 {
          ConvEmpty(a, b, 11);
        }
      }
    }
  }

  lemma TermBound(a: seq<int>, b: seq<int>, i: nat, j: nat)
    requires |a| == |b| == 12 && i < 12 && j < 12 && SmallLimbs(a) && SmallLimbs(b)
    ensures 0 <= a[i] * b[j] <= (if i == 11 && j == 11 then 0x4_0000_0000_0000 else 0x4000_0000_0000)
  {
    if i == 11 {
      NatProduct(a[i], b[j], 0x2000000, if j == 11 then 0x2000000 else 0x200000);
    } else {
      NatProduct(a[i], b[j], 0x200000, if j == 11 then 0x2000000 else 0x200000);
    }
  }

  lemma {:induction false} ConvEmpty(a: seq<int>, b: seq<int>, n: nat)
    requires |a| == |b| == 12 && n <= 11
    ensures Conv(a, b, 22, n) == 0
    decreases n
  {
    if n != 0 {
      ConvEmpty(a, b, n - 1);
    }
  }

  /** The limbs of a 32-byte string: eleven of 21 bits and one of 25. */
  ghost predicate SmallLimbs(a: seq<int>)
    requires |a| == 12
  {
    0 <= a[11] < 0x2000000 && forall k :: 0 <= k < 11 ==> 0 <= a[k] < 0x200000
  }

  lemma ProductsValue(a: seq<int>, b: seq<int>, c: seq<int>)
    requires |a| == |b| == |c| == 12 && SmallLimbs(a) && SmallLimbs(b) && SmallLimbs(c)
    ensures Val(Products(a, b, c)) == Val(a) * Val(b) + Val(c)
    ensures Within(Products(a, b, c), 0, 24, 0x4_0000_0000_0000) && Products(a, b, c)[23] == 0
  {
    ProductsA(a, b, c);
    ProductsB(a, b, c);
    ProductsC(a, b, c);
    ProductsD(a, b, c);
    var s := Products(a, b, c);
    assert s[23] == 0;
    hide Products, Val, Conv;
    var cc := c + seq(12, _ => 0);
    ConvLast(a, b);
    forall k | 0 <= k < 24
      ensures s[k] == ConvSeq(a, b, 12)[k] + cc[k]
      ensures 0 <= s[k] <= 0x4_0000_0000_0000
    {
      ConvBound(a, b, k, 12);
    }
    ValAdd(ConvSeq(a, b, 12), cc, s);
    ConvVal(a, b, 12);
    ValPad(c, 12);
    assert a[..12] == a;
  }

  lemma ConvLast(a: seq<int>, b: seq<int>)
    requires |a| == |b| == 12
    ensures Conv(a, b, 23, 12) == 0
  {
  }

  // -------------------------------------------------------------------------
  // Storing
  // -------------------------------------------------------------------------

  /** The limbs a reduction leaves. */
  ghost predicate Reduced(t: seq<int>)
    requires |t| == 24
  {
    && (forall k :: 0 <= k < 11 ==> 0 <= t[k] < 0x200000)
    && 0 <= t[11] <= 0x200000 && Within(t, 12, 24, 0)
  }

  lemma ShiftsAreNat()
    ensures forall x: nat, k: nat {:trigger Shl(x, k)} :: Shl(x, k) >= 0
  {
  }

  function ScalarBytes(t: seq<int>): (b: seq<byte>)
    requires |t| == 24 && Reduced(t)
    ensures |b| == 32
  {
    hide Or, Shr, Shl;
    ShiftsAreNat();
    [
      Byte(Shr(t[0], 0)), Byte(Shr(t[0], 8)),
      Byte(Or(Shr(t[0], 16), Shl(t[1], 5))), Byte(Shr(t[1], 3)),
      Byte(Shr(t[1], 11)), Byte(Or(Shr(t[1], 19), Shl(t[2], 2))),
      Byte(Shr(t[2], 6)), Byte(Or(Shr(t[2], 14), Shl(t[3], 7))),
      Byte(Shr(t[3], 1)), Byte(Shr(t[3], 9)),
      Byte(Or(Shr(t[3], 17), Shl(t[4], 4))), Byte(Shr(t[4], 4)),
      Byte(Shr(t[4], 12)), Byte(Or(Shr(t[4], 20), Shl(t[5], 1))),
      Byte(Shr(t[5], 7)), Byte(Or(Shr(t[5], 15), Shl(t[6], 6))),
      Byte(Shr(t[6], 2)), Byte(Shr(t[6], 10)),
      Byte(Or(Shr(t[6], 18), Shl(t[7], 3))), Byte(Shr(t[7], 5)),
      Byte(Shr(t[7], 13)), Byte(Shr(t[8], 0)),
      Byte(Shr(t[8], 8)), Byte(Or(Shr(t[8], 16), Shl(t[9], 5))),
      Byte(Shr(t[9], 3)), Byte(Shr(t[9], 11)),
      Byte(Or(Shr(t[9], 19), Shl(t[10], 2))), Byte(Shr(t[10], 6)),
      Byte(Or(Shr(t[10], 14), Shl(t[11], 7))), Byte(Shr(t[11], 1)),
      Byte(Shr(t[11], 9)), Byte(Shr(t[11], 17))
    ]
  }

  /** Dividing the value by 2^(21k) drops k limbs. */
  lemma DropLimbs(t: seq<int>, k: nat)
    requires |t| == 24 && Reduced(t) && k <= 11
    ensures Val(t) >= 0 && Val(t) / Pow2(21 * k) == Val(t[k..]) && Val(t[k..]) >= 0
  {
    hide Pow2, Val;
    ValSplit(t, k);
    ValNonneg(t[..k]);
    DivModUnique(Val(t), Pow2(21 * k), Val(t[k..]), Val(t[..k]));
    ValSplit(t, 12);
    ValZero(t[12..]);
    ValNonneg2(t, k);
  }

  lemma {:induction false} ValNonneg2(t: seq<int>, k: nat)
    requires |t| == 24 && Reduced(t) && k <= 24
    ensures Val(t[k..]) >= 0
    decreases 24 - k
  {
    if k < 24 {
      ValNonneg2(t, k + 1);
      assert t[k..][1..] == t[k + 1..];
    }
  }

  /** The byte at bit r of limb k. */
  lemma LimbByte(t: seq<int>, k: nat, r: nat)
    requires |t| == 24 && Reduced(t) && k <= 11 && r < 21
    ensures Val(t) >= 0
    ensures Field(Val(t), 21 * k + r, 8) == (Shr(t[k], r) + t[k + 1] * Pow2(21 - r)) % 256
  {
    DropLimbs(t, k);
    Pow2Small();
    Pow2Words();
    var u := t[k..];
    assert u[1..] == t[k + 1..] && t[k + 1..][1..] == t[k + 2..];
    var x := Val(t[k + 2..]);
    assert Val(u) == t[k] + 0x200000 * (t[k + 1] + 0x200000 * x);
    hide Pow2, Val;
    DivDiv(Val(t), Pow2(21 * k), Pow2(r));
    Pow2Add(21 * k, r);
    ShiftedLimbs(t[k], t[k + 1], x, r, 21, 21);
  }

  lemma InnerByte(t: seq<int>, k: nat, r: nat)
    requires |t| == 24 && Reduced(t) && k <= 11 && r <= 13
    ensures Val(t) >= 0 && Byte(Shr(t[k], r)) == Field(Val(t), 21 * k + r, 8)
  {
    LimbByte(t, k, r);
    Pow2Small();
    hide Pow2, Val;
    Pow2Add(8, 13 - r);
    var q := t[k + 1] * Pow2(13 - r);
    assert t[k + 1] * Pow2(21 - r) == q * 256;
    ModMultiple(Shr(t[k], r), q, 256);
  }

  lemma TopByte(t: seq<int>, r: nat)
    requires |t| == 24 && Reduced(t) && r < 21
    ensures Val(t) >= 0 && Byte(Shr(t[11], r)) == Field(Val(t), 231 + r, 8)
  {
    hide Pow2, Val;
    LimbByte(t, 11, r);
    assert t[12] == 0;
  }

  lemma SplitByte(t: seq<int>, k: nat, r: nat)
    requires |t| == 24 && Reduced(t) && k < 11 && r < 21
    ensures Val(t) >= 0
    ensures Byte(Or(Shr(t[k], r), Shl(t[k + 1], 21 - r))) == Field(Val(t), 21 * k + r, 8)
  {
    LimbByte(t, k, r);
    Pow2Words();
    hide Pow2, Val, Or;
    ShrBound(t[k], r, 21 - r);
    OrIsSum(Shr(t[k], r), t[k + 1], 21 - r);
  }

  lemma BytesLow(t: seq<int>)
    requires |t| == 24 && Reduced(t)
    ensures Val(t) >= 0
    ensures forall j :: 0 <= j < 16 ==> ScalarBytes(t)[j] == Field(Val(t), 8 * j, 8)
  {
    hide Pow2, Val, Or, Shr, Shl, Byte, Field;
    InnerByte(t, 0, 0);
    InnerByte(t, 0, 8);
    SplitByte(t, 0, 16);
    InnerByte(t, 1, 3);
    InnerByte(t, 1, 11);
    SplitByte(t, 1, 19);
    InnerByte(t, 2, 6);
    SplitByte(t, 2, 14);
    InnerByte(t, 3, 1);
    InnerByte(t, 3, 9);
    SplitByte(t, 3, 17);
    InnerByte(t, 4, 4);
    InnerByte(t, 4, 12);
    SplitByte(t, 4, 20);
    InnerByte(t, 5, 7);
    SplitByte(t, 5, 15);
  }

  lemma BytesHigh(t: seq<int>)
    requires |t| == 24 && Reduced(t)
    ensures Val(t) >= 0
    ensures forall j :: 16 <= j < 32 ==> ScalarBytes(t)[j] == Field(Val(t), 8 * j, 8)
  {
    hide Pow2, Val, Or, Shr, Shl, Byte, Field;
    InnerByte(t, 6, 2);
    InnerByte(t, 6, 10);
    SplitByte(t, 6, 18);
    InnerByte(t, 7, 5);
    InnerByte(t, 7, 13);
    InnerByte(t, 8, 0);
    InnerByte(t, 8, 8);
    SplitByte(t, 8, 16);
    InnerByte(t, 9, 3);
    InnerByte(t, 9, 11);
    SplitByte(t, 9, 19);
    InnerByte(t, 10, 6);
    SplitByte(t, 10, 14);
    TopByte(t, 1);
    TopByte(t, 9);
    TopByte(t, 17);
  }

  /** The 32 bytes are the base-256 digits of the value. */
  lemma ScalarBytesValue(t: seq<int>)
    requires |t| == 24 && Reduced(t)
    ensures LE(ScalarBytes(t)) == Val(t)
  {
    hide Pow2, Val, ScalarBytes, Field, LE;
    BytesLow(t);
    BytesHigh(t);
    LEOfDigits(ScalarBytes(t), Val(t));
    ReducedBound(t);
    DivModUnique(Val(t), Pow2(256), 0, Val(t));
  }

  lemma ReducedBound(t: seq<int>)
    requires |t| == 24 && Reduced(t)
    ensures 0 <= Val(t) < Pow2(256)
  {
    hide Pow2, Val;
    Pow2Large();
    ValSplit(t, 11);
    ValNonneg(t[..11]);
    assert Val(t[11..]) == t[11] by {
      ValSplit(t[11..], 1);
      assert t[11..][..1] == [t[11]] && t[11..][1..] == t[12..];
      ValZero(t[12..]);
      ValOne(t[11]);
    }
  }

  lemma ValOne(x: int)
    ensures Val([x]) == x
  {
  }

  /** The 32 byte stores through the output pointer. */
  method StoreScalar(s: array<byte>, at: nat, t: seq<int>)
    requires |t| == 24 && Reduced(t) && at + 32 <= s.Length
    modifies s
    ensures LE(s[at..at + 32]) == Val(t)
    ensures s[..at] == old(s[..at]) && s[at + 32..] == old(s[at + 32..])
  {
    hide Val, ScalarBytes, LE;
    var b := ScalarBytes(t);
    forall k | 0 <= k < 32 {
      s[at + k] := b[k];
    }
    assert s[at..at + 32] == b;
    ScalarBytesValue(t);
  }

  // -------------------------------------------------------------------------
  // The entry points
  // -------------------------------------------------------------------------

  /** sc_reduce: the first 32 bytes become the 64-byte input modulo l; the rest is left alone. */
  method ScReduce(s: array<byte>)
    requires s.Length >= 64
    modifies s
    ensures LE(s[..32]) == LE(old(s[..64])) % L
    ensures s[32..] == old(s[32..])
  {
    hide Val, LE, LoadWide, Cong, Pow2;
    ghost var v := LE(s[..64]);
    LoadWideValue(s[..64]);
    var t: Limbs := LoadWide(s[..64]);
    CongRefl(v, L);
    t := ReduceLimbs(t, v);
    StoreScalar(s, 0, t);
    assert s[0..0 + 32] == s[..32];
  }

  /** sc_muladd: (ab + c) mod l, written at an offset of s, for all 32-byte operands. */
  method ScMulAdd(s: array<byte>, at: nat, a: seq<byte>, b: seq<byte>, c: seq<byte>)
    requires |a| == |b| == |c| == 32 && at + 32 <= s.Length
    modifies s
    ensures LE(s[at..at + 32]) == (LE(a) * LE(b) + LE(c)) % L
    ensures s[..at] == old(s[..at]) && s[at + 32..] == old(s[at + 32..])
  {
    hide Val, LE, LoadScalar, Products, Cong, Pow2;
    var la, lb, lc := LoadScalar(a), LoadScalar(b), LoadScalar(c);
    LoadScalarValue(a);
    LoadScalarValue(b);
    LoadScalarValue(c);
    ProductsValue(la, lb, lc);
    var t: Limbs := Products(la, lb, lc);
    ghost var v := LE(a) * LE(b) + LE(c);
    t := CarryWide(t);
    CongRefl(v, L);
    t := ReduceLimbs(t, v);
    StoreScalar(s, at, t);
  }
}
