/** Scalars modulo l: the 21-bit limb reduction of sc.c. */
module Sc {
  import opened Arith
  import opened Bits

  const L: int := 0x10000000_00000000_00000000_00000000_14def9de_a2f79cd6_5812631a_5cf5d3ed

  type Limbs = s: seq<int64> | |s| == 24 witness seq(24, _ => 0)

  /** s[0] + 2^21 s[1] + 2^42 s[2] + ... */
  ghost function Val(s: seq<int>): int {
    if |s| == 0 then 0 else s[0] + 0x200000 * Val(s[1..])
  }

  lemma {:induction false} ValUpdate(s: seq<int>, k: nat, x: int)
    requires k < |s|
    ensures Val(s[k := x]) == Val(s) + (x - s[k]) * Pow2(21 * k)
  {
    if k == 0 {
      assert s[0 := x][1..] == s[1..];
    } else {
      ValUpdate(s[1..], k - 1, x);
      assert s[k := x][1..] == s[1..][k - 1 := x];
      Pow2Words();
      hide Pow2;
      Pow2Add(21, 21 * (k - 1));
      assert 0x200000 * ((x - s[k]) * Pow2(21 * (k - 1))) == (x - s[k]) * (0x200000 * Pow2(21 * (k - 1)));
    }
  }

  ghost predicate Within(s: seq<int>, lo: nat, hi: nat, b: int)
    requires hi <= |s|
  {
    forall k :: lo <= k < hi ==> -b <= s[k] <= b
  }

  // -------------------------------------------------------------------------
  // The three steps
  // -------------------------------------------------------------------------

  ghost function Adjust(s: seq<int>, k: nat, d: int): (t: seq<int>)
    requires k < |s|
    ensures |t| == |s|
  {
    s[k := s[k] + d]
  }

  /** Limb i is folded twelve places down: 2^252 is congruent to the sum of the six constants. */
  ghost function FoldStep(s: seq<int>, i: nat): (t: seq<int>)
    requires |s| == 24 && 12 <= i < 24
    ensures |t| == 24
  {
    var x := s[i];
    var low := Adjust(Adjust(Adjust(s, i - 12, x * 666643), i - 11, x * 470296), i - 10, x * 654183);
    var high := Adjust(Adjust(Adjust(low, i - 9, -x * 997805), i - 8, x * 136657), i - 7, -x * 683901);
    Adjust(high, i, -x)
  }

  method Fold(s: Limbs, i: nat, ghost b: nat, ghost v: int) returns (t: Limbs)
    requires 12 <= i < 24 && b <= 0x80_0000_0000 && Within(s, i, i + 1, b)
    requires Within(s, i - 12, i - 6, 0x4000_0000_0000_0000)
    requires Cong(Val(s), v, L)
    ensures t == FoldStep(s, i) && Cong(Val(t), v, L)
    ensures t[i] == 0 && forall k :: 0 <= k < i - 12 || i - 7 < k < i || i < k < 24 ==> t[k] == s[k]
    ensures forall k :: i - 12 <= k <= i - 7 ==> s[k] - b * 0x100000 <= t[k] <= s[k] + b * 0x100000
  {
    hide Val, FoldStep, Cong;
    FoldLimbs(s, i, b);
    t := s;
    t := t[i - 12 := t[i - 12] + t[i] * 666643];
    t := t[i - 11 := t[i - 11] + t[i] * 470296];
    t := t[i - 10 := t[i - 10] + t[i] * 654183];
    t := t[i - 9 := t[i - 9] - t[i] * 997805];
    t := t[i - 8 := t[i - 8] + t[i] * 136657];
    t := t[i - 7 := t[i - 7] - t[i] * 683901];
    t := t[i := 0];
    assert t == FoldStep(s, i);
    FoldCong(s, i);
    CongTrans(Val(t), Val(s), v, L);
  }

  /** What a fold does limb by limb. */
  lemma FoldLimbs(s: seq<int>, i: nat, b: nat)
    requires |s| == 24 && 12 <= i < 24 && Within(s, i, i + 1, b)
    ensures var t, x := FoldStep(s, i), s[i];
      && t[i - 12] == s[i - 12] + x * 666643
      && t[i - 11] == s[i - 11] + x * 470296
      && t[i - 10] == s[i - 10] + x * 654183
      && t[i - 9] == s[i - 9] - x * 997805
      && t[i - 8] == s[i - 8] + x * 136657
      && t[i - 7] == s[i - 7] - x * 683901
    ensures FoldStep(s, i)[i] == 0
    ensures forall k :: 0 <= k < i - 12 || i - 7 < k < i || i < k < 24 ==> FoldStep(s, i)[k] == s[k]
  {
  }

  lemma ValAdjust(s: seq<int>, k: nat, d: int)
    requires k < |s|
    ensures Val(Adjust(s, k, d)) == Val(s) + d * Pow2(21 * k)
  {
    ValUpdate(s, k, s[k] + d);
  }

  /** The six updates and the cleared limb, as weights. */
  lemma FoldUpdates(s: seq<int>, i: nat)
    requires |s| == 24 && 12 <= i < 24
    ensures var x := s[i];
      Val(FoldStep(s, i)) == Val(s) + x * 666643 * Pow2(21 * (i - 12)) + x * 470296 * Pow2(21 * (i - 11))
        + x * 654183 * Pow2(21 * (i - 10)) + -x * 997805 * Pow2(21 * (i - 9)) + x * 136657 * Pow2(21 * (i - 8))
        + -x * 683901 * Pow2(21 * (i - 7)) + -x * Pow2(21 * i)
  {
    hide Val, Pow2, Adjust;
    var x := s[i];
    var s1 := Adjust(s, i - 12, x * 666643);
    var s2 := Adjust(s1, i - 11, x * 470296);
    var s3 := Adjust(s2, i - 10, x * 654183);
    var s4 := Adjust(s3, i - 9, -x * 997805);
    var s5 := Adjust(s4, i - 8, x * 136657);
    var s6 := Adjust(s5, i - 7, -x * 683901);
    ValAdjust(s, i - 12, x * 666643);
    ValAdjust(s1, i - 11, x * 470296);
    ValAdjust(s2, i - 10, x * 654183);
    ValAdjust(s3, i - 9, -x * 997805);
    ValAdjust(s4, i - 8, x * 136657);
    ValAdjust(s5, i - 7, -x * 683901);
    ValAdjust(s6, i, -x);
  }

  /** A fold subtracts an exact multiple of l. */
  lemma FoldVal(s: seq<int>, i: nat)
    requires |s| == 24 && 12 <= i < 24
    ensures Val(FoldStep(s, i)) == Val(s) - s[i] * Pow2(21 * (i - 12)) * L
  {
    hide Val, Pow2, FoldStep;
    FoldUpdates(s, i);
    Weights(i - 12);
    FoldAlgebra(s[i], Pow2(21 * (i - 12)));
  }

  lemma Weights(j: nat)
    ensures Pow2(21 * (j + 1)) == Pow2(21 * j) * 0x200000
    ensures Pow2(21 * (j + 2)) == Pow2(21 * j) * 0x40000000000
    ensures Pow2(21 * (j + 3)) == Pow2(21 * j) * 0x8000000000000000
    ensures Pow2(21 * (j + 4)) == Pow2(21 * j) * 0x1000000000000000000000
    ensures Pow2(21 * (j + 5)) == Pow2(21 * j) * 0x200000000000000000000000000
    ensures Pow2(21 * (j + 12)) == Pow2(21 * j) * 0x1000000000000000000000000000000000000000000000000000000000000000
  {
    hide Pow2;
    Pow2Words();
    Pow2Large();
    Pow2Add(21 * j, 21);
    Pow2Add(21 * j, 42);
    Pow2Add(21 * j, 63);
    Pow2Add(21 * j, 84);
    Pow2Add(21 * j, 105);
    Pow2Add(21 * j, 252);
  }

  lemma FoldAlgebra(x: int, w: int)
    ensures x * 666643 * w + x * 470296 * (w * 0x200000) + x * 654183 * (w * 0x40000000000)
         + -x * 997805 * (w * 0x8000000000000000) + x * 136657 * (w * 0x1000000000000000000000)
         + -x * 683901 * (w * 0x200000000000000000000000000)
         + -x * (w * 0x1000000000000000000000000000000000000000000000000000000000000000)
         == -(x * w * L)
  {
  }

  ghost function Pair(s: seq<int>, i: nat): int
    requires i + 1 < |s|
  {
    s[i] + 0x200000 * s[i + 1]
  }

  const B62: int := 0x4000_0000_0000_0000

  method CarryRound(s: Limbs, i: nat) returns (t: Limbs)
    requires i < 23 && Within(s, i, i + 2, B62)
    ensures forall k :: 0 <= k < 24 && k != i && k != i + 1 ==> t[k] == s[k]
    ensures -0x100000 <= t[i] < 0x100000
    ensures Pair(t, i) == Pair(s, i)
    ensures Val(t) == Val(s)
  {
    assert Pow2(21) == 0x200000 by { Pow2Words(); }
    hide Pow2, Val;
    var carry: int64 := Shr(s[i] + 0x100000, 21);
    t := s[i + 1 := s[i + 1] + carry];
    t := t[i := t[i] - Shl(carry, 21)];
    CarryVal(s, i, carry);
  }

  method CarryFloor(s: Limbs, i: nat) returns (t: Limbs)
    requires i < 23 && Within(s, i, i + 2, B62)
    ensures forall k :: 0 <= k < 24 && k != i && k != i + 1 ==> t[k] == s[k]
    ensures 0 <= t[i] < 0x200000
    ensures Pair(t, i) == Pair(s, i)
    ensures Val(t) == Val(s)
  {
    assert Pow2(21) == 0x200000 by { Pow2Words(); }
    hide Pow2, Val;
    var carry: int64 := Shr(s[i], 21);
    t := s[i + 1 := s[i + 1] + carry];
    t := t[i := t[i] - Shl(carry, 21)];
    CarryVal(s, i, carry);
  }

  lemma CarryVal(s: seq<int>, i: nat, c: int)
    requires i + 1 < |s|
    ensures Val(s[i + 1 := s[i + 1] + c][i := s[i] - c * 0x200000]) == Val(s)
  {
    hide Val, Pow2;
    Weights(i);
    var u := s[i + 1 := s[i + 1] + c];
    ValUpdate(s, i + 1, s[i + 1] + c);
    ValUpdate(u, i, s[i] - c * 0x200000);
    var w := Pow2(21 * i);
    assert c * (w * 0x200000) == (c * 0x200000) * w;
  }

  /** Rounded carries out of limbs i, i + 2 and i + 4; every rounded pass is made of such steps. */
  method CarryThree(s: Limbs, i: nat, ghost b: nat) returns (t: Limbs)
    requires i < 19 && b <= B62 / 2 && Within(s, i, i + 6, b)
    ensures forall k :: 0 <= k < i || i + 6 <= k < 24 ==> t[k] == s[k]
    ensures Within(t, i, i + 1, 0x100000) && Within(t, i + 2, i + 3, 0x100000) && Within(t, i + 4, i + 5, 0x100000)
    ensures Near(s, t, i + 1, b) && Near(s, t, i + 3, b) && Near(s, t, i + 5, b)
    ensures t[i] < 0x100000 && t[i + 2] < 0x100000 && t[i + 4] < 0x100000
    ensures Val(t) == Val(s)
  {
    hide Val;
    t := CarryRound(s, i);
    t := CarryRound(t, i + 2);
    t := CarryRound(t, i + 4);
  }

  /** Limb k moved by no more than the carry out of a limb bounded by b. */
  ghost predicate Near(s: seq<int>, t: seq<int>, k: nat, b: nat)
    requires k < |s| == |t|
  {
    -(b / 0x200000 + 1) <= t[k] - s[k] <= b / 0x200000 + 1
  }

  /** The pass over limbs 0, 2, ..., 22 and then 1, 3, ..., 21 that follows the products. */
  method CarryWide(s: Limbs) returns (t: Limbs)
    requires Within(s, 0, 24, 0x4_0000_0000_0000) && s[23] == 0
    ensures Val(t) == Val(s) && Within(t, 0, 24, 0x8000_0000)
  {
    hide Val;
    t := CarryThree(s, 0, 0x4_0000_0000_0000);
    t := CarryThree(t, 6, 0x4_0000_0000_0000);
    t := CarryThree(t, 12, 0x4_0000_0000_0000);
    t := CarryThree(t, 18, 0x4_0000_0000_0000);
    t := CarryThree(t, 1, 0x5_0000_0000_0000);
    t := CarryThree(t, 7, 0x5_0000_0000_0000);
    t := CarryThree(t, 13, 0x5_0000_0000_0000);
    t := CarryRound(t, 19);
    t := CarryRound(t, 21);
  }

  lemma FoldCong(s: seq<int>, i: nat)
    requires |s| == 24 && 12 <= i < 24
    ensures Cong(Val(FoldStep(s, i)), Val(s), L)
  {
    hide Val, FoldStep, Pow2;
    FoldVal(s, i);
    var k := s[i] * Pow2(21 * (i - 12));
    assert (-k) * L == -(k * L);
    CongIntro(Val(FoldStep(s, i)), Val(s), -k, L);
  }

  /** Limbs top, top - 1 and top - 2 are folded away. */
  method FoldThree(s: Limbs, top: nat, ghost b: nat, ghost c: nat, ghost v: int) returns (t: Limbs)
    requires 14 <= top < 24 && b <= 0x8_0000_0000 && c <= 0x1000_0000_0000_0000
    requires Within(s, top - 2, top + 1, b) && Within(s, 0, top - 6, c)
    requires Cong(Val(s), v, L)
    ensures Within(t, 0, top - 6, c + 3 * (b * 0x100000)) && Within(t, top - 2, top + 1, 0)
    ensures forall k :: 0 <= k < top - 14 || top - 7 < k < top - 2 || top < k < 24 ==> t[k] == s[k]
    ensures Cong(Val(t), v, L)
  {
    hide Val, Cong, FoldStep;
    t := Fold(s, top, b, v);
    t := Fold(t, top - 1, b, v);
    t := Fold(t, top - 2, b, v);
  }

  /** The folds 23, 22, ..., 18. */
  method FoldHigh(s: Limbs, ghost v: int) returns (t: Limbs)
    requires Within(s, 0, 24, 0x8000_0000) && Cong(Val(s), v, L)
    ensures Within(t, 0, 18, 0x40_0000_0000_0000) && Within(t, 18, 24, 0)
    ensures t[17] == s[17] && forall k :: 0 <= k < 6 ==> t[k] == s[k]
    ensures Cong(Val(t), v, L)
  {
    hide Val, Cong;
    t := FoldThree(s, 23, 0x8000_0000, 0x8000_0000, v);
    t := FoldThree(t, 20, 0x8000_0000, 0x8000_0000 + 0x18_0000_0000_0000, v);
  }

  /** The folds 17, 16, ..., 12. */
  method FoldLow(s: Limbs, ghost v: int) returns (t: Limbs)
    requires Within(s, 0, 18, 0x8_0000_0000) && Within(s, 18, 24, 0) && Cong(Val(s), v, L)
    ensures Within(t, 0, 12, 0x400_0000_0000_0000) && Within(t, 12, 24, 0)
    ensures t[11] == s[11]
    ensures Cong(Val(t), v, L)
  {
    hide Val, Cong;
    t := FoldThree(s, 17, 0x8_0000_0000, 0x8_0000_0000, v);
    t := FoldThree(t, 14, 0x8_0000_0000, 0x8_0000_0000 + 0x180_0000_0000_0000, v);
  }

  /** The carries 6, 8, ..., 16 and 7, 9, ..., 15. */
  method CarryMiddle(s: Limbs) returns (t: Limbs)
    requires Within(s, 0, 18, 0x40_0000_0000_0000) && Within(s, 18, 24, 0)
    requires Within(s, 17, 18, 0x8000_0000) && Within(s, 0, 6, 0x8000_0000)
    ensures Within(t, 0, 18, 0x8_0000_0000) && Within(t, 18, 24, 0)
    ensures Val(t) == Val(s)
  {
    hide Val;
    t := CarryThree(s, 6, 0x40_0000_0000_0000);
    t := CarryThree(t, 12, 0x40_0000_0000_0000);
    t := CarryThree(t, 7, 0x50_0000_0000_0000);
    t := CarryRound(t, 13);
    t := CarryRound(t, 15);
  }

  /** The carries 0, 2, ..., 10 and 1, 3, ..., 11. */
  method CarryLow(s: Limbs) returns (t: Limbs)
    requires Within(s, 0, 12, 0x400_0000_0000_0000) && Within(s, 12, 24, 0)
    ensures Within(t, 0, 13, 0x80_0000_0000) && Within(t, 13, 24, 0)
    ensures Within(t, 11, 12, 0x100000)
    ensures Val(t) == Val(s)
  {
    hide Val;
    t := CarryThree(s, 0, 0x400_0000_0000_0000);
    t := CarryThree(t, 6, 0x400_0000_0000_0000);
    t := CarryThree(t, 1, 0x500_0000_0000_0000);
    t := CarryThree(t, 7, 0x500_0000_0000_0000);
  }

  /** The floor carries out of limbs i, i + 1 and i + 2. */
  method FloorThree(s: Limbs, i: nat) returns (t: Limbs)
    requires i < 21 && Within(s, i, i + 4, 0x1000_0000_0000_0000)
    ensures forall k :: 0 <= k < i || i + 4 <= k < 24 ==> t[k] == s[k]
    ensures forall k :: i <= k < i + 3 ==> 0 <= t[k] < 0x200000
    ensures Near(s, t, i + 3, 0x1800_0000_0000_0000)
    ensures Val(t) == Val(s)
  {
    hide Val;
    t := CarryFloor(s, i);
    t := CarryFloor(t, i + 1);
    t := CarryFloor(t, i + 2);
  }

  /** The floor carries 0, 1, ..., 11. */
  method FloorTwelve(s: Limbs) returns (t: Limbs)
    requires Within(s, 0, 12, 0x900_0000_0000_0000) && Within(s, 12, 24, 0)
    ensures forall k :: 0 <= k < 12 ==> 0 <= t[k] < 0x200000
    ensures Within(t, 12, 13, 0x1_0000_0000_0000) && Within(t, 13, 24, 0)
    ensures Val(t) == Val(s)
  {
    hide Val;
    t := FloorThree(s, 0);
    t := FloorThree(t, 3);
    t := FloorThree(t, 6);
    t := FloorThree(t, 9);
  }

  /** The floor carries 0, 1, ..., 10. */
  method FloorEleven(s: Limbs) returns (t: Limbs)
    requires Within(s, 0, 12, 0x800_0000_0000_0000) && Within(s, 12, 24, 0)
    ensures forall k :: 0 <= k < 11 ==> 0 <= t[k] < 0x200000
    ensures Within(t, 12, 24, 0)
    ensures Val(t) == Val(s)
  {
    hide Val;
    t := FloorThree(s, 0);
    t := FloorThree(t, 3);
    t := FloorThree(t, 6);
    t := CarryFloor(t, 9);
    t := CarryFloor(t, 10);
  }

  // -------------------------------------------------------------------------
  // The value leaves the interval [0, l) nowhere
  // -------------------------------------------------------------------------

  lemma {:induction false} ValBound(s: seq<int>, b: nat)
    requires Within(s, 0, |s|, b)
    ensures -(b * (Pow2(21 * |s|) - 1)) <= 0x1fffff * Val(s) <= b * (Pow2(21 * |s|) - 1)
  {
    if |s| != 0 {
      ValBound(s[1..], b);
      Pow2Words();
      hide Pow2;
      Pow2Add(21, 21 * |s[1..]|);
      BoundStep(b, Pow2(21 * |s[1..]|));
    }
  }

  lemma BoundStep(b: int, w: int)
    ensures b * (0x200000 * w - 1) == b * 0x1fffff + 0x200000 * (b * (w - 1))
  {
  }

  lemma {:induction false} ValNonneg(s: seq<int>)
    requires forall k :: 0 <= k < |s| ==> 0 <= s[k] < 0x200000
    ensures 0 <= Val(s) < Pow2(21 * |s|)
  {
    if |s| != 0 {
      ValNonneg(s[1..]);
      Pow2Words();
      Pow2Add(21, 21 * |s[1..]|);
    }
  }

  lemma {:induction false} ValSplit(s: seq<int>, k: nat)
    requires k <= |s|
    ensures Val(s) == Val(s[..k]) + Pow2(21 * k) * Val(s[k..])
  {
    if k == 0 {
      assert s[0..] == s;
    } else {
      ValSplit(s[1..], k - 1);
      assert s[..k][1..] == s[1..][..k - 1] && s[1..][k - 1..] == s[k..];
      Pow2Words();
      hide Pow2;
      Pow2Add(21, 21 * (k - 1));
      assert 0x200000 * (Pow2(21 * (k - 1)) * Val(s[k..])) == (0x200000 * Pow2(21 * (k - 1))) * Val(s[k..]);
    }
  }

  lemma {:induction false} ValZero(s: seq<int>)
    requires Within(s, 0, |s|, 0)
    ensures Val(s) == 0
  {
    if |s| != 0 {
      ValZero(s[1..]);
    }
  }

  lemma ValTop(s: seq<int>)
    requires |s| == 24 && Within(s, 13, 24, 0)
    ensures Val(s) == Val(s[..11]) + Pow2(231) * (s[11] + 0x200000 * s[12])
  {
    hide Pow2;
    ValSplit(s, 11);
    var r := s[11..];
    assert r[1..] == s[12..] && r[1..][1..] == s[13..];
    ValZero(s[13..]);
  }

  /** After the rounded passes the folded value lies strictly between -2^252 and 2^252. */
  lemma FoldedValueBound(s: Limbs)
    requires Within(s, 0, 13, 0x80_0000_0000) && Within(s, 11, 12, 0x100000) && Within(s, 13, 24, 0)
    ensures -Pow2(252) < Val(FoldStep(s, 12)) < Pow2(252)
  {
    hide Pow2, Val, FoldStep;
    Pow2Small();
    Pow2Large();
    FoldVal(s, 12);
    ValBound(s[..11], 0x80_0000_0000);
    ValTop(s);
  }

  /** The floor pass leaves -1 or 0 in limb 12, so the last fold adds l or nothing. */
  lemma LastFold(s: Limbs)
    requires forall k :: 0 <= k < 12 ==> 0 <= s[k] < 0x200000
    requires Within(s, 13, 24, 0)
    requires -Pow2(252) < Val(s) < Pow2(252)
    ensures s[12] == -1 || s[12] == 0
    ensures 0 <= Val(FoldStep(s, 12)) < L
  {
    hide Pow2, FoldStep;
    Pow2Large();
    FoldVal(s, 12);
    Pow2Small();
    ValSplit(s, 12);
    ValNonneg(s[..12]);
    var r := s[12..];
    assert r[1..] == s[13..];
    ValZero(s[13..]);
    assert Val(r) == s[12];
  }

  lemma TopLimb(s: Limbs)
    requires forall k :: 0 <= k < 11 ==> 0 <= s[k] < 0x200000
    requires Within(s, 12, 24, 0)
    requires 0 <= Val(s) < L
    ensures 0 <= s[11] <= 0x200000
  {
    hide Pow2;
    Pow2Large();
    ValSplit(s, 11);
    ValNonneg(s[..11]);
    var r := s[11..];
    assert r[1..] == s[12..];
    ValZero(s[12..]);
    assert Val(r) == s[11];
  }

  /** Everything sc_reduce and sc_muladd do after their limbs are small. */
  method ReduceLimbs(s: Limbs, ghost v: int) returns (t: Limbs)
    requires Within(s, 0, 24, 0x8000_0000) && Cong(Val(s), v, L)
    ensures Val(t) == v % L
    ensures forall k :: 0 <= k < 11 ==> 0 <= t[k] < 0x200000
    ensures 0 <= t[11] <= 0x200000 && Within(t, 12, 24, 0)
  {
    hide Val, Cong, FoldStep;
    t := FoldHigh(s, v);
    t := CarryMiddle(t);
    t := FoldLow(t, v);
    t := CarryLow(t);
    FoldedValueBound(t);
    t := Fold(t, 12, 0x80_0000_0000, v);
    t := FloorTwelve(t);
    LastFold(t);
    t := Fold(t, 12, 1, v);
    t := FloorEleven(t);
    TopLimb(t);
    CongMod(v, L);
    CongTrans(Val(t), v, v % L, L);
    CongEq(Val(t), v % L, L);
  }
}
