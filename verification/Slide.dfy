/** Signed sliding-window recoding: slide of ge.c. */
module Slide {
  import opened Arith
  import opened Bits

  /** s[0] + 2 s[1] + 4 s[2] + ... */
  ghost function Sum(s: seq<int>): int {
    if |s| == 0 then 0 else s[0] + 2 * Sum(s[1..])
  }

  ghost predicate IsBit(x: int) {
    x == 0 || x == 1
  }

  ghost predicate IsDigit(x: int) {
    x == 0 || (x % 2 == 1 && -15 <= x <= 15)
  }

  ghost predicate BitsFrom(s: seq<int>, i: nat) {
    forall k :: i <= k < |s| ==> IsBit(s[k])
  }

  lemma {:induction false} SumUpdate(s: seq<int>, k: nat, x: int)
    requires k < |s|
    ensures Sum(s[k := x]) == Sum(s) + (x - s[k]) * Pow2(k)
  {
    if k == 0 {
      assert s[0 := x][1..] == s[1..];
    } else {
      SumUpdate(s[1..], k - 1, x);
      assert s[k := x][1..] == s[1..][k - 1 := x];
      assert 2 * ((x - s[k]) * Pow2(k - 1)) == (x - s[k]) * Pow2(k);
    }
  }

  lemma {:induction false} SumSplit(s: seq<int>, k: nat)
    requires k <= |s|
    ensures Sum(s) == Sum(s[..k]) + Pow2(k) * Sum(s[k..])
  {
    if k == 0 {
      assert s[0..] == s;
    } else {
      SumSplit(s[1..], k - 1);
      assert s[..k][1..] == s[1..][..k - 1] && s[1..][k - 1..] == s[k..];
      assert 2 * (Pow2(k - 1) * Sum(s[k..])) == Pow2(k) * Sum(s[k..]);
    }
  }

  lemma {:induction false} BitsRange(s: seq<int>)
    requires BitsFrom(s, 0)
    ensures 0 <= Sum(s) < Pow2(|s|)
  {
    if |s| != 0 {
      BitsRange(s[1..]);
      assert IsBit(s[0]);
    }
  }

  lemma {:induction false} OnesValue(s: seq<int>)
    requires forall k :: 0 <= k < |s| ==> s[k] == 1
    ensures Sum(s) == Pow2(|s|) - 1
  {
    if |s| != 0 {
      OnesValue(s[1..]);
    }
  }

  // -------------------------------------------------------------------------
  // The bits
  // -------------------------------------------------------------------------

  /** Bit i of the scalar. */
  function BitAt(a: seq<byte>, i: nat): (b: int8)
    requires |a| == 32 && i < 256
    ensures b == Field(LE(a), i, 1) && (b == 0 || b == 1)
  {
    hide LE, Pow2, Shr, And;
    BitValue(a, i);
    And(1, Shr(a[i / 8], i % 8))
  }

  lemma {:induction false} SumOfBits(s: seq<int>, n: nat)
    requires forall k :: 0 <= k < |s| ==> s[k] == Field(n, k, 1)
    ensures Sum(s) == n % Pow2(|s|)
  {
    if |s| != 0 {
      Pow2Small();
      hide Pow2;
      forall k | 0 <= k < |s[1..]|
        ensures s[1..][k] == Field(n / 2, k, 1)
      {
        DivDiv(n, 2, Pow2(k));
        Pow2Add(1, k);
      }
      SumOfBits(s[1..], n / 2);
      var m := Pow2(|s[1..]|);
      Pow2Add(1, |s[1..]|);
      ModDiv(n, 2, m);
      ModMod(n, 2, m);
      assert s[0] == n % 2;
      var r := n % (2 * m);
      assert r == r % 2 + 2 * (r / 2);
    }
  }

  // -------------------------------------------------------------------------
  // The carry
  // -------------------------------------------------------------------------

  /** Adding one at position p: ones become zeros up to the first zero, which becomes one. */
  method Increment(r: array<int8>, p: nat)
    requires r.Length == 256 && p < 256 && BitsFrom(r[..], p)
    modifies r
    ensures r[..p] == old(r[..p]) && BitsFrom(r[..], p)
    ensures old(Sum(r[p..])) + 1 < Pow2(256 - p) ==> Sum(r[..]) == old(Sum(r[..])) + Pow2(p)
    ensures old(Sum(r[p..])) + 1 < Pow2(256 - p) ==> Sum(r[p..]) == old(Sum(r[p..])) + 1
    ensures Sum(r[..]) == old(Sum(r[..])) + Pow2(p) || (Sum(r[..]) == old(Sum(r[..])) + Pow2(p) - Pow2(256) && Zeros(r[..], p, 256))
  {
    ghost var s := r[..];
    var k := p;
    while k < 256
      invariant p <= k <= 256
      invariant r[..p] == s[..p] && r[k..] == s[k..]
      invariant forall j :: p <= j < k ==> s[j] == 1 && r[j] == 0
    {
      if r[k] == 0 {
        r[k] := 1;
        IncrementValue(s, r[..], p, k);
        return;
      }
      assert IsBit(s[k]);
      r[k] := 0;
      k := k + 1;
    }
    OnesValue(s[p..]);
    assert s[p..] == old(r[p..]);
    AllLost(s, r[..], p);
  }

  /** A carry through ones up to the end is lost. */
  lemma AllLost(s: seq<int>, t: seq<int>, p: nat)
    requires |s| == |t| == 256 && p < 256 && t[..p] == s[..p] && forall j :: p <= j < 256 ==> s[j] == 1 && t[j] == 0
    ensures Sum(t) == Sum(s) + Pow2(p) - Pow2(256)
  {
    hide *;
    SumSplit(s, p);
    SumSplit(t, p);
    OnesValue(s[p..]);
    NoughtsValue(t[p..]);
    Pow2Add(p, 256 - p);
    LostValue(Sum(s), Sum(t), Sum(s[..p]), Pow2(p), Pow2(256 - p), Sum(s[p..]), Sum(t[p..]));
  }

  lemma LostValue(x: int, y: int, low: int, w: int, n: int, a: int, b: int)
    requires x == low + w * a && y == low + w * b && a == n - 1 && b == 0
    ensures y == x + w - w * n
  {
    assert w * (n - 1) == w * n - w;
  }

  lemma {:induction false} NoughtsValue(s: seq<int>)
    requires forall k :: 0 <= k < |s| ==> s[k] == 0
    ensures Sum(s) == 0
  {
    if |s| != 0 {
      NoughtsValue(s[1..]);
    }
  }

  lemma {:induction false} IncrementValue(s: seq<int>, t: seq<int>, p: nat, k: nat)
    requires |s| == |t| == 256 && p <= k < 256
    requires t[..p] == s[..p] && t[k + 1..] == s[k + 1..] && s[k] == 0 && t[k] == 1
    requires forall j :: p <= j < k ==> s[j] == 1 && t[j] == 0
    ensures Sum(t) == Sum(s) + Pow2(p) && Sum(t[p..]) == Sum(s[p..]) + 1
  {
    hide Sum, Pow2;
    assert s[p..][k - p + 1..] == s[k + 1..] && t[p..][k - p + 1..] == t[k + 1..];
    SuffixIncrement(s[p..], t[p..], k - p);
    SumSplit(s, p);
    SumSplit(t, p);
    assert Pow2(p) * (Sum(s[p..]) + 1) == Pow2(p) * Sum(s[p..]) + Pow2(p);
  }

  lemma {:induction false} SuffixIncrement(s: seq<int>, t: seq<int>, k: nat)
    requires |s| == |t| && k < |s| && t[k + 1..] == s[k + 1..] && s[k] == 0 && t[k] == 1
    requires forall j :: 0 <= j < k ==> s[j] == 1 && t[j] == 0
    ensures Sum(t) == Sum(s) + 1
  {
    if k != 0 {
      assert s[1..][k..] == s[k + 1..] && t[1..][k..] == t[k + 1..];
      SuffixIncrement(s[1..], t[1..], k - 1);
    }
  }

  // -------------------------------------------------------------------------
  // One window
  // -------------------------------------------------------------------------

  /** What the positions from i on weigh. */
  ghost function Weight(s: seq<int>, i: nat): int
    requires i <= |s|
  {
    Pow2(i) * Sum(s[i..])
  }

  lemma WeightStep(s: seq<int>, i: nat)
    requires i < |s|
    ensures Weight(s, i) == s[i] * Pow2(i) + Weight(s, i + 1)
  {
    assert s[i..][1..] == s[i + 1..];
    var x := Sum(s[i + 1..]);
    assert Pow2(i) * (s[i] + 2 * x) == s[i] * Pow2(i) + Pow2(i + 1) * x;
  }

  lemma {:induction false} WeightOfZeros(s: seq<int>, i: nat, p: nat)
    requires i <= p <= |s| && Zeros(s, i, p)
    ensures Weight(s, i) == Weight(s, p)
    decreases p - i
  {
    if i < p {
      WeightStep(s, i);
      WeightOfZeros(s, i + 1, p);
    }
  }

  ghost predicate Zeros(s: seq<int>, lo: nat, hi: nat) {
    forall k :: lo <= k < hi && k < |s| ==> s[k] == 0
  }

  /** The window digit before its offset b is looked at: the bits below b are in it. */
  ghost predicate Partial(s: seq<int>, i: nat, b: nat)
    requires i < |s|
  {
    && s[i] % 2 == 1
    && (b <= 4 ==> 1 <= s[i] < Pow2(b) && Zeros(s, i + 1, i + b))
    && (b > 4 ==> -15 <= s[i] <= 15)
  }

  /** A bit at offset b <= 3 goes into the digit. */
  lemma Absorb(s: seq<int>, t: seq<int>, i: nat, b: nat)
    requires |s| == 256 && 1 <= b <= 6 && i + b < 256 && BitsFrom(s, i + 1) && s[i + b] == 1
    requires t == s[i := s[i] + Pow2(b)][i + b := 0]
    ensures Sum(t) == Sum(s) && Weight(t, i) == Weight(s, i)
    ensures BitsFrom(t, i + 1)
  {
    hide Pow2, Sum, Weight;
    var u := s[i := s[i] + Pow2(b)];
    SumAdd(s, i, Pow2(b));
    SumAdd(u, i + b, -1);
    assert t == u[i + b := u[i + b] + -1];
    Pow2Add(b, i);
    SameWeight(s, t, i);
  }

  lemma SumAdd(s: seq<int>, k: nat, d: int)
    requires k < |s|
    ensures Sum(s[k := s[k] + d]) == Sum(s) + d * Pow2(k)
  {
    SumUpdate(s, k, s[k] + d);
  }

  lemma SameWeight(s: seq<int>, t: seq<int>, i: nat)
    requires i <= |s| == |t| && s[..i] == t[..i] && Sum(s) == Sum(t)
    ensures Weight(s, i) == Weight(t, i)
  {
    hide Pow2, Sum;
    SumSplit(s, i);
    SumSplit(t, i);
  }

  /** A bit at offset 4 is taken out of the digit and carried: the carry has room. */
  lemma CarryRoom(s: seq<int>, i: nat, p: nat)
    requires |s| == 256 && i < p < 256 && BitsFrom(s, i + 1) && s[p] == 1 && s[i] >= 1
    requires Zeros(s, i + 1, p)
    requires Weight(s, i) <= Pow2(253)
    ensures p < 253 && Sum(s[p..]) + 1 <= Pow2(253 - p)
    ensures Sum(s[p..]) + 1 < Pow2(256 - p)
  {
    hide Pow2, Sum;
    WeightStep(s, i);
    WeightOfZeros(s, i + 1, p);
    MulMono(1, s[i], Pow2(i));
    OddSuffix(s, p);
    Room(Sum(s[p..]), p);
  }

  lemma OddSuffix(s: seq<int>, p: nat)
    requires p < |s| && BitsFrom(s, p) && s[p] == 1
    ensures Sum(s[p..]) >= 1
  {
    hide Pow2;
    var u := s[p + 1..];
    forall k | 0 <= k < |u|
      ensures IsBit(u[k])
    {
      assert u[k] == s[p + 1 + k];
    }
    BitsRange(u);
    assert s[p..][1..] == s[p + 1..];
  }

  lemma Room(h: int, p: nat)
    requires h >= 1 && p < 256 && Pow2(p) * h < Pow2(253)
    ensures p < 253 && h + 1 <= Pow2(253 - p) && h + 1 < Pow2(256 - p)
  {
    hide Pow2;
    Pow2Small();
    if p >= 253 {
      Pow2Add(253, p - 253);
      MulMono(1, Pow2(p - 253), Pow2(253));
      MulMono(1, h, Pow2(p));
    } else {
      Pow2Add(p, 253 - p);
      if h >= Pow2(253 - p) {
        MulMono(Pow2(253 - p), h, Pow2(p));
      }
      Pow2Add(253 - p, 3);
    }
  }

  /** After the carry the rest still weighs at most 2^253. */
  lemma CarryWeight(s: seq<int>, t: seq<int>, i: nat, p: nat)
    requires |s| == |t| == 256 && i < p < 253
    requires Zeros(t, i + 1, p) && Sum(t[p..]) == Sum(s[p..]) + 1
    requires Sum(s[p..]) + 1 <= Pow2(253 - p)
    ensures Weight(t, i + 1) <= Pow2(253)
  {
    hide Pow2, Sum;
    WeightOfZeros(t, i + 1, p);
    Pow2Add(p, 253 - p);
    MulMono(Sum(t[p..]), Pow2(253 - p), Pow2(p));
  }

  /** The sum is n still, or a carry out of the last position was lost, behind which nothing is left to recode. */
  ghost predicate KeptOrLost(s: seq<int>, n: int, i: nat) {
    Sum(s) == n || (Sum(s) == n - Pow2(256) && Zeros(s, i + 1, 256))
  }

  /** r[i] -= 16, and the carry goes to position i + 4. */
  method TakeAndCarry(r: array<int8>, i: nat, ghost light: bool)
    requires r.Length == 256 && i + 4 < 256 && BitsFrom(r[..], i + 1) && 1 <= r[i] <= 15 && r[i + 4] == 1
    requires Zeros(r[..], i + 1, i + 4) && (light ==> Weight(r[..], i) <= Pow2(253))
    modifies r
    ensures r[..i] == old(r[..i]) && r[i] == old(r[i]) - 16 && BitsFrom(r[..], i + 1)
    ensures light ==> Sum(r[..]) == old(Sum(r[..])) && Weight(r[..], i + 1) <= Pow2(253)
    ensures KeptOrLost(r[..], old(Sum(r[..])), i)
  {
    Pow2Small();
    hide Pow2, Sum, Weight;
    ghost var t, p := r[..], i + 4;
    r[i] := r[i] - 16;
    ghost var u := r[..];
    SumUpdate(t, i, t[i] - 16);
    assert u == t[i := t[i] - 16] && u[p..] == t[p..];
    Pow2Add(4, i);
    if light {
      CarryRoom(t, i, p);
    }
    Increment(r, i + 4);
    assert r[..p] == u[..p];
    assert r[..i] == r[..p][..i] && r[i] == r[..p][i];
    BitsKept(u, r[..], i, p);
    if light {
      CarryWeight(t, r[..], i, p);
    }
  }

  lemma BitsKept(u: seq<int>, v: seq<int>, i: nat, p: nat)
    requires |u| == |v| == 256 && i < p < 256 && u[..p] == v[..p] && Zeros(u, i + 1, p) && BitsFrom(v, p)
    ensures Zeros(v, i + 1, p) && BitsFrom(v, i + 1)
  {
    forall k | i < k < p
      ensures v[k] == 0
    {
      assert v[..p][k] == u[..p][k];
    }
  }

  /** The body of slide's outer loop at a position that holds a one. */
  method Window(r: array<int8>, i: nat)
    requires r.Length == 256 && i < 256 && BitsFrom(r[..], i) && r[i] == 1
    modifies r
    ensures r[..i] == old(r[..i]) && IsDigit(r[i]) && BitsFrom(r[..], i + 1)
    ensures old(Weight(r[..], i)) <= Pow2(253) ==> Sum(r[..]) == old(Sum(r[..])) && Weight(r[..], i + 1) <= Pow2(253)
    ensures KeptOrLost(r[..], old(Sum(r[..])), i)
  {
    Pow2Small();
    hide Pow2, Sum, Weight;
    ghost var s := r[..];
    ghost var light := Weight(s, i) <= Pow2(253);
    WeightDown(s, i);
    for b := 1 to 7
      invariant r[..i] == s[..i] && BitsFrom(r[..], i + 1) && Partial(r[..], i, b)
      invariant light ==> Sum(r[..]) == Sum(s) && Weight(r[..], i + 1) <= Pow2(253)
      invariant light && b <= 4 ==> Weight(r[..], i) <= Pow2(253)
      invariant KeptOrLost(r[..], Sum(s), i)
    {
      if i + b >= 256 {
        break;
      }
      ghost var t := r[..];
      if r[i + b] != 0 {
        var step: int := Shl(r[i + b], b);
        if r[i] + step <= 15 {
          r[i] := r[i] + step;
          r[i + b] := 0;
          Absorb(t, r[..], i, b);
          WeightDown(r[..], i);
        } else if r[i] - step >= -15 {
          assert b == 4;
          TakeAndCarry(r, i, light);
        } else {
          break;
        }
      }
    }
  }

  lemma WeightDown(s: seq<int>, i: nat)
    requires i < |s| && s[i] >= 0
    ensures Weight(s, i + 1) <= Weight(s, i)
  {
    hide Pow2, Sum;
    WeightStep(s, i);
    MulMono(0, s[i], Pow2(i));
  }

  /**
   * slide: every digit is zero or odd in [-15, 15]. The digits represent the scalar, or what a carry lost at the end
   * leaves of it; below 2^253 none is lost.
   */
  method Recode(r: array<int8>, a: seq<byte>)
    requires r.Length == 256 && |a| == 32
    modifies r
    ensures forall k :: 0 <= k < 256 ==> IsDigit(r[k])
    ensures LE(a) < Pow2(253) ==> Sum(r[..]) == LE(a)
    ensures Sum(r[..]) == LE(a) || Sum(r[..]) == LE(a) - Pow2(256)
  {
    hide Pow2, Sum, Weight, LE;
    for i := 0 to 256
      invariant forall k :: 0 <= k < i ==> r[k] == Field(LE(a), k, 1) && IsBit(r[k])
    {
      r[i] := BitAt(a, i);
    }
    LoadedBits(r[..], a);
    for i := 0 to 256
      invariant BitsFrom(r[..], i)
      invariant forall k :: 0 <= k < i ==> IsDigit(r[k])
      invariant LE(a) < Pow2(253) ==> Sum(r[..]) == LE(a) && Weight(r[..], i) <= Pow2(253)
      invariant Sum(r[..]) == LE(a) || (Sum(r[..]) == LE(a) - Pow2(256) && Zeros(r[..], i, 256))
    {
      ghost var s := r[..];
      if r[i] != 0 {
        Window(r, i);
        assert forall k :: 0 <= k < i ==> r[..i][k] == s[..i][k];
      } else {
        WeightDown(s, i);
      }
    }
  }

  lemma LoadedBits(s: seq<int>, a: seq<byte>)
    requires |s| == 256 && |a| == 32
    requires forall k :: 0 <= k < 256 ==> s[k] == Field(LE(a), k, 1)
    ensures Sum(s) == LE(a) && Weight(s, 0) == LE(a)
  {
    LEBound(a);
    hide Pow2, LE, Sum;
    SumOfBits(s, LE(a));
    Pow2Small();
    DivModUnique(LE(a), Pow2(256), 0, LE(a));
    assert s[0..] == s;
  }
}
