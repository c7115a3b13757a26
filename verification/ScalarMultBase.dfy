/** h = a B by signed radix-16 digits: select and ge_scalarmult_base of ge.c. */
module ScalarMultBase {
  import opened Arith
  import opened Bits
  import opened Fe
  import opened FeOps
  import opened Prime
  import opened Curve
  import opened Formulas
  import opened Ge

  // -------------------------------------------------------------------------
  // Constant-time choice from the table
  // -------------------------------------------------------------------------

  function U8(x: int8): (u: nat)
    ensures u < 256
  {
    var i: int := x;
    if i < 0 then i + 256 else i
  }

  function U64(x: int8): (u: nat) {
    var i: int := x;
    if i < 0 then i + 0x1_0000_0000_0000_0000 else i
  }

  /** The sign of b, from the top bit of its 64-bit extension. */
  function Negative(b: int8): (n: nat)
    ensures n == if b < 0 then 1 else 0
  {
    hide Pow2;
    Pow2Words();
    Shr(U64(b), 63)
  }

  /** Whether b and c are equal, from the borrow of (b ^ c) - 1. */
  function Equal(b: int8, c: int8): (e: nat)
    ensures e == if b == c then 1 else 0
  {
    hide Pow2, Xor;
    Pow2Words();
    Pow2Small();
    XorZero(U8(b), U8(c));
    XorBound(U8(b), U8(c), 8);
    Shr((Xor(U8(b), U8(c)) - 1) % 0x1_0000_0000_0000_0000, 63)
  }

  /** The absolute value of a digit, as an unsigned char. */
  function Magnitude(b: int8): (m: byte)
    ensures m == if b < 0 then -(b as int) else b
  {
    hide And, S32, U32, Shl;
    MaskedValue(b, Negative(b));
    var i: int, n: int := b, Negative(b);
    (i - Shl(S32(And(U32(-n), U32(b))), 1)) % 256
  }

  lemma MaskedValue(b: int8, n: int)
    requires n == if b < 0 then 1 else 0
    ensures And(U32(-n), U32(b)) < 0x1_0000_0000
    ensures Shl(S32(And(U32(-n), U32(b))), 1) == if b < 0 then 2 * (b as int) else 0
  {
    hide And, Pow2;
    Pow2Words();
    Pow2Small();
    MaskIsMod(U32(b), 32);
    ZeroAnd(U32(b));
  }

  lemma ZeroAnd(a: nat)
    ensures And(0, a) == 0
  {
  }

  ghost predicate Movable(t: Precomp) {
    Addable(t.yplusx) && Addable(t.yminusx) && Addable(t.xy2d)
  }

  /** cmov. */
  function Move(t: Precomp, u: Precomp, b: nat): (r: Precomp)
    requires Movable(t) && Movable(u) && b <= 1
    ensures r == if b == 1 then u else t
  {
    hide Addable;
    Precomp(CMov(t.yplusx, u.yplusx, b), CMov(t.yminusx, u.yminusx, b), CMov(t.xy2d, u.xy2d, b))
  }

  lemma PrecompMovable(t: Precomp, p: Point)
    requires IsPrecomp(t, p)
    ensures Movable(t)
  {
    hide Val, IsCached;
  }

  /** A row of the table: p, 2p, ..., 8p. */
  ghost predicate IsRow(row: seq<Precomp>, p: Point) {
    |row| == 8 && forall j :: 0 <= j < 8 ==> IsPrecomp(row[j], Times(j + 1, p))
  }

  lemma UnitPrecomp()
    ensures IsPrecomp(Precomp(One(), One(), Zero()), O)
  {
    hide Val, Bounded, Zero, One, IsCached;
    OriginForms();
  }

  lemma MinusPrecomp(t: Precomp, n: Fe, p: Point)
    requires CurveLaw() && OnCurve(p) && IsPrecomp(t, p) && Bounded(n, NARROW) && Val(n) == -Val(t.xy2d)
    ensures IsPrecomp(Precomp(t.yminusx, t.yplusx, n), Opposite(p))
  {
    hide Val, Bounded, IsCached, Opposite, CurveLaw, OnCurve;
    CachedNeg(Val(t.yplusx), Val(t.yminusx), 1, Val(t.xy2d), p);
  }

  /** The eight conditional moves. */
  method Lookup(row: seq<Precomp>, m: int8, ghost p: Point) returns (t: Precomp)
    requires IsRow(row, p) && 0 <= m <= 8
    ensures IsPrecomp(t, Times(m, p))
  {
    hide *;
    UnitPrecomp();
    TimesStep(0, p);
    t := Precomp(One(), One(), Zero());
    ghost var u := t;
    PrecompMovable(t, O);
    RowMovable(row, p);
    t := Move(t, row[0], Equal(m, 1));
    assert t == if 1 <= m <= 1 then row[m - 1] else u;
    t := Move(t, row[1], Equal(m, 2));
    assert t == if 1 <= m <= 2 then row[m - 1] else u;
    t := Move(t, row[2], Equal(m, 3));
    assert t == if 1 <= m <= 3 then row[m - 1] else u;
    t := Move(t, row[3], Equal(m, 4));
    assert t == if 1 <= m <= 4 then row[m - 1] else u;
    t := Move(t, row[4], Equal(m, 5));
    assert t == if 1 <= m <= 5 then row[m - 1] else u;
    t := Move(t, row[5], Equal(m, 6));
    assert t == if 1 <= m <= 6 then row[m - 1] else u;
    t := Move(t, row[6], Equal(m, 7));
    assert t == if 1 <= m <= 7 then row[m - 1] else u;
    t := Move(t, row[7], Equal(m, 8));
    assert t == if 1 <= m <= 8 then row[m - 1] else u;
    RowAt(row, m, p);
  }

  lemma RowMovable(row: seq<Precomp>, p: Point)
    requires IsRow(row, p)
    ensures |row| == 8 && forall j :: 0 <= j < 8 ==> Movable(row[j])
  {
    hide IsPrecomp, Movable, Times;
    forall j | 0 <= j < 8
      ensures Movable(row[j])
    {
      PrecompMovable(row[j], Times(j + 1, p));
    }
  }

  lemma RowAt(row: seq<Precomp>, m: nat, p: Point)
    requires IsRow(row, p) && m <= 8
    ensures m >= 1 ==> IsPrecomp(row[m - 1], Times(m, p))
  {
    hide IsPrecomp, Times;
    if m >= 1 {
      assert IsPrecomp(row[m - 1], Times(m - 1 + 1, p));
    }
  }

  /** select: b times p for a digit b in [-8, 8]. */
  method Select(row: seq<Precomp>, b: int8, ghost p: Point) returns (t: Precomp)
    requires CurveLaw() && OnCurve(p) && IsRow(row, p) && -8 <= b <= 8
    ensures IsPrecomp(t, Multiple(b, p))
  {
    hide CurveLaw, OnCurve, IsPrecomp, Times, Multiple, Movable, IsRow, Opposite, Val, Bounded, Neg;
    var bnegative := Negative(b);
    var babs := Magnitude(b);
    t := Lookup(row, babs, p);
    PrecompLimbs(t, Times(babs, p));
    TimesOnCurve(babs, p);
    var n := FeNeg(t.xy2d, NARROW);
    MinusPrecomp(t, n, Times(babs, p));
    var minust := Precomp(t.yminusx, t.yplusx, n);
    PrecompMovable(t, Times(babs, p));
    PrecompMovable(minust, Opposite(Times(babs, p)));
    t := Move(t, minust, bnegative);
    MultipleDef(b, p);
  }

  lemma PrecompLimbs(t: Precomp, p: Point)
    requires IsPrecomp(t, p)
    ensures Bounded(t.yplusx, NARROW) && Bounded(t.yminusx, NARROW) && Bounded(t.xy2d, NARROW)
  {
    hide Val, Bounded, IsCached;
  }

  // -------------------------------------------------------------------------
  // The digits
  // -------------------------------------------------------------------------

  /** e[0] + 16 e[1] + ... over the first n digits. */
  ghost function Radix16(e: seq<int>, n: nat): int
    requires n <= |e|
  {
    if n == 0 then 0 else Radix16(e, n - 1) + e[n - 1] * Pow2(4 * (n - 1))
  }

  /** e[o] + 256 e[o + 2] + ...: n digits, every second one. */
  ghost function Stride(e: seq<int>, o: nat, n: nat): int
    requires o <= 1 && 2 * n <= |e|
  {
    if n == 0 then 0 else Stride(e, o, n - 1) + e[2 * (n - 1) + o] * Pow2(8 * (n - 1))
  }

  lemma {:induction false} Radix16Split(e: seq<int>, n: nat)
    requires 2 * n <= |e|
    ensures Radix16(e, 2 * n) == Stride(e, 0, n) + 16 * Stride(e, 1, n)
  {
    if n > 0 {
      Radix16Split(e, n - 1);
      var k := 2 * (n - 1);
      Pow2Small();
      Pow2Add(4, 4 * k);
      hide Pow2;
      assert Radix16(e, k + 2) == Radix16(e, k + 1) + e[k + 1] * Pow2(4 * (k + 1));
      assert e[k + 1] * (16 * Pow2(4 * k)) == 16 * (e[k + 1] * Pow2(4 * k));
    }
  }

  lemma {:induction false} Radix16Update(e: seq<int>, n: nat, k: nat, x: int)
    requires k < n <= |e|
    ensures Radix16(e[k := x], n) == Radix16(e, n) + (x - e[k]) * Pow2(4 * k)
  {
    if k == n - 1 {
      Radix16Frame(e, e[k := x], k);
      assert x * Pow2(4 * k) == e[k] * Pow2(4 * k) + (x - e[k]) * Pow2(4 * k);
    } else {
      Radix16Update(e, n - 1, k, x);
    }
  }

  lemma {:induction false} Radix16Frame(e: seq<int>, f: seq<int>, n: nat)
    requires n <= |e| && n <= |f| && forall k :: 0 <= k < n ==> e[k] == f[k]
    ensures Radix16(e, n) == Radix16(f, n)
  {
    if n > 0 {
      Radix16Frame(e, f, n - 1);
    }
  }

  /** The low and the high half of a byte. */
  function Nibble(x: byte, k: nat): (d: int8)
    requires k == 0 || k == 4
    ensures d == if k == 0 then x % 16 else x / 16
  {
    hide And, Pow2;
    NibbleValue(x, k);
    And(Shr(x, k), 15)
  }

  lemma NibbleValue(x: byte, k: nat)
    requires k == 0 || k == 4
    ensures Shr(x, k) >= 0 && And(Shr(x, k), 15) == if k == 0 then x % 16 else x / 16
  {
    hide And, Pow2;
    Pow2Small();
    MaskIsMod(Shr(x, k), 4);
  }

  ghost predicate Balanced(x: int) {
    -8 <= x <= 8
  }

  /** The first loop: two halves of each byte. */
  method SplitBytes(e: array<int8>, a: seq<byte>)
    requires e.Length == 64 && |a| == 32 && a[31] <= 127
    modifies e
    ensures forall k :: 0 <= k < 64 ==> 0 <= e[k] <= 15
    ensures e[63] <= 7 && Radix16(e[..], 64) == LE(a)
  {
    hide Pow2, LE, Radix16;
    for i := 0 to 32
      invariant forall k :: 0 <= k < i ==> e[2 * k] == a[k] % 16 && e[2 * k + 1] == a[k] / 16
    {
      e[2 * i + 0] := Nibble(a[i], 0);
      e[2 * i + 1] := Nibble(a[i], 4);
    }
    NibblesValue(e[..], a, 32);
    assert a[..32] == a;
    forall k | 0 <= k < 64
      ensures 0 <= e[k] <= 15
    {
      assert e[2 * (k / 2)] == a[k / 2] % 16;
    }
  }

  /** The second loop: carries make the digits balanced. */
  method CarryDigits(e: array<int8>)
    requires e.Length == 64 && e[63] <= 7 && forall k :: 0 <= k < 64 ==> 0 <= e[k] <= 15
    modifies e
    ensures forall k :: 0 <= k < 64 ==> Balanced(e[k])
    ensures Radix16(e[..], 64) == old(Radix16(e[..], 64))
  {
    hide Pow2, Radix16;
    ghost var value := Radix16(e[..], 64);
    var carry: int8 := 0;
    Pow2Zero();
    for i := 0 to 63
      invariant 0 <= carry <= 1
      invariant forall k :: 0 <= k < i ==> Balanced(e[k])
      invariant forall k :: i <= k < 64 ==> 0 <= e[k] <= 15
      invariant e[63] <= 7
      invariant Radix16(e[..], 64) + carry * Pow2(4 * i) == value
    {
      ghost var s, c := e[..], carry;
      e[i] := e[i] + carry;
      carry := CarryOut(e[i]);
      e[i] := e[i] - 16 * carry;
      assert e[..] == s[i := s[i] + c - 16 * carry];
      CarryStep(s, i, c, carry);
    }
    ghost var s := e[..];
    e[63] := e[63] + carry;
    Radix16Update(s, 64, 63, s[63] + carry);
    assert e[..] == s[63 := s[63] + carry];
  }

  /** The recoding: 64 digits between -8 and 8 that represent a. */
  method RecodeRadix16(e: array<int8>, a: seq<byte>)
    requires e.Length == 64 && |a| == 32 && a[31] <= 127
    modifies e
    ensures forall k :: 0 <= k < 64 ==> Balanced(e[k])
    ensures Radix16(e[..], 64) == LE(a)
  {
    hide *;
    SplitBytes(e, a);
    CarryDigits(e);
  }

  lemma Pow2Zero()
    ensures Pow2(4 * 0) == 1
  {
  }

  /** The carry that leaves a digit between -8 and 7. */
  function CarryOut(x: int8): (c: int8)
    requires 0 <= x <= 16
    ensures 0 <= c <= 1 && -8 <= x - 16 * c <= 7
  {
    hide Pow2;
    Pow2Small();
    Shr(x + 8, 4)
  }

  lemma CarryStep(s: seq<int>, i: nat, c: int, d: int)
    requires |s| == 64 && i < 63
    ensures Radix16(s[i := s[i] + c - 16 * d], 64) + d * Pow2(4 * (i + 1)) == Radix16(s, 64) + c * Pow2(4 * i)
  {
    hide Pow2, Radix16;
    Radix16Update(s, 64, i, s[i] + c - 16 * d);
    Pow2Small();
    Pow2Add(4, 4 * i);
    var w := Pow2(4 * i);
    assert (c - 16 * d) * w + d * (16 * w) == c * w;
  }

  lemma {:induction false} NibblesValue(e: seq<int>, a: seq<byte>, n: nat)
    requires |a| == 32 && |e| == 64 && n <= 32
    requires forall k :: 0 <= k < n ==> e[2 * k] == a[k] % 16 && e[2 * k + 1] == a[k] / 16
    ensures Radix16(e, 2 * n) == LE(a[..n])
  {
    if n == 0 {
      assert a[..0] == [];
    } else {
      NibblesValue(e, a, n - 1);
      LESnoc(a, n - 1);
      var k := 2 * (n - 1);
      Pow2Small();
      Pow2Add(4, 4 * k);
      assert e[k] == a[n - 1] % 16 && e[k + 1] == a[n - 1] / 16;
      hide Pow2, LE, Radix16;
      Radix16Step(e, k);
      Radix16Step(e, k + 1);
      Halves(a[n - 1]);
      NibbleSum(e[k], e[k + 1], Pow2(4 * k));
    }
  }

  lemma Halves(x: int)
    ensures x == x % 16 + 16 * (x / 16)
  {
  }

  lemma Radix16Step(e: seq<int>, n: nat)
    requires n < |e|
    ensures Radix16(e, n + 1) == Radix16(e, n) + e[n] * Pow2(4 * n)
  {
    hide Pow2;
  }

  lemma NibbleSum(lo: int, hi: int, w: int)
    ensures lo * w + hi * (16 * w) == (lo + 16 * hi) * w
  {
  }

  // -------------------------------------------------------------------------
  // The sum of the table entries
  // -------------------------------------------------------------------------

  /** base[i][j] is (j + 1) 256^i times q. */
  ghost predicate IsBaseTable(base: seq<seq<Precomp>>, q: Point) {
    |base| == 32 && forall i :: 0 <= i < 32 ==> IsRow(base[i], Times(Pow2(8 * i), q))
  }

  lemma MultipleOfTimes(n: int, m: nat, q: Point)
    requires CurveLaw() && OnCurve(q) && m > 0
    ensures Multiple(n, Times(m, q)) == Multiple(n * m, q)
  {
    hide *;
    MultipleDef(n, Times(m, q));
    MultipleDef(n * m, q);
    if n >= 0 {
      TimesTimes(n, m, q);
    } else {
      TimesTimes(-n, m, q);
      MulMono(n, -1, m);
      assert -n * m == -(n * m);
    }
  }

  /** h + e 256^i q. */
  method AddDigit(h0: P3, row: seq<Precomp>, e: int8, i: nat, ghost n: int, ghost q: Point) returns (h: P3)
    requires CurveLaw() && OnCurve(q) && IsRow(row, Times(Pow2(8 * i), q)) && -8 <= e <= 8
    requires IsP3(h0, Multiple(n, q))
    ensures IsP3(h, Multiple(n + e * Pow2(8 * i), q))
  {
    hide *;
    ghost var w := Pow2(8 * i);
    LawPrime();
    TimesOnCurve(w, q);
    var t := Select(row, e, Times(w, q));
    MultipleOfTimes(e, w, q);
    MultipleOnCurve(n, q);
    MultipleOnCurve(e * w, q);
    var r := GeMadd(h0, t, Multiple(n, q), Multiple(e * w, q));
    MultipleAdd(n, e * w, q);
    h := GeP1p1ToP3(r, Multiple(n + e * w, q));
  }

  lemma DoubleMultiple(n: int, q: Point)
    requires CurveLaw() && OnCurve(q)
    ensures Curve.Sum(Multiple(n, q), Multiple(n, q)) == Multiple(2 * n, q) && OnCurve(Multiple(2 * n, q))
  {
    hide *;
    MultipleAdd(n, n, q);
    assert n + n == 2 * n;
    MultipleOnCurve(2 * n, q);
  }

  /** Four doublings. */
  method TimesSixteen(h0: P3, ghost n: int, ghost q: Point) returns (h: P3)
    requires CurveLaw() && OnCurve(q) && IsP3(h0, Multiple(n, q))
    ensures IsP3(h, Multiple(16 * n, q))
  {
    hide *;
    LawPrime();
    MultipleOnCurve(n, q);
    DoubleMultiple(n, q);
    DoubleMultiple(2 * n, q);
    DoubleMultiple(4 * n, q);
    DoubleMultiple(8 * n, q);
    assert 2 * (2 * n) == 4 * n && 2 * (4 * n) == 8 * n && 2 * (8 * n) == 16 * n;
    var r := GeP3Dbl(h0, Multiple(n, q));
    var s := GeP1p1ToP2(r, Multiple(2 * n, q));
    r := GeP2Dbl(s, Multiple(2 * n, q));
    s := GeP1p1ToP2(r, Multiple(4 * n, q));
    r := GeP2Dbl(s, Multiple(4 * n, q));
    s := GeP1p1ToP2(r, Multiple(8 * n, q));
    r := GeP2Dbl(s, Multiple(8 * n, q));
    h := GeP1p1ToP3(r, Multiple(16 * n, q));
  }

  lemma StrideStep(e: seq<int>, o: nat, n: nat)
    requires o <= 1 && 2 * n + 2 <= |e|
    ensures Stride(e, o, n + 1) == Stride(e, o, n) + e[2 * n + o] * Pow2(8 * n)
  {
    hide Pow2;
  }

  /** Either loop over the digits: every second one, from an odd or an even start. */
  method AddDigits(h0: P3, e: array<int8>, base: seq<seq<Precomp>>, start: nat, ghost n: int, ghost q: Point) returns (h: P3)
    requires e.Length == 64 && start <= 1 && (forall k :: 0 <= k < 64 ==> Balanced(e[k]))
    requires CurveLaw() && OnCurve(q) && IsBaseTable(base, q) && IsP3(h0, Multiple(n, q))
    ensures IsP3(h, Multiple(n + Stride(e[..], start, 32), q))
  {
    hide CurveLaw, OnCurve, Multiple, Times, IsP3, IsRow, Stride, Pow2;
    ghost var s := e[..];
    assert forall k :: 0 <= k < 64 ==> Balanced(s[k]);
    StrideZero(s);
    h := h0;
    var i := start;
    while i < 64
      invariant start <= i <= 64 + start && (i - start) % 2 == 0 && e[..] == s
      invariant IsP3(h, Multiple(n + Stride(s, start, i / 2), q))
    {
      StrideStep(s, start, i / 2);
      h := AddDigit(h, base[i / 2], e[i], i / 2, n + Stride(s, start, i / 2), q);
      i := i + 2;
    }
  }

  /** ge_scalarmult_base. */
  method GeScalarMultBase(a: seq<byte>, base: seq<seq<Precomp>>, ghost q: Point) returns (h: P3)
    requires |a| == 32 && a[31] <= 127
    requires CurveLaw() && OnCurve(q) && IsBaseTable(base, q)
    ensures IsP3(h, Times(LE(a), q))
  {
    hide CurveLaw, OnCurve, Multiple, Times, IsP3, IsRow, IsBaseTable, Radix16, Stride, LE, Pow2, GeP3Zero, Balanced;
    var e := new int8[64];
    RecodeRadix16(e, a);
    ghost var s := e[..];
    h := GeP3Zero();
    MultipleZero(q);
    h := AddDigits(h, e, base, 1, 0, q);
    h := TimesSixteen(h, Stride(s, 1, 32), q);
    h := AddDigits(h, e, base, 0, 16 * Stride(s, 1, 32), q);
    Radix16Split(s, 32);
    MultipleDef(LE(a), q);
  }

  lemma MultipleZero(q: Point)
    ensures Multiple(0, q) == O
  {
    hide Times;
    MultipleDef(0, q);
    TimesStep(0, q);
  }

  lemma StrideZero(e: seq<int>)
    ensures Stride(e, 0, 0) == 0 && Stride(e, 1, 0) == 0
  {
  }
}
