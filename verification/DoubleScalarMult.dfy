/** r = a A + b B by signed sliding windows: ge_double_scalarmult_vartime of ge.c. */
module DoubleScalarMult {
  import opened Arith
  import opened Bits
  import opened Fe
  import opened Prime
  import opened Curve
  import opened Ge
  import opened Slide

  /** m p + n q. */
  ghost function Comb(m: int, n: int, p: Point, q: Point): Point {
    Curve.Sum(Multiple(m, p), Multiple(n, q))
  }

  lemma CombOnCurve(m: int, n: int, p: Point, q: Point)
    requires CurveLaw() && OnCurve(p) && OnCurve(q)
    ensures OnCurve(Comb(m, n, p, q))
  {
    hide CurveLaw, OnCurve, Curve.Sum, Multiple;
    MultipleOnCurve(m, p);
    MultipleOnCurve(n, q);
    LawClosed(Multiple(m, p), Multiple(n, q));
  }

  /** (a + b) + (c + d) = (a + c) + (b + d). */
  lemma Exchange(a: Point, b: Point, c: Point, e: Point)
    requires CurveLaw() && OnCurve(a) && OnCurve(b) && OnCurve(c) && OnCurve(e)
    ensures Curve.Sum(Curve.Sum(a, b), Curve.Sum(c, e)) == Curve.Sum(Curve.Sum(a, c), Curve.Sum(b, e))
  {
    hide *;
    LawClosed(c, e);
    LawClosed(b, e);
    LawAssoc(a, b, Curve.Sum(c, e));
    LawAssoc(b, c, e);
    SumComm(b, c);
    LawAssoc(c, b, e);
    LawAssoc(a, c, Curve.Sum(b, e));
  }

  lemma CombAdd(m: int, n: int, k: int, l: int, p: Point, q: Point)
    requires CurveLaw() && OnCurve(p) && OnCurve(q)
    ensures Curve.Sum(Comb(m, n, p, q), Comb(k, l, p, q)) == Comb(m + k, n + l, p, q)
  {
    hide CurveLaw, OnCurve, Curve.Sum, Multiple;
    MultipleOnCurve(m, p);
    MultipleOnCurve(n, q);
    MultipleOnCurve(k, p);
    MultipleOnCurve(l, q);
    Exchange(Multiple(m, p), Multiple(n, q), Multiple(k, p), Multiple(l, q));
    MultipleAdd(m, k, p);
    MultipleAdd(n, l, q);
  }

  lemma CombSingle(m: int, p: Point, q: Point)
    requires CurveLaw() && OnCurve(p) && OnCurve(q)
    ensures Comb(m, 0, p, q) == Multiple(m, p) && Comb(0, m, p, q) == Multiple(m, q)
  {
    hide CurveLaw, OnCurve, Curve.Sum, Multiple;
    MultipleDef(0, p);
    MultipleDef(0, q);
    TimesStep(0, p);
    TimesStep(0, q);
    MultipleOnCurve(m, p);
    MultipleOnCurve(m, q);
    SumZero(Multiple(m, p));
    SumZero(Multiple(m, q));
  }

  // -------------------------------------------------------------------------
  // Tables of odd multiples
  // -------------------------------------------------------------------------

  ghost predicate OddCached(t: seq<Cached>, p: Point) {
    forall j :: 0 <= j < |t| ==> IsCachedPoint(t[j], Times(2 * j + 1, p))
  }

  ghost predicate OddPrecomp(t: seq<Precomp>, p: Point) {
    forall j :: 0 <= j < |t| ==> IsPrecomp(t[j], Times(2 * j + 1, p))
  }

  /** Ai[j] = A2 + Ai[j-1]. */
  method NextOdd(A2: P3, c: Cached, j: nat, ghost p: Point) returns (n: Cached)
    requires CurveLaw() && OnCurve(p) && IsP3(A2, Times(2, p)) && IsCachedPoint(c, Times(2 * j + 1, p))
    ensures IsCachedPoint(n, Times(2 * j + 3, p))
  {
    hide CurveLaw, OnCurve, Curve.Sum, Times, IsP3, IsP1p1, IsCachedPoint, IsPrime;
    LawPrime();
    TimesOnCurve(2, p);
    TimesOnCurve(2 * j + 1, p);
    TimesAdd(2, 2 * j + 1, p);
    var t := GeAdd(A2, c, Times(2, p), Times(2 * j + 1, p));
    var u := GeP1p1ToP3(t, Times(2 * j + 3, p));
    n := GeP3ToCached(u, Times(2 * j + 3, p));
  }

  /** A, 3A, 5A, 7A, 9A, 11A, 13A, 15A. */
  method OddTable(A: P3, ghost p: Point) returns (t: seq<Cached>)
    requires CurveLaw() && OnCurve(p) && IsP3(A, p)
    ensures |t| == 8 && OddCached(t, p)
  {
    hide CurveLaw, OnCurve, Curve.Sum, Times, IsP3, IsP1p1, IsCachedPoint, IsPrime;
    LawPrime();
    TimesStep(0, p);
    TimesStep(1, p);
    SumZero(p);
    var c0 := GeP3ToCached(A, p);
    var dbl := GeP3Dbl(A, p);
    var A2 := GeP1p1ToP3(dbl, Times(2, p));
    var c1 := NextOdd(A2, c0, 0, p);
    var c2 := NextOdd(A2, c1, 1, p);
    var c3 := NextOdd(A2, c2, 2, p);
    var c4 := NextOdd(A2, c3, 3, p);
    var c5 := NextOdd(A2, c4, 4, p);
    var c6 := NextOdd(A2, c5, 5, p);
    var c7 := NextOdd(A2, c6, 6, p);
    t := [c0, c1, c2, c3, c4, c5, c6, c7];
  }

  lemma CachedAt(t: seq<Cached>, p: Point, x: nat)
    requires OddCached(t, p) && |t| == 8 && IsDigit(x) && x > 0
    ensures x / 2 < 8 && IsCachedPoint(t[x / 2], Times(x, p))
  {
    hide IsCachedPoint, Times;
    assert x == 2 * (x / 2) + 1;
  }

  lemma PrecompAt(t: seq<Precomp>, p: Point, x: nat)
    requires OddPrecomp(t, p) && |t| == 8 && IsDigit(x) && x > 0
    ensures x / 2 < 8 && IsPrecomp(t[x / 2], Times(x, p))
  {
    hide IsPrecomp, Times;
    assert x == 2 * (x / 2) + 1;
  }

  lemma NegDigit(x: int)
    requires IsDigit(x)
    ensures IsDigit(-x)
  {
  }

  lemma AddNothing(s: Point, p: Point)
    requires CurveLaw() && OnCurve(s)
    ensures Curve.Sum(s, Multiple(0, p)) == s
  {
    hide *;
    MultipleDef(0, p);
    TimesStep(0, p);
    SumZero(s);
  }

  // -------------------------------------------------------------------------
  // The main loop
  // -------------------------------------------------------------------------

  /** Adds the digit's multiple of A to t; a zero digit leaves t alone. */
  method AddCachedDigit(t0: P1p1, x: int, Ai: seq<Cached>, ghost s: Point, ghost p: Point) returns (t: P1p1)
    requires CurveLaw() && OnCurve(s) && OnCurve(p) && |Ai| == 8 && OddCached(Ai, p)
    requires IsP1p1(t0, s) && IsDigit(x)
    ensures IsP1p1(t, Curve.Sum(s, Multiple(x, p)))
  {
    hide *;
    LawPrime();
    t := t0;
    MultipleDef(x, p);
    if x > 0 {
      var u := GeP1p1ToP3(t, s);
      TimesOnCurve(x, p);
      CachedAt(Ai, p, x);
      t := GeAdd(u, Ai[x / 2], s, Times(x, p));
    } else if x < 0 {
      var u := GeP1p1ToP3(t, s);
      TimesOnCurve(-x, p);
      NegDigit(x);
      CachedAt(Ai, p, -x);
      t := GeSub(u, Ai[-x / 2], s, Times(-x, p));
    } else {
      AddNothing(s, p);
    }
  }

  /** Adds the digit's multiple of the base point to t. */
  method AddPrecompDigit(t0: P1p1, x: int, Bi: seq<Precomp>, ghost s: Point, ghost p: Point) returns (t: P1p1)
    requires CurveLaw() && OnCurve(s) && OnCurve(p) && |Bi| == 8 && OddPrecomp(Bi, p)
    requires IsP1p1(t0, s) && IsDigit(x)
    ensures IsP1p1(t, Curve.Sum(s, Multiple(x, p)))
  {
    hide *;
    LawPrime();
    t := t0;
    MultipleDef(x, p);
    if x > 0 {
      var u := GeP1p1ToP3(t, s);
      TimesOnCurve(x, p);
      PrecompAt(Bi, p, x);
      t := GeMadd(u, Bi[x / 2], s, Times(x, p));
    } else if x < 0 {
      var u := GeP1p1ToP3(t, s);
      TimesOnCurve(-x, p);
      NegDigit(x);
      PrecompAt(Bi, p, -x);
      t := GeMsub(u, Bi[-x / 2], s, Times(-x, p));
    } else {
      AddNothing(s, p);
    }
  }

  /** One pass of the main loop: double, then add both digits. */
  method Step(r0: P2, x: int, y: int, Ai: seq<Cached>, Bi: seq<Precomp>,
              ghost m: int, ghost n: int, ghost p: Point, ghost q: Point) returns (r: P2)
    requires CurveLaw() && OnCurve(p) && OnCurve(q)
    requires |Ai| == 8 && OddCached(Ai, p) && |Bi| == 8 && OddPrecomp(Bi, q)
    requires IsDigit(x) && IsDigit(y) && IsP2(r0, Comb(m, n, p, q))
    ensures IsP2(r, Comb(2 * m + x, 2 * n + y, p, q))
  {
    hide *;
    LawPrime();
    CombOnCurve(m, n, p, q);
    var t := GeP2Dbl(r0, Comb(m, n, p, q));
    CombAdd(m, n, m, n, p, q);
    assert m + m == 2 * m && n + n == 2 * n;
    CombOnCurve(2 * m, 2 * n, p, q);
    t := AddCachedDigit(t, x, Ai, Comb(2 * m, 2 * n, p, q), p);
    CombSingle(x, p, q);
    CombAdd(2 * m, 2 * n, x, 0, p, q);
    CombOnCurve(2 * m + x, 2 * n, p, q);
    t := AddPrecompDigit(t, y, Bi, Comb(2 * m + x, 2 * n, p, q), q);
    CombSingle(y, p, q);
    CombAdd(2 * m + x, 2 * n, 0, y, p, q);
    r := GeP1p1ToP2(t, Comb(2 * m + x, 2 * n + y, p, q));
  }

  lemma {:induction false} ZerosSum(s: seq<int>, i: nat)
    requires i <= |s| && forall k :: i <= k < |s| ==> s[k] == 0
    ensures Slide.Sum(s[i..]) == 0
    decreases |s| - i
  {
    if i < |s| {
      ZerosSum(s, i + 1);
      assert s[i..][1..] == s[i + 1..];
    }
  }

  lemma SuffixStep(s: seq<int>, i: nat)
    requires i < |s|
    ensures Slide.Sum(s[i..]) == s[i] + 2 * Slide.Sum(s[i + 1..])
  {
    assert s[i..][1..] == s[i + 1..];
  }

  /** ge_double_scalarmult_vartime. */
  method DoubleScalarMultVartime(a: seq<byte>, A: P3, b: seq<byte>, Bi: seq<Precomp>, ghost p: Point, ghost q: Point)
    returns (r: P2, ghost m: int, ghost n: int)
    requires |a| == 32 && |b| == 32
    requires CurveLaw() && OnCurve(p) && OnCurve(q) && IsP3(A, p) && |Bi| == 8 && OddPrecomp(Bi, q)
    ensures IsP2(r, Comb(m, n, p, q))
    ensures (LE(a) < Pow2(253) ==> m == LE(a)) && (LE(b) < Pow2(253) ==> n == LE(b))
    ensures (m == LE(a) || m == LE(a) - Pow2(256)) && (n == LE(b) || n == LE(b) - Pow2(256))
    ensures LE(a) < Pow2(253) && LE(b) < Pow2(253) ==> IsP2(r, Curve.Sum(Times(LE(a), p), Times(LE(b), q)))
  {
    hide CurveLaw, OnCurve, Curve.Sum, Multiple, Times, IsP2, IsP1p1, IsPrime, OddCached, OddPrecomp, Slide.Sum, LE, Pow2;
    hide IsP3, Comb, IsDigit, GeP2Zero;
    var aslide := new int8[256];
    var bslide := new int8[256];
    Slide.Recode(aslide, a);
    Slide.Recode(bslide, b);
    ghost var sa, sb := aslide[..], bslide[..];
    assert forall k :: 0 <= k < 256 ==> IsDigit(sa[k]) && IsDigit(sb[k]);
    var Ai := OddTable(A, p);
    r := GeP2Zero();
    var i := 255;
    while i >= 0
      invariant -1 <= i <= 255 && aslide[..] == sa && bslide[..] == sb
      invariant forall k :: i < k < 256 ==> sa[k] == 0 && sb[k] == 0
    {
      if aslide[i] != 0 || bslide[i] != 0 {
        break;
      }
      i := i - 1;
    }
    ZerosSum(sa, i + 1);
    ZerosSum(sb, i + 1);
    CombZero(p, q);
    while i >= 0
      invariant -1 <= i <= 255 && aslide[..] == sa && bslide[..] == sb
      invariant IsP2(r, Comb(Slide.Sum(sa[i + 1..]), Slide.Sum(sb[i + 1..]), p, q))
    {
      m, n := Slide.Sum(sa[i + 1..]), Slide.Sum(sb[i + 1..]);
      SuffixStep(sa, i);
      SuffixStep(sb, i);
      r := Step(r, aslide[i], bslide[i], Ai, Bi, m, n, p, q);
      i := i - 1;
    }
    assert sa[0..] == sa && sb[0..] == sb;
    m, n := Slide.Sum(sa), Slide.Sum(sb);
    CombNat(LE(a), LE(b), p, q);
  }

  lemma CombZero(p: Point, q: Point)
    requires CurveLaw() && OnCurve(p) && OnCurve(q)
    ensures Comb(0, 0, p, q) == O
  {
    hide CurveLaw, OnCurve, Curve.Sum, Multiple, Comb, Times;
    CombSingle(0, p, q);
    MultipleDef(0, p);
    TimesStep(0, p);
  }

  lemma CombNat(m: nat, n: nat, p: Point, q: Point)
    ensures Comb(m, n, p, q) == Curve.Sum(Times(m, p), Times(n, q))
  {
    hide Curve.Sum, Times;
  }
}
