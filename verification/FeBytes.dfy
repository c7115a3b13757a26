/** Field elements in and out of 32-byte strings: fe_frombytes, fe_tobytes and the two tests on bytes. */
module FeBytes {
  import opened Arith
  import opened Bits
  import opened Fe

  // -------------------------------------------------------------------------
  // fe_frombytes
  // -------------------------------------------------------------------------

  /** The loads of fe_frombytes; the top bit is masked off. */
  function LoadLimbs(s: seq<byte>): (h: Fe)
    requires |s| == 32
  {
    hide Load3, Load4, And;
    Fe(Load4(s, 0),
       Shl(Load3(s, 4), 6),
       Shl(Load3(s, 7), 5),
       Shl(Load3(s, 10), 3),
       Shl(Load3(s, 13), 2),
       Load4(s, 16),
       Shl(Load3(s, 20), 7),
       Shl(Load3(s, 23), 5),
       Shl(Load3(s, 26), 4),
       Shl(And(Load3(s, 29), 8388607), 2))
  }

  lemma Chunk3(s: seq<byte>, p: nat)
    requires p + 3 <= |s|
    ensures LE(s[p..]) == Load3(s, p) + 16777216 * LE(s[p + 3..])
    ensures Load3(s, p) < 0x1000000
  {
    hide Pow2, Or;
    Load3Field(s, p);
    assert s[p..][1..] == s[p + 1..] && s[p + 1..][1..] == s[p + 2..] && s[p + 2..][1..] == s[p + 3..];
    assert LE(s[p + 1..]) == s[p + 1] + 256 * LE(s[p + 2..]);
  }

  lemma Chunk4(s: seq<byte>, p: nat)
    requires p + 4 <= |s|
    ensures LE(s[p..]) == Load4(s, p) + 4294967296 * LE(s[p + 4..])
    ensures Load4(s, p) < 0x1_0000_0000
  {
    hide Pow2, Or;
    Load4Field(s, p);
    Load3Field(s, p);
    Chunk3(s, p);
    assert s[p + 3..][1..] == s[p + 4..];
    assert LE(s[p + 3..]) == s[p + 3] + 256 * LE(s[p + 4..]);
  }

  /** The value of the first nine loads. */
  ghost function LowLoads(s: seq<byte>): int
    requires |s| == 32
  {
    Load4(s, 0) + 0x100000000 * Load3(s, 4) + 0x100000000000000 * Load3(s, 7) + 0x100000000000000000000 * Load3(s, 10)
    + 0x100000000000000000000000000 * Load3(s, 13) + 0x100000000000000000000000000000000 * Load4(s, 16)
    + 0x10000000000000000000000000000000000000000 * Load3(s, 20) + 0x10000000000000000000000000000000000000000000000 * Load3(s, 23)
    + 0x10000000000000000000000000000000000000000000000000000 * Load3(s, 26)
  }

  lemma LoadsAreBytes(s: seq<byte>)
    requires |s| == 32
    ensures LE(s) == LowLoads(s) + 0x10000000000000000000000000000000000000000000000000000000000 * Load3(s, 29)
    ensures 0 <= LowLoads(s) < 0x10000000000000000000000000000000000000000000000000000000000 && Load3(s, 29) < 0x1000000
  {
    hide LE, Load3, Load4;
    assert s[0..] == s;
    Chunk4(s, 0);
    Chunk3(s, 4);
    Chunk3(s, 7);
    Chunk3(s, 10);
    Chunk3(s, 13);
    Chunk4(s, 16);
    Chunk3(s, 20);
    Chunk3(s, 23);
    Chunk3(s, 26);
    Chunk3(s, 29);
    assert s[32..] == [];
    EmptyLE();
  }

  lemma LimbsAreLoads(s: seq<byte>)
    requires |s| == 32
    ensures Val(LoadLimbs(s)) == LowLoads(s) + 0x10000000000000000000000000000000000000000000000000000000000 * (Load3(s, 29) % 0x800000)
  {
    Pow2Small();
    Pow2Words();
    Pow2Add(16, 7);
    MaskIsMod(Load3(s, 29), 23);
    ValSum(LoadLimbs(s));
    hide Pow2, Load3, Load4, And, Val;
  }

  lemma LimbsFit(s: seq<byte>)
    requires |s| == 32
    ensures Within(LoadLimbs(s), 0x1_0000_0000)
  {
    hide LE, Load3, Load4, And, Shl;
    Chunk4(s, 0);
    ShiftedLoad(s, 4, 6);
    ShiftedLoad(s, 7, 5);
    ShiftedLoad(s, 10, 3);
    ShiftedLoad(s, 13, 2);
    Chunk4(s, 16);
    ShiftedLoad(s, 20, 7);
    ShiftedLoad(s, 23, 5);
    ShiftedLoad(s, 26, 4);
    MaskedLoad(s);
  }

  lemma ShiftedLoad(s: seq<byte>, p: nat, k: nat)
    requires p + 3 <= |s| && k <= 7
    ensures 0 <= Shl(Load3(s, p), k) <= 0x1_0000_0000
  {
    Pow2Small();
    hide Pow2, LE, Load3;
    Chunk3(s, p);
  }

  lemma MaskedLoad(s: seq<byte>)
    requires |s| == 32
    ensures 0 <= Shl(And(Load3(s, 29), 8388607), 2) <= 0x1_0000_0000
  {
    Pow2Small();
    Pow2Add(16, 7);
    hide Pow2, LE, Load3, And;
    MaskIsMod(Load3(s, 29), 23);
  }

  lemma LoadLimbsValue(s: seq<byte>)
    requires |s| == 32
    ensures Val(LoadLimbs(s)) == LE(s) % Pow2(255)
    ensures Within(LoadLimbs(s), 0x1_0000_0000)
  {
    hide *;
    LimbsFit(s);
    LoadsAreBytes(s);
    LimbsAreLoads(s);
    TopBit(s, LowLoads(s), Load3(s, 29));
    HighBits(Load3(s, 29));
  }

  lemma HighBits(top: nat)
    ensures top == top % 0x800000 + 0x800000 * (top / 0x800000)
  {
  }

  lemma EmptyLE()
    ensures LE([]) == 0
  {
  }

  lemma TopBit(s: seq<byte>, low: int, top: nat)
    requires |s| == 32 && top < 0x1000000
    requires 0 <= low < 0x10000000000000000000000000000000000000000000000000000000000 && LE(s) == low + 0x10000000000000000000000000000000000000000000000000000000000 * top
    ensures LE(s) % Pow2(255) == LE(s) - 0x8000000000000000000000000000000000000000000000000000000000000000 * (top / 0x800000)
  {
    Pow2Large();
    hide Pow2, LE;
    DivModUnique(LE(s), 0x8000000000000000000000000000000000000000000000000000000000000000, top / 0x800000, LE(s) - 0x8000000000000000000000000000000000000000000000000000000000000000 * (top / 0x800000));
  }

  /** fe_frombytes ignores the top bit of the string. */
  function FromBytes(s: seq<byte>): (h: Fe)
    requires |s| == 32
    ensures Bounded(h, NARROW)
    ensures Cong(Val(h), LE(s) % Pow2(255), P)
  {
    hide LoadLimbs, CarryParallel, Cong, Val, LE, Pow2;
    LoadLimbsValue(s);
    CarryParallel(LoadLimbs(s))
  }

  // -------------------------------------------------------------------------
  // fe_tobytes
  // -------------------------------------------------------------------------

  /** The quotient estimate: eleven shifts, each of a 32-bit sum. */
  function Quotient(h: Fe): (q: int32)
    requires Bounded(h, LOOSE)
    ensures h.v9 <= 36909875 && -36909875 <= h.v9
    ensures var q0 := (19 * h.v9 + 0x1000000) / 0x2000000;
      0x8000000000000000000000000000000000000000000000000000000000000000 * q <= Val(h) + q0 < 0x8000000000000000000000000000000000000000000000000000000000000000 * q + 0x8000000000000000000000000000000000000000000000000000000000000000
    ensures -3 <= q <= 3
  {
    ValSum(h);
    hide QuotientLow, QuotientHigh;
    var q0: int32 := (19 * h.v9 + 0x1000000) / 0x2000000;
    QuotientHigh(h, QuotientLow(h, q0))
  }

  function QuotientLow(h: Fe, q0: int32): (q: int32)
    requires Bounded(h, LOOSE) && -100 <= q0 <= 100
    ensures -3 <= q <= 3
    ensures var n := h.v0 + 0x4000000 * h.v1 + 0x8000000000000 * h.v2 + 0x20000000000000000000 * h.v3
              + 0x40000000000000000000000000 * h.v4 + q0;
            0x100000000000000000000000000000000 * q <= n < 0x100000000000000000000000000000000 * q + 0x100000000000000000000000000000000
  {
    var a: int := q0;
    var q1: int32 := (h.v0 + a) / 0x4000000;
    var b: int := q1;
    var q2: int32 := (h.v1 + b) / 0x2000000;
    var c: int := q2;
    var q3: int32 := (h.v2 + c) / 0x4000000;
    var d: int := q3;
    var q4: int32 := (h.v3 + d) / 0x2000000;
    var e: int := q4;
    var q5: int32 := (h.v4 + e) / 0x4000000;
    q5
  }

  function QuotientHigh(h: Fe, q5: int32): (q: int32)
    requires Bounded(h, LOOSE) && -3 <= q5 <= 3
    ensures -3 <= q <= 3
    ensures var n := h.v5 + 0x2000000 * h.v6 + 0x8000000000000 * h.v7 + 0x10000000000000000000 * h.v8
              + 0x40000000000000000000000000 * h.v9 + q5;
            0x80000000000000000000000000000000 * q <= n < 0x80000000000000000000000000000000 * q + 0x80000000000000000000000000000000
  {
    var a: int := q5;
    var q6: int32 := (h.v5 + a) / 0x2000000;
    var b: int := q6;
    var q7: int32 := (h.v6 + b) / 0x4000000;
    var c: int := q7;
    var q8: int32 := (h.v7 + c) / 0x2000000;
    var d: int := q8;
    var q9: int32 := (h.v8 + d) / 0x4000000;
    var e: int := q9;
    var q10: int32 := (h.v9 + e) / 0x2000000;
    q10
  }

  /** The estimate is the quotient: h - pq is the residue. */
  lemma QuotientExact(h: Fe)
    requires Bounded(h, LOOSE)
    ensures 0 <= Val(h) - P * Quotient(h) < P
    ensures -2 <= Quotient(h) <= 1 && (Quotient(h) == -2 <==> Val(h) < -P)
  {
    hide Quotient, Val, Bounded;
    var q := Quotient(h);
    LowPart(h);
    var q0 := (19 * h.v9 + 0x1000000) / 0x2000000;
    var rho := (19 * h.v9 + 0x1000000) % 0x2000000;
    QuotientRange(Val(h), h.v9, q, q0, rho);
    LowestOnly(Val(h), q);
  }

  lemma LowPart(h: Fe)
    requires Bounded(h, LOOSE)
    ensures -36909875 <= h.v9 <= 36909875
    ensures -0x10000000000000000000000000000000000000000000000000000000000
            <= Val(h) - 0x4000000000000000000000000000000000000000000000000000000000 * h.v9
            <= 0x10000000000000000000000000000000000000000000000000000000000
  {
    ValSum(h);
  }

  lemma QuotientRange(n: int, t: int, q: int, q0: int, rho: int)
    requires 0x8000000000000000000000000000000000000000000000000000000000000000 * q <= n + q0 < 0x8000000000000000000000000000000000000000000000000000000000000000 * q + 0x8000000000000000000000000000000000000000000000000000000000000000
    requires 19 * t + 0x1000000 == 0x2000000 * q0 + rho && 0 <= rho < 0x2000000
    requires -0x10000000000000000000000000000000000000000000000000000000000 <= n - 0x4000000000000000000000000000000000000000000000000000000000 * t <= 0x10000000000000000000000000000000000000000000000000000000000
    requires -36909875 <= t <= 36909875
    ensures 0 <= n - P * q < P && -2 <= q <= 1
  {
    PValue();
  }

  lemma LowestOnly(n: int, q: int)
    requires 0 <= n - P * q < P && -2 <= q <= 1
    ensures q == -2 <==> n < -P
  {
    PValue();
  }

  /** The lowest element within the bound has the quotient -2. */
  lemma LowestQuotient(h: Fe)
    requires h == Fe(-2 * LOOSE, -LOOSE, -2 * LOOSE, -LOOSE, -2 * LOOSE, -LOOSE, -2 * LOOSE, -LOOSE, -2 * LOOSE, -LOOSE)
    ensures Bounded(h, LOOSE) && Val(h) < -P && Quotient(h) == -2
  {
    PValue();
    ValSum(h);
    QuotientExact(h);
    hide Quotient;
  }

  /** Floor carry of limb k into limb k + 1. */
  function Floor(h: Fe, k: nat): (r: Fe)
    requires k < 9 && -0x40000000 <= Limb(h, k) <= 0x40000000 && -0x40000000 <= Limb(h, k + 1) <= 0x40000000
    ensures r == WithLimb(WithLimb(h, k, Limb(r, k)), k + 1, Limb(r, k + 1)) && 0 <= Limb(r, k) < Radix(k % 2 == 0)
    ensures Radix(k % 2 == 0) * (Limb(r, k + 1) - Limb(h, k + 1)) == Limb(h, k) - Limb(r, k)
    ensures Val(r) == Val(h)
  {
    hide Val, Limb, WithLimb, Radix;
    var radix := Radix(k % 2 == 0);
    FloorCarry(Limb(h, k), k % 2 == 0);
    var carry: int32 := Limb(h, k) / radix;
    var up: int32 := Limb(h, k + 1) + carry;
    CarryKeeps(h, k, carry);
    WithLimb(WithLimb(h, k, Limb(h, k) - carry * radix), k + 1, up)
  }

  lemma FloorCarry(x: int, even: bool)
    ensures var radix := Radix(even); var carry := x / radix;
            radix > 0 && 0 <= x - carry * radix < radix && (-0x40000000 <= x <= 0x40000000 ==> -32 <= carry <= 32)
  {
  }

  /** The last one, of limb 9: the carry is dropped. */
  function FloorTop(h: Fe): (r: Fe)
    ensures r == h.(v9 := r.v9) && 0 <= r.v9 < 0x2000000
    ensures Val(r) == Val(h) - 0x8000000000000000000000000000000000000000000000000000000000000000 * (h.v9 / 0x2000000)
  {
    var r := h.(v9 := h.v9 - (h.v9 / 0x2000000) * 0x2000000);
    ValSum(h);
    ValSum(r);
    r
  }

  /** Limbs of 26 and 25 bits, none negative. */
  ghost predicate Canonical(h: Fe) {
    && 0 <= h.v0 < 0x4000000
    && 0 <= h.v1 < 0x2000000
    && 0 <= h.v2 < 0x4000000
    && 0 <= h.v3 < 0x2000000
    && 0 <= h.v4 < 0x4000000
    && 0 <= h.v5 < 0x2000000
    && 0 <= h.v6 < 0x4000000
    && 0 <= h.v7 < 0x2000000
    && 0 <= h.v8 < 0x4000000
    && 0 <= h.v9 < 0x2000000
  }

  /** h0 += 19 * q. */
  function AddQuotient(h: Fe, q: int): (r: Fe)
    requires Bounded(h, LOOSE) && -2 <= q <= 1
    ensures Bounded(r, LOOSE + 100)
    ensures Val(r) == Val(h) + 19 * q
  {
    h.(v0 := h.v0 + 19 * q)
  }

  /** fe_tobytes up to the stores: the limbs of the residue in [0, p). */
  function Freeze(h: Fe): (r: Fe)
    requires Bounded(h, LOOSE)
    ensures Canonical(r)
    ensures Val(r) == Val(h) % P
  {
    hide AddQuotient, FreezeLow, FreezeHigh, FreezeTop, Quotient, Val, Bounded;
    QuotientExact(h);
    var q := Quotient(h);
    FreezeTop(FreezeHigh(FreezeLow(AddQuotient(h, q))), Val(h), q)
  }

  function FreezeTop(h: Fe, ghost n: int, ghost q: int): (r: Fe)
    requires Canonical(h.(v9 := 0)) && Val(h) == n + 19 * q && 0 <= n - P * q < P
    ensures Canonical(r) && Val(r) == n % P
  {
    hide FloorTop, Val;
    FreezeValue(n, Val(FloorTop(h)), h.v9 / 0x2000000, q, FloorTop(h));
    FloorTop(h)
  }

  function FreezeLow(h: Fe): (r: Fe)
    requires Bounded(h, LOOSE + 100)
    ensures r == Fe(r.v0, r.v1, r.v2, r.v3, r.v4, r.v5, h.v6, h.v7, h.v8, h.v9)
    ensures 0 <= r.v0 < 0x4000000 && 0 <= r.v1 < 0x2000000 && 0 <= r.v2 < 0x4000000
    ensures 0 <= r.v3 < 0x2000000 && 0 <= r.v4 < 0x4000000
    ensures -LOOSE - 200 <= r.v5 <= LOOSE + 200 && -2 * LOOSE - 200 <= r.v6 <= 2 * LOOSE + 200
    ensures -LOOSE - 200 <= r.v7 <= LOOSE + 200 && -2 * LOOSE - 200 <= r.v8 <= 2 * LOOSE + 200
    ensures -LOOSE - 200 <= r.v9 <= LOOSE + 200
    ensures Val(r) == Val(h)
  {
    hide Floor, Val;
    Floor(Floor(Floor(Floor(Floor(h, 0), 1), 2), 3), 4)
  }

  function FreezeHigh(h: Fe): (r: Fe)
    requires -LOOSE - 200 <= h.v5 <= LOOSE + 200 && -2 * LOOSE - 200 <= h.v6 <= 2 * LOOSE + 200
    requires -LOOSE - 200 <= h.v7 <= LOOSE + 200 && -2 * LOOSE - 200 <= h.v8 <= 2 * LOOSE + 200
    requires -LOOSE - 200 <= h.v9 <= LOOSE + 200
    ensures r == Fe(h.v0, h.v1, h.v2, h.v3, h.v4, r.v5, r.v6, r.v7, r.v8, r.v9)
    ensures 0 <= r.v5 < 0x2000000 && 0 <= r.v6 < 0x4000000 && 0 <= r.v7 < 0x2000000 && 0 <= r.v8 < 0x4000000
    ensures Val(r) == Val(h)
  {
    hide Floor, Val;
    Floor(Floor(Floor(Floor(h, 5), 6), 7), 8)
  }

  lemma CanonicalBound(r: Fe)
    requires Canonical(r)
    ensures 0 <= Val(r) < 0x8000000000000000000000000000000000000000000000000000000000000000
  {
    ValSum(r);
  }

  lemma FreezeValue(n: int, m: int, c: int, q: int, r: Fe)
    requires m == n + 19 * q - 0x8000000000000000000000000000000000000000000000000000000000000000 * c
    requires m == Val(r) && Canonical(r) && 0 <= n - P * q < P
    ensures m == n % P
  {
    PValue();
    CanonicalBound(r);
    hide Val, Canonical;
    DivModUnique(n, P, q, n - P * q);
  }

  /** The 32 stores of fe_tobytes. */
  function StoreLimbs(h: Fe): (s: seq<byte>)
    requires Canonical(h)
    ensures |s| == 32
  {
    hide Or, Shr;
    [
      Byte(Shr(h.v0, 0)), Byte(Shr(h.v0, 8)),
      Byte(Shr(h.v0, 16)), Byte(Or(Shr(h.v0, 24), Shl(h.v1, 2))),
      Byte(Shr(h.v1, 6)), Byte(Shr(h.v1, 14)),
      Byte(Or(Shr(h.v1, 22), Shl(h.v2, 3))), Byte(Shr(h.v2, 5)),
      Byte(Shr(h.v2, 13)), Byte(Or(Shr(h.v2, 21), Shl(h.v3, 5))),
      Byte(Shr(h.v3, 3)), Byte(Shr(h.v3, 11)),
      Byte(Or(Shr(h.v3, 19), Shl(h.v4, 6))), Byte(Shr(h.v4, 2)),
      Byte(Shr(h.v4, 10)), Byte(Shr(h.v4, 18)),
      Byte(Shr(h.v5, 0)), Byte(Shr(h.v5, 8)),
      Byte(Shr(h.v5, 16)), Byte(Or(Shr(h.v5, 24), Shl(h.v6, 1))),
      Byte(Shr(h.v6, 7)), Byte(Shr(h.v6, 15)),
      Byte(Or(Shr(h.v6, 23), Shl(h.v7, 3))), Byte(Shr(h.v7, 5)),
      Byte(Shr(h.v7, 13)), Byte(Or(Shr(h.v7, 21), Shl(h.v8, 4))),
      Byte(Shr(h.v8, 4)), Byte(Shr(h.v8, 12)),
      Byte(Or(Shr(h.v8, 20), Shl(h.v9, 6))), Byte(Shr(h.v9, 2)),
      Byte(Shr(h.v9, 10)), Byte(Shr(h.v9, 18))
    ]
  }

  // Where the limbs stand, so that the stores can be read off the value.

  ghost function Width(k: nat): nat {
    if k % 2 == 0 then 26 else 25
  }

  /** The bit at which limb k starts: 25.5 k, rounded up. */
  ghost function Start(k: nat): nat {
    (51 * k + 1) / 2
  }

  /** The limbs from k on as a number. */
  ghost function Tail(h: Fe, k: nat): int
    requires k <= 10
  {
    LimbSum(Limbs(h)[k..], k % 2 == 0)
  }

  lemma TailIsVal(h: Fe)
    ensures Tail(h, 0) == Val(h)
  {
    assert Limbs(h)[0..] == Limbs(h);
  }

  lemma TailStep(h: Fe, k: nat)
    requires k < 10
    ensures Tail(h, k) == Limb(h, k) + Pow2(Width(k)) * Tail(h, k + 1)
  {
    hide *;
    RadixWidth(k);
    LimbAt(h, k);
    var rest := Limbs(h)[k + 1..];
    var s := Joined(Limbs(h)[k], rest, k % 2 == 0);
    assert s == Limbs(h)[k..];
    TailDef(h, k);
    TailDef(h, k + 1);
  }

  lemma TailDef(h: Fe, k: nat)
    requires k <= 10
    ensures Tail(h, k) == LimbSum(Limbs(h)[k..], k % 2 == 0)
  {
  }

  lemma RadixWidth(k: nat)
    ensures Pow2(Width(k)) == Radix(k % 2 == 0)
  {
    Pow2Words();
    Pow2Add(21, 4);
    Pow2Small();
    hide Pow2;
  }

  lemma TailEnd(h: Fe)
    ensures Tail(h, 10) == 0
  {
  }

  lemma LimbRange(h: Fe, k: nat)
    requires Canonical(h)
    ensures 0 <= Limb(h, k) < Pow2(Width(k))
  {
    hide Pow2;
    Pow2Words();
    Pow2Add(21, 4);
    Pow2Small();
  }

  lemma StartStep(k: nat)
    ensures Start(0) == 0 && Pow2(Start(0)) == 1 && (0 < k <= 10 ==> Start(k) == Start(k - 1) + Width(k - 1))
  {
    Pow2Small();
  }

  lemma {:induction false} TailDiv(h: Fe, k: nat)
    requires Canonical(h) && k <= 10
    ensures Tail(h, 0) / Pow2(Start(k)) == Tail(h, k)
  {
    hide Pow2, Tail, Limb, Canonical, Start, Width;
    StartStep(k);
    if k != 0 {
      TailDiv(h, k - 1);
      LimbRange(h, k - 1);
      TailStep(h, k - 1);
      DivDiv(Tail(h, 0), Pow2(Start(k - 1)), Pow2(Width(k - 1)));
      Pow2Add(Start(k - 1), Width(k - 1));
      DivModUnique(Tail(h, k - 1), Pow2(Width(k - 1)), Tail(h, k), Limb(h, k - 1));
    }
  }

  /** The byte at bit r of limb k. */
  lemma LimbByte(h: Fe, k: nat, r: nat)
    requires Canonical(h) && k < 10 && r < Width(k)
    ensures Field(Val(h), Start(k) + r, 8) == (Shr(Limb(h, k), r) + Limb(h, k + 1) * Pow2(Width(k) - r)) % 256
  {
    hide Pow2, Tail, Limb, Canonical, Val;
    Pow2Small();
    TailIsVal(h);
    TailDiv(h, k);
    TailStep(h, k);
    DivDiv(Val(h), Pow2(Start(k)), Pow2(r));
    Pow2Add(Start(k), r);
    if k == 9 {
      TailEnd(h);
      LimbTop(h);
      assert Limb(h, k + 1) == 0 && Tail(h, k + 1) == 0;
      assert Pow2(Width(k)) * Tail(h, k + 1) == 0 && Limb(h, k + 1) * Pow2(Width(k) - r) == 0;
    } else {
      TailStep(h, k + 1);
      ShiftedLimbs(Limb(h, k), Limb(h, k + 1), Tail(h, k + 2), r, Width(k), Width(k + 1));
    }
  }

  lemma LimbTop(h: Fe)
    ensures Limb(h, 10) == 0
  {
  }

  lemma InnerByte(h: Fe, k: nat, r: nat, j: nat)
    requires 8 * j == Start(k) + r && Canonical(h) && k < 10 && r + 8 <= Width(k) && Limb(h, k) >= 0
    ensures Byte(Shr(Limb(h, k), r)) == Field(Val(h), 8 * j, 8)
  {
    hide Pow2, Val, Limb;
    LimbByte(h, k, r);
    Pow2Small();
    Pow2Add(8, Width(k) - r - 8);
    var c, z := Shr(Limb(h, k), r), Limb(h, k + 1) * Pow2(Width(k) - r - 8);
    assert Limb(h, k + 1) * Pow2(Width(k) - r) == z * 256;
    DivModUnique(c + z * 256, 256, c / 256 + z, c % 256);
  }

  lemma TopByte(h: Fe, r: nat, j: nat)
    requires 8 * j == 230 + r && Canonical(h) && r < 25
    ensures Byte(Shr(h.v9, r)) == Field(Val(h), 8 * j, 8)
  {
    LimbTop(h);
    hide Pow2, Val;
    LimbByte(h, 9, r);
  }

  lemma SplitByte(h: Fe, k: nat, r: nat, j: nat)
    requires 8 * j == Start(k) + r && Canonical(h) && k < 9 && r < Width(k) && Limb(h, k) >= 0 && Limb(h, k + 1) >= 0
    ensures Byte(Or(Shr(Limb(h, k), r), Shl(Limb(h, k + 1), Width(k) - r))) == Field(Val(h), 8 * j, 8)
  {
    hide Pow2, Val, Limb, Or;
    LimbByte(h, k, r);
    LimbRange(h, k);
    var x := Limb(h, k);
    Pow2Add(r, Width(k) - r);
    assert Shr(x, r) < Pow2(Width(k) - r) by {
      if Shr(x, r) >= Pow2(Width(k) - r) {
        MulMono(Pow2(Width(k) - r), Shr(x, r), Pow2(r));
      }
    }
    OrIsSum(Shr(x, r), Limb(h, k + 1), Width(k) - r);
  }

  lemma Bytes0(h: Fe)
    requires Canonical(h)
    ensures Val(h) >= 0
    ensures forall j :: 0 <= j < 8 ==> StoreLimbs(h)[j] == Field(Val(h), 8 * j, 8)
  {
    CanonicalBound(h);
    hide Pow2, Val, Or, Shr, Shl, Byte, Field;
    InnerByte(h, 0, 0, 0);
    InnerByte(h, 0, 8, 1);
    InnerByte(h, 0, 16, 2);
    SplitByte(h, 0, 24, 3);
    InnerByte(h, 1, 6, 4);
    InnerByte(h, 1, 14, 5);
    SplitByte(h, 1, 22, 6);
    InnerByte(h, 2, 5, 7);
  }

  lemma Bytes1(h: Fe)
    requires Canonical(h)
    ensures Val(h) >= 0
    ensures forall j :: 8 <= j < 16 ==> StoreLimbs(h)[j] == Field(Val(h), 8 * j, 8)
  {
    CanonicalBound(h);
    hide Pow2, Val, Or, Shr, Shl, Byte, Field;
    InnerByte(h, 2, 13, 8);
    SplitByte(h, 2, 21, 9);
    InnerByte(h, 3, 3, 10);
    InnerByte(h, 3, 11, 11);
    SplitByte(h, 3, 19, 12);
    InnerByte(h, 4, 2, 13);
    InnerByte(h, 4, 10, 14);
    InnerByte(h, 4, 18, 15);
  }

  lemma Bytes2(h: Fe)
    requires Canonical(h)
    ensures Val(h) >= 0
    ensures forall j :: 16 <= j < 24 ==> StoreLimbs(h)[j] == Field(Val(h), 8 * j, 8)
  {
    CanonicalBound(h);
    hide Pow2, Val, Or, Shr, Shl, Byte, Field;
    InnerByte(h, 5, 0, 16);
    InnerByte(h, 5, 8, 17);
    InnerByte(h, 5, 16, 18);
    SplitByte(h, 5, 24, 19);
    InnerByte(h, 6, 7, 20);
    InnerByte(h, 6, 15, 21);
    SplitByte(h, 6, 23, 22);
    InnerByte(h, 7, 5, 23);
  }

  lemma Bytes3(h: Fe)
    requires Canonical(h)
    ensures Val(h) >= 0
    ensures forall j :: 24 <= j < 32 ==> StoreLimbs(h)[j] == Field(Val(h), 8 * j, 8)
  {
    CanonicalBound(h);
    hide Pow2, Val, Or, Shr, Shl, Byte, Field;
    InnerByte(h, 7, 13, 24);
    SplitByte(h, 7, 21, 25);
    InnerByte(h, 8, 4, 26);
    InnerByte(h, 8, 12, 27);
    SplitByte(h, 8, 20, 28);
    TopByte(h, 2, 29);
    TopByte(h, 10, 30);
    TopByte(h, 18, 31);
  }

  lemma StoreLimbsValue(h: Fe)
    requires Canonical(h)
    ensures LE(StoreLimbs(h)) == Val(h)
  {
    hide Pow2, Val, StoreLimbs, Field, LE;
    Bytes0(h);
    Bytes1(h);
    Bytes2(h);
    Bytes3(h);
    LEOfDigits(StoreLimbs(h), Val(h));
    CanonicalBound(h);
    Pow2Large();
    DivModUnique(Val(h), Pow2(256), 0, Val(h));
  }

  /** fe_tobytes: the unique representative in [0, p), as 32 bytes. */
  function ToBytes(h: Fe): (s: seq<byte>)
    requires Bounded(h, LOOSE)
    ensures |s| == 32 && LE(s) == Val(h) % P
  {
    hide Freeze, StoreLimbs, LE, Val;
    StoreLimbsValue(Freeze(h));
    StoreLimbs(Freeze(h))
  }

  /** fe_tobytes after fe_frombytes: the residue of the low 255 bits. */
  function Recoded(s: seq<byte>): (t: seq<byte>)
    requires |s| == 32
    ensures |t| == 32 && LE(t) == LE(s) % Pow2(255) % P
  {
    hide LE, Pow2, FromBytes, ToBytes, Val, Cong, Bounded;
    var h := FromBytes(s);
    WidenNarrow(h);
    CongSameMod(Val(h), LE(s) % Pow2(255), P);
    ToBytes(h)
  }

  lemma WidenNarrow(h: Fe)
    ensures Bounded(h, NARROW) ==> Bounded(h, LOOSE)
  {
  }

  /** It is the string itself exactly for a canonical one. */
  lemma CanonicalBytes(s: seq<byte>)
    requires |s| == 32
    ensures Recoded(s) == s <==> LE(s) < P
  {
    PValue();
    Pow2Large();
    hide LE, Pow2, Recoded;
    if LE(s) < P {
      LEInjective(s, Recoded(s));
    }
  }

  /** r = s[0] | s[1] | ... */
  function OrAll(s: seq<byte>): (r: nat)
    ensures r == 0 <==> forall k :: 0 <= k < |s| ==> s[k] == 0
  {
    if |s| == 0 then 0
    else
      OrZero(OrAll(s[..|s| - 1]), s[|s| - 1]);
      Or(OrAll(s[..|s| - 1]), s[|s| - 1])
  }

  lemma {:induction false} LEZero(s: seq<byte>)
    ensures LE(s) == 0 <==> forall k :: 0 <= k < |s| ==> s[k] == 0
  {
    if |s| != 0 {
      LEZero(s[1..]);
      assert forall k :: 0 <= k < |s| ==> s[k] == if k == 0 then s[0] else s[1..][k - 1];
    }
  }

  /** fe_isnonzero. */
  function IsNonzero(f: Fe): (b: bool)
    requires Bounded(f, LOOSE)
    ensures b <==> Val(f) % P != 0
  {
    LEZero(ToBytes(f));
    OrAll(ToBytes(f)) != 0
  }

  lemma LowBit(s: seq<byte>)
    requires |s| > 0
    ensures And(s[0], 1) == LE(s) % 2
  {
    Pow2Small();
    MaskIsMod(s[0], 1);
    hide And, Pow2;
    var low: nat, rest := s[0], LE(s[1..]);
    assert LE(s) == low + 256 * rest;
    hide LE;
    assert (low + 2 * (128 * rest)) % 2 == low % 2;
  }

  /** fe_isnegative: the parity of the representative. */
  function IsNegative(f: Fe): (b: nat)
    requires Bounded(f, LOOSE)
    ensures b == (Val(f) % P) % 2
  {
    hide And, Val, LE, ToBytes, Pow2;
    var s := ToBytes(f);
    LowBit(s);
    And(s[0], 1)
  }
}
