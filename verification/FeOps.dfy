/** The field operations of fe.c on limbs, with the bounds each one needs and leaves. */
module FeOps {
  import opened Arith
  import opened Bits
  import opened Fe
  import opened FeProducts

  /** fe_0. */
  function Zero(): (h: Fe)
    ensures Val(h) == 0 && forall b :: b >= 1 ==> Bounded(h, b)
  {
    SmallElement(Fe(0, 0, 0, 0, 0, 0, 0, 0, 0, 0));
    Fe(0, 0, 0, 0, 0, 0, 0, 0, 0, 0)
  }

  /** fe_1. */
  function One(): (h: Fe)
    ensures Val(h) == 1 && forall b :: b >= 1 ==> Bounded(h, b)
  {
    SmallElement(Fe(1, 0, 0, 0, 0, 0, 0, 0, 0, 0));
    Fe(1, 0, 0, 0, 0, 0, 0, 0, 0, 0)
  }

  lemma SmallElement(f: Fe)
    requires f == Fe(f.v0, 0, 0, 0, 0, 0, 0, 0, 0, 0) && 0 <= f.v0 <= 1
    ensures Val(f) == f.v0 && forall b :: b >= 1 ==> Bounded(f, b)
  {
    ValSum(f);
  }

  /** fe_mul. */
  function Mul(f: Fe, g: Fe): (h: Fe)
    requires Bounded(f, WIDE) && Bounded(g, WIDE)
    ensures Bounded(h, TIGHT)
    ensures Cong(Val(h), Val(f) * Val(g), P)
  {
    hide Val, Cong, MulLimbs, CarryProduct;
    var h := CarryProduct(MulLimbs(f, g));
    MulLimbsVal(f, g);
    CongTrans(Val(h), Val(MulLimbs(f, g)), Val(f) * Val(g), P);
    h
  }

  /** fe_sq: limb for limb what fe_mul returns on the same argument twice. */
  function Sq(f: Fe): (h: Fe)
    requires Bounded(f, WIDE)
    ensures h == Mul(f, f)
  {
    hide Val, Cong, MulLimbs, SqLimbs, CarryProduct;
    SqLimbsAreMul(f);
    CarryProduct(SqLimbs(f))
  }

  function Twice(h: Fe): (r: Fe)
    ensures Val(r) == 2 * Val(h)
  {
    var r := Fe(h.v0 + h.v0, h.v1 + h.v1, h.v2 + h.v2, h.v3 + h.v3, h.v4 + h.v4, h.v5 + h.v5, h.v6 + h.v6, h.v7 + h.v7, h.v8 + h.v8, h.v9 + h.v9);
    ValSum(h);
    ValSum(r);
    r
  }

  /** fe_sq2. */
  function Sq2(f: Fe): (h: Fe)
    requires Bounded(f, WIDE)
    ensures Bounded(h, TIGHT)
    ensures Cong(Val(h), 2 * (Val(f) * Val(f)), P)
  {
    hide Val, Cong, MulLimbs, SqLimbs, CarryProduct;
    var s := SqLimbs(f);
    var h := CarryProduct(Twice(s));
    SqLimbsAreMul(f);
    MulLimbsVal(f, f);
    CongScale(Val(s), Val(f) * Val(f), 2, P);
    CongTrans(Val(h), 2 * Val(s), 2 * (Val(f) * Val(f)), P);
    h
  }

  /** fe_mul121666. */
  function Mul121666(f: Fe): (h: Fe)
    requires Bounded(f, LOOSE)
    ensures Bounded(h, NARROW)
    ensures Cong(Val(h), 121666 * Val(f), P)
  {
    hide Cong, CarryParallel;
    ScaledLimbs(f);
    CarryParallel(Fe(f.v0 * 121666, f.v1 * 121666, f.v2 * 121666, f.v3 * 121666, f.v4 * 121666, f.v5 * 121666, f.v6 * 121666, f.v7 * 121666, f.v8 * 121666, f.v9 * 121666))
  }

  lemma ScaledLimbs(f: Fe)
    requires Bounded(f, LOOSE)
    ensures var h := Fe(f.v0 * 121666, f.v1 * 121666, f.v2 * 121666, f.v3 * 121666, f.v4 * 121666, f.v5 * 121666, f.v6 * 121666, f.v7 * 121666, f.v8 * 121666, f.v9 * 121666);
            Within(h, 0x1000_0000_0000) && Val(h) == 121666 * Val(f)
  {
    ValSum(f);
    ValSum(Fe(f.v0 * 121666, f.v1 * 121666, f.v2 * 121666, f.v3 * 121666, f.v4 * 121666, f.v5 * 121666, f.v6 * 121666, f.v7 * 121666, f.v8 * 121666, f.v9 * 121666));
  }

  /** Room for one 32-bit addition of two limbs. */
  ghost predicate Addable(f: Fe) {
    Bounded(f, 0x1fff_ffff)
  }

  /** fe_add; the result is exact, and its bound is the sum of the bounds. */
  function Add(f: Fe, g: Fe): (h: Fe)
    requires Addable(f) && Addable(g)
    ensures Val(h) == Val(f) + Val(g)
  {
    var h0: int32 := f.v0 + g.v0;
    var h1: int32 := f.v1 + g.v1;
    var h2: int32 := f.v2 + g.v2;
    var h3: int32 := f.v3 + g.v3;
    var h4: int32 := f.v4 + g.v4;
    var h5: int32 := f.v5 + g.v5;
    var h6: int32 := f.v6 + g.v6;
    var h7: int32 := f.v7 + g.v7;
    var h8: int32 := f.v8 + g.v8;
    var h9: int32 := f.v9 + g.v9;
    var h := Fe(h0, h1, h2, h3, h4, h5, h6, h7, h8, h9);
    ValSum(f);
    ValSum(g);
    ValSum(h);
    h
  }

  lemma AddBound(f: Fe, g: Fe, a: nat, b: nat)
    requires Bounded(f, a) && Bounded(g, b) && a <= 0x1fff_ffff && b <= 0x1fff_ffff
    ensures Bounded(Add(f, g), a + b)
  {
  }

  /** fe_sub. */
  function Sub(f: Fe, g: Fe): (h: Fe)
    requires Addable(f) && Addable(g)
    ensures Val(h) == Val(f) - Val(g)
  {
    var h0: int32 := f.v0 - g.v0;
    var h1: int32 := f.v1 - g.v1;
    var h2: int32 := f.v2 - g.v2;
    var h3: int32 := f.v3 - g.v3;
    var h4: int32 := f.v4 - g.v4;
    var h5: int32 := f.v5 - g.v5;
    var h6: int32 := f.v6 - g.v6;
    var h7: int32 := f.v7 - g.v7;
    var h8: int32 := f.v8 - g.v8;
    var h9: int32 := f.v9 - g.v9;
    var h := Fe(h0, h1, h2, h3, h4, h5, h6, h7, h8, h9);
    ValSum(f);
    ValSum(g);
    ValSum(h);
    h
  }

  lemma SubBound(f: Fe, g: Fe, a: nat, b: nat)
    requires Bounded(f, a) && Bounded(g, b) && a <= 0x1fff_ffff && b <= 0x1fff_ffff
    ensures Bounded(Sub(f, g), a + b)
  {
  }

  /** fe_neg. */
  function Neg(f: Fe): (h: Fe)
    requires Addable(f)
    ensures Val(h) == -Val(f)
    ensures forall b :: Bounded(f, b) ==> Bounded(h, b)
  {
    hide Val;
    var h := Fe(-f.v0, -f.v1, -f.v2, -f.v3, -f.v4, -f.v5, -f.v6, -f.v7, -f.v8, -f.v9);
    ValOpposite(f, h);
    h
  }

  lemma ValOpposite(f: Fe, h: Fe)
    requires h == Fe(-f.v0, -f.v1, -f.v2, -f.v3, -f.v4, -f.v5, -f.v6, -f.v7, -f.v8, -f.v9)
    ensures Val(h) == -Val(f)
  {
    ValSum(f);
    ValSum(h);
    hide Val;
  }

  lemma Widen(f: Fe, a: int, b: int)
    requires Bounded(f, a) && a <= b
    ensures Bounded(f, b)
  {
  }

  // -------------------------------------------------------------------------
  // Constant-time selection
  // -------------------------------------------------------------------------

  /** The bits of a 32-bit integer, and back. */
  function U32(x: int32): (u: nat)
    ensures u < 0x1_0000_0000
  {
    var i: int := x;
    if i < 0 then i + 0x1_0000_0000 else i
  }

  function S32(u: nat): (x: int32)
    requires u < 0x1_0000_0000
    ensures U32(x) == u
  {
    if u >= 0x8000_0000 then u - 0x1_0000_0000 else u
  }

  /** -(int) b, as an unsigned mask. */
  function Mask(b: nat): nat
    requires b <= 1
  {
    if b == 1 then 0xffff_ffff else 0
  }

  /** The bits in which one limb of f and g differ, or none. */
  function Picked(f: int32, g: int32, b: nat): (x: nat)
    requires b <= 1
  {
    And(Xor(U32(f), U32(g)), Mask(b))
  }

  function Flip(f: int32, x: nat): int32 {
    var y := Xor(U32(f), x);
    if y < 0x1_0000_0000 then S32(y) else 0
  }

  lemma PickedValue(f: int32, g: int32, b: nat)
    requires b <= 1
    ensures Flip(f, Picked(f, g, b)) == (if b == 1 then g else f)
    ensures Flip(g, Picked(f, g, b)) == (if b == 1 then f else g)
  {
    hide And, Xor;
    var u, v := U32(f), U32(g);
    Pow2Words();
    XorBound(u, v, 32);
    MaskIsMod(Xor(u, v), 32);
    AndZero(Xor(u, v));
    XorCancel(u, v);
    XorCancel(v, u);
    XorComm(u, v);
    XorUnit(u);
    XorUnit(v);
    assert S32(u) == f && S32(v) == g;
  }

  lemma AndZero(a: nat)
    ensures And(a, 0) == 0
  {
  }

  lemma XorUnit(a: nat)
    ensures Xor(a, 0) == a
  {
  }

  /** fe_cmov. */
  function CMov(f: Fe, g: Fe, b: nat): (h: Fe)
    requires Addable(f) && Addable(g) && b <= 1
    ensures h == (if b == 1 then g else f)
  {
    hide Flip, Picked;
    PickedValue(f.v0, g.v0, b);
    PickedValue(f.v1, g.v1, b);
    PickedValue(f.v2, g.v2, b);
    PickedValue(f.v3, g.v3, b);
    PickedValue(f.v4, g.v4, b);
    PickedValue(f.v5, g.v5, b);
    PickedValue(f.v6, g.v6, b);
    PickedValue(f.v7, g.v7, b);
    PickedValue(f.v8, g.v8, b);
    PickedValue(f.v9, g.v9, b);
    Fe(Flip(f.v0, Picked(f.v0, g.v0, b)),
       Flip(f.v1, Picked(f.v1, g.v1, b)),
       Flip(f.v2, Picked(f.v2, g.v2, b)),
       Flip(f.v3, Picked(f.v3, g.v3, b)),
       Flip(f.v4, Picked(f.v4, g.v4, b)),
       Flip(f.v5, Picked(f.v5, g.v5, b)),
       Flip(f.v6, Picked(f.v6, g.v6, b)),
       Flip(f.v7, Picked(f.v7, g.v7, b)),
       Flip(f.v8, Picked(f.v8, g.v8, b)),
       Flip(f.v9, Picked(f.v9, g.v9, b)))
  }

  /** fe_cswap. */
  function CSwap(f: Fe, g: Fe, b: nat): (h: (Fe, Fe))
    requires Addable(f) && Addable(g) && b <= 1
    ensures h == (if b == 1 then (g, f) else (f, g))
  {
    hide Flip, Picked;
    PickedValue(f.v0, g.v0, b);
    PickedValue(f.v1, g.v1, b);
    PickedValue(f.v2, g.v2, b);
    PickedValue(f.v3, g.v3, b);
    PickedValue(f.v4, g.v4, b);
    PickedValue(f.v5, g.v5, b);
    PickedValue(f.v6, g.v6, b);
    PickedValue(f.v7, g.v7, b);
    PickedValue(f.v8, g.v8, b);
    PickedValue(f.v9, g.v9, b);
    (Fe(Flip(f.v0, Picked(f.v0, g.v0, b)),
        Flip(f.v1, Picked(f.v1, g.v1, b)),
        Flip(f.v2, Picked(f.v2, g.v2, b)),
        Flip(f.v3, Picked(f.v3, g.v3, b)),
        Flip(f.v4, Picked(f.v4, g.v4, b)),
        Flip(f.v5, Picked(f.v5, g.v5, b)),
        Flip(f.v6, Picked(f.v6, g.v6, b)),
        Flip(f.v7, Picked(f.v7, g.v7, b)),
        Flip(f.v8, Picked(f.v8, g.v8, b)),
        Flip(f.v9, Picked(f.v9, g.v9, b))),
     Fe(Flip(g.v0, Picked(f.v0, g.v0, b)),
        Flip(g.v1, Picked(f.v1, g.v1, b)),
        Flip(g.v2, Picked(f.v2, g.v2, b)),
        Flip(g.v3, Picked(f.v3, g.v3, b)),
        Flip(g.v4, Picked(f.v4, g.v4, b)),
        Flip(g.v5, Picked(f.v5, g.v5, b)),
        Flip(g.v6, Picked(f.v6, g.v6, b)),
        Flip(g.v7, Picked(f.v7, g.v7, b)),
        Flip(g.v8, Picked(f.v8, g.v8, b)),
        Flip(g.v9, Picked(f.v9, g.v9, b))))
  }

  // -------------------------------------------------------------------------
  // The same operations as calls that carry the bounds of their operands
  // -------------------------------------------------------------------------

  method FeAdd(f: Fe, g: Fe, ghost a: nat, ghost b: nat) returns (h: Fe)
    requires Bounded(f, a) && Bounded(g, b) && a <= 0x1fff_ffff && b <= 0x1fff_ffff
    ensures Bounded(h, a + b) && Val(h) == Val(f) + Val(g)
  {
    AddBound(f, g, a, b);
    h := Add(f, g);
  }

  method FeSub(f: Fe, g: Fe, ghost a: nat, ghost b: nat) returns (h: Fe)
    requires Bounded(f, a) && Bounded(g, b) && a <= 0x1fff_ffff && b <= 0x1fff_ffff
    ensures Bounded(h, a + b) && Val(h) == Val(f) - Val(g)
  {
    SubBound(f, g, a, b);
    h := Sub(f, g);
  }

  method FeMul(f: Fe, g: Fe, ghost a: nat, ghost b: nat) returns (h: Fe)
    requires Bounded(f, a) && Bounded(g, b) && a <= WIDE && b <= WIDE
    ensures Bounded(h, TIGHT) && Cong(Val(h), Val(f) * Val(g), P)
  {
    Widen(f, a, WIDE);
    Widen(g, b, WIDE);
    hide Val, Mul, Cong;
    h := Mul(f, g);
  }

  method FeSq(f: Fe, ghost a: nat) returns (h: Fe)
    requires Bounded(f, a) && a <= WIDE
    ensures Bounded(h, TIGHT) && Cong(Val(h), Val(f) * Val(f), P)
  {
    Widen(f, a, WIDE);
    hide Val, Mul, Sq, Cong;
    h := Sq(f);
  }

  method FeSq2(f: Fe, ghost a: nat) returns (h: Fe)
    requires Bounded(f, a) && a <= WIDE
    ensures Bounded(h, TIGHT) && Cong(Val(h), 2 * (Val(f) * Val(f)), P)
  {
    Widen(f, a, WIDE);
    hide Val, Sq2, Cong;
    h := Sq2(f);
  }

  method FeNeg(f: Fe, ghost a: nat) returns (h: Fe)
    requires Bounded(f, a) && a <= 0x1fff_ffff
    ensures Bounded(h, a) && Val(h) == -Val(f)
  {
    h := Neg(f);
  }

  method FeMul121666(f: Fe, ghost a: nat) returns (h: Fe)
    requires Bounded(f, a) && a <= LOOSE
    ensures Bounded(h, NARROW) && Cong(Val(h), 121666 * Val(f), P)
  {
    Widen(f, a, LOOSE);
    hide Val, Mul121666, Cong;
    h := Mul121666(f);
  }
}
