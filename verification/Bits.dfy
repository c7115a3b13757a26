/** Bit operations on unsigned words, and little-endian byte strings. */
module Bits {
  import opened Arith

  type byte = x: int | 0 <= x < 256
  type int8 = x: int | -128 <= x <= 127
  type int32 = x: int | -0x8000_0000 <= x <= 0x7fff_ffff
  type int64 = x: int | -0x8000_0000_0000_0000 <= x <= 0x7fff_ffff_ffff_ffff

  function And(a: nat, b: nat): (r: nat) {
    if a == 0 || b == 0 then 0 else (if a % 2 == 1 && b % 2 == 1 then 1 else 0) + 2 * And(a / 2, b / 2)
  }

  function Or(a: nat, b: nat): (r: nat)
    decreases a + b
  {
    if a == 0 then b else if b == 0 then a
    else (if a % 2 == 1 || b % 2 == 1 then 1 else 0) + 2 * Or(a / 2, b / 2)
  }

  function Xor(a: nat, b: nat): (r: nat)
    decreases a + b
  {
    if a == 0 then b else if b == 0 then a
    else (if a % 2 != b % 2 then 1 else 0) + 2 * Xor(a / 2, b / 2)
  }

  /** Arithmetic shift right, of negative numbers too: division by a power of two, rounded down. */
  function Shr(x: int, k: nat): (r: int)
    ensures x >= 0 ==> r >= 0
  {
    hide Pow2;
    x / Pow2(k)
  }

  function Shl(x: int, k: nat): int {
    x * Pow2(k)
  }

  lemma {:induction false} MaskIsMod(x: nat, k: nat)
    ensures And(x, Pow2(k) - 1) == And(Pow2(k) - 1, x) == x % Pow2(k)
  {
    if k == 0 {
    } else if x == 0 {
    } else {
      MaskIsMod(x / 2, k - 1);
      ModDiv(x, 2, Pow2(k - 1));
      ModMod(x, 2, Pow2(k - 1));
      var y := x % Pow2(k);
      assert y / 2 == (x / 2) % Pow2(k - 1) && y % 2 == x % 2;
      assert (Pow2(k) - 1) % 2 == 1 && (Pow2(k) - 1) / 2 == Pow2(k - 1) - 1;
    }
  }

  lemma {:induction false} OrIsSum(a: nat, b: nat, k: nat)
    requires a < Pow2(k)
    ensures Shl(b, k) >= 0 && Or(a, Shl(b, k)) == a + Shl(b, k)
  {
    if k == 0 || a == 0 || b == 0 {
    } else {
      ShlStep(b, k);
      OrIsSum(a / 2, b, k - 1);
      hide Pow2, Shl;
      OrStep(a, Shl(b, k));
    }
  }

  lemma ShlStep(b: nat, k: nat)
    requires k >= 1
    ensures 0 <= Shl(b, k - 1) && Shl(b, k) == 2 * Shl(b, k - 1)
  {
  }

  lemma OrStep(a: nat, c: nat)
    requires a != 0 && c != 0 && c % 2 == 0
    ensures Or(a, c) == a % 2 + 2 * Or(a / 2, c / 2)
  {
  }

  lemma {:induction false} XorIsSum(a: nat, b: nat, k: nat)
    requires a < Pow2(k)
    ensures Shl(b, k) >= 0 && Xor(a, Shl(b, k)) == a + Shl(b, k)
  {
    if k == 0 || a == 0 || b == 0 {
    } else {
      ShlStep(b, k);
      XorIsSum(a / 2, b, k - 1);
      hide Pow2, Shl;
      XorStep(a, Shl(b, k));
    }
  }

  lemma XorStep(a: nat, c: nat)
    requires a != 0 && c != 0 && c % 2 == 0
    ensures Xor(a, c) == a % 2 + 2 * Xor(a / 2, c / 2)
  {
  }

  lemma {:induction false} OrComm(a: nat, b: nat)
    ensures Or(a, b) == Or(b, a)
    decreases a + b
  {
    if a != 0 && b != 0 {
      OrComm(a / 2, b / 2);
    }
  }

  lemma {:induction false} OrBound(a: nat, b: nat, k: nat)
    requires a < Pow2(k) && b < Pow2(k)
    ensures Or(a, b) < Pow2(k)
    decreases k
  {
    if a != 0 && b != 0 {
      OrBound(a / 2, b / 2, k - 1);
    }
  }

  lemma {:induction false} XorBound(a: nat, b: nat, k: nat)
    requires a < Pow2(k) && b < Pow2(k)
    ensures Xor(a, b) < Pow2(k)
    decreases k
  {
    if a != 0 && b != 0 {
      XorBound(a / 2, b / 2, k - 1);
    }
  }

  lemma {:induction false} XorComm(a: nat, b: nat)
    ensures Xor(a, b) == Xor(b, a)
    decreases a + b
  {
    if a != 0 && b != 0 {
      XorComm(a / 2, b / 2);
    }
  }

  lemma {:induction false} XorSelf(a: nat)
    ensures Xor(a, a) == 0
  {
    if a != 0 {
      XorSelf(a / 2);
    }
  }

  lemma {:induction false} XorCancel(a: nat, b: nat)
    ensures Xor(a, Xor(a, b)) == b
    decreases a + b
  {
    if a == 0 {
    } else if b == 0 {
      XorSelf(a);
    } else {
      XorCancel(a / 2, b / 2);
      var c := Xor(a, b);
      assert c / 2 == Xor(a / 2, b / 2);
      assert c % 2 == (if a % 2 != b % 2 then 1 else 0);
      if c == 0 {
        assert Xor(a / 2, b / 2) == 0;
        assert Xor(a / 2, 0) == a / 2;
      }
    }
  }

  lemma {:induction false} XorZero(a: nat, b: nat)
    ensures Xor(a, b) == 0 <==> a == b
    decreases a + b
  {
    if a != 0 && b != 0 {
      XorZero(a / 2, b / 2);
    }
  }

  lemma {:induction false} OrZero(a: nat, b: nat)
    ensures Or(a, b) == 0 <==> a == 0 && b == 0
    decreases a + b
  {
    if a != 0 && b != 0 {
      OrZero(a / 2, b / 2);
    }
  }

  // -------------------------------------------------------------------------
  // Little-endian byte strings
  // -------------------------------------------------------------------------

  /** b[0] + 256 b[1] + 256^2 b[2] + ... */
  function LE(b: seq<byte>): (n: nat) {
    if |b| == 0 then 0 else b[0] + 256 * LE(b[1..])
  }

  function Zeros(n: nat): (z: seq<byte>)
    ensures |z| == n
  {
    seq(n, i => 0)
  }

  /** The w-bit field of n that starts at bit p. */
  function Field(n: int, p: nat, w: nat): int {
    (n / Pow2(p)) % Pow2(w)
  }

  lemma FieldOfField(n: nat, p: nat, w: nat, q: nat, v: nat)
    requires q + v <= w
    ensures (Field(n, p, w) / Pow2(q)) % Pow2(v) == Field(n, p + q, v)
  {
    var x := n / Pow2(p);
    var d := w - q;
    Pow2Add(q, d);
    ModDiv(x, Pow2(q), Pow2(d));
    assert (x % Pow2(w)) / Pow2(q) == (x / Pow2(q)) % Pow2(d);
    Pow2Add(v, d - v);
    ModMod(x / Pow2(q), Pow2(v), Pow2(d - v));
    DivDiv(n, Pow2(p), Pow2(q));
    Pow2Add(p, q);
  }

  lemma {:induction false} LEDrop(b: seq<byte>, k: nat)
    requires k <= |b|
    ensures LE(b[k..]) == LE(b) / Pow2(8 * k)
  {
    if k == 0 {
      assert b[0..] == b;
    } else {
      LEDrop(b[1..], k - 1);
      assert b[1..][k - 1..] == b[k..];
      assert LE(b) / 256 == LE(b[1..]);
      assert Pow2(8) == 256;
      Pow2Add(8, 8 * (k - 1));
      DivDiv(LE(b), 256, Pow2(8 * (k - 1)));
    }
  }

  lemma {:induction false} LEPrefix(b: seq<byte>, k: nat)
    requires k <= |b|
    ensures LE(b[..k]) == LE(b) % Pow2(8 * k)
  {
    if k == 0 {
    } else {
      LEPrefix(b[1..], k - 1);
      assert b[..k][1..] == b[1..][..k - 1];
      var n := LE(b);
      Pow2Add(8, 8 * (k - 1));
      assert Pow2(8) == 256;
      ModDiv(n, 256, Pow2(8 * (k - 1)));
      ModMod(n, 256, Pow2(8 * (k - 1)));
      assert n / 256 == LE(b[1..]) && n % 256 == b[0];
      var m := n % Pow2(8 * k);
      assert m == m % 256 + 256 * (m / 256);
    }
  }

  lemma {:induction false} LESnoc(a: seq<byte>, n: nat)
    requires n < |a|
    ensures LE(a[..n + 1]) == LE(a[..n]) + a[n] * Pow2(8 * n)
  {
    if n == 0 {
      assert a[..1][1..] == [];
    } else {
      LESnoc(a[1..], n - 1);
      assert a[..n + 1][1..] == a[1..][..n] && a[..n][1..] == a[1..][..n - 1];
      Pow2Add(8, 8 * (n - 1));
      Pow2Small();
      assert 256 * (a[n] * Pow2(8 * (n - 1))) == a[n] * (256 * Pow2(8 * (n - 1)));
    }
  }

  lemma {:induction false} LEBound(b: seq<byte>)
    ensures LE(b) < Pow2(8 * |b|)
  {
    if |b| != 0 {
      LEBound(b[1..]);
      assert Pow2(8) == 256;
      Pow2Add(8, 8 * |b[1..]|);
    }
  }

  lemma {:induction false} LEInjective(a: seq<byte>, b: seq<byte>)
    requires |a| == |b| && LE(a) == LE(b)
    ensures a == b
  {
    if |a| != 0 {
      LEInjective(a[1..], b[1..]);
      assert a == [a[0]] + a[1..] && b == [b[0]] + b[1..];
    }
  }

  /** A string whose k-th byte is the k-th base-256 digit of n represents n modulo 256^len. */
  lemma {:induction false} LEOfDigits(b: seq<byte>, n: nat)
    requires forall k :: 0 <= k < |b| ==> b[k] == Field(n, 8 * k, 8)
    ensures LE(b) == n % Pow2(8 * |b|)
  {
    if |b| == 0 {
    } else {
      assert Pow2(8) == 256;
      forall k | 0 <= k < |b[1..]|
        ensures b[1..][k] == Field(n / 256, 8 * k, 8)
      {
        DivDiv(n, 256, Pow2(8 * k));
        Pow2Add(8, 8 * k);
        assert b[1..][k] == b[k + 1];
      }
      LEOfDigits(b[1..], n / 256);
      Pow2Add(8, 8 * |b[1..]|);
      ModDiv(n, 256, Pow2(8 * |b[1..]|));
      ModMod(n, 256, Pow2(8 * |b[1..]|));
      assert b[0] == Field(n, 0, 8) == n % 256;
      var m := n % Pow2(8 * |b|);
      assert m == m % 256 + 256 * (m / 256);
    }
  }

  // -------------------------------------------------------------------------
  // load_3 and load_4
  // -------------------------------------------------------------------------

  function Load3(b: seq<byte>, p: nat): (r: nat)
    requires p + 3 <= |b|
  {
    var x: nat, y: nat, z: nat := b[p], b[p + 1], b[p + 2];
    Or(Or(x, Shl(y, 8)), Shl(z, 16))
  }

  function Load4(b: seq<byte>, p: nat): (r: nat)
    requires p + 4 <= |b|
  {
    var x: nat, y: nat, z: nat, w: nat := b[p], b[p + 1], b[p + 2], b[p + 3];
    Or(Or(Or(x, Shl(y, 8)), Shl(z, 16)), Shl(w, 24))
  }

  function Word(x: nat, y: nat, z: nat, w: nat): (r: nat) {
    x + 256 * y + 65536 * z + 16777216 * w
  }

  lemma LEShort(x: byte, y: byte, z: byte, w: byte)
    ensures LE([x, y, z]) == Word(x, y, z, 0)
    ensures LE([x, y, z, w]) == Word(x, y, z, w)
  {
    assert [x, y, z, w][1..] == [y, z, w] && [y, z, w][1..] == [z, w] && [z, w][1..] == [w];
    assert [x, y, z][1..] == [y, z] && [y, z][1..] == [z];
    assert LE([w]) == w && LE([z]) == z && LE([z, w]) == Word(z, w, 0, 0);
    assert LE([y, z, w]) == Word(y, z, w, 0) && LE([y, z]) == Word(y, z, 0, 0);
  }

  lemma OrWord(x: byte, y: byte, z: byte, w: byte)
    ensures Or(Or(x, Shl(y, 8)), Shl(z, 16)) == Word(x, y, z, 0)
    ensures Or(Or(Or(x, Shl(y, 8)), Shl(z, 16)), Shl(w, 24)) == Word(x, y, z, w)
  {
    Pow2Small();
    Pow2Words();
    hide Pow2, Or;
    Pow2Add(16, 8);
    OrIsSum(x, y, 8);
    OrIsSum(Word(x, y, 0, 0), z, 16);
    OrIsSum(Word(x, y, z, 0), w, 24);
  }

  lemma Load3Field(b: seq<byte>, p: nat)
    requires p + 3 <= |b|
    ensures Load3(b, p) == Field(LE(b), 8 * p, 24) == Word(b[p], b[p + 1], b[p + 2], 0)
  {
    hide Pow2, Or, LE;
    LEDrop(b, p);
    LEPrefix(b[p..], 3);
    assert b[p..][..3] == [b[p], b[p + 1], b[p + 2]];
    LEShort(b[p], b[p + 1], b[p + 2], 0);
    OrWord(b[p], b[p + 1], b[p + 2], 0);
  }

  lemma Load4Field(b: seq<byte>, p: nat)
    requires p + 4 <= |b|
    ensures Load4(b, p) == Field(LE(b), 8 * p, 32) == Word(b[p], b[p + 1], b[p + 2], b[p + 3])
  {
    hide Pow2, Or, LE;
    LEDrop(b, p);
    LEPrefix(b[p..], 4);
    assert b[p..][..4] == [b[p], b[p + 1], b[p + 2], b[p + 3]];
    LEShort(b[p], b[p + 1], b[p + 2], b[p + 3]);
    OrWord(b[p], b[p + 1], b[p + 2], b[p + 3]);
  }

  // -------------------------------------------------------------------------
  // Single bits and byte masks
  // -------------------------------------------------------------------------

  lemma BitValue(a: seq<byte>, i: nat)
    requires i < 8 * |a|
    ensures Shr(a[i / 8], i % 8) >= 0
    ensures And(Shr(a[i / 8], i % 8), 1) == And(1, Shr(a[i / 8], i % 8)) == Field(LE(a), i, 1)
    ensures 0 <= Field(LE(a), i, 1) <= 1
  {
    hide LE, Pow2, And;
    Pow2Small();
    MaskIsMod(Shr(a[i / 8], i % 8), 1);
    ByteField(a, i / 8);
    FieldOfField(LE(a), 8 * (i / 8), 8, i % 8, 1);
  }

  lemma ByteField(a: seq<byte>, k: nat)
    requires k < |a|
    ensures a[k] == Field(LE(a), 8 * k, 8)
  {
    LEDrop(a, k);
    hide Pow2;
    Pow2Small();
    assert LE(a[k..]) % 256 == a[k];
  }

  lemma AndEven(a: nat, b: nat)
    ensures And(a, 2 * b) == 2 * And(a / 2, b)
  {
  }

  /** The low three bits cleared. */
  function ClearLow(x: byte): (r: byte)
    ensures r == x - x % 8
  {
    ClearLowValue(x);
    And(x, 248)
  }

  lemma ClearLowValue(x: nat)
    requires x < 256
    ensures And(x, 248) == x - x % 8
  {
    Pow2Small();
    hide And, Pow2;
    AndEven(x, 124);
    AndEven(x / 2, 62);
    AndEven(x / 4, 31);
    MaskIsMod(x / 8, 5);
  }

  /** The top bit cleared and the next one set. */
  function SetTop(x: byte): (r: byte)
    ensures r == x % 64 + 64
  {
    SetTopValue(x);
    Or(And(x, 63), 64)
  }

  lemma SetTopValue(x: nat)
    ensures Or(And(x, 63), 64) == x % 64 + 64
  {
    Pow2Small();
    hide And, Or, Pow2;
    MaskIsMod(x, 6);
    OrIsSum(x % 64, 1, 6);
  }

  lemma TopBits(x: nat)
    requires x < 256
    ensures And(x, 224) == 0 <==> x < 32
  {
    Pow2Small();
    hide And, Pow2;
    AndEven(x, 112);
    AndEven(x / 2, 56);
    AndEven(x / 4, 28);
    AndEven(x / 8, 14);
    AndEven(x / 16, 7);
    MaskIsMod(x / 32, 3);
  }

  /** The cast to unsigned char. */
  function Byte(x: nat): byte {
    x % 256
  }

  lemma ShrBound(x: nat, r: nat, w: nat)
    requires x < Pow2(r + w)
    ensures 0 <= Shr(x, r) < Pow2(w)
  {
    hide Pow2;
    Pow2Add(r, w);
    if Shr(x, r) >= Pow2(w) {
      MulMono(Pow2(w), Shr(x, r), Pow2(r));
    }
  }

  /** Eight bits at position r of a number in limbs of w, v and more bits come from the first two limbs. */
  lemma ShiftedLimbs(a: int, b: int, x: int, r: nat, w: nat, v: nat)
    requires r < w && v >= 8
    ensures ((a + Pow2(w) * (b + Pow2(v) * x)) / Pow2(r)) % 256 == (Shr(a, r) + b * Pow2(w - r)) % 256
  {
    Pow2Small();
    hide Pow2;
    Pow2Add(r, w - r);
    Pow2Add(v - 8, 8);
    var m := Pow2(w - r);
    var y := b + Pow2(v) * x;
    assert Pow2(w) * y == (m * y) * Pow2(r) by {
      assert (Pow2(r) * m) * y == (m * y) * Pow2(r);
    }
    DivModUnique(a + (m * y) * Pow2(r), Pow2(r), a / Pow2(r) + m * y, a % Pow2(r));
    var z := m * x * Pow2(v - 8);
    assert m * y == b * m + z * 256 by {
      assert m * (Pow2(v) * x) == m * ((Pow2(v - 8) * 256) * x);
      assert m * ((Pow2(v - 8) * 256) * x) == z * 256;
    }
    var c := Shr(a, r) + b * m;
    DivModUnique(c + z * 256, 256, c / 256 + z, c % 256);
  }
}
