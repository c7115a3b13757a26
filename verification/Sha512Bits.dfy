/** The logical functions of section 4.1.3 of FIPS 180-4, bit by bit. */
module Sha512Bits {
  import opened Arith
  import opened Bits
  import opened Sha512Spec

  /** Bit i of a number. */
  ghost function Bit(n: nat, i: nat): nat {
    (n / Pow2(i)) % 2
  }

  lemma BitStep(n: nat, i: nat)
    ensures Bit(n, 0) == n % 2 && Bit(n, i + 1) == Bit(n / 2, i) && Bit(0, i) == 0 && Bit(n, i) <= 1
  {
    hide Pow2;
    Pow2Small();
    Pow2Add(1, i);
    DivDiv(n, 2, Pow2(i));
  }

  lemma {:induction false} AndBit(a: nat, b: nat, i: nat)
    ensures Bit(And(a, b), i) == if Bit(a, i) == 1 && Bit(b, i) == 1 then 1 else 0
    decreases i
  {
    hide Bit;
    BitStep(a, i);
    BitStep(b, i);
    if a != 0 && b != 0 {
      var rest := And(a / 2, b / 2);
      assert And(a, b) % 2 == (if a % 2 == 1 && b % 2 == 1 then 1 else 0) && And(a, b) / 2 == rest;
      if i == 0 {
        BitStep(And(a, b), 0);
      } else {
        BitStep(a, i - 1);
        BitStep(b, i - 1);
        BitStep(And(a, b), i - 1);
        AndBit(a / 2, b / 2, i - 1);
      }
    }
  }

  lemma {:induction false} XorBit(a: nat, b: nat, i: nat)
    ensures Bit(Xor(a, b), i) == if Bit(a, i) == Bit(b, i) then 0 else 1
    decreases i
  {
    hide Bit;
    BitStep(a, i);
    BitStep(b, i);
    if a != 0 && b != 0 {
      var rest := Xor(a / 2, b / 2);
      assert Xor(a, b) % 2 == (if a % 2 == b % 2 then 0 else 1) && Xor(a, b) / 2 == rest;
      if i == 0 {
        BitStep(Xor(a, b), 0);
      } else {
        BitStep(a, i - 1);
        BitStep(b, i - 1);
        BitStep(Xor(a, b), i - 1);
        XorBit(a / 2, b / 2, i - 1);
      }
    }
  }

  lemma NotBit(x: word, i: nat)
    requires i < 64
    ensures Bit(Not(x), i) == 1 - Bit(x, i)
  {
    hide Pow2;
    WordSplit(i);
    var n: int := x;
    Complement(n, Pow2(i), Pow2(63 - i));
  }

  lemma WordSplit(i: nat)
    requires i < 64
    ensures Pow2(i) * (2 * Pow2(63 - i)) == 0x1_0000_0000_0000_0000
  {
    Pow2Words();
    Pow2Add(1, 63 - i);
    Pow2Add(i, 64 - i);
    Pow2Add(32, 32);
    Pow2Small();
    hide Pow2;
  }

  lemma Complement(n: int, w: int, v: int)
    requires w > 0 && v > 0 && 0 <= n < w * (2 * v)
    ensures ((w * (2 * v) - 1 - n) / w) % 2 == 1 - (n / w) % 2
  {
    var q, r := n / w, n % w;
    assert n == q * w + r;
    assert w * (2 * v) - 1 - n == (2 * v - 1 - q) * w + (w - 1 - r);
    DivModUnique(w * (2 * v) - 1 - n, w, 2 * v - 1 - q, w - 1 - r);
  }

  /** Rotation to the right moves bit i + n to place i, around the end of the word. */
  lemma RotrBit(x: word, n: nat, i: nat)
    requires 0 < n < 64 && i < 64
    ensures Bit(Rotr(x, n), i) == Bit(x, (i + n) % 64)
  {
    hide Bit, Rotr;
    if i < 64 - n {
      RotrLow(x, n, i);
    } else {
      RotrHigh(x, n, i - (64 - n));
    }
  }

  lemma RotrLow(m: int, n: nat, i: nat)
    requires 0 <= m < 0x1_0000_0000_0000_0000 && 0 < n < 64 && i < 64 - n
    ensures Bit(Rotr(m, n), i) == Bit(m, i + n)
  {
    hide Pow2;
    Pow2Add(i, n);
    Pow2Add(i, 64 - n - i);
    Pow2Small();
    Pow2Add(1, 63 - n - i);
    LowPart(m, Pow2(n), Pow2(i), Pow2(63 - n - i));
  }

  lemma RotrHigh(m: int, n: nat, j: nat)
    requires 0 <= m < 0x1_0000_0000_0000_0000 && j < n < 64
    ensures Bit(Rotr(m, n), j + (64 - n)) == Bit(m, j)
  {
    hide Pow2;
    WordSplit(n);
    Pow2Small();
    Pow2Add(1, 63 - n);
    Pow2Add(64 - n, j);
    Pow2Add(j, n - j);
    Pow2Add(1, n - j - 1);
    HighPart(m, Pow2(n), Pow2(64 - n), Pow2(j), Pow2(n - j - 1));
  }

  lemma LowPart(m: int, a: int, c: int, d: int)
    requires m >= 0 && a > 0 && c > 0 && d > 0
    ensures ((m / a + (m % a) * (c * (2 * d))) / c) % 2 == (m / (c * a)) % 2
  {
    var y, q := (m % a) * d, m / a;
    assert (m % a) * (c * (2 * d)) == (2 * y) * c;
    AddMultiple(q, 2 * y, c);
    DivDiv(m, a, c);
    EvenMore(q / c, y);
  }

  lemma EvenMore(n: int, y: int)
    ensures (n + 2 * y) % 2 == n % 2
  {
  }

  lemma HighPart(m: int, a: int, b: int, c: int, d: int)
    requires m >= 0 && a > 0 && b > 0 && c > 0 && d > 0 && a == c * (2 * d) && m < a * b
    ensures ((m / a + (m % a) * b) / (b * c)) % 2 == (m / c) % 2
  {
    DivBelow(m, a, b);
    WholeAndRest(m, a);
    OverTheTop(m / a, m % a, b, c);
    Dropped(m, m / a, m % a, c, d);
  }

  lemma WholeAndRest(m: int, a: int)
    requires a > 0
    ensures m == (m / a) * a + m % a && 0 <= m % a
  {
  }

  lemma OverTheTop(q: int, r: int, b: int, c: int)
    requires 0 <= q < b && 0 <= r && c > 0
    ensures b * c > 0 && (q + r * b) / (b * c) == r / c
  {
    AddMultiple(q, r, b);
    DivModUnique(q, b, 0, q);
    MulMono(0, r, b);
    DivDiv(q + r * b, b, c);
  }

  lemma Dropped(m: int, q: int, r: int, c: int, d: int)
    requires c > 0 && m == q * (c * (2 * d)) + r
    ensures (m / c) % 2 == (r / c) % 2
  {
    var y := q * d;
    assert q * (c * (2 * d)) == (2 * y) * c;
    AddMultiple(r, 2 * y, c);
    EvenMore(r / c, y);
  }

  lemma DivBelow(m: int, a: int, b: int)
    requires m >= 0 && a > 0 && m < a * b
    ensures 0 <= m / a < b
  {
    if m / a >= b {
      MulMono(b, m / a, a);
    }
  }

  /** Ch chooses, bit by bit. */
  lemma ChBit(x: word, y: word, z: word, i: nat)
    requires i < 64
    ensures Bit(Ch(x, y, z), i) == if Bit(x, i) == 1 then Bit(y, i) else Bit(z, i)
  {
    hide Bit, And, Xor, Not;
    NotBit(x, i);
    BitStep(x, i);
    BitStep(y, i);
    BitStep(z, i);
    AndBit(x, y, i);
    AndBit(Not(x), z, i);
    XorBit(And(x, y), And(Not(x), z), i);
  }

  /** Maj is the majority, bit by bit. */
  lemma MajBit(x: word, y: word, z: word, i: nat)
    ensures Bit(Maj(x, y, z), i) == if Bit(x, i) + Bit(y, i) + Bit(z, i) >= 2 then 1 else 0
  {
    hide Bit, And, Xor;
    BitStep(x, i);
    BitStep(y, i);
    BitStep(z, i);
    AndBit(x, y, i);
    AndBit(x, z, i);
    AndBit(y, z, i);
    XorBit(And(x, y), And(x, z), i);
    XorBit(Xor(And(x, y), And(x, z)), And(y, z), i);
  }

  lemma RotrSum(x: word, a: nat, b: nat, c: nat, i: nat)
    requires 0 < a < 64 && 0 < b < 64 && 0 < c < 64 && i < 64
    ensures Bit(Xor(Xor(Rotr(x, a), Rotr(x, b)), Rotr(x, c)), i)
            == (Bit(x, (i + a) % 64) + Bit(x, (i + b) % 64) + Bit(x, (i + c) % 64)) % 2
  {
    hide Bit, Rotr, Xor;
    RotrBit(x, a, i);
    RotrBit(x, b, i);
    RotrBit(x, c, i);
    ThreeBits(Rotr(x, a), Rotr(x, b), Rotr(x, c), i);
  }

  lemma ShiftSum(x: word, a: nat, b: nat, c: nat, y: nat, i: nat)
    requires 0 < a < 64 && 0 < b < 64 && i < 64 && y == x / Pow2(c)
    ensures Bit(Xor(Xor(Rotr(x, a), Rotr(x, b)), y), i) == (Bit(x, (i + a) % 64) + Bit(x, (i + b) % 64) + Bit(x, i + c)) % 2
  {
    ShiftBit(x, y, c, i);
    hide Bit, Rotr, Xor, Pow2;
    RotrBit(x, a, i);
    RotrBit(x, b, i);
    ThreeBits(Rotr(x, a), Rotr(x, b), y, i);
  }

  lemma ShiftBit(x: nat, y: nat, n: nat, i: nat)
    requires y == x / Pow2(n)
    ensures Bit(y, i) == Bit(x, i + n)
  {
    hide Pow2;
    Pow2Add(n, i);
    DivDiv(x, Pow2(n), Pow2(i));
  }

  lemma ThreeBits(a: nat, b: nat, c: nat, i: nat)
    ensures Bit(Xor(Xor(a, b), c), i) == (Bit(a, i) + Bit(b, i) + Bit(c, i)) % 2
  {
    hide Bit, Xor;
    BitStep(a, i);
    BitStep(b, i);
    BitStep(c, i);
    XorBit(a, b, i);
    XorBit(Xor(a, b), c, i);
  }

  /** Each bit of the sums is the sum modulo 2 of three bits of the word, which the rotations bring there. */
  lemma BigSigmaBits(x: word, i: nat)
    requires i < 64
    ensures Bit(BigSigma0(x), i) == (Bit(x, (i + 28) % 64) + Bit(x, (i + 34) % 64) + Bit(x, (i + 39) % 64)) % 2
    ensures Bit(BigSigma1(x), i) == (Bit(x, (i + 14) % 64) + Bit(x, (i + 18) % 64) + Bit(x, (i + 41) % 64)) % 2
  {
    hide Bit, Rotr, Xor;
    RotrSum(x, 28, 34, 39, i);
    RotrSum(x, 14, 18, 41, i);
  }

  /** In the schedule the third of them comes by a shift, from beyond the end as zero. */
  lemma SmallSigmaBits(x: word, i: nat)
    requires i < 64
    ensures Bit(SmallSigma0(x), i) == (Bit(x, (i + 1) % 64) + Bit(x, (i + 8) % 64) + Bit(x, i + 7)) % 2
    ensures Bit(SmallSigma1(x), i) == (Bit(x, (i + 19) % 64) + Bit(x, (i + 61) % 64) + Bit(x, i + 6)) % 2
  {
    hide Bit, Rotr, Xor, Pow2;
    var n: int := x;
    ShiftSum(x, 1, 8, 7, n / Pow2(7), i);
    ShiftSum(x, 19, 61, 6, n / Pow2(6), i);
  }
}
