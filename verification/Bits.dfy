/** Powers of two, bitwise operations on naturals and the byte view of 32-bit words. */
module Bits {

  type u32 = x: int | 0 <= x < 0x1_0000_0000
  type byte = x: int | 0 <= x < 256

  function Pow2(n: nat): (p: nat)
    ensures p >= 1
  {
    if n == 0 then 1 else 2 * Pow2(n - 1)
  }

  lemma {:induction false} Pow2Add(m: nat, n: nat)
    ensures Pow2(m + n) == Pow2(m) * Pow2(n)
  {
    if m != 0 {
      Pow2Add(m - 1, n);
      assert Pow2(m + n) == 2 * (Pow2(m - 1) * Pow2(n));
    }
  }

  lemma {:induction false} Pow2Monotone(m: nat, n: nat)
    requires m <= n
    ensures Pow2(m) <= Pow2(n)
  {
    if m < n { Pow2Monotone(m, n - 1); }
  }

  /** The bit length used as a logarithm: the largest k with 2^k <= n. */
  function FloorLog2(n: nat): (k: nat)
    requires n >= 1
    ensures Pow2(k) <= n < 2 * Pow2(k)
  {
    if n == 1 then 0 else 1 + FloorLog2(n / 2)
  }

  lemma {:induction false} FloorLog2OfPow2(k: nat)
    ensures FloorLog2(Pow2(k)) == k
  {
    if k != 0 { FloorLog2OfPow2(k - 1); }
  }

  // ---------------------------------------------------------------- bitwise operations

  function And(x: nat, y: nat): (r: nat)
    ensures r <= x && r <= y
  {
    if x == 0 || y == 0 then 0
    else 2 * And(x / 2, y / 2) + (if x % 2 == 1 && y % 2 == 1 then 1 else 0)
  }

  function Or(x: nat, y: nat): (r: nat)
    ensures x <= r && y <= r && r <= x + y
    decreases x + y
  {
    if x == 0 && y == 0 then 0
    else 2 * Or(x / 2, y / 2) + (if x % 2 == 1 || y % 2 == 1 then 1 else 0)
  }

  function Xor(x: nat, y: nat): (r: nat)
    ensures r <= x + y
    decreases x + y
  {
    if x == 0 && y == 0 then 0
    else 2 * Xor(x / 2, y / 2) + (if x % 2 != y % 2 then 1 else 0)
  }

  lemma {:induction false} BitwiseBelow(x: nat, y: nat, k: nat)
    requires x < Pow2(k) && y < Pow2(k)
    ensures Or(x, y) < Pow2(k) && Xor(x, y) < Pow2(k)
  {
    if k != 0 {
      BitwiseBelow(x / 2, y / 2, k - 1);
    }
  }

  lemma Pow2Of32()
    ensures Pow2(32) == 0x1_0000_0000
  {
    assert Pow2(8) == 256;
    Pow2Add(8, 8);
    Pow2Add(16, 16);
  }

  function Or32(x: u32, y: u32): u32
  {
    Pow2Of32();
    BitwiseBelow(x, y, 32);
    Or(x, y)
  }

  function Xor32(x: u32, y: u32): u32
  {
    Pow2Of32();
    BitwiseBelow(x, y, 32);
    Xor(x, y)
  }

  lemma {:induction false} AndStep(x: nat, y: nat)
    ensures And(x, y) == 2 * And(x / 2, y / 2) + (if x % 2 == 1 && y % 2 == 1 then 1 else 0)
  {
  }

  lemma {:induction false} OrStep(x: nat, y: nat)
    ensures Or(x, y) == 2 * Or(x / 2, y / 2) + (if x % 2 == 1 || y % 2 == 1 then 1 else 0)
  {
  }

  lemma {:induction false} XorStep(x: nat, y: nat)
    ensures Xor(x, y) == 2 * Xor(x / 2, y / 2) + (if x % 2 != y % 2 then 1 else 0)
  {
  }

  /** A mask of k ones keeps the remainder modulo 2^k. */
  lemma {:induction false} AndLowMask(x: nat, k: nat)
    ensures And(x, Pow2(k) - 1) == x % Pow2(k)
  {
    hide And;
    if k == 0 {
      NoMask(x);
    } else {
      var h := Pow2(k - 1);
      AndLowMask(x / 2, k - 1);
      OnesStep(x, h);
      ModDouble(x, h);
    }
  }

  lemma NoMask(x: nat)
    ensures And(x, 0) == 0
  {
  }

  /** A mask with one more low bit. */
  lemma OnesStep(x: nat, h: nat)
    requires h > 0
    ensures And(x, 2 * h - 1) == 2 * And(x / 2, h - 1) + x % 2
  {
    hide And;
    AndStep(x, 2 * h - 1);
    assert (2 * h - 1) / 2 == h - 1;
  }

  lemma ModDouble(x: nat, h: nat)
    requires h > 0
    ensures x % (2 * h) == 2 * ((x / 2) % h) + x % 2
  {
    var q := (x / 2) / h;
    var r := (x / 2) % h;
    assert x / 2 == q * h + r;
    assert x == q * (2 * h) + (2 * r + x % 2);
    DivModUnique(x, 2 * h, q, 2 * r + x % 2);
  }

  lemma MulGrows(m: int, d: int)
    requires d > 0
    ensures m >= 1 ==> m * d >= d
    ensures m <= -1 ==> m * d <= -d
  {
    assert m >= 1 ==> (m - 1) * d >= 0;
    assert m <= -1 ==> (-m - 1) * d >= 0;
  }

  lemma MulSub(p: int, q: int, d: int)
    ensures (p - q) * d == p * d - q * d
  {
  }

  lemma DivModUnique(x: int, d: int, q: int, r: int)
    requires d > 0 && x == q * d + r && 0 <= r < d
    ensures x / d == q && x % d == r
  {
    var p := x / d;
    MulSub(p, q, d);
    MulGrows(p - q, d);
  }

  lemma MulAssoc(a: int, b: int, c: int)
    ensures (a * b) * c == a * (b * c)
  {
  }

  lemma MulCommutes(x: int, y: int)
    ensures x * y == y * x
  {
  }

  lemma QuotientTimes(a: nat, b: nat)
    requires b > 0
    ensures b * (a / b) + a % b == a && b * (a / b) <= a
  {
    MulCommutes(a / b, b);
  }

  lemma FactorIsBelow(b: nat, q: nat, a: nat)
    requires b > 0 && b * q <= a
    ensures q <= a
  {
    MulSub(b, 1, q);
    assert (b - 1) * q >= 0;
  }

  /** A remainder of a remainder stays below the product of the divisors. */
  lemma NestedRemainder(r1: nat, r2: nat, a: nat, b: nat)
    requires r1 < a && r2 < b
    ensures r2 * a + r1 < a * b
  {
    MulSub(b, r2, a);
    MulGrows(b - r2, a);
  }

  lemma NestedQuotient(q: int, r2: int, r1: int, a: int, b: int)
    ensures (q * b + r2) * a + r1 == q * (a * b) + (r2 * a + r1)
  {
    MulSub(q * b, -r2, a);
    MulAssoc(q, b, a);
  }

  /** Division by a product is two divisions. */
  lemma DivDiv(x: nat, a: nat, b: nat)
    requires a > 0 && b > 0
    ensures a * b > 0 && x / (a * b) == (x / a) / b
  {
    var y, r1 := x / a, x % a;
    var q, r2 := y / b, y % b;
    NestedRemainder(r1, r2, a, b);
    NestedQuotient(q, r2, r1, a, b);
    MulGrows(b, a);
    DivModUnique(x, a * b, q, r2 * a + r1);
  }

  // ---------------------------------------------------------------- shifts

  function Shl(x: nat, s: nat): nat
  {
    if s == 0 then x else 2 * Shl(x, s - 1)
  }

  function Shr(x: nat, s: nat): nat
  {
    if s == 0 then x else Shr(x / 2, s - 1)
  }

  lemma {:induction false} ShlIsProduct(x: nat, s: nat)
    ensures Shl(x, s) == x * Pow2(s)
  {
    if s != 0 {
      ShlIsProduct(x, s - 1);
      TwiceProduct(x, Pow2(s - 1));
    }
  }

  lemma {:induction false} ShrIsQuotient(x: nat, s: nat)
    ensures Shr(x, s) == x / Pow2(s)
  {
    if s != 0 {
      ShrIsQuotient(x / 2, s - 1);
      DivDiv(x, 2, Pow2(s - 1));
    }
  }

  lemma TwiceProduct(m: int, h: int)
    ensures m * (2 * h) == 2 * (m * h)
  {
  }

  /** A shifted mask selects bits: shift, mask, shift back. */
  lemma {:induction false} AndShiftedMask(x: nat, m: nat, s: nat)
    ensures And(x, Shl(m, s)) == Shl(And(Shr(x, s), m), s)
  {
    if s != 0 {
      AndStep(x, Shl(m, s));
      AndShiftedMask(x / 2, m, s - 1);
    }
  }

  lemma {:induction false} ShrShl(x: nat, s: nat)
    ensures Shr(Shl(x, s), s) == x
  {
    if s != 0 { ShrShl(x, s - 1); }
  }

  // ---------------------------------------------------------------- the bytes of a word

  function Byte0(w: nat): byte { w % 256 }
  function Byte1(w: nat): byte { w / 256 % 256 }
  function Byte2(w: nat): byte { w / 65536 % 256 }
  function Byte3(w: nat): byte { w / 16777216 % 256 }

  function Word(b0: byte, b1: byte, b2: byte, b3: byte): (w: u32)
  {
    b0 + 256 * b1 + 65536 * b2 + 16777216 * b3
  }

  lemma WordOfBytes(w: u32)
    ensures w == Word(Byte0(w), Byte1(w), Byte2(w), Byte3(w))
  {
    var x := w / 256;
    var y := x / 256;
    var z := y / 256;
    DivModUnique(w, 65536, y, 256 * (x % 256) + w % 256);
    DivModUnique(w, 16777216, z, 65536 * (y % 256) + 256 * (x % 256) + w % 256);
    DivModUnique(z, 256, 0, z);
  }

  lemma BytesOfWord(b0: byte, b1: byte, b2: byte, b3: byte)
    ensures var w := Word(b0, b1, b2, b3);
            Byte0(w) == b0 && Byte1(w) == b1 && Byte2(w) == b2 && Byte3(w) == b3
  {
    var w := Word(b0, b1, b2, b3);
    DivModUnique(w, 256, b1 + 256 * b2 + 65536 * b3, b0);
    DivModUnique(w, 65536, b2 + 256 * b3, b0 + 256 * b1);
    DivModUnique(w, 16777216, b3, b0 + 256 * b1 + 65536 * b2);
    DivModUnique(w / 256, 256, b2 + 256 * b3, b1);
    DivModUnique(w / 65536, 256, b3, b2);
  }
}
