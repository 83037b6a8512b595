/** Bitwise operations seen digit by digit: on nibbles and on bytes of a word. */
module WordBits {
  import opened Bits

  lemma {:induction false} AndCommutes(x: nat, y: nat)
    ensures And(x, y) == And(y, x)
  {
    if x != 0 && y != 0 { AndCommutes(x / 2, y / 2); }
  }

  lemma {:induction false} OrCommutes(x: nat, y: nat)
    ensures Or(x, y) == Or(y, x)
    decreases x + y
  {
    if x != 0 || y != 0 { OrCommutes(x / 2, y / 2); }
  }

  lemma HalfOf(s: nat, b: nat)
    ensures (2 * s + b) / 2 == s + b / 2 && (2 * s + b) % 2 == b % 2
  {
  }

  /** AND of numbers split at bit `k` works on the two parts. */
  lemma {:induction false} AndSplitAtBit(a: nat, b: nat, c: nat, d: nat, k: nat)
    requires b < Pow2(k) && d < Pow2(k)
    ensures And(Shl(a, k) + b, Shl(c, k) + d) == Shl(And(a, c), k) + And(b, d)
  {
    hide And;
    if k > 0 {
      AndSplitAtBit(a, b / 2, c, d / 2, k - 1);
      AndHalves(Shl(a, k - 1), b, Shl(c, k - 1), d);
    } else {
      AndOfZero();
    }
  }

  lemma AndHalves(s: nat, b: nat, t: nat, d: nat)
    ensures And(2 * s + b, 2 * t + d) == 2 * And(s + b / 2, t + d / 2) + And(b, d) - 2 * And(b / 2, d / 2)
  {
    hide And;
    HalfOf(s, b);
    HalfOf(t, d);
    AndStep(b, d);
    AndStep(2 * s + b, 2 * t + d);
  }

  /** OR of numbers split at bit `k` works on the two parts. */
  lemma {:induction false} OrSplitAtBit(a: nat, b: nat, c: nat, d: nat, k: nat)
    requires b < Pow2(k) && d < Pow2(k)
    ensures Or(Shl(a, k) + b, Shl(c, k) + d) == Shl(Or(a, c), k) + Or(b, d)
  {
    hide Or;
    if k > 0 {
      OrSplitAtBit(a, b / 2, c, d / 2, k - 1);
      OrHalves(Shl(a, k - 1), b, Shl(c, k - 1), d);
    } else {
      AndOfZero();
    }
  }

  lemma OrHalves(s: nat, b: nat, t: nat, d: nat)
    ensures Or(2 * s + b, 2 * t + d) == 2 * Or(s + b / 2, t + d / 2) + Or(b, d) - 2 * Or(b / 2, d / 2)
  {
    hide Or;
    HalfOf(s, b);
    HalfOf(t, d);
    OrStep(b, d);
    OrStep(2 * s + b, 2 * t + d);
  }

  lemma AndOfZero()
    ensures And(0, 0) == 0 && Or(0, 0) == 0
  {
  }

  lemma ShlOf4(x: nat)
    ensures Shl(x, 4) == 16 * x && Pow2(4) == 16
  {
    ShlIsProduct(x, 4);
  }

  lemma Pow2Of8()
    ensures Pow2(8) == 256
  {
    assert Pow2(4) == 16;
    Pow2Add(4, 4);
  }

  lemma ShlOf8(x: nat)
    ensures Shl(x, 8) == 256 * x
  {
    hide Shl, Pow2;
    Pow2Of8();
    ShlIsProduct(x, 8);
  }

  lemma SplitAtNibble(a: nat, b: nat, c: nat, d: nat)
    requires b < 16 && d < 16
    ensures And(16 * a + b, 16 * c + d) == 16 * And(a, c) + And(b, d)
    ensures Or(16 * a + b, 16 * c + d) == 16 * Or(a, c) + Or(b, d)
  {
    hide And, Or, Shl, Pow2;
    ShlOf4(a); ShlOf4(c); ShlOf4(And(a, c)); ShlOf4(Or(a, c));
    AndSplitAtBit(a, b, c, d, 4);
    OrSplitAtBit(a, b, c, d, 4);
  }

  lemma AndSplitAtByte(a: nat, b: byte, c: nat, d: byte)
    ensures And(b + 256 * a, d + 256 * c) == And(b, d) + 256 * And(a, c)
  {
    hide And, Shl, Pow2;
    Pow2Of8();
    ShlOf8(a); ShlOf8(c); ShlOf8(And(a, c));
    AndSplitAtBit(a, b, c, d, 8);
  }

  lemma OrSplitAtByte(a: nat, b: byte, c: nat, d: byte)
    ensures Or(b + 256 * a, d + 256 * c) == Or(b, d) + 256 * Or(a, c)
  {
    hide Or, Shl, Pow2;
    Pow2Of8();
    ShlOf8(a); ShlOf8(c); ShlOf8(Or(a, c));
    OrSplitAtBit(a, b, c, d, 8);
  }

  lemma OrOfBytes(x: byte, y: byte)
    ensures Or(x, y) < 256
  {
    hide Or, Pow2;
    Pow2Of8();
    BitwiseBelow(x, y, 8);
  }

  lemma AndOfBytes(x: byte, y: byte)
    ensures And(x, y) < 256
  {
  }

  lemma WordNests(b0: byte, b1: byte, b2: byte, b3: byte)
    ensures Word(b0, b1, b2, b3) == b0 + 256 * (b1 + 256 * (b2 + 256 * b3))
  {
  }

  /** Word-wide AND works byte by byte. */
  lemma AndBytes(a0: byte, a1: byte, a2: byte, a3: byte, b0: byte, b1: byte, b2: byte, b3: byte)
    ensures And(a0, b0) < 256 && And(a1, b1) < 256 && And(a2, b2) < 256 && And(a3, b3) < 256
    ensures And(Word(a0, a1, a2, a3), Word(b0, b1, b2, b3)) == Word(And(a0, b0), And(a1, b1), And(a2, b2), And(a3, b3))
  {
    hide And, Word;
    AndOfBytes(a0, b0); AndOfBytes(a1, b1); AndOfBytes(a2, b2); AndOfBytes(a3, b3);
    WordNests(a0, a1, a2, a3);
    WordNests(b0, b1, b2, b3);
    WordNests(And(a0, b0), And(a1, b1), And(a2, b2), And(a3, b3));
    var x2, y2 := a2 + 256 * a3, b2 + 256 * b3;
    var x1, y1 := a1 + 256 * x2, b1 + 256 * y2;
    AndSplitAtByte(a3, a2, b3, b2);
    AndSplitAtByte(x2, a1, y2, b1);
    AndSplitAtByte(x1, a0, y1, b0);
    assert And(x1, y1) == And(a1, b1) + 256 * (And(a2, b2) + 256 * And(a3, b3));
  }

  /** Word-wide OR works byte by byte. */
  lemma OrBytes(a0: byte, a1: byte, a2: byte, a3: byte, b0: byte, b1: byte, b2: byte, b3: byte)
    ensures Or(a0, b0) < 256 && Or(a1, b1) < 256 && Or(a2, b2) < 256 && Or(a3, b3) < 256
    ensures Or(Word(a0, a1, a2, a3), Word(b0, b1, b2, b3)) == Word(Or(a0, b0), Or(a1, b1), Or(a2, b2), Or(a3, b3))
  {
    hide Or, Word;
    OrOfBytes(a0, b0); OrOfBytes(a1, b1); OrOfBytes(a2, b2); OrOfBytes(a3, b3);
    WordNests(a0, a1, a2, a3);
    WordNests(b0, b1, b2, b3);
    WordNests(Or(a0, b0), Or(a1, b1), Or(a2, b2), Or(a3, b3));
    OrSplitAtByte(a3, a2, b3, b2);
    OrSplitAtByte(a2 + 256 * a3, a1, b2 + 256 * b3, b1);
    OrSplitAtByte(a1 + 256 * (a2 + 256 * a3), a0, b1 + 256 * (b2 + 256 * b3), b0);
  }

  lemma AndFull(b: byte)
    ensures And(255, b) == b && And(0, b) == 0
  {
    hide Pow2;
    Pow2Of8();
    AndLowMask(b, 8);
    AndCommutes(255, b);
  }

  lemma {:induction false} OrZero(x: nat)
    ensures Or(x, 0) == x && Or(0, x) == x
  {
    if x != 0 { OrZero(x / 2); }
  }

  /** A byte selected by a mask byte. */
  function Kept(keep: bool, b: byte): byte
  {
    if keep then b else 0
  }

  function MaskOf(k0: bool, k1: bool, k2: bool, k3: bool): u32
  {
    (if k0 then 0x0000_00FF else 0) + (if k1 then 0x0000_FF00 else 0)
    + (if k2 then 0x00FF_0000 else 0) + (if k3 then 0xFF00_0000 else 0)
  }

  lemma MaskOfBytes(k0: bool, k1: bool, k2: bool, k3: bool)
    ensures MaskOf(k0, k1, k2, k3) == Word(Kept(k0, 255), Kept(k1, 255), Kept(k2, 255), Kept(k3, 255))
  {
  }

  /** A mask of whole bytes keeps or clears each byte. */
  lemma MaskBytes(k0: bool, k1: bool, k2: bool, k3: bool, b0: byte, b1: byte, b2: byte, b3: byte)
    ensures And(MaskOf(k0, k1, k2, k3), Word(b0, b1, b2, b3))
            == Word(Kept(k0, b0), Kept(k1, b1), Kept(k2, b2), Kept(k3, b3))
  {
    hide And, Word, MaskOf;
    MaskOfBytes(k0, k1, k2, k3);
    AndBytes(Kept(k0, 255), Kept(k1, 255), Kept(k2, 255), Kept(k3, 255), b0, b1, b2, b3);
    AndFull(b0); AndFull(b1); AndFull(b2); AndFull(b3);
  }

  function Either(a: byte, b: byte): byte
  {
    if a == 0 then b else a
  }

  lemma OrDisjoint(a: byte, b: byte)
    requires a == 0 || b == 0
    ensures Or(a, b) == Either(a, b)
  {
    OrZero(a);
    OrZero(b);
  }

  /** Words whose bytes are zero where the other's are not combine byte by byte. */
  lemma OrDisjointBytes(a0: byte, a1: byte, a2: byte, a3: byte, b0: byte, b1: byte, b2: byte, b3: byte)
    requires (a0 == 0 || b0 == 0) && (a1 == 0 || b1 == 0) && (a2 == 0 || b2 == 0) && (a3 == 0 || b3 == 0)
    ensures Or(Word(a0, a1, a2, a3), Word(b0, b1, b2, b3))
            == Word(Either(a0, b0), Either(a1, b1), Either(a2, b2), Either(a3, b3))
  {
    hide Or, Word, Either;
    OrBytes(a0, a1, a2, a3, b0, b1, b2, b3);
    OrDisjoint(a0, b0);
    OrDisjoint(a1, b1);
    OrDisjoint(a2, b2);
    OrDisjoint(a3, b3);
  }

  /** The sign test of a byte. */
  lemma TopBitOfByte(b: byte)
    ensures And(b, 128) == if b >= 128 then 128 else 0
  {
    hide And, Shl, Shr;
    AndShiftedMask(b, 1, 7);
    assert Pow2(7) == 128;
    ShlIsProduct(1, 7);
    ShrIsQuotient(b, 7);
    AndLowMask(b / 128, 1);
    assert Pow2(1) == 2;
    ShlIsProduct(b / 128 % 2, 7);
  }
}
