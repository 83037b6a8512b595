/** Shifting a word bit by bit: split into bits, pad, and pick a window. */
module Shifts {
  import opened Bits
  import opened Nibbles
  import opened NibbleArithmetic
  import opened Machine

  type bit = x: int | 0 <= x < 2

  function Bin(bits: seq<bit>): nat
  {
    if bits == [] then 0 else 2 * Bin(bits[..|bits| - 1]) + bits[|bits| - 1]
  }

  lemma {:induction false} BinOfConcat(u: seq<bit>, v: seq<bit>)
    ensures Bin(u + v) == Shl(Bin(u), |v|) + Bin(v)
  {
    if v == [] {
      assert u + v == u;
    } else {
      var front := v[..|v| - 1];
      BinOfConcat(u, front);
      assert (u + v)[..|u + v| - 1] == u + front;
    }
  }

  lemma {:induction false} BinIsBelow(bits: seq<bit>)
    ensures Bin(bits) < Pow2(|bits|)
  {
    if bits != [] { BinIsBelow(bits[..|bits| - 1]); }
  }

  lemma {:induction false} BinOfFill(b: bit, n: nat)
    ensures Bin(seq(n, _ => b)) == if b == 0 then 0 else Pow2(n) - 1
  {
    if n != 0 {
      BinOfFill(b, n - 1);
      assert seq(n, _ => b)[..n - 1] == seq(n - 1, _ => b);
    }
  }

  method NibToBin(value: nibble) returns (bits: seq<bit>)
    ensures |bits| == 4 && Bin(bits) == value
    ensures bits[0] == if value > 7 then 1 else 0
  {
    var rest: int := value;
    var first: int := if rest >= 8 then 1 else 0;
    rest := rest - 8 * first;
    var second: int := if rest >= 4 then 1 else 0;
    rest := rest - 4 * second;
    var third: int := if rest >= 2 then 1 else 0;
    rest := rest - 2 * third;
    var fourth := if rest >= 1 then 1 else 0;
    bits := [first, second, third, fourth];
    BinOfFour(first, second, third, fourth);
  }

  lemma BinOfFour(a: bit, b: bit, c: bit, d: bit)
    ensures Bin([a, b, c, d]) == 8 * a + 4 * b + 2 * c + d
  {
    assert [a][..0] == [] && Bin([a]) == a;
    assert [a, b][..1] == [a] && Bin([a, b]) == 2 * a + b;
    assert [a, b, c][..2] == [a, b] && Bin([a, b, c]) == 4 * a + 2 * b + c;
    assert [a, b, c, d][..3] == [a, b, c];
  }

  /** The bits of a word, highest first. */
  method BitsOf(number: seq<nibble>) returns (bits: seq<bit>)
    requires |number| == 8
    ensures |bits| == 32 && Bin(bits) == Value(number)
    ensures bits[0] == if number[0] > 7 then 1 else 0
  {
    bits := [];
    for i := 0 to 8
      invariant |bits| == 4 * i && Bin(bits) == Value(number[..i])
      invariant i > 0 ==> bits[0] == if number[0] > 7 then 1 else 0
    {
      var four := NibToBin(number[i]);
      BinOfConcat(bits, four);
      ShlOfFour(Bin(bits));
      assert number[..i + 1][..i] == number[..i];
      bits := bits + four;
    }
    assert number[..8] == number;
  }

  lemma ShlOfFour(x: nat)
    ensures Shl(x, 4) == 16 * x
  {
    assert Pow2(4) == 16;
    ShlIsProduct(x, 4);
  }

  /** The shifted word, as the emulator computes it. */
  function Shifted(x: u32, amount: nat, right: bool, msb: bool): u32
  {
    if !right then Wrap(x * Pow2(amount))
    else if msb then Wrap(Signed(x) / Pow2(amount))
    else Wrap(x / Pow2(amount))
  }

  lemma {:induction false} ShlAdds(x: nat, y: nat, s: nat)
    ensures Shl(x + y, s) == Shl(x, s) + Shl(y, s)
  {
    if s != 0 { ShlAdds(x, y, s - 1); }
  }

  lemma {:induction false} ShlTwice(x: nat, s: nat, t: nat)
    ensures Shl(Shl(x, s), t) == Shl(x, s + t)
  {
    if t != 0 { ShlTwice(x, s, t - 1); }
  }

  lemma {:induction false} ShlIsBelow(x: nat, n: nat, s: nat)
    requires x < Pow2(n)
    ensures Shl(x, s) < Pow2(n + s)
  {
    if s != 0 { ShlIsBelow(x, n, s - 1); }
  }

  /** A word split at a bit. */
  lemma SplitBits(bits: seq<bit>, k: nat)
    requires k <= |bits|
    ensures Bin(bits) == Shl(Bin(bits[..k]), |bits| - k) + Bin(bits[k..])
    ensures Bin(bits[..k]) < Pow2(k) && Bin(bits[k..]) < Pow2(|bits| - k)
  {
    hide Bin, Shl, Pow2;
    assert bits == bits[..k] + bits[k..];
    BinOfConcat(bits[..k], bits[k..]);
    BinIsBelow(bits[..k]);
    BinIsBelow(bits[k..]);
  }

  lemma LeftProduct(x: u32, high: nat, low: nat, amount: nat)
    requires amount <= 32 && low < Pow2(32 - amount) && x == Shl(high, 32 - amount) + low
    ensures Wrap(x * Pow2(amount)) == Shl(low, amount)
  {
    hide Shl, Pow2;
    Pow2Of32();
    ShlAdds(Shl(high, 32 - amount), low, amount);
    ShlTwice(high, 32 - amount, amount);
    ShlIsProduct(high, 32);
    ShlIsProduct(x, amount);
    ShlIsBelow(low, 32 - amount, amount);
    DivModUnique(Shl(x, amount), 0x1_0000_0000, high, Shl(low, amount));
  }

  lemma LeftWindow(bits: seq<bit>, amount: nat, window: seq<bit>)
    requires |bits| == 32 && amount <= 32
    requires window == bits[amount..] + seq(amount, _ => 0)
    ensures Bin(bits) < 0x1_0000_0000 && Bin(window) == Shifted(Bin(bits), amount, false, false)
  {
    hide Bin, Shl, Pow2, Wrap;
    Pow2Of32();
    BinIsBelow(bits);
    SplitBits(bits, amount);
    BinOfConcat(bits[amount..], seq(amount, _ => 0));
    BinOfFill(0, amount);
    LeftProduct(Bin(bits), Bin(bits[..amount]), Bin(bits[amount..]), amount);
  }

  lemma RightWindow(bits: seq<bit>, amount: nat, fill: bit, window: seq<bit>)
    requires |bits| == 32 && amount <= 32 && (fill == 0 || fill == bits[0])
    requires window == seq(amount, _ => fill) + bits[..32 - amount]
    ensures Bin(bits) < 0x1_0000_0000
    ensures fill == 0 ==> Bin(window) == Shifted(Bin(bits), amount, true, false)
    ensures fill == bits[0] ==> Bin(window) == Shifted(Bin(bits), amount, true, true)
  {
    hide Bin, Shl, Pow2, Wrap, Signed;
    Pow2Of32();
    BinIsBelow(bits);
    SplitBits(bits, 32 - amount);
    BinOfConcat(seq(amount, _ => fill), bits[..32 - amount]);
    BinOfFill(fill, amount);
    TopBit(bits);
    RightQuotients(Bin(bits), Bin(bits[..32 - amount]), Bin(bits[32 - amount..]), amount);
  }

  lemma RightQuotients(x: u32, high: nat, low: nat, amount: nat)
    requires amount <= 32 && low < Pow2(amount) && high < Pow2(32 - amount) && x == Shl(high, amount) + low
    ensures Wrap(x / Pow2(amount)) == Shl(0, 32 - amount) + high
    ensures Wrap(Signed(x) / Pow2(amount))
            == (if x < 0x8000_0000 then Shl(0, 32 - amount) else Shl(Pow2(amount) - 1, 32 - amount)) + high
  {
    hide Shl, Pow2, Wrap, Signed;
    Pow2Of32();
    ShlIsProduct(high, amount);
    DivModUnique(x, Pow2(amount), high, low);
    SmallQuotient(high, x, Pow2(amount), low);
    Pow2Add(32 - amount, amount);
    ShlIsProduct(Pow2(amount) - 1, 32 - amount);
    ShlOfZero(32 - amount);
    SignedQuotient(x, high, low, Pow2(amount), Pow2(32 - amount));
  }

  lemma {:induction false} ShlOfZero(s: nat)
    ensures Shl(0, s) == 0
  {
    if s != 0 { ShlOfZero(s - 1); }
  }

  lemma TopBit(bits: seq<bit>)
    requires |bits| == 32
    ensures bits[0] == 1 <==> Bin(bits) >= 0x8000_0000
  {
    hide Shl, Pow2;
    SplitBits(bits, 1);
    assert bits[..1] == [bits[0]] && [bits[0]][..0] == [];
    ShlIsProduct(bits[0], 31);
    Pow2Of32();
    Pow2Add(1, 31);
    Pow2OfOne();
  }

  lemma Pow2OfOne()
    ensures Pow2(1) == 2
  {
  }

  /** An arithmetic shift of a negative word fills with ones. */
  lemma SignedQuotient(x: u32, high: nat, low: nat, p: nat, q: nat)
    requires p > 0 && q * p == 0x1_0000_0000 && x == high * p + low && low < p && high < q
    ensures x < 0x8000_0000 ==> Wrap(Signed(x) / p) == high
    ensures x >= 0x8000_0000 ==> Wrap(Signed(x) / p) == (p - 1) * q + high
  {
    if x < 0x8000_0000 {
      DivModUnique(x, p, high, low);
      SmallQuotient(high, x, p, low);
    } else {
      var s := Signed(x);
      MulSub(high, q, p);
      DivModUnique(s, p, high - q, low);
      MulSub(p, 1, q);
      MulCommutes(p, q);
      QuotientIsBelow(q, p);
      WrapNegative(high - q);
    }
  }

  lemma QuotientIsBelow(q: nat, p: nat)
    requires p > 0
    ensures q <= q * p
  {
    MulSub(p, 1, q);
    assert (p - 1) * q >= 0;
    MulCommutes(p, q);
  }

  lemma SmallQuotient(high: nat, x: u32, p: nat, low: nat)
    requires p > 0 && x == high * p + low
    ensures Wrap(high) == high
  {
    QuotientIsBelow(high, p);
  }

  /** Shift a word by 0 to 32 places. */
  method ShiftNumber(toShift: nat, number: seq<nibble>, right: bool, msb: bool) returns (shifted: seq<nibble>)
    requires |number| == 8 && toShift <= 32 && (msb ==> right)
    ensures |shifted| == 8 && Value(number) < 0x1_0000_0000
    ensures Value(shifted) == Shifted(Value(number), toShift, right, msb)
  {
    hide Value, Bin, Shl, Shifted;
    var bits := BitsOf(number);
    var fill: bit := if right && msb then bits[0] else 0;
    var padding: seq<bit> := seq(32, _ => fill);
    var table := if right then padding + bits else bits + padding;
    var offset: nat := if right then 32 - toShift else toShift;
    shifted := [];
    NothingPicked();
    assert table[offset..offset] == [];
    for i := 0 to 8
      invariant |shifted| == i
      invariant Value(shifted) == Bin(table[offset..offset + 4 * i])
    {
      var digit: nat := 0;
      assert offset + 4 * i + 4 <= 64;
      for n := 0 to 4
        invariant digit < Pow2(n)
        invariant Shl(Value(shifted), n) + digit == Bin(table[offset..offset + 4 * i + n])
      {
        PickBit(table, offset, 4 * i + n);
        ShlStep(Value(shifted), n);
        digit := 2 * digit + Lookup(table, offset + 4 * i + n);
      }
      ShlOfFour(Value(shifted));
      AppendDigit(shifted, digit);
      shifted := shifted + [digit];
    }
    WordIsBelow(number);
    WindowOf(bits, fill, toShift);
    if right {
      RightWindow(bits, toShift, fill, table[offset..offset + 32]);
    } else {
      LeftWindow(bits, toShift, table[offset..offset + 32]);
    }
  }

  lemma ShlStep(x: nat, n: nat)
    ensures Shl(x, n + 1) == 2 * Shl(x, n) && Pow2(n + 1) == 2 * Pow2(n)
  {
  }

  lemma WindowOf(bits: seq<bit>, fill: bit, amount: nat)
    requires |bits| == 32 && amount <= 32
    ensures var padding := seq(32, _ => fill);
            && (bits + padding)[amount..amount + 32] == bits[amount..] + seq(amount, _ => fill)
            && (padding + bits)[32 - amount..64 - amount] == seq(amount, _ => fill) + bits[..32 - amount]
  {
    var padding := seq(32, _ => fill);
    var left := (bits + padding)[amount..amount + 32];
    assert forall k :: 0 <= k < 32 ==> left[k] == (bits[amount..] + seq(amount, _ => fill))[k];
    var right := (padding + bits)[32 - amount..64 - amount];
    assert forall k :: 0 <= k < 32 ==> right[k] == (seq(amount, _ => fill) + bits[..32 - amount])[k];
  }

  lemma NothingPicked()
    ensures Value([]) == 0 && Bin([]) == 0 && forall x: nat :: Shl(x, 0) == x
  {
  }

  lemma PickBit(table: seq<bit>, offset: nat, k: nat)
    requires offset + k < |table|
    ensures Bin(table[offset..offset + k + 1]) == 2 * Bin(table[offset..offset + k]) + table[offset + k]
  {
    var picked := table[offset..offset + k + 1];
    assert picked[..|picked| - 1] == table[offset..offset + k];
  }

  lemma AppendDigit(ns: seq<nibble>, digit: nibble)
    ensures Value(ns + [digit]) == 16 * Value(ns) + digit
  {
    assert (ns + [digit])[..|ns|] == ns;
  }

  /** Two digits joined to a number, by doubling the first four times. */
  method U4ToU8(high: nibble, low: nibble) returns (n: nat)
    ensures n == 16 * (high as int) + low
  {
    hide Shl;
    n := high;
    ShlOfFour(high);
    ShlStart(high);
    for k := 0 to 4
      invariant n == Shl(high, k)
    {
      ShlStep(high, k);
      n := n + n;
    }
    n := n + low;
  }

  lemma ShlStart(x: nat)
    ensures Shl(x, 0) == x
  {
  }

  /** A shift by an amount of two digits, of which the first is at most one. */
  method ShiftValueWithBits(value: seq<nibble>, toShift: seq<nibble>, right: bool, msb: bool) returns (shifted: seq<nibble>)
    requires |value| == 8 && |toShift| == 2 && toShift[0] <= 1 && (msb ==> right)
    ensures |shifted| == 8 && Value(value) < 0x1_0000_0000
    ensures Value(shifted) == Shifted(Value(value), Value(toShift), right, msb)
  {
    hide Shifted, Value;
    var amount := U4ToU8(toShift[0], toShift[1]);
    ValueOfTwo(toShift);
    shifted := ShiftNumber(amount, value, right, msb);
  }

  lemma ValueOfTwo(ns: seq<nibble>)
    requires |ns| == 2
    ensures Value(ns) == 16 * (ns[0] as int) + ns[1]
  {
    assert ns[..1] == [ns[0]];
    ValueOfOne(ns[0]);
  }

  /** The three shift instructions agree with the emulator for every register amount. */
  lemma ShiftsAreTheEmulators(x: u32, amount: u32)
    ensures Shifted(x, amount % 32, false, false) == CompareValue(Sll, x, amount)
    ensures Shifted(x, amount % 32, true, false) == CompareValue(Srl, x, amount)
    ensures Shifted(x, amount % 32, true, true) == CompareValue(Sra, x, amount)
  {
    ShrinkingQuotient(x, Pow2(amount % 32));
  }

  lemma ShrinkingQuotient(x: u32, p: nat)
    requires p > 0
    ensures 0 <= x / p <= x && Wrap(x / p) == x / p
  {
    QuotientIsBelow(x / p, p);
  }
}
