/** Addition, subtraction, negation and comparison of words, digit by digit with table lookups. */
module NibbleArithmetic {
  import opened Bits
  import opened Nibbles
  import opened Machine

  /** A short operand filled up to eight digits with its extension digit. */
  function Extended(ns: seq<nibble>, extension: nibble): (w: seq<nibble>)
    requires |ns| <= 8
    ensures |w| == 8
  {
    seq(8 - |ns|, _ => extension) + ns
  }

  /** The digit that extends the sign of an operand. */
  function SignDigit(ns: seq<nibble>): nibble
    requires |ns| > 0
  {
    if ns[0] > 7 then 0xF else 0
  }

  /** The two's complement reading of digits. */
  function SignedValue(ns: seq<nibble>): int
    requires |ns| > 0
  {
    if ns[0] > 7 then Value(ns) - Scaled(1, |ns|) else Value(ns)
  }

  // ---------------------------------------------------------------- one column at a time

  lemma ColumnSplits(t: nat, i: nat)
    ensures Scaled(t, i) == Scaled(t / 16, i + 1) + Scaled(t % 16, i)
  {
    ScaledUp(t / 16, i);
    ScaledAdds(16 * (t / 16), t % 16, i);
  }

  /** One column of a sum: the digits so far and the carry account for the columns so far. */
  lemma SumGrows(a: seq<nat>, b: seq<nat>, i: nat, carry: nat, out: seq<nat>)
    requires i < |a| && i < |b| && |out| == i
    requires Value(out) + Scaled(carry, i) == Low(a, i) + Low(b, i)
    ensures var t := a[|a| - 1 - i] + b[|b| - 1 - i] + carry;
            Value([t % 16] + out) + Scaled(t / 16, i + 1) == Low(a, i + 1) + Low(b, i + 1)
  {
    hide Value, Scaled, Low;
    var x, y := a[|a| - 1 - i], b[|b| - 1 - i];
    var t := x + y + carry;
    LowStep(a, i);
    LowStep(b, i);
    ValueOfPrepend(t % 16, out);
    ColumnSplits(t, i);
    ScaledAdds(x + y, carry, i);
    ScaledAdds(x, y, i);
  }

  /** What eight digits and a carry out of the top say about the word. */
  lemma WordWraps(out: seq<nibble>, top: int, total: int)
    requires |out| == 8 && Value(out) + Scaled(top, 8) == total
    ensures Value(out) == total % 0x1_0000_0000
  {
    hide Value, Scaled;
    WordIsBelow(out);
    ScaledOf8(top);
    DivModUnique(total, 0x1_0000_0000, top, Value(out));
  }

  // ---------------------------------------------------------------- addition

  method AddWithBitExtension(value: seq<nibble>, toAdd: seq<nibble>, bitExtension: nibble) returns (sum: seq<nibble>)
    requires |value| == 8 && |toAdd| <= 8
    ensures |sum| == 8
    ensures Value(sum) == (Value(value) + Value(Extended(toAdd, bitExtension))) % 0x1_0000_0000
  {
    hide Value, Scaled, Low;
    ghost var extended := Extended(toAdd, bitExtension);
    ghost var top: nat := 0;
    var carry: nat := 0;
    sum := [];
    LowEnds(value);
    LowEnds(extended);
    ValueOfNothing();
    for i := 0 to 8
      invariant |sum| == i && carry <= 1
      invariant i < 8 ==> top == carry
      invariant Value(sum) + Scaled(top, i) == Low(value, i) + Low(extended, i)
    {
      var digit := if i < |toAdd| then toAdd[|toAdd| - i - 1] else bitExtension;
      assert digit == extended[7 - i];
      var column: nat := value[7 - i] + digit + carry;
      SumGrows(value, extended, i, carry, sum);
      top := column / 16;
      sum := [Lookup(ModuloTable(32), column)] + sum;
      if i < 7 { carry := Lookup(QuotientTable(32), column); }
    }
    WordWraps(sum, top, Value(value) + Value(extended));
  }

  lemma ValueOfNothing()
    ensures Value([]) == 0 && Scaled(0, 0) == 0
  {
  }

  /** The digits of the addend 4, seen as a word. */
  lemma FourExtended()
    ensures Value(Extended([4], 0)) == 4
  {
    hide Value, Scaled;
    var zeros := seq(7, _ => 0);
    ValueOfConcat(zeros, [4]);
    ValueOfOne(4);
    ValueOfZeros(7);
    ScaledGrows(0, 0, 1);
  }

  lemma {:induction false} ValueOfZeros(n: nat)
    ensures Value(seq(n, _ => 0)) == 0
  {
    if n != 0 {
      ValueOfZeros(n - 1);
      assert seq(n, _ => 0)[..n - 1] == seq(n - 1, _ => 0);
    }
  }

  method PcNext(pc: seq<nibble>) returns (next: seq<nibble>)
    requires |pc| == 8
    ensures |next| == 8
    ensures Value(next) == (Value(pc) + 4) % 0x1_0000_0000
  {
    hide Value, Scaled, Low;
    ghost var top: nat := 4;
    var carry: nat := 4;
    next := [];
    LowEnds(pc);
    ValueOfNothing();
    PlaceZero(4);
    for i := 0 to 8
      invariant |next| == i && carry <= 4
      invariant i < 8 ==> top == carry
      invariant Value(next) + Scaled(top, i) == Low(pc, i) + 4
    {
      var column: nat := pc[7 - i] + carry;
      LowStep(pc, i);
      ColumnSplits(column, i);
      ValueOfPrepend(column % 16, next);
      ScaledAdds(pc[7 - i], carry, i);
      top := column / 16;
      next := [Lookup(ModuloTable(32), column)] + next;
      if i < 7 { carry := Lookup(QuotientTable(32), column); }
    }
    WordWraps(next, top, Value(pc) + 4);
  }

  lemma PlaceZero(d: int)
    ensures Scaled(d, 0) == d
  {
  }

  // ---------------------------------------------------------------- subtraction

  method Sub(value: seq<nibble>, toSub: seq<nibble>) returns (difference: seq<nibble>)
    requires |value| == 8 && |toSub| == 8
    ensures |difference| == 8
    ensures Value(difference) == (Value(value) - Value(toSub)) % 0x1_0000_0000
  {
    hide Value, Scaled, Low;
    ghost var top: nat := 0;
    var borrow: nat := 0;
    difference := [];
    LowEnds(value);
    LowEnds(toSub);
    ValueOfNothing();
    for i := 0 to 8
      invariant |difference| == i && borrow <= 1
      invariant i < 8 ==> top == borrow
      invariant Value(difference) - Scaled(top, i) == Low(value, i) - Low(toSub, i)
    {
      var column: int := value[7 - i] - toSub[7 - i] - borrow;
      var wrapped: nat := column + (if column < 0 then 16 else 0);
      var digit := Lookup(ModuloTable(32), wrapped);
      LowStep(value, i);
      LowStep(toSub, i);
      ValueOfPrepend(digit, difference);
      top := if column < 0 then 1 else 0;
      assert column == digit - 16 * top;
      DifferenceColumn(value[7 - i], toSub[7 - i], borrow, digit, top, i);
      difference := [digit] + difference;
      if i < 7 { borrow := if column < 0 then 1 else 0; }
    }
    ScaledNegates(top, 8);
    WordWraps(difference, -(top as int), Value(value) - Value(toSub));
  }

  lemma {:induction false} ScaledNegates(d: int, k: nat)
    ensures Scaled(-d, k) == -Scaled(d, k)
  {
    if k != 0 { ScaledNegates(d, k - 1); }
  }

  lemma DifferenceColumn(x: int, y: int, borrow: int, digit: int, top: int, i: nat)
    requires x - y - borrow == digit - 16 * top
    ensures Scaled(x, i) - Scaled(y, i) - Scaled(borrow, i) == Scaled(digit, i) - Scaled(top, i + 1)
  {
    hide Scaled;
    ScaledAdds(y, borrow, i);
    ScaledAdds(x - y - borrow, y + borrow, i);
    ScaledAdds(digit - 16 * top, 16 * top, i);
    ScaledUp(top, i);
  }

  method TwosComplement(value: seq<nibble>, size: nat) returns (negated: seq<nibble>)
    requires |value| == size > 0
    ensures |negated| == size
    ensures Scaled(1, size) > 0 && Value(negated) == (Scaled(1, size) - Value(value)) % Scaled(1, size)
  {
    hide Value, Scaled, Low;
    ghost var top: nat := 0;
    var carry: nat := 0;
    negated := [];
    LowEnds(value);
    ValueOfNothing();
    PlaceZero(1);
    for i := 0 to size
      invariant |negated| == i && carry <= 1
      invariant 0 < i < size ==> top == carry
      invariant i == 0 ==> carry == 0
      invariant i > 0 ==> Value(negated) + Scaled(top, i) == Scaled(1, i) - Low(value, i)
    {
      var digit := value[size - 1 - i];
      var column: nat := (if i == 0 then 16 else 15) - digit + carry;
      NegationColumn(digit, carry, i);
      LowStep(value, i);
      ValueOfPrepend(column % 16, negated);
      ColumnSplits(column, i);
      top := column / 16;
      negated := [Lookup(ModuloTable(32), column)] + negated;
      if i < size - 1 { carry := Lookup(QuotientTable(32), column); }
    }
    ScaledGrows(0, 1, size);
    ValueIsBelow(negated);
    ScaledIsProduct(top, size);
    DivModUnique(Scaled(1, size) - Value(value), Scaled(1, size), top, Value(negated));
  }

  lemma NegationColumn(digit: nibble, carry: nat, i: nat)
    ensures Scaled(16 - digit + carry, i) == Scaled(1, i + 1) - Scaled(digit, i) + Scaled(carry, i)
    ensures Scaled(15 - digit + carry, i) == Scaled(1, i + 1) - Scaled(1, i) - Scaled(digit, i) + Scaled(carry, i)
  {
    hide Scaled;
    ScaledUp(1, i);
    ScaledAdds(15 - digit + carry, 1, i);
    ScaledAdds(16 - digit, carry, i);
    ScaledAdds(16 - digit, digit, i);
  }

  lemma {:induction false} ScaledIsProduct(d: int, k: nat)
    ensures Scaled(d, k) == d * Scaled(1, k)
  {
    if k != 0 {
      ScaledIsProduct(d, k - 1);
      MulSixteen(d, Scaled(1, k - 1));
    }
  }

  lemma MulSixteen(a: int, b: int)
    ensures a * (16 * b) == 16 * (a * b)
  {
  }

  // ---------------------------------------------------------------- comparison

  method IsEqualTo(value: seq<nibble>, than: seq<nibble>) returns (equal: bool)
    requires |value| == 8 && |than| == 8
    ensures equal <==> Value(value) == Value(than)
  {
    hide Value;
    var count := 0;
    for i := 0 to 8
      invariant 0 <= count <= i
      invariant count == i <==> value[..i] == than[..i]
    {
      count := count + if value[i] == than[i] then 1 else 0;
      assert value[..i + 1] == value[..i] + [value[i]] && than[..i + 1] == than[..i] + [than[i]];
    }
    equal := count == 8;
    assert value[..8] == value && than[..8] == than;
    ValueIsInjective(value, than);
  }

  /** What the weighted sum of the first digits' comparisons says about those digits. */
  predicate Decides(sum: int, weight: nat, value: seq<nibble>, than: seq<nibble>)
  {
    && -512 + 2 * weight <= sum <= 512 - 2 * weight
    && (Value(value) < Value(than) ==> sum >= 2 * weight)
    && (Value(value) == Value(than) ==> sum == 0)
    && (Value(value) > Value(than) ==> sum <= -2 * weight)
  }

  lemma DecidesNext(sum: int, weight: nat, value: seq<nibble>, than: seq<nibble>, d: nibble, e: nibble)
    requires Decides(sum, weight, value, than) && weight % 2 == 0
    ensures Decides(sum + (if d < e then weight as int else if d == e then 0 else -(weight as int)), weight / 2,
                    value + [d], than + [e])
  {
    assert (value + [d])[..|value|] == value && (than + [e])[..|than|] == than;
  }

  method IsLowerThan(value: seq<nibble>, than: seq<nibble>, unsigned: bool) returns (lower: bool)
    requires |value| == 8 && |than| == 8
    ensures lower <==> if unsigned then Value(value) < Value(than) else SignedValue(value) < SignedValue(than)
  {
    hide Value, Scaled, Decides, Pow2, SignedValue;
    var sign := 0;
    if !unsigned {
      var valueIsNegative := value[0] > 7;
      var thanIsNegative := than[0] > 7;
      if valueIsNegative != thanIsNegative {
        sign := if valueIsNegative then 512 else -512;
      }
    }
    var sum := 0;
    NothingDecided();
    for i := 0 to 8
      invariant Decides(sum, Pow2(8 - i), value[..i], than[..i])
    {
      var n: int := Pow2(8 - i);
      HalfWeight(8 - i);
      assert value[..i + 1] == value[..i] + [value[i]] && than[..i + 1] == than[..i] + [than[i]];
      DecidesNext(sum, Pow2(8 - i), value[..i], than[..i], value[i], than[i]);
      sum := sum + if value[i] < than[i] then n else if value[i] == than[i] then 0 else -n;
    }
    assert value[..8] == value && than[..8] == than;
    SignsOrder(value, than);
    Decided(sum, value, than);
    lower := sum + sign > 0;
  }

  lemma HalfWeight(k: nat)
    requires k > 0
    ensures Pow2(k) == 2 * Pow2(k - 1)
  {
  }

  lemma NothingDecided()
    ensures Decides(0, Pow2(8), [], [])
  {
    assert Pow2(4) == 16;
    Pow2Add(4, 4);
  }

  lemma Decided(sum: int, value: seq<nibble>, than: seq<nibble>)
    requires Decides(sum, Pow2(0), value, than)
    ensures -512 < sum < 512 && (sum > 0 <==> Value(value) < Value(than))
  {
  }

  /** Words of the same sign compare like their digits; otherwise the negative one is lower. */
  lemma SignsOrder(value: seq<nibble>, than: seq<nibble>)
    requires |value| == 8 && |than| == 8
    ensures (value[0] > 7) == (than[0] > 7)
            ==> (SignedValue(value) < SignedValue(than) <==> Value(value) < Value(than))
    ensures (value[0] > 7) != (than[0] > 7) ==> (SignedValue(value) < SignedValue(than) <==> value[0] > 7)
  {
    hide Value, Scaled;
    ScaledOf8(1);
    TopNibble(value);
    TopNibble(than);
  }

  /** The signed reading of a word is the emulator's. */
  lemma SignedWord(ns: seq<nibble>)
    requires |ns| == 8
    ensures Value(ns) < 0x1_0000_0000 && SignedValue(ns) == Signed(Value(ns))
  {
    hide Value, Scaled;
    ScaledOf8(1);
    TopNibble(ns);
  }

  lemma WrapNegative(x: int)
    requires -0x1_0000_0000 <= x < 0
    ensures Wrap(x) == x + 0x1_0000_0000
  {
  }

  // ---------------------------------------------------------------- sign extension

  method BitExtend(value: seq<nibble>) returns (word: seq<nibble>)
    requires 0 < |value| < 8
    ensures word == Extended(value, SignDigit(value))
  {
    var extension: seq<nibble> := [];
    for i := 0 to 8 - |value|
      invariant extension == seq(i, _ => SignDigit(value))
    {
      extension := extension + [if value[0] > 7 then 0xF else 0];
    }
    word := extension + value;
  }

  lemma {:induction false} ValueOfOnes(n: nat)
    ensures Value(seq(n, _ => 15)) == Scaled(1, n) - 1
  {
    if n != 0 {
      ValueOfOnes(n - 1);
      assert seq(n, _ => 15)[..n - 1] == seq(n - 1, _ => 15);
    }
  }

  /** Filling up with the sign digit keeps the two's complement reading. */
  lemma SignExtends(ns: seq<nibble>)
    requires 0 < |ns| < 8
    ensures Value(Extended(ns, SignDigit(ns))) == Wrap(SignedValue(ns))
    ensures SignedValue(Extended(ns, SignDigit(ns))) == SignedValue(ns)
  {
    hide Value, Scaled;
    var k, n := 8 - |ns|, |ns|;
    var w := Extended(ns, SignDigit(ns));
    ValueIsBelow(ns);
    ScaledOf8(1);
    ScaledTwice(1, k, n);
    if ns[0] > 7 {
      ValueOfConcat(seq(k, _ => 15), ns);
      ValueOfOnes(k);
      assert w == seq(k, _ => 15) + ns;
      ScaledAdds(Scaled(1, k) - 1, 1, n);
      WordIsBelow(w);
    } else {
      ValueOfConcat(seq(k, _ => 0), ns);
      ValueOfZeros(k);
      assert w == seq(k, _ => 0) + ns;
      ScaledGrows(0, 1, n);
      WordIsBelow(w);
    }
  }
}
