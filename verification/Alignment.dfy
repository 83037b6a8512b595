/** The digit routines behind loads and stores: aligning addresses, masking with tables,
    rotating, and picking a window of digits. */
module Alignment {
  import opened Bits
  import opened WordBits
  import opened Nibbles
  import opened NibbleArithmetic
  import opened Multiplication
  import opened NibbleLogic
  import opened Machine
  import opened ByteMemory
  import opened ScriptOutcomes

  // ---------------------------------------------------------------- addresses

  method AlignMemory(address: seq<nibble>) returns (aligned: seq<nibble>, alignment: nibble)
    requires |address| == 8
    ensures |aligned| == 8 && Value(address) < 0x1_0000_0000
    ensures Value(aligned) == AlignedPart(Value(address)) && alignment == Value(address) % 4
  {
    hide Value, AlignedPart;
    var modulo4: seq<nibble> := seq(16, i requires 0 <= i => i % 4);
    alignment := Lookup(modulo4, address[7]);
    var last := address[7] - alignment;
    aligned := address[..7] + [last];
    WordIsBelow(address);
    LastDigitAligned(address, aligned);
  }

  /** Only the last digit of a word decides its alignment. */
  lemma LastDigitAligned(ns: seq<nibble>, aligned: seq<nibble>)
    requires |ns| == |aligned| == 8 && Value(ns) < 0x1_0000_0000
    requires aligned == ns[..7] + [ns[7] - ns[7] % 4]
    ensures Value(ns) % 4 == ns[7] % 4 && Value(aligned) == AlignedPart(Value(ns))
  {
    hide Value;
    assert aligned[..7] == ns[..7];
    LastDigit(ns);
    LastDigit(aligned);
    FourDivides(Value(ns[..7]), ns[7]);
  }

  lemma LastDigit(ns: seq<nibble>)
    requires |ns| == 8
    ensures Value(ns) == 16 * Value(ns[..7]) + ns[7]
  {
  }

  lemma FourDivides(high: nat, digit: nibble)
    ensures (16 * high + digit) % 4 == digit % 4
  {
    DivModUnique(16 * high + digit, 4, 4 * high + digit / 4, digit % 4);
  }

  /** Two digits address a register inside its 256-byte file. */
  function RegisterOperand(idx: RegIndex): (ns: seq<nibble>)
    ensures |ns| == 2
  {
    NibblesOf(4 * idx, 2)
  }

  lemma NibblesOfFile(base: RegisterBase, x: nat)
    requires x < 256
    ensures NibblesOf(base + x, 8) == NibblesOf(base, 8)[..6] + NibblesOf(x, 2)
  {
    var high := base / 256;
    TwoDigits(high, x);
    TwoDigits(high, 0);
    assert base == 256 * high;
  }

  lemma TwoDigits(high: nat, x: nat)
    requires x < 256
    ensures NibblesOf(256 * high + x, 8) == NibblesOf(high, 6) + NibblesOf(x, 2)
  {
    var v := 256 * high + x;
    assert v / 16 == 16 * high + x / 16 && v % 16 == x % 16;
    assert v / 16 / 16 == high && v / 16 % 16 == x / 16;
    assert NibblesOf(v, 8) == NibblesOf(v / 16, 7) + [v % 16];
    assert NibblesOf(v / 16, 7) == NibblesOf(high, 6) + [x / 16];
    assert NibblesOf(x, 2) == NibblesOf(x / 16, 1) + [x % 16];
    assert NibblesOf(x / 16, 1) == [x / 16];
  }

  /** Compare an address with a register's, two digits at a time. */
  method ValidateRegisterAddress(address: u32, idx: RegIndex, base: RegisterBase) returns (valid: bool)
    ensures valid <==> address == RegisterAt(base, idx)
  {
    hide NibblesOf;
    var read := NibblesOf(address, 8);
    var bases := NibblesOf(base, 8);
    var register := RegisterOperand(idx);
    ghost var expected := bases[..6] + register;
    valid := true;
    for i := 0 to 4
      invariant valid <==> read[..2 * i] == expected[..2 * i]
    {
      var pair := if i < 3 then bases[2 * i..2 * i + 2] else register;
      ExpectedPair(bases, register, i);
      PairsEqual(read, expected, i);
      valid := valid && read[2 * i..2 * i + 2] == pair;
    }
    assert read[..8] == read && expected[..8] == expected;
    NibblesOfFile(base, 4 * idx);
    WordOfNibbles(address);
    WordOfNibbles(RegisterAt(base, idx));
  }

  /** The pairs of a register's address: the base's, then the register's own. */
  lemma ExpectedPair(bases: seq<nibble>, register: seq<nibble>, i: nat)
    requires |bases| == 8 && |register| == 2 && i < 4
    ensures (bases[..6] + register)[2 * i..2 * i + 2] == if i < 3 then bases[2 * i..2 * i + 2] else register
  {
  }

  /** Comparing one pair more. */
  lemma PairsEqual(read: seq<nibble>, expected: seq<nibble>, i: nat)
    requires |read| == |expected| == 8 && i < 4
    ensures read[..2 * (i + 1)] == expected[..2 * (i + 1)]
            <==> read[..2 * i] == expected[..2 * i] && read[2 * i..2 * i + 2] == expected[2 * i..2 * i + 2]
  {
    assert read[..2 * (i + 1)] == read[..2 * i] + read[2 * i..2 * i + 2];
    assert expected[..2 * (i + 1)] == expected[..2 * i] + expected[2 * i..2 * i + 2];
    PrefixesEqual(read[..2 * i], read[2 * i..2 * i + 2], expected[..2 * i], expected[2 * i..2 * i + 2]);
  }

  lemma PrefixesEqual<T>(a: seq<T>, b: seq<T>, c: seq<T>, d: seq<T>)
    requires |a| == |c|
    ensures a + b == c + d <==> a == c && b == d
  {
    if a + b == c + d {
      assert a == (a + b)[..|a|] && c == (c + d)[..|a|];
      assert b == (a + b)[|a|..] && d == (c + d)[|a|..];
    }
  }

  // ---------------------------------------------------------------- mask tables

  /** A table of words on the stack, the first word on top. */
  method WordTable(elements: seq<u32>) returns (stack: seq<nibble>)
    ensures |stack| == 8 * |elements|
    ensures forall k, i :: 0 <= k < |elements| && 0 <= i < 8 ==>
              stack[8 * (|elements| - 1 - k) + i] == NibblesOf(elements[k], 8)[i]
  {
    hide NibblesOf;
    stack := [];
    for n: int := |elements| downto 0
      invariant |stack| == 8 * (|elements| - n)
      invariant forall k, i :: n <= k < |elements| && 0 <= i < 8 ==>
                  stack[8 * (|elements| - 1 - k) + i] == NibblesOf(elements[k], 8)[i]
    {
      stack := stack + NibblesOf(elements[n], 8);
    }
  }

  /** Pick one word: its digits lie just above `8 * (index + 1)` places below the top. */
  method Peek(elements: seq<u32>, index: nat) returns (word: seq<nibble>)
    requires index < |elements|
    ensures word == NibblesOf(elements[index], 8)
  {
    hide NibblesOf;
    var table := WordTable(elements);
    var depth := (index + 1) * 8;
    word := [];
    for i := 0 to 8
      invariant |word| == i
      invariant forall j :: 0 <= j < i ==> word[j] == NibblesOf(elements[index], 8)[j]
    {
      word := word + [table[|table| - 1 - (depth - 1 - i)]];
    }
  }

  method MaskValue(value: seq<nibble>, mask: seq<nibble>) returns (masked: seq<nibble>)
    requires |value| == 8 && |mask| == 8
    ensures |masked| == 8 && forall i :: 0 <= i < 8 ==> masked[i] == if mask[i] != 0 then value[i] else 0
  {
    masked := [];
    for i := 0 to 8
      invariant |masked| == i
      invariant forall j :: 0 <= j < i ==> masked[j] == if mask[j] != 0 then value[j] else 0
    {
      masked := masked + [if mask[i] != 0 then value[i] else 0];
    }
  }

  lemma {:induction false} FifteenTimes(ns: seq<nibble>, full: seq<nibble>)
    requires |full| == |ns| && forall i :: 0 <= i < |ns| ==> ns[i] <= 1 && full[i] == 15 * ns[i]
    ensures Value(full) == 15 * Value(ns)
  {
    if ns != [] { FifteenTimes(ns[..|ns| - 1], full[..|ns| - 1]); }
  }

  lemma NibbleMask(d: nibble)
    ensures And(15, d) == d && And(0, d) == 0
  {
    assert Pow2(4) == 16;
    AndLowMask(d, 4);
    AndCommutes(15, d);
  }

  /** Masking digit by digit is AND with the widened mask. */
  lemma MaskedIsAnd(value: seq<nibble>, mask: seq<nibble>, masked: seq<nibble>)
    requires |value| == 8 && |mask| == 8 && |masked| == 8
    requires forall i :: 0 <= i < 8 ==> mask[i] <= 1 && masked[i] == if mask[i] != 0 then value[i] else 0
    ensures Value(masked) == And(15 * Value(mask), Value(value))
  {
    hide Value, And;
    var full: seq<nibble> := seq(8, i requires 0 <= i < 8 => if mask[i] == 1 then 15 else 0);
    FifteenTimes(mask, full);
    forall i | 0 <= i < 8 ensures masked[i] == WordLogic(LogicAnd, full[i], value[i]) {
      NibbleMask(value[i]);
    }
    DigitwiseLogic(LogicAnd, full, value, masked);
  }

  /** The bytes a table entry keeps. */
  function TableFlags(op: StoreOp, round: nat, alignment: nat): Flags
  {
    if round == 1 then
      if op == Sw && alignment == 0 then Flags(false, false, false, false) else FlagsRound1(op, alignment).0
    else if alignment == 0 || (op == Sh && alignment < 3) then Flags(false, false, false, false)
    else FlagsRound2(op, alignment).0
  }

  function TableFlags2(op: StoreOp, round: nat, alignment: nat): Flags
  {
    if round == 1 then
      if op == Sw && alignment == 0 then Flags(false, false, false, false) else FlagsRound1(op, alignment).1
    else if alignment == 0 || (op == Sh && alignment < 3) then Flags(false, false, false, false)
    else FlagsRound2(op, alignment).1
  }

  lemma TablesAreFlags(op: StoreOp, round: nat, alignment: nat)
    requires alignment < 4 && (round == 1 || round == 2)
    ensures AlignmentTable(op, round).Some? ==>
              |AlignmentTable(op, round).value| == 4
              && 15 * AlignmentTable(op, round).value[alignment] == FlagMask(TableFlags(op, round, alignment))
    ensures AlignmentTable2(op, round).Some? ==>
              |AlignmentTable2(op, round).value| == 4
              && 15 * AlignmentTable2(op, round).value[alignment] == FlagMask(TableFlags2(op, round, alignment))
  {
    hide MaskOf;
    MaskConstants();
  }

  /** A mask of ones and zeros that covers whole bytes has only those digits. */
  lemma MaskDigits(mask: u32, f: Flags)
    requires 15 * mask == FlagMask(f)
    ensures forall i :: 0 <= i < 8 ==> NibblesOf(mask, 8)[i] <= 1
  {
    hide NibblesOf, MaskOf, Word;
    var b := Bytes(Kept(f.f0, 17), Kept(f.f1, 17), Kept(f.f2, 17), Kept(f.f3, 17));
    assert mask == ToWord(b) by { FifteenSeventeens(f, mask); }
    NibblesOfBytes(b);
  }

  lemma FifteenSeventeens(f: Flags, mask: u32)
    requires 15 * mask == FlagMask(f)
    ensures mask == Word(Kept(f.f0, 17), Kept(f.f1, 17), Kept(f.f2, 17), Kept(f.f3, 17))
  {
  }

  /** Look a mask up and apply it. */
  method MaskWithTable(value: u32, table: seq<u32>, index: nat, ghost f: Flags) returns (masked: seq<nibble>)
    requires index < |table| && 15 * (table[index] as int) == FlagMask(f)
    ensures |masked| == 8 && Value(masked) == Masked(table[index], value)
  {
    hide Value, NibblesOf, And, MaskOf;
    var digits := NibblesOf(value, 8);
    var mask := Peek(table, index);
    masked := MaskValue(digits, mask);
    MaskDigits(table[index], f);
    MaskedIsAnd(digits, mask, masked);
    WordOfNibbles(value);
    WordOfNibbles(table[index]);
  }

  lemma NibblesOfBytes(b: Bytes)
    ensures NibblesOf(ToWord(b), 8)
            == [b.b3 / 16, b.b3 % 16, b.b2 / 16, b.b2 % 16, b.b1 / 16, b.b1 % 16, b.b0 / 16, b.b0 % 16]
  {
    hide Word, NibblesOf;
    var x2 := b.b2 + 256 * b.b3;
    var x1 := b.b1 + 256 * x2;
    WordNests(b.b0, b.b1, b.b2, b.b3);
    BytePeels(b.b0, x1, 6);
    BytePeels(b.b1, x2, 4);
    BytePeels(b.b2, b.b3, 2);
    BytePeels(b.b3, 0, 0);
  }

  lemma BytePeels(b: byte, rest: nat, n: nat)
    ensures NibblesOf(b + 256 * rest, n + 2) == NibblesOf(rest, n) + [b / 16, b % 16]
  {
    var x := b + 256 * rest;
    assert x / 16 == b / 16 + 16 * rest && x % 16 == b % 16;
    assert x / 16 / 16 == rest && x / 16 % 16 == b / 16;
    assert NibblesOf(x, n + 2) == NibblesOf(x / 16, n + 1) + [x % 16];
  }

  // ---------------------------------------------------------------- rotation

  method LeftRotate(value: seq<nibble>, rotate: nat) returns (rotated: seq<nibble>)
    requires |value| == 8 && rotate < 4
    ensures |rotated| == 8 && Value(value) < 0x1_0000_0000
    ensures Value(rotated) == Rotated(Value(value), rotate)
  {
    hide Value, Rotated;
    var stack := value + value;
    var offset := 2 * (4 - rotate);
    rotated := [];
    for i := 0 to 8
      invariant |stack| == 16 - i && |rotated| == i
      invariant stack == (value + value)[..16 - offset - i] + (value + value)[16 - offset..]
      invariant rotated == (value + value)[16 - offset - i..16 - offset]
    {
      var at := |stack| - 1 - offset;
      rotated := [stack[at]] + rotated;
      stack := stack[..at] + stack[at + 1..];
    }
    WordIsBelow(value);
    assert rotated == value[2 * rotate..] + value[..2 * rotate];
    RotatedValue(value, rotate);
  }

  lemma RotatedValue(value: seq<nibble>, rotate: nat)
    requires |value| == 8 && rotate < 4
    ensures Value(value) < 0x1_0000_0000
    ensures Value(value[2 * rotate..] + value[..2 * rotate]) == Rotated(Value(value), rotate)
  {
    hide Value, Scaled;
    WordIsBelow(value);
    var high, low := value[..2 * rotate], value[2 * rotate..];
    assert value == high + low;
    ValueOfConcat(high, low);
    ValueOfConcat(low, high);
    ValueIsBelow(high);
    ValueIsBelow(low);
    ScaledOfEven(Value(high));
    ScaledOfEven(Value(low));
    ScaledOfEven(1);
    RotatedParts(Value(high), Value(low), rotate);
    LowEnds(value);
    assert rotate == 0 ==> high == [] && low == value && low + high == value;
  }

  lemma ScaledOfEven(d: int)
    ensures Scaled(d, 0) == d && Scaled(d, 2) == 256 * d && Scaled(d, 4) == 65536 * d
    ensures Scaled(d, 6) == 16777216 * d && Scaled(d, 8) == 0x1_0000_0000 * d
  {
    assert Scaled(d, 1) == 16 * d;
    assert Scaled(d, 2) == 16 * Scaled(d, 1);
    ScaledOf4(d);
    assert Scaled(d, 5) == 16 * Scaled(d, 4);
    assert Scaled(d, 6) == 16 * Scaled(d, 5);
    ScaledOf8(d);
  }

  lemma RotatedParts(high: nat, low: nat, rotate: nat)
    requires rotate == 1 ==> high < 256 && low < 16777216
    requires rotate == 2 ==> high < 65536 && low < 65536
    requires rotate == 3 ==> high < 16777216 && low < 256
    ensures rotate == 1 ==> Rotated(16777216 * high + low, 1) == 256 * low + high
    ensures rotate == 2 ==> Rotated(65536 * high + low, 2) == 65536 * low + high
    ensures rotate == 3 ==> Rotated(256 * high + low, 3) == 16777216 * low + high
  {
    hide Wrap;
    if rotate == 1 {
      WrapDrops(256 * low, high);
    } else if rotate == 2 {
      WrapDrops(65536 * low, high);
    } else if rotate == 3 {
      WrapDrops(16777216 * low, high);
    }
  }

  // ---------------------------------------------------------------- picking digits

  /** Pick digits one by one, starting `offset` places below the top. */
  method PickDigits(stack: seq<nibble>, offset: nat, nibs: nat) returns (picked: seq<nibble>)
    requires offset + nibs <= |stack|
    ensures picked == stack[|stack| - offset - nibs..|stack| - offset]
  {
    picked := [];
    for i := 0 to nibs
      invariant |picked| == i
      invariant picked == stack[|stack| - offset - i..|stack| - offset]
    {
      picked := [stack[|stack| - 1 - (offset + i)]] + picked;
    }
  }

  /** Pick `nibs` digits, `2 * alignment` digits from the end of the padded word. */
  method ChooseNibbles(data: seq<nibble>, alignment: nat, nibs: nat, maxExtra: nat, prePad: nat, unsigned: bool, post: nat)
    returns (word: seq<nibble>)
    requires |data| == 8 && 0 < nibs && nibs + prePad == 8
    requires 2 * alignment + nibs <= 8 + maxExtra + post && (prePad == 0 ==> unsigned)
    ensures |word| == 8 && Value(data) < 0x1_0000_0000
    ensures Value(word) == Chosen(Choice(nibs, maxExtra, post, unsigned), Value(data), alignment)
  {
    hide Value, Scaled, Chosen, Picked, SignDigit;
    var stack: seq<nibble> := seq(maxExtra, _ => 0) + data + seq(post, _ => 0);
    var picked := PickDigits(stack, alignment + alignment, nibs);
    WordIsBelow(data);
    PickedValue(data, alignment, nibs, maxExtra, unsigned, post, picked);
    FilledValue(picked, Choice(nibs, maxExtra, post, unsigned), Value(data), alignment);
    if prePad == 0 {
      word := picked;
      assert Extended(picked, 0) == picked;
    } else if unsigned {
      word := seq(prePad, _ => 0) + picked;
    } else {
      word := BitExtend(picked);
    }
  }

  lemma {:induction false} ScaledIsPow2(n: nat)
    ensures Scaled(1, n) == Pow2(4 * n)
  {
    if n != 0 {
      ScaledIsPow2(n - 1);
      Pow2Add(4 * (n - 1), 4);
      assert Pow2(4) == 16;
    }
  }

  /** A slice of digits is a quotient and a remainder. */
  lemma SliceValue(ns: seq<nibble>, i: nat, j: nat)
    requires i <= j <= |ns|
    ensures Pow2(4 * (|ns| - j)) > 0 && Pow2(4 * (j - i)) > 0
    ensures Value(ns[i..j]) == Value(ns) / Pow2(4 * (|ns| - j)) % Pow2(4 * (j - i))
  {
    hide Value, Scaled, Pow2;
    var front, tail := ns[..j], ns[j..];
    var head, slice := ns[..i], ns[i..j];
    assert ns == front + tail && front == head + slice;
    ValueOfConcat(front, tail);
    ValueOfConcat(head, slice);
    ValueIsBelow(tail);
    ValueIsBelow(slice);
    ScaledIsPow2(|tail|);
    ScaledIsPow2(|slice|);
    ScaledIsProduct(Value(front), |tail|);
    ScaledIsProduct(Value(head), |slice|);
    DivModUnique(Value(ns), Pow2(4 * |tail|), Value(front), Value(tail));
    DivModUnique(Value(front), Pow2(4 * |slice|), Value(head), Value(slice));
  }

  lemma PickedValue(data: seq<nibble>, alignment: nat, nibs: nat, maxExtra: nat, unsigned: bool, post: nat, picked: seq<nibble>)
    requires |data| == 8 && Value(data) < 0x1_0000_0000 && 2 * alignment + nibs <= 8 + maxExtra + post
    requires var stack := seq(maxExtra, _ => 0) + data + seq(post, _ => 0);
             picked == stack[|stack| - 2 * alignment - nibs..|stack| - 2 * alignment]
    ensures Value(picked) == Picked(Choice(nibs, maxExtra, post, unsigned), Value(data), alignment)
  {
    hide Value, Scaled, Pow2;
    var extra: seq<nibble>, after: seq<nibble> := seq(maxExtra, _ => 0), seq(post, _ => 0);
    var stack := extra + data + after;
    SliceValue(stack, |stack| - 2 * alignment - nibs, |stack| - 2 * alignment);
    ValueOfConcat(extra + data, after);
    ValueOfConcat(extra, data);
    ValueOfZeros(maxExtra);
    ValueOfZeros(post);
    ScaledGrows(0, 0, 8);
    ScaledIsProduct(Value(data), post);
    ScaledIsPow2(post);
  }

  lemma FilledValue(picked: seq<nibble>, c: Choice, v: u32, alignment: nat)
    requires 0 < |picked| == c.nibs <= 8 && Value(picked) == Picked(c, v, alignment) && (c.nibs == 8 ==> c.unsigned)
    ensures Value(if c.unsigned then Extended(picked, 0) else Extended(picked, SignDigit(picked))) == Chosen(c, v, alignment)
  {
    hide Value, Scaled, Pow2, Picked;
    ScaledIsPow2(c.nibs);
    if c.unsigned {
      ValueOfConcat(seq(8 - c.nibs, _ => 0), picked);
      ValueOfZeros(8 - c.nibs);
      ScaledGrows(0, 0, c.nibs);
      WordIsBelow(Extended(picked, 0));
      WrapKeeps(Value(picked));
    } else {
      SignExtends(picked);
      TopDigit(picked);
    }
  }

  lemma WrapKeeps(v: nat)
    requires v < 0x1_0000_0000
    ensures Wrap(v) == v
  {
  }

  /** The first digit tells whether a number is in the upper half of its range. */
  lemma TopDigit(ns: seq<nibble>)
    requires |ns| > 0
    ensures ns[0] > 7 <==> 2 * Value(ns) >= Scaled(1, |ns|)
  {
    hide Value, Scaled;
    var n := |ns| - 1;
    assert ns == [ns[0]] + ns[1..];
    ValueOfPrepend(ns[0], ns[1..]);
    ValueIsBelow(ns[1..]);
    ScaledUp(1, n);
    ScaledGrows(8, ns[0], n);
    ScaledGrows(ns[0] as int + 1, 8, n);
    ScaledAdds(ns[0], 1, n);
    ScaledAdds(8, 8, n);
  }
}
