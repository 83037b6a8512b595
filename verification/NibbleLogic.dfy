/** AND, OR and XOR of words through half tables, one digit at a time. */
module NibbleLogic {
  import opened Bits
  import opened WordBits
  import opened Nibbles
  import opened NibbleArithmetic
  import opened Multiplication

  function WordLogic(op: LogicOperation, x: nat, y: nat): nat
    requires op.LogicAnd? || op.LogicOr? || op.LogicXor?
  {
    match op
    case LogicAnd => And(x, y)
    case LogicOr => Or(x, y)
    case LogicXor => Xor(x, y)
  }

  lemma {:induction false} XorCommutes(x: nat, y: nat)
    ensures Xor(x, y) == Xor(y, x)
    decreases x + y
  {
    if x != 0 || y != 0 { XorCommutes(x / 2, y / 2); }
  }

  lemma {:induction false} XorSplitAtBit(a: nat, b: nat, c: nat, d: nat, k: nat)
    requires b < Pow2(k) && d < Pow2(k)
    ensures Xor(Shl(a, k) + b, Shl(c, k) + d) == Shl(Xor(a, c), k) + Xor(b, d)
  {
    hide Xor;
    if k > 0 {
      XorSplitAtBit(a, b / 2, c, d / 2, k - 1);
      XorHalves(Shl(a, k - 1), b, Shl(c, k - 1), d);
    } else {
      XorOfZero();
    }
  }

  lemma XorHalves(s: nat, b: nat, t: nat, d: nat)
    ensures Xor(2 * s + b, 2 * t + d) == 2 * Xor(s + b / 2, t + d / 2) + Xor(b, d) - 2 * Xor(b / 2, d / 2)
  {
    hide Xor;
    HalfOf(s, b);
    HalfOf(t, d);
    XorStep(b, d);
    XorStep(2 * s + b, 2 * t + d);
  }

  lemma XorOfZero()
    ensures Xor(0, 0) == 0
  {
  }

  lemma LogicSplits(op: LogicOperation, a: nat, b: nibble, c: nat, d: nibble)
    requires op.LogicAnd? || op.LogicOr? || op.LogicXor?
    ensures WordLogic(op, 16 * a + b, 16 * c + d) == 16 * WordLogic(op, a, c) + WordLogic(op, b, d)
  {
    hide And, Or, Xor, Shl, Pow2;
    SplitAtNibble(a, b, c, d);
    ShlOf4(a); ShlOf4(c); ShlOf4(Xor(a, c));
    XorSplitAtBit(a, b, c, d, 4);
  }

  lemma LogicOfNibbles(op: LogicOperation, x: nibble, y: nibble)
    requires op.LogicAnd? || op.LogicOr? || op.LogicXor?
    ensures WordLogic(op, x, y) < 16 && WordLogic(op, x, y) == WordLogic(op, y, x)
    ensures WordLogic(op, x, y) == Entry(op, x, y)
    ensures WordLogic(op, 0, 0) == 0
  {
    hide And, Or, Xor, Shl, Pow2;
    AndCommutes(x, y);
    OrCommutes(x, y);
    XorCommutes(x, y);
    ShlOf4(0);
    BitwiseBelow(x, y, 4);
    AndOfZero();
    XorOfZero();
  }

  /** Digit-wise logic is word-wide logic. */
  lemma {:induction false} DigitwiseLogic(op: LogicOperation, x: seq<nibble>, y: seq<nibble>, r: seq<nibble>)
    requires op.LogicAnd? || op.LogicOr? || op.LogicXor?
    requires |x| == |y| == |r| && forall i :: 0 <= i < |r| ==> r[i] == WordLogic(op, x[i], y[i])
    ensures Value(r) == WordLogic(op, Value(x), Value(y))
  {
    hide WordLogic;
    LogicOfNibbles(op, 0, 0);
    if r != [] {
      var n := |r| - 1;
      DigitwiseLogic(op, x[..n], y[..n], r[..n]);
      LogicSplits(op, Value(x[..n]), x[n], Value(y[..n]), y[n]);
    }
  }

  /** One digit through the half tables. */
  method LogicOp(lookup: seq<nat>, table: seq<nat>, op: LogicOperation, x: nibble, y: nibble) returns (digit: nibble)
    requires op.LogicAnd? || op.LogicOr? || op.LogicXor?
    requires |lookup| == 16 && forall n :: 0 <= n < 16 ==> lookup[n] == HalfOffset(n)
    requires table == Rows(op, 0)
    ensures digit == WordLogic(op, x, y)
  {
    hide Rows, And, Or, Xor;
    var most, least := if x < y then y else x, if x < y then x else y;
    RowsAt(op, 0, least, most);
    LogicOfNibbles(op, most, least);
    digit := Lookup(table, Lookup(lookup, least) + most);
  }

  method LogicWithBitExtension(value: seq<nibble>, operand: seq<nibble>, bitExtension: nibble, op: LogicOperation)
    returns (result: seq<nibble>)
    requires op.LogicAnd? || op.LogicOr? || op.LogicXor?
    requires |value| == 8 && |operand| <= 8
    ensures |result| == 8
    ensures Value(result) == WordLogic(op, Value(value), Value(Extended(operand, bitExtension)))
  {
    hide Value, WordLogic, Rows, HalfOffset;
    var lookup := HalfLookup();
    var table := LogicTable(op);
    var extensionSize := 8 - |operand|;
    ghost var extended := Extended(operand, bitExtension);
    result := [];
    for i := 0 to 8
      invariant |result| == i
      invariant forall k :: 0 <= k < i ==> result[k] == WordLogic(op, value[k], extended[k])
    {
      var other := if i < extensionSize then bitExtension else operand[i - extensionSize];
      var digit := LogicOp(lookup, table, op, value[i], other);
      result := result + [digit];
    }
    DigitwiseLogic(op, value, extended, result);
  }
}
