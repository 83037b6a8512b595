/** The high word of signed products: multiply magnitudes, then restore the sign. */
module SignedProduct {
  import opened Bits
  import opened Nibbles
  import opened NibbleArithmetic
  import opened Multiplication
  import opened Machine

  function Abs(x: int): nat
  {
    if x < 0 then -x else x
  }

  lemma SignedIsBounded(ns: seq<nibble>)
    requires |ns| == 8
    ensures Abs(SignedValue(ns)) <= 0x8000_0000 && (SignedValue(ns) < 0 <==> ns[0] > 7)
  {
    hide Value, Scaled;
    SignedWord(ns);
    TopNibble(ns);
  }

  /** The magnitude of a word in two's complement. */
  function Magnitude(ns: seq<nibble>): seq<nibble>
    requires |ns| == 8
  {
    NibblesOf(Abs(SignedValue(ns)), 8)
  }

  lemma MagnitudeOf(ns: seq<nibble>, m: seq<nibble>)
    requires |ns| == 8 && |m| == 8
    requires Value(m) == if ns[0] > 7 then 0x1_0000_0000 - Value(ns) else Value(ns)
    ensures m == Magnitude(ns) && Value(m) == Abs(SignedValue(ns))
  {
    hide Value, Scaled, NibblesOf;
    SignedWord(ns);
    TopNibble(ns);
    NibblesOfWord(m);
  }

  method TwosComplementConditional(value: seq<nibble>, size: nat, negate: bool) returns (result: seq<nibble>)
    requires |value| == size > 0
    ensures |result| == size
    ensures !negate ==> result == value
    ensures negate ==> Scaled(1, size) > 0 && Value(result) == (Scaled(1, size) - Value(value)) % Scaled(1, size)
  {
    if negate {
      result := TwosComplement(value, size);
    } else {
      result := value;
    }
  }

  method MagnitudeWord(value: seq<nibble>) returns (result: seq<nibble>)
    requires |value| == 8
    ensures |result| == 8 && result == Magnitude(value) && Value(result) == Abs(SignedValue(value))
  {
    hide Value, Scaled, NibblesOf;
    result := TwosComplementConditional(value, 8, value[0] > 7);
    ScaledOf8(1);
    TopNibble(value);
    MagnitudeOf(value, result);
  }

  method Mulh(a: seq<nibble>, b: seq<nibble>, mulhsu: bool) returns (high: seq<nibble>)
    requires |a| == 8 && |b| == 8
    requires ColumnsFit(Columns(Magnitude(a), if mulhsu then b else Magnitude(b)))
    ensures |high| == 8 && Value(a) < 0x1_0000_0000 && Value(b) < 0x1_0000_0000
    ensures Value(high) == ArithValue(if mulhsu then Machine.Mulhsu else Machine.Mulh, Value(a), Value(b))
  {
    hide Value, Scaled, NibblesOf, Columns, ColumnsFit;
    var negative := if mulhsu then a[0] > 7 else (a[0] > 7) != (b[0] > 7);
    var first := MagnitudeWord(a);
    var second := b;
    if !mulhsu { second := MagnitudeWord(b); }
    var product := Multiply(first, second, FullProduct);
    var result := TwosComplementConditional(product, 16, negative);
    high := result[..8];
    Halves(result);
    SignedIsBounded(a);
    SignedIsBounded(b);
    SignedWord(a);
    SignedWord(b);
    ScaledOf16(1);
    var y: int := if mulhsu then Value(b) else SignedValue(b);
    SignOfProduct(SignedValue(a), y);
    MagnitudesAreBounded(Abs(SignedValue(a)), Abs(y));
    HighWordOfNegative(Value(product));
  }

  lemma SignOfProduct(x: int, y: int)
    ensures (x < 0) == (y < 0) ==> x * y == Abs(x) * Abs(y)
    ensures (x < 0) != (y < 0) ==> x * y == -(Abs(x) * Abs(y))
  {
  }

  lemma MagnitudesAreBounded(x: nat, y: nat)
    requires x <= 0x8000_0000 && y < 0x1_0000_0000
    ensures x * y <= 0x8000_0000_0000_0000
  {
    MulSub(0x8000_0000, x, y);
    assert (0x8000_0000 - x) * y >= 0;
  }

  lemma HighOfNegated(p: int, c: int, q: int)
    requires 0 < p <= c * c && c > 0 && q == -p / c
    ensures (c * c - p) % (c * c) / c == q + c
  {
    DivModUnique(c * c - p, c * c, 0, c * c - p);
    MulDistributes(q, c, c);
    DivModUnique(c * c - p, c, q + c, -p % c);
  }

  /** The top half of a negated double word is the floored quotient, wrapped to a word. */
  lemma HighWordOfNegative(p: int)
    requires 0 <= p <= 0x8000_0000_0000_0000
    ensures (0x1_0000_0000_0000_0000 - p) % 0x1_0000_0000_0000_0000 / 0x1_0000_0000 == Wrap(-p / 0x1_0000_0000)
    ensures p / 0x1_0000_0000 == Wrap(p / 0x1_0000_0000)
  {
    if p > 0 {
      var q := -p / 0x1_0000_0000;
      HighOfNegated(p, 0x1_0000_0000, q);
      WrapNegative(q);
    }
  }
}
