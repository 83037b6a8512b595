/** Word arithmetic as the emulator computes it, in machine integers of 32 and 64 bits, and what
    the RISC-V architecture asks of the same operations. */
module WordArithmetic {
  import opened Bits
  import opened Options
  import opened Trace
  import opened Machine

  type i32 = x: int | -0x8000_0000 <= x < 0x8000_0000
  type i64 = x: int | -0x8000_0000_0000_0000 <= x < 0x8000_0000_0000_0000

  /** The same 32 bits as a signed number. */
  function AsI32(w: u32): i32
  {
    Signed(w)
  }

  /** The low 32 bits of a machine integer. */
  function AsU32(x: int): u32
  {
    x % 0x1_0000_0000
  }

  // ---------------------------------------------------------------- signs and magnitudes

  predicate IsNegative(w: u32)
  {
    w >= 0x8000_0000
  }

  /** The magnitude of a word in two's complement. */
  function MagnitudeOfWord(w: u32): u32
  {
    if IsNegative(w) then 0x1_0000_0000 - w else w
  }

  lemma NegativeDivisor(x: nat, y: nat)
    requires y > 0
    ensures x / -(y as int) == -(x / y)
  {
    var q, r := x / -(y as int), x % -(y as int);
    assert x == q * -(y as int) + r && 0 <= r < y;
    NegativeFactor(q, y);
    DivModUnique(x, y, -q, r);
  }

  lemma NegativeFactor(q: int, y: int)
    ensures q * -y == -q * y
  {
  }

  lemma SignedProducts(y: int, q: int)
    ensures -y * q == -(y * q) && -y * -q == y * q && y * -q == -(y * q)
  {
  }

  /** Truncated division is division of the magnitudes, with the signs put back. */
  lemma TruncatedQuotients(x: nat, y: nat)
    requires y > 0
    ensures TruncDiv(x, y) == x / y && TruncDiv(x, -(y as int)) == -(x / y)
    ensures TruncDiv(-(x as int), y) == -(x / y) && TruncDiv(-(x as int), -(y as int)) == x / y
  {
    NegativeDivisor(x, y);
  }

  lemma TruncatedRemainders(x: nat, y: nat)
    requires y > 0
    ensures TruncRem(x, y) == x % y && TruncRem(x, -(y as int)) == x % y
    ensures TruncRem(-(x as int), y) == -(x % y) && TruncRem(-(x as int), -(y as int)) == -(x % y)
  {
    hide TruncDiv;
    TruncatedQuotients(x, y);
    QuotientTimes(x, y);
    SignedProducts(y, x / y);
  }

  lemma SignedOfMagnitude(w: u32)
    ensures Signed(w) == if IsNegative(w) then -(MagnitudeOfWord(w) as int) else MagnitudeOfWord(w)
    ensures w != 0 <==> MagnitudeOfWord(w) > 0
    ensures w != 0 <==> Signed(w) != 0
  {
  }

  lemma SmallQuotients(x: nat, y: nat)
    requires y > 0
    ensures x / y == 0 <==> x < y
  {
    QuotientTimes(x, y);
    if x < y { DivModUnique(x, y, 0, x); }
    if x / y == 0 { assert y * 0 == 0; }
  }

  lemma TruncatedParts(a: u32, b: u32) returns (q: int, r: int)
    requires b != 0
    ensures q >= 0 && r >= 0
    ensures Signed(b) != 0
    ensures MagnitudeOfWord(b) * q + r == MagnitudeOfWord(a) && r < MagnitudeOfWord(b) && q <= MagnitudeOfWord(a)
    ensures q == 0 <==> MagnitudeOfWord(a) < MagnitudeOfWord(b)
    ensures TruncDiv(Signed(a), Signed(b)) == if IsNegative(a) != IsNegative(b) then -q else q
    ensures TruncRem(Signed(a), Signed(b)) == if IsNegative(a) then -r else r
  {
    hide TruncDiv, TruncRem, Signed, MagnitudeOfWord, IsNegative;
    SignedOfMagnitude(a);
    SignedOfMagnitude(b);
    q, r := MagnitudeParts(MagnitudeOfWord(a), MagnitudeOfWord(b));
  }

  lemma MagnitudeParts(x: nat, y: nat) returns (q: int, r: int)
    requires y > 0
    ensures q >= 0 && r >= 0
    ensures q == x / y && r == x % y
    ensures y * q + r == x && r < y && q <= x && (q == 0 <==> x < y)
    ensures TruncDiv(x, y) == q && TruncDiv(x, -(y as int)) == -q
    ensures TruncDiv(-(x as int), y) == -q && TruncDiv(-(x as int), -(y as int)) == q
    ensures TruncRem(x, y) == r && TruncRem(x, -(y as int)) == r
    ensures TruncRem(-(x as int), y) == -r && TruncRem(-(x as int), -(y as int)) == -r
  {
    hide TruncDiv, TruncRem;
    q, r := x / y, x % y;
    QuotientTimes(x, y);
    FactorIsBelow(y, q, x);
    SmallQuotients(x, y);
    TruncatedQuotients(x, y);
    TruncatedRemainders(x, y);
  }

  /** A signed number wrapped to a word. */
  lemma WrapSigned(x: int)
    requires -0x8000_0000 <= x <= 0x8000_0000
    ensures var w := Wrap(x);
            && MagnitudeOfWord(w) == (if x < 0 then -x else x)
            && (x < 0x8000_0000 ==> (IsNegative(w) <==> x < 0) && Signed(w) == x)
  {
  }

  /** The words the emulator computes stand for the truncated quotient and remainder. */
  lemma OwnSignedPair(op: ArithOp, a: u32, b: u32)
    requires (op == Machine.Div || op == Machine.Rem) && b != 0 && b != 0xFFFF_FFFF
    ensures ArithHint(op, a, b).Some? && Signed(b) != 0
    ensures var value, hint := ArithValue(op, a, b), ArithHint(op, a, b).value;
            && Signed(if op == Machine.Div then value else hint) == TruncDiv(Signed(a), Signed(b))
            && Signed(if op == Machine.Div then hint else value) == TruncRem(Signed(a), Signed(b))
  {
    hide MagnitudeOfWord, TruncDiv, TruncRem, Signed, Wrap;
    var q, r := TruncatedParts(a, b);
    MagnitudeBound(a);
    MagnitudeBound(b);
    QuotientBelowHalf(a, b, q);
    WrapSigned(TruncDiv(Signed(a), Signed(b)));
    WrapSigned(TruncRem(Signed(a), Signed(b)));
  }

  lemma MagnitudeBound(w: u32)
    ensures MagnitudeOfWord(w) <= 0x8000_0000 && (IsNegative(w) ==> MagnitudeOfWord(w) > 0)
    ensures MagnitudeOfWord(w) == 0x8000_0000 ==> IsNegative(w)
  {
  }

  /** Only the smallest word has a magnitude of 2^31, and only a division by 1 keeps it. */
  lemma QuotientBelowHalf(a: u32, b: u32, q: nat)
    requires b != 0 && b != 0xFFFF_FFFF && MagnitudeOfWord(b) * q <= MagnitudeOfWord(a)
    ensures q == 0x8000_0000 ==> IsNegative(a) && !IsNegative(b)
    ensures q <= 0x8000_0000
  {
    var y := MagnitudeOfWord(b);
    FactorIsBelow(y, q, MagnitudeOfWord(a));
    AtLeastDouble(y, q);
  }

  lemma AtLeastDouble(y: nat, q: nat)
    ensures y >= 2 ==> y * q >= 2 * q
  {
    MulSub(y, 2, q);
    assert y >= 2 ==> (y - 2) * q >= 0;
  }

  // ---------------------------------------------------------------- the operations

  lemma ProductBound(x: int, y: int, m: int, n: int)
    requires -m <= x <= m && -n <= y <= n
    ensures -(m * n) <= x * y <= m * n
  {
    MagnitudesMultiply(if x < 0 then -x else x, if y < 0 then -y else y, m, n);
    SignedProducts(x, y);
  }

  lemma MagnitudesMultiply(x: nat, y: nat, m: nat, n: nat)
    requires x <= m && y <= n
    ensures 0 <= x * y <= m * n
  {
    assert (m - x) * y >= 0 && m * (n - y) >= 0;
  }

  /** The quotient and the remainder of signed words are signed words, but for the smallest
      number divided by minus one. */
  lemma QuotientFitsI32(a: u32, b: u32)
    requires b != 0 && b != 0xFFFF_FFFF
    ensures Signed(b) != 0
    ensures -0x8000_0000 <= TruncDiv(Signed(a), Signed(b)) < 0x8000_0000
    ensures -0x8000_0000 <= TruncRem(Signed(a), Signed(b)) < 0x8000_0000
  {
    hide TruncDiv, TruncRem, Signed;
    OwnSignedPair(Machine.Div, a, b);
    SignedRange(ArithValue(Machine.Div, a, b));
    SignedRange(ArithHint(Machine.Div, a, b).value);
  }

  lemma SignedRange(w: u32)
    ensures -0x8000_0000 <= Signed(w) < 0x8000_0000
  {
  }

  /** The result of a register-register operation; no intermediate result leaves its type. */
  method Arithmetic(op: ArithOp, v1: u32, v2: u32) returns (result: u32)
    ensures result == ArithValue(op, v1, v2)
  {
    hide TruncDiv, TruncRem, Signed, And, Or32, Xor32;
    SignedRange(v1);
    SignedRange(v2);
    match op {
      case Mul =>
        ProductBound(v1, v2, 0xFFFF_FFFF, 0xFFFF_FFFF);
        var product: u64 := v1 * v2;
        result := AsU32(product);
      case Mulh =>
        ProductBound(AsI32(v1), AsI32(v2), 0x8000_0000, 0x8000_0000);
        var product: i64 := AsI32(v1) * AsI32(v2);
        result := AsU32(product / 0x1_0000_0000);
      case Mulhsu =>
        ProductBound(AsI32(v1), v2, 0x8000_0000, 0xFFFF_FFFF);
        var product: i64 := AsI32(v1) * v2;
        result := AsU32(product / 0x1_0000_0000);
      case Mulhu =>
        ProductBound(v1, v2, 0xFFFF_FFFF, 0xFFFF_FFFF);
        var product: u64 := v1 * v2;
        result := AsU32(product / 0x1_0000_0000);
      case Div =>
        if v2 == 0 {
          result := 0xFFFF_FFFF;
        } else if v2 == 0xFFFF_FFFF {
          result := v1;
        } else {
          QuotientFitsI32(v1, v2);
          var quotient: i32 := TruncDiv(AsI32(v1), AsI32(v2));
          result := AsU32(quotient);
        }
      case Divu =>
        if v2 == 0 {
          result := 0xFFFF_FFFF;
        } else {
          QuotientFits(v1, v2);
          result := v1 / v2;
        }
      case Rem =>
        if v2 == 0 {
          result := v1;
        } else if v2 == 0xFFFF_FFFF {
          result := 0;
        } else {
          QuotientFitsI32(v1, v2);
          var remainder: i32 := TruncRem(AsI32(v1), AsI32(v2));
          result := AsU32(remainder);
        }
      case Remu =>
        if v2 == 0 {
          result := v1;
        } else {
          QuotientFits(v1, v2);
          result := v1 % v2;
        }
      case Sub => result := AsU32(v1 as int - v2);
      case XorOp => result := Xor32(v1, v2);
      case AndOp => result := And(v1, v2);
      case OrOp => result := Or32(v1, v2);
      case Add => result := AsU32(v1 as int + v2);
    }
  }

  lemma QuotientFits(x: u32, y: u32)
    requires y > 0
    ensures 0 <= x / y < 0x1_0000_0000 && Wrap(x / y) == x / y
    ensures 0 <= x % y < 0x1_0000_0000 && Wrap(x % y) == x % y
  {
    QuotientTimes(x, y);
    FactorIsBelow(y, x / y, x);
  }

  /** The other half of a division, to be handed to the script. */
  method Witness(op: ArithOp, v1: u32, v2: u32) returns (hint: Option<u32>)
    ensures hint == ArithHint(op, v1, v2)
  {
    hide ArithValue, ArithHint;
    HintIsOtherHalf(op, v1, v2);
    match op {
      case Rem => var other := Arithmetic(Machine.Div, v1, v2); hint := Some(other);
      case Div => var other := Arithmetic(Machine.Rem, v1, v2); hint := Some(other);
      case Remu => var other := Arithmetic(Machine.Divu, v1, v2); hint := Some(other);
      case Divu => var other := Arithmetic(Machine.Remu, v1, v2); hint := Some(other);
      case _ => hint := None;
    }
  }

  lemma HintIsOtherHalf(op: ArithOp, v1: u32, v2: u32)
    ensures ArithHint(op, v1, v2)
            == match op
               case Rem => Some(ArithValue(Machine.Div, v1, v2))
               case Div => Some(ArithValue(Machine.Rem, v1, v2))
               case Remu => Some(ArithValue(Machine.Divu, v1, v2))
               case Divu => Some(ArithValue(Machine.Remu, v1, v2))
               case _ => None
  {
    hide TruncDiv, TruncRem, Signed, Wrap;
  }

  /** The result of an operation on a register and an immediate. */
  method ArithmeticImm(op: ArithImmOp, v: u32, imm: u32) returns (result: u32)
    ensures result == ArithImmValue(op, v, imm)
  {
    hide And, Or32, Xor32;
    match op {
      case Addi => result := AsU32(AsI32(v) + AsI32(imm));
      case Andi => result := And(imm, v);
      case Ori => result := Or32(imm, v);
      case Xori => result := Xor32(imm, v);
    }
  }

  /** The low five bits of a shift amount. */
  lemma ShiftAmount(v: u32)
    ensures And(v, 0x1F) == v % 32
  {
    AndLowMask(v, 5);
    assert Pow2(5) == 32 by { assert Pow2(3) == 8; }
  }

  /** A word moved up, losing the bits that leave it. */
  function ShiftLeft(v: u32, n: nat): u32
    decreases n
  {
    if n == 0 then v else ShiftLeft(AsU32(2 * v), n - 1)
  }

  /** A number moved down; a signed one keeps its sign. */
  function ShiftRight(x: i64, n: nat): i64
    decreases n
  {
    if n == 0 then x else ShiftRight(x / 2, n - 1)
  }

  lemma {:induction false} ShiftLeftMultiplies(v: u32, n: nat)
    ensures ShiftLeft(v, n) == Wrap(v * Pow2(n))
    decreases n
  {
    if n > 0 {
      ShiftLeftMultiplies(AsU32(2 * v), n - 1);
      DoubleFirst(v, Pow2(n - 1));
    }
  }

  lemma DoubleFirst(v: nat, p: nat)
    ensures Wrap(Wrap(2 * v) * p) == Wrap(v * (2 * p))
  {
    hide Wrap;
    var w, k := Wrap(2 * v), 2 * v / 0x1_0000_0000;
    WrapSplits(2 * v);
    assert v * (2 * p) == (2 * v) * p == (w + 0x1_0000_0000 * k) * p == w * p + 0x1_0000_0000 * (k * p);
    WrapDropsMultiple(w * p, k * p);
  }

  lemma WrapSplits(x: nat)
    ensures x == Wrap(x) + 0x1_0000_0000 * (x / 0x1_0000_0000)
  {
  }

  lemma WrapDropsMultiple(x: nat, k: nat)
    ensures Wrap(x + 0x1_0000_0000 * k) == Wrap(x)
  {
    DivModUnique(x + 0x1_0000_0000 * k, 0x1_0000_0000, x / 0x1_0000_0000 + k, x % 0x1_0000_0000);
  }

  lemma {:induction false} ShiftRightDivides(x: i64, n: nat)
    ensures ShiftRight(x, n) == x / Pow2(n)
    decreases n
  {
    if n > 0 {
      ShiftRightDivides(x / 2, n - 1);
      DivTwice(x, Pow2(n - 1));
    }
  }

  lemma DivTwice(x: int, p: nat)
    requires p > 0
    ensures x / 2 / p == x / (2 * p)
  {
    var q, r := x / 2 / p, x / 2 % p;
    MulCommutes(q, p);
    assert x == 2 * (x / 2) + x % 2;
    DivModUnique(x, 2 * p, q, 2 * r + x % 2);
  }

  method ShiftSl(op: CompareOp, v1: u32, v2: u32) returns (result: u32)
    ensures result == CompareValue(op, v1, v2)
  {
    hide And, Pow2, ShiftLeft, ShiftRight;
    ShiftAmount(v2);
    var amount := And(v2, 0x1F);
    match op {
      case Sll =>
        ShiftLeftMultiplies(v1, amount);
        result := ShiftLeft(v1, amount);
      case Srl =>
        ShiftRightDivides(v1, amount);
        result := AsU32(ShiftRight(v1, amount));
      case Sra =>
        ShiftRightDivides(AsI32(v1), amount);
        result := AsU32(ShiftRight(AsI32(v1), amount));
      case Slt => result := if AsI32(v1) < AsI32(v2) then 1 else 0;
      case Sltu => result := if v1 < v2 then 1 else 0;
    }
  }

  method ShiftImm(op: ShiftImmOp, v: u32, shamt: Reg) returns (result: u32)
    ensures result == ShiftImmValue(op, v, shamt)
  {
    hide Pow2, ShiftLeft, ShiftRight;
    match op {
      case Slli =>
        ShiftLeftMultiplies(v, shamt);
        result := ShiftLeft(v, shamt);
      case Srli =>
        ShiftRightDivides(v, shamt);
        result := AsU32(ShiftRight(v, shamt));
      case Srai =>
        ShiftRightDivides(AsI32(v), shamt);
        result := AsU32(ShiftRight(AsI32(v), shamt));
    }
  }

  // ---------------------------------------------------------------- the architecture

  /** `q` is `a / b` rounded toward zero. */
  predicate IsQuotient(a: int, b: int, q: int)
  {
    IsRemainder(a, b, a - b * q)
  }

  /** `r` is smaller than the divisor and has the sign of the dividend. */
  predicate IsRemainder(a: int, b: int, r: int)
  {
    (if r < 0 then -r else r) < (if b < 0 then -b else b) && (r == 0 || (r < 0 <==> a < 0))
  }

  predicate IsMultiplyOrDivide(op: ArithOp)
  {
    match op
    case Mul | Mulh | Mulhsu | Mulhu | Div | Divu | Rem | Remu => true
    case _ => false
  }

  /** The word is the high half of a product. */
  predicate IsHighHalf(high: int, product: int)
  {
    0x1_0000_0000 * high <= product < 0x1_0000_0000 * (high + 1)
  }

  /** What chapter 7 of the RISC-V Unprivileged ISA (version 20191213), the M extension, asks of
      the result of an operation. */
  ghost predicate Conforms(op: ArithOp, v1: u32, v2: u32, r: u32)
    requires IsMultiplyOrDivide(op)
  {
    var overflow := v1 == 0x8000_0000 && v2 == 0xFFFF_FFFF;
    match op
    case Mul => (v1 * v2 - r) % 0x1_0000_0000 == 0
    case Mulh => IsHighHalf(Signed(r), Signed(v1) * Signed(v2))
    case Mulhsu => IsHighHalf(Signed(r), Signed(v1) * v2)
    case Mulhu => IsHighHalf(r, v1 * v2)
    case Div =>
      if v2 == 0 then r == 0xFFFF_FFFF else if overflow then r == 0x8000_0000
      else IsQuotient(Signed(v1), Signed(v2), Signed(r))
    case Divu => if v2 == 0 then r == 0xFFFF_FFFF else IsQuotient(v1, v2, r)
    case Rem =>
      if v2 == 0 then r == v1 else if overflow then r == 0
      else IsRemainder(Signed(v1), Signed(v2), Signed(r)) && exists q: int :: Signed(v1) == Signed(v2) * q + Signed(r)
    case Remu => if v2 == 0 then r == v1 else IsRemainder(v1, v2, r) && exists q: int :: v1 == v2 * q + r
    case _ => true
  }

  /** The quotient by minus one, which the code takes to be the dividend. */
  predicate NegatedQuotient(op: ArithOp, v1: u32, v2: u32)
  {
    op == Machine.Div && v2 == 0xFFFF_FFFF && v1 != 0 && v1 != 0x8000_0000
  }

  /** The high half of a product of two words, each signed or not. */
  lemma HighHalf(v1: u32, v2: u32, signed1: bool, signed2: bool)
    requires signed2 ==> signed1
    ensures var x: int, y: int := if signed1 then Signed(v1) else v1, if signed2 then Signed(v2) else v2;
            var w := Wrap(x * y / 0x1_0000_0000);
            IsHighHalf(if signed1 then Signed(w) else w, x * y)
  {
    hide Signed, IsHighHalf, Wrap;
    SignedRange(v1);
    SignedRange(v2);
    var x: int, y: int := if signed1 then Signed(v1) else v1, if signed2 then Signed(v2) else v2;
    ProductBound(x, y, if signed1 then 0x8000_0000 else 0xFFFF_FFFF, 0xFFFF_FFFF);
    if !signed1 { assert x * y >= 0; }
    HighHalfOf(x * y, signed1);
  }

  lemma HighHalfOf(product: int, signed: bool)
    requires if signed then -0x7FFF_FFFF_8000_0000 <= product <= 0x7FFF_FFFF_8000_0000 else 0 <= product <= 0xFFFF_FFFE_0000_0001
    ensures var w := Wrap(product / 0x1_0000_0000); IsHighHalf(if signed then Signed(w) else w, product)
  {
    if signed { SignedWrap(product / 0x1_0000_0000); }
  }

  lemma LowHalf(product: int)
    ensures (product - Wrap(product)) % 0x1_0000_0000 == 0
  {
  }

  lemma SignedWrap(x: int)
    requires -0x8000_0000 <= x < 0x8000_0000
    ensures Signed(Wrap(x)) == x
  {
  }

  lemma ByMinusOne(v: u32)
    ensures Signed(0xFFFF_FFFF) == -1 && Signed(0) == 0
    ensures IsQuotient(Signed(v), -1, Signed(v)) <==> v == 0
    ensures IsRemainder(Signed(v), -1, 0) && Signed(v) == -1 * -Signed(v)
  {
  }

  lemma SignedDivisionConforms(v1: u32, v2: u32)
    requires v2 != 0 && v2 != 0xFFFF_FFFF
    ensures IsQuotient(Signed(v1), Signed(v2), Signed(ArithValue(Machine.Div, v1, v2)))
    ensures IsRemainder(Signed(v1), Signed(v2), Signed(ArithValue(Machine.Rem, v1, v2)))
    ensures exists q: int :: Signed(v1) == Signed(v2) * q + Signed(ArithValue(Machine.Rem, v1, v2))
  {
    hide TruncDiv, Signed, ArithValue, ArithHint, MagnitudeOfWord;
    OwnSignedPair(Machine.Div, v1, v2);
    OwnSignedPair(Machine.Rem, v1, v2);
    var q, r := TruncatedParts(v1, v2);
    SignedOfMagnitude(v1);
    SignedOfMagnitude(v2);
    var t := TruncDiv(Signed(v1), Signed(v2));
    assert Signed(v1) == Signed(v2) * t + Signed(ArithValue(Machine.Rem, v1, v2));
  }

  lemma UnsignedDivisionConforms(v1: u32, v2: u32)
    requires v2 != 0
    ensures IsQuotient(v1, v2, ArithValue(Machine.Divu, v1, v2))
    ensures IsRemainder(v1, v2, ArithValue(Machine.Remu, v1, v2))
    ensures exists q: int :: v1 == v2 * q + ArithValue(Machine.Remu, v1, v2)
  {
    QuotientFits(v1, v2);
    QuotientTimes(v1, v2);
    assert v1 == v2 * (v1 / v2) + v1 % v2;
  }

  /** The multiplications and divisions are those of the architecture, except that a signed
      division by minus one does not change the sign. */
  lemma ConformsUnlessNegated(op: ArithOp, v1: u32, v2: u32)
    requires IsMultiplyOrDivide(op)
    ensures Conforms(op, v1, v2, ArithValue(op, v1, v2)) <==> !NegatedQuotient(op, v1, v2)
  {
    hide TruncDiv, TruncRem, Signed, ArithHint, Wrap, IsHighHalf, IsQuotient, IsRemainder;
    match op {
      case Mul => LowHalf(v1 * v2);
      case Mulh => HighHalf(v1, v2, true, true);
      case Mulhsu => HighHalf(v1, v2, true, false);
      case Mulhu => HighHalf(v1, v2, false, false);
      case Div | Rem =>
        if v2 == 0xFFFF_FFFF { ByMinusOne(v1); } else if v2 != 0 { SignedDivisionConforms(v1, v2); }
      case Divu | Remu => if v2 != 0 { UnsignedDivisionConforms(v1, v2); }
      case _ =>
    }
  }

  /** The case that fails: 5 by -1 is taken to be 5. */
  lemma DivisionByMinusOneKeepsSign()
    ensures ArithValue(Machine.Div, 5, 0xFFFF_FFFF) == 5 && !Conforms(Machine.Div, 5, 0xFFFF_FFFF, 5)
  {
    ConformsUnlessNegated(Machine.Div, 5, 0xFFFF_FFFF);
  }
}
