/** Division as the scripts check it: the prover supplies quotient and remainder. */
module Division {
  import opened Bits
  import opened Options
  import opened Nibbles
  import opened NibbleArithmetic
  import opened Multiplication
  import opened Machine

  /** What the check accepts. The last equation is modulo 2^32. */
  predicate Accepted(dividend: u32, divisor: u32, quotient: u32, remainder: u32)
  {
    && remainder < divisor
    && divisor * quotient < 0x1_0000_0000
    && Wrap(dividend - divisor * quotient) == remainder
  }

  method DivCheck(dividend: seq<nibble>, divisor: seq<nibble>, quotient: seq<nibble>, remainder: seq<nibble>)
    returns (accepted: bool)
    requires |dividend| == 8 && |divisor| == 8 && |quotient| == 8 && |remainder| == 8
    requires Value(remainder) < Value(divisor) ==> ColumnsFit(Columns(divisor, quotient))
    ensures AreWords(dividend, divisor, quotient, remainder)
    ensures accepted <==> Accepted(Value(dividend), Value(divisor), Value(quotient), Value(remainder))
  {
    hide Value, Columns, ColumnsFit;
    WordsAreWords(dividend, divisor, quotient, remainder);
    var lower := IsLowerThan(remainder, divisor, true);
    if !lower { return false; }
    var product := Multiply(divisor, quotient, FullProduct);
    var overflows := false;
    for i := 0 to 8
      invariant overflows <==> exists j :: 0 <= j < i && product[j] != 0
    {
      overflows := overflows || product[i] != 0;
    }
    HighDigits(product);
    if overflows { return false; }
    var difference := NibbleArithmetic.Sub(dividend, product[8..]);
    accepted := IsEqualTo(remainder, difference);
  }

  ghost predicate AreWords(a: seq<nibble>, b: seq<nibble>, c: seq<nibble>, d: seq<nibble>)
  {
    Value(a) < 0x1_0000_0000 && Value(b) < 0x1_0000_0000 && Value(c) < 0x1_0000_0000 && Value(d) < 0x1_0000_0000
  }

  lemma WordsAreWords(a: seq<nibble>, b: seq<nibble>, c: seq<nibble>, d: seq<nibble>)
    requires |a| == 8 && |b| == 8 && |c| == 8 && |d| == 8
    ensures AreWords(a, b, c, d)
  {
    WordIsBelow(a);
    WordIsBelow(b);
    WordIsBelow(c);
    WordIsBelow(d);
  }

  lemma HighDigits(product: seq<nibble>)
    requires |product| == 16
    ensures (exists j :: 0 <= j < 8 && product[j] != 0) <==> Value(product) >= 0x1_0000_0000
    ensures Value(product) < 0x1_0000_0000 ==> Value(product[8..]) == Value(product)
  {
    hide Value;
    Halves(product);
    var high := product[..8];
    if Value(high) == 0 {
      ZeroDigits(high);
      assert forall j :: 0 <= j < 8 ==> product[j] == high[j];
    } else if forall j :: 0 <= j < 8 ==> product[j] == 0 {
      assert high == seq(8, _ => 0);
      ValueOfZeros(8);
    }
  }

  /** Check a division, or use the fixed result for a zero divisor. `None` is a failing script. */
  method DivisionAndRemainder(dividend: seq<nibble>, divisor: seq<nibble>, quotient: seq<nibble>, remainder: seq<nibble>,
                              isRemCheck: bool) returns (result: Option<seq<nibble>>)
    requires |dividend| == 8 && |divisor| == 8 && |quotient| == 8 && |remainder| == 8
    requires Value(remainder) < Value(divisor) ==> ColumnsFit(Columns(divisor, quotient))
    ensures AreWords(dividend, divisor, quotient, remainder)
    ensures Value(divisor) == 0 ==> result == Some(if isRemCheck then dividend else NibblesOf(0xFFFF_FFFF, 8))
    ensures Value(divisor) != 0 ==>
              result == if Accepted(Value(dividend), Value(divisor), Value(quotient), Value(remainder))
                        then Some(if isRemCheck then remainder else quotient) else None
  {
    hide Value, Columns, ColumnsFit, NibblesOf;
    WordsAreWords(dividend, divisor, quotient, remainder);
    WordOfNibbles(0);
    var isZero := IsEqualTo(NibblesOf(0, 8), divisor);
    if isZero {
      result := Some(if isRemCheck then dividend else NibblesOf(0xFFFF_FFFF, 8));
    } else {
      var accepted := DivCheck(dividend, divisor, quotient, remainder);
      result := if accepted then Some(if isRemCheck then remainder else quotient) else None;
    }
  }

  method Divu(dividend: seq<nibble>, divisor: seq<nibble>, quotient: seq<nibble>, remainder: seq<nibble>)
    returns (result: Option<seq<nibble>>)
    requires |dividend| == 8 && |divisor| == 8 && |quotient| == 8 && |remainder| == 8
    requires Value(remainder) < Value(divisor) ==> ColumnsFit(Columns(divisor, quotient))
    ensures AreWords(dividend, divisor, quotient, remainder)
    ensures result.Some? <==> Value(divisor) == 0 || Accepted(Value(dividend), Value(divisor), Value(quotient), Value(remainder))
    ensures result.Some? ==> result.value == if Value(divisor) == 0 then NibblesOf(0xFFFF_FFFF, 8) else quotient
  {
    result := DivisionAndRemainder(dividend, divisor, quotient, remainder, false);
  }

  method Remu(dividend: seq<nibble>, divisor: seq<nibble>, remainder: seq<nibble>, quotient: seq<nibble>)
    returns (result: Option<seq<nibble>>)
    requires |dividend| == 8 && |divisor| == 8 && |quotient| == 8 && |remainder| == 8
    requires Value(remainder) < Value(divisor) ==> ColumnsFit(Columns(divisor, quotient))
    ensures AreWords(dividend, divisor, quotient, remainder)
    ensures result.Some? <==> Value(divisor) == 0 || Accepted(Value(dividend), Value(divisor), Value(quotient), Value(remainder))
    ensures result.Some? ==> result.value == if Value(divisor) == 0 then dividend else remainder
  {
    result := DivisionAndRemainder(dividend, divisor, quotient, remainder, true);
  }

  // ---------------------------------------------------------------- honest and accepted divisions

  lemma TrueDivisionIsAccepted(a: u32, b: u32, q: u32, r: u32)
    requires b * q + r == a && r < b
    ensures Accepted(a, b, q, r)
  {
    assert a - b * q == r;
  }

  lemma EmulatedDivision(a: u32, b: u32)
    requires b != 0
    ensures a / b < 0x1_0000_0000
    ensures ArithValue(Machine.Divu, a, b) == a / b && ArithHint(Machine.Divu, a, b) == Some(a % b)
    ensures ArithValue(Machine.Remu, a, b) == a % b && ArithHint(Machine.Remu, a, b) == Some(a / b)
  {
    QuotientTimes(a, b);
    FactorIsBelow(b, a / b, a);
  }

  /** The pair the emulator computes is accepted, and checking it stays inside every table. */
  lemma HonestDivisionPasses(op: ArithOp, a: u32, b: u32)
    requires (op == Machine.Divu || op == Machine.Remu) && b != 0
    ensures ArithHint(op, a, b).Some?
    ensures var value, hint := ArithValue(op, a, b), ArithHint(op, a, b).value;
            var quotient, remainder := if op == Machine.Divu then value else hint, if op == Machine.Divu then hint else value;
            Accepted(a, b, quotient, remainder) && ColumnsFit(Columns(NibblesOf(b, 8), NibblesOf(quotient, 8)))
  {
    hide Value, Columns, ColumnsFit, NibblesOf, ArithValue, ArithHint, Accepted;
    EmulatedDivision(a, b);
    QuotientTimes(a, b);
    TrueDivisionIsAccepted(a, b, a / b, a % b);
    WordOfNibbles(b);
    WordOfNibbles(a / b);
    WordProductsFit(NibblesOf(b, 8), NibblesOf(a / b, 8));
  }

  /** An accepted pair is the true quotient and remainder exactly when they add up inside a word. */
  lemma AcceptedIsTrueWithoutOverflow(dividend: u32, divisor: u32, quotient: u32, remainder: u32)
    requires Accepted(dividend, divisor, quotient, remainder)
    ensures Wrap(divisor * quotient + remainder) == dividend
    ensures divisor * quotient + remainder < 0x1_0000_0000
            <==> quotient == dividend / divisor && remainder == dividend % divisor
  {
    var p := divisor * quotient;
    assert Wrap(dividend - p) == remainder;
    WrapMoves(dividend, p, remainder);
    QuotientTimes(dividend, divisor);
    if p + remainder < 0x1_0000_0000 {
      MulCommutes(divisor, quotient);
      DivModUnique(dividend, divisor, quotient, remainder);
    }
  }

  lemma WrapMoves(a: u32, p: u32, r: u32)
    requires Wrap(a - p) == r
    ensures Wrap(p + r) == a
  {
  }

  /** A false pair is accepted: 4 divided by 2^32 - 1 as quotient 1, remainder 5. */
  lemma FalseDivisionIsAccepted()
    ensures Accepted(4, 0xFFFF_FFFF, 1, 5) && 4 / 0xFFFF_FFFF == 0 && 4 % 0xFFFF_FFFF == 4
    ensures ColumnsFit(Columns(NibblesOf(0xFFFF_FFFF, 8), NibblesOf(1, 8)))
  {
    hide Value, Columns, ColumnsFit, NibblesOf;
    WordOfNibbles(0xFFFF_FFFF);
    WordOfNibbles(1);
    WordProductsFit(NibblesOf(0xFFFF_FFFF, 8), NibblesOf(1, 8));
  }
}
