/** Signed division as the scripts check it: two fixed divisors, a sign test, and the unsigned
    check of the magnitudes. */
module SignedDivision {
  import opened Bits
  import opened Options
  import opened Nibbles
  import opened NibbleArithmetic
  import opened Multiplication
  import opened SignedProduct
  import opened Division
  import opened Machine
  import opened WordArithmetic

  /** A remainder is zero or has the dividend's sign; the quotient's sign bit is set exactly when
      divisor and dividend differ in sign. */
  predicate SignsAgree(dividend: u32, divisor: u32, quotient: u32, remainder: u32)
  {
    && (remainder == 0 || IsNegative(remainder) == IsNegative(dividend))
    && IsNegative(quotient) == (IsNegative(divisor) != IsNegative(dividend))
  }

  predicate SignedAccepted(dividend: u32, divisor: u32, quotient: u32, remainder: u32)
  {
    && SignsAgree(dividend, divisor, quotient, remainder)
    && Accepted(MagnitudeOfWord(dividend), MagnitudeOfWord(divisor), MagnitudeOfWord(quotient), MagnitudeOfWord(remainder))
  }

  lemma NegativeDigits(ns: seq<nibble>)
    requires |ns| == 8
    ensures Value(ns) < 0x1_0000_0000
    ensures (ns[0] > 7 <==> IsNegative(Value(ns))) && Abs(SignedValue(ns)) == MagnitudeOfWord(Value(ns))
  {
    hide Value, Scaled;
    TopNibble(ns);
    SignedWord(ns);
  }

  /** Test the signs and take the magnitudes; `None` is a failing script. */
  method SignCheck(dividend: seq<nibble>, divisor: seq<nibble>, quotient: seq<nibble>, remainder: seq<nibble>)
    returns (r: Option<(seq<nibble>, seq<nibble>, seq<nibble>, seq<nibble>)>)
    requires |dividend| == 8 && |divisor| == 8 && |quotient| == 8 && |remainder| == 8
    ensures AreWords(dividend, divisor, quotient, remainder)
    ensures r.Some? <==> SignsAgree(Value(dividend), Value(divisor), Value(quotient), Value(remainder))
    ensures r.Some? ==> r.value == (Magnitude(divisor), Magnitude(quotient), Magnitude(dividend), Magnitude(remainder))
  {
    hide Value, Scaled, NibblesOf, SignedValue;
    WordsAreWords(dividend, divisor, quotient, remainder);
    NegativeDigits(dividend);
    NegativeDigits(divisor);
    NegativeDigits(quotient);
    NegativeDigits(remainder);
    WordOfNibbles(0);
    var noRemainder := IsEqualTo(remainder, NibblesOf(0, 8));
    if !noRemainder && (remainder[0] > 7) != (dividend[0] > 7) { return None; }
    if (quotient[0] > 7) != ((divisor[0] > 7) != (dividend[0] > 7)) { return None; }
    var b := MagnitudeWord(divisor);
    var q := MagnitudeWord(quotient);
    var a := MagnitudeWord(dividend);
    var m := MagnitudeWord(remainder);
    r := Some((b, q, a, m));
  }

  lemma MagnitudeIsWord(ns: seq<nibble>)
    requires |ns| == 8
    ensures Value(ns) < 0x1_0000_0000
    ensures |Magnitude(ns)| == 8 && Value(Magnitude(ns)) == MagnitudeOfWord(Value(ns))
  {
    hide Value, NibblesOf, SignedValue;
    NegativeDigits(ns);
    WordOfNibbles(MagnitudeOfWord(Value(ns)));
  }

  /** The tables suffice for the check of the magnitudes, if it comes to that. */
  ghost predicate MagnitudesFit(dividend: seq<nibble>, divisor: seq<nibble>, quotient: seq<nibble>, remainder: seq<nibble>)
    requires |dividend| == 8 && |divisor| == 8 && |quotient| == 8 && |remainder| == 8
    requires AreWords(dividend, divisor, quotient, remainder)
  {
    var b := Value(divisor);
    b != 0 && b != 0xFFFF_FFFF && SignsAgree(Value(dividend), b, Value(quotient), Value(remainder))
    && MagnitudeOfWord(Value(remainder)) < MagnitudeOfWord(b)
    ==> ColumnsFit(Columns(Magnitude(divisor), Magnitude(quotient)))
  }

  /** The value of a fixed divisor: a constant, or the dividend. */
  function EdgeResult(dividend: seq<nibble>, result: Option<u32>): seq<nibble>
  {
    match result
    case Some(w) => NibblesOf(w, 8)
    case None => dividend
  }

  method DivisionAndRemainderSigned(dividend: seq<nibble>, divisor: seq<nibble>, quotient: seq<nibble>, remainder: seq<nibble>,
                                    result1: Option<u32>, result2: Option<u32>, isRemCheck: bool)
    returns (result: Option<seq<nibble>>)
    requires |dividend| == 8 && |divisor| == 8 && |quotient| == 8 && |remainder| == 8
    requires AreWords(dividend, divisor, quotient, remainder) && MagnitudesFit(dividend, divisor, quotient, remainder)
    ensures Value(divisor) == 0 ==> result == Some(EdgeResult(dividend, result1))
    ensures Value(divisor) == 0xFFFF_FFFF ==> result == Some(EdgeResult(dividend, result2))
    ensures Value(divisor) != 0 && Value(divisor) != 0xFFFF_FFFF ==>
              result == if SignedAccepted(Value(dividend), Value(divisor), Value(quotient), Value(remainder))
                        then Some(if isRemCheck then remainder else quotient) else None
  {
    hide Value, Columns, ColumnsFit, NibblesOf, Magnitude, SignsAgree, Accepted, MagnitudeOfWord;
    WordOfNibbles(0);
    WordOfNibbles(0xFFFF_FFFF);
    var isZero := IsEqualTo(NibblesOf(0, 8), divisor);
    if isZero { return Some(EdgeResult(dividend, result1)); }
    var isMinusOne := IsEqualTo(NibblesOf(0xFFFF_FFFF, 8), divisor);
    if isMinusOne { return Some(EdgeResult(dividend, result2)); }
    MagnitudeIsWord(dividend);
    MagnitudeIsWord(divisor);
    MagnitudeIsWord(quotient);
    MagnitudeIsWord(remainder);
    var signs := SignCheck(dividend, divisor, quotient, remainder);
    if signs.None? { return None; }
    var (b, q, a, m) := signs.value;
    var accepted := DivCheck(a, b, q, m);
    result := if accepted then Some(if isRemCheck then remainder else quotient) else None;
  }

  method DivScript(dividend: seq<nibble>, divisor: seq<nibble>, quotient: seq<nibble>, remainder: seq<nibble>)
    returns (result: Option<seq<nibble>>)
    requires |dividend| == 8 && |divisor| == 8 && |quotient| == 8 && |remainder| == 8
    requires AreWords(dividend, divisor, quotient, remainder) && MagnitudesFit(dividend, divisor, quotient, remainder)
    ensures var b := Value(divisor);
            && (result.Some? <==> b == 0 || b == 0xFFFF_FFFF || SignedAccepted(Value(dividend), b, Value(quotient), Value(remainder)))
            && (result.Some? ==> result.value == if b == 0 then NibblesOf(0xFFFF_FFFF, 8) else if b == 0xFFFF_FFFF then dividend else quotient)
  {
    hide Value, NibblesOf, SignedAccepted, MagnitudesFit;
    result := DivisionAndRemainderSigned(dividend, divisor, quotient, remainder, Some(0xFFFF_FFFF), None, false);
  }

  method RemScript(dividend: seq<nibble>, divisor: seq<nibble>, remainder: seq<nibble>, quotient: seq<nibble>)
    returns (result: Option<seq<nibble>>)
    requires |dividend| == 8 && |divisor| == 8 && |quotient| == 8 && |remainder| == 8
    requires AreWords(dividend, divisor, quotient, remainder) && MagnitudesFit(dividend, divisor, quotient, remainder)
    ensures var b := Value(divisor);
            && (result.Some? <==> b == 0 || b == 0xFFFF_FFFF || SignedAccepted(Value(dividend), b, Value(quotient), Value(remainder)))
            && (result.Some? ==> result.value == if b == 0 then dividend else if b == 0xFFFF_FFFF then NibblesOf(0, 8) else remainder)
  {
    hide Value, NibblesOf, SignedAccepted, MagnitudesFit;
    result := DivisionAndRemainderSigned(dividend, divisor, quotient, remainder, None, Some(0), true);
  }

  // ---------------------------------------------------------------- honest and accepted divisions

  /** The quotient is zero although divisor and dividend differ in sign: the sign test then
      expects a negative quotient, which zero is not. */
  predicate ZeroQuotientOfOppositeSigns(dividend: u32, divisor: u32)
  {
    IsNegative(dividend) != IsNegative(divisor) && MagnitudeOfWord(dividend) < MagnitudeOfWord(divisor)
  }

  /** For a divisor other than 0 and -1, the pair the emulator computes stays inside the tables,
      and it is accepted exactly when it is no zero quotient of opposite signs. */
  lemma HonestSignedDivision(op: ArithOp, a: u32, b: u32)
    requires (op == Machine.Div || op == Machine.Rem) && b != 0 && b != 0xFFFF_FFFF
    ensures ArithHint(op, a, b).Some?
    ensures var value, hint := ArithValue(op, a, b), ArithHint(op, a, b).value;
            var quotient, remainder := if op == Machine.Div then value else hint, if op == Machine.Div then hint else value;
            && (SignedAccepted(a, b, quotient, remainder) <==> !ZeroQuotientOfOppositeSigns(a, b))
            && MagnitudeOfWord(b) * MagnitudeOfWord(quotient) < 0x1_0000_0000
  {
    hide MagnitudeOfWord, TruncDiv, TruncRem, Signed, Wrap, Accepted;
    var value, hint := ArithValue(op, a, b), ArithHint(op, a, b).value;
    var q', r' := TruncatedParts(a, b);
    var q, r := TruncDiv(Signed(a), Signed(b)), TruncRem(Signed(a), Signed(b));
    var x, y := MagnitudeOfWord(a), MagnitudeOfWord(b);
    MagnitudeBound(a);
    MagnitudeBound(b);
    QuotientBelowHalf(a, b, q');
    WrapSigned(q);
    WrapSigned(r);
    if SignsAgree(a, b, Wrap(q), Wrap(r)) || !ZeroQuotientOfOppositeSigns(a, b) {
      TrueDivisionIsAccepted(x, y, q', r');
    }
  }

  /** The case that fails: -1 by 2 is 0, remainder -1, which the check refuses. */
  lemma HonestDivisionIsRefused()
    ensures ArithValue(Machine.Div, 0xFFFF_FFFF, 2) == 0 && ArithHint(Machine.Div, 0xFFFF_FFFF, 2) == Some(0xFFFF_FFFF)
    ensures !SignedAccepted(0xFFFF_FFFF, 2, 0, 0xFFFF_FFFF)
  {
  }

  /** An accepted pair is the true truncated quotient and remainder exactly when the magnitudes
      add up inside a word. */
  lemma SignedAcceptedIsTrueWithoutOverflow(a: u32, b: u32, q: u32, r: u32)
    requires SignedAccepted(a, b, q, r)
    ensures b != 0 && Signed(b) != 0
    ensures MagnitudeOfWord(b) * MagnitudeOfWord(q) + MagnitudeOfWord(r) < 0x1_0000_0000
            <==> Signed(q) == TruncDiv(Signed(a), Signed(b)) && Signed(r) == TruncRem(Signed(a), Signed(b))
  {
    hide MagnitudeOfWord, TruncDiv, TruncRem, Signed, Accepted, IsNegative;
    var x, y, u, v := MagnitudeOfWord(a), MagnitudeOfWord(b), MagnitudeOfWord(q), MagnitudeOfWord(r);
    AcceptedDivisor(x, y, u, v);
    SignedOfMagnitude(b);
    var q', r' := TruncatedParts(a, b);
    AcceptedIsTrueWithoutOverflow(x, y, u, v);
    DivModUnique(x, y, q', r');
    SignedOfMagnitude(q);
    SignedOfMagnitude(r);
    MagnitudeBound(q);
    MagnitudeBound(r);
    MagnitudeBound(a);
    ZeroIsNotNegative();
  }

  lemma AcceptedDivisor(x: u32, y: u32, u: u32, v: u32)
    requires Accepted(x, y, u, v)
    ensures y > 0
  {
  }

  lemma ZeroIsNotNegative()
    ensures !IsNegative(0)
  {
  }
}
