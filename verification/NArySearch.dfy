/** The n-ary search: its definition, the steps of a round, the verifier's choice of a
    segment and the map from steps to the hashes the prover sent for them. */
module NArySearch {
  import opened Bits
  import opened Options

  function CeilLog2(n: nat): (k: nat)
    requires n >= 1
    ensures n <= Pow2(k) && (k > 0 ==> Pow2(k - 1) < n)
  {
    var k := FloorLog2(n);
    if Pow2(k) == n then k else k + 1
  }

  /** A product by a whole number of rounds, kept apart from the solver's own arithmetic. */
  function Times(n: nat, k: nat): nat
  {
    if n == 0 then 0 else k + Times(n - 1, k)
  }

  lemma {:induction false} TimesIsProduct(n: nat, k: nat)
    ensures Times(n, k) == n * k
  {
    if n != 0 {
      TimesIsProduct(n - 1, k);
      assert n * k == k + (n - 1) * k;
    }
  }

  function Power(base: nat, e: nat): nat
  {
    if e == 0 then 1 else base * Power(base, e - 1)
  }

  lemma {:induction false} PowerOfPow2(k: nat, e: nat)
    ensures Power(Pow2(k), e) == Pow2(Times(e, k))
  {
    if e != 0 {
      PowerOfPow2(k, e - 1);
      Pow2Add(k, Times(e - 1, k));
    }
  }

  lemma {:induction false} TimesSplit(m: nat, n: nat, k: nat)
    ensures Times(m + n, k) == Times(m, k) + Times(n, k)
  {
    if m != 0 {
      TimesSplit(m - 1, n, k);
    }
  }

  lemma QuotientOfProduct(p: nat, w: nat)
    requires p > 0
    ensures p * w / p == w
  {
    DivModUnique(p * w, p, w, 0);
  }

  lemma DivModIdentity(b: nat, k: nat)
    requires k > 0
    ensures Times(b / k, k) + b % k == b
  {
    TimesIsProduct(b / k, k);
  }

  datatype NArySearchDefinition = NArySearchDefinition(
    maxSteps: nat, nary: nat, fullRounds: nat, naryLastRound: nat)
  {
    /** What `New` builds for a power-of-two arity. */
    predicate Valid()
    {
      && nary > 1 && nary == Pow2(BitsNary())
      && (naryLastRound == 0 || (naryLastRound > 1 && naryLastRound == Pow2(BitsLastRound())))
      && maxSteps == Pow2(Shift(0))
    }

    static function New(aproxMaxSteps: nat, nary: nat): (d: NArySearchDefinition)
      requires aproxMaxSteps >= 1 && nary > 1
    {
      var maxBits := CeilLog2(aproxMaxSteps);
      var naryBits := FloorLog2(nary);
      Rounds(maxBits, nary, maxBits / naryBits, maxBits % naryBits)
    }

    static function Rounds(maxBits: nat, nary: nat, fullRounds: nat, bitsLeft: nat): NArySearchDefinition
    {
      NArySearchDefinition(Pow2(maxBits), nary, fullRounds, if bitsLeft == 0 then 0 else Pow2(bitsLeft))
    }

    function BitsNary(): nat
    {
      if nary == 0 then 0 else FloorLog2(nary)
    }

    /** The logarithm of a zero arity saturates to 0 when it is cast to an integer. */
    function BitsLastRound(): nat
    {
      if naryLastRound == 0 then 0 else FloorLog2(naryLastRound)
    }

    function TotalRounds(): nat
    {
      fullRounds + if naryLastRound > 0 then 1 else 0
    }

    /** Number of segments a round splits its interval into. */
    function Digits(round: nat): nat
    {
      if round <= fullRounds then nary else naryLastRound
    }

    function Shift(round: nat): nat
    {
      if round <= fullRounds then Times(fullRounds - round, BitsNary()) + BitsLastRound() else 0
    }

    /** Steps per segment of a round; `Weight(0)` is the whole execution. */
    function Weight(round: nat): nat
    {
      Pow2(Shift(round))
    }

    function StepBitsForRound(round: nat, step: nat): nat
      requires nary >= 1 && (round > fullRounds ==> naryLastRound >= 1)
    {
      if round <= fullRounds then
        Shr(And(step, Shl(nary - 1, Shift(round))), Shift(round))
      else
        And(step, naryLastRound - 1)
    }

    function StepFromBaseAndBits(round: nat, base: nat, bits: nat): nat
    {
      if round <= fullRounds then base + Shl(bits, Shift(round)) else base + bits
    }

    /** The digit of a round reads the masked and shifted bits of the step. */
    lemma StepBitsIsDigit(round: nat, step: nat)
      requires Valid() && 1 <= round <= TotalRounds()
      ensures StepBitsForRound(round, step) == (step / Weight(round)) % Digits(round)
    {
      if round <= fullRounds {
        var s := Shift(round);
        AndShiftedMask(step, nary - 1, s);
        ShrShl(And(Shr(step, s), nary - 1), s);
        ShrIsQuotient(step, s);
        AndLowMask(step / Pow2(s), BitsNary());
      } else {
        AndLowMask(step, BitsLastRound());
        assert Weight(round) == 1 by { assert Pow2(0) == 1; }
        assert step / 1 == step;
      }
    }

    lemma StepFromBaseIsSum(round: nat, base: nat, bits: nat)
      ensures StepFromBaseAndBits(round, base, bits) == base + bits * Weight(round)
    {
      if round <= fullRounds {
        ShlIsProduct(bits, Shift(round));
      } else {
        assert Weight(round) == 1 by { assert Pow2(0) == 1; }
      }
    }

    lemma StepFromBaseGrows(round: nat, base: nat, bits: nat)
      requires bits >= 1
      ensures StepFromBaseAndBits(round, base, bits) >= base + Weight(round) >= base + 1
    {
      StepFromBaseIsSum(round, base, bits);
      MulGrows(bits, Weight(round));
    }

    /** Each round divides its interval into `Digits` equal segments, down to single steps. */
    lemma WeightOfRound(round: nat)
      requires Valid() && 1 <= round <= TotalRounds()
      ensures Weight(round - 1) == Digits(round) * Weight(round)
      ensures Digits(round) >= 2
    {
      if round <= fullRounds {
        Pow2Add(BitsNary(), Shift(round));
      } else {
        assert Weight(round) == 1 by { assert Pow2(0) == 1; }
        assert Shift(round - 1) == BitsLastRound() by { assert Times(0, BitsNary()) == 0; }
      }
    }

    lemma WeightEnds()
      requires Valid()
      ensures Weight(0) == maxSteps
      ensures Weight(TotalRounds()) == 1
    {
      assert Pow2(0) == 1;
    }

    /** The interval the code divides out with an integer power is the weight of the round. */
    lemma IntervalIsWeight(round: nat)
      requires Valid() && 1 <= round <= fullRounds
      ensures Power(nary, round) > 0
      ensures maxSteps / Power(nary, round) == Weight(round)
    {
      PowerOfPow2(BitsNary(), round);
      TimesSplit(round, fullRounds - round, BitsNary());
      Pow2Add(Times(round, BitsNary()), Shift(round));
      QuotientOfProduct(Power(nary, round), Weight(round));
    }

    ghost predicate IsRequired(round: nat, start: nat, steps: seq<nat>)
    {
      && |steps| == Digits(round) - 1
      && forall i :: 0 <= i < |steps| ==> steps[i] == start + (i + 1) * Weight(round)
    }

    method RequiredSteps(round: nat, start: nat) returns (steps: seq<nat>)
      requires Valid() && 1 <= round <= TotalRounds()
      ensures IsRequired(round, start, steps)
    {
      steps := [];
      if round <= fullRounds {
        IntervalIsWeight(round);
        for i := 1 to nary
          invariant |steps| == i - 1
          invariant forall j :: 0 <= j < |steps| ==> steps[j] == start + (j + 1) * Weight(round)
        {
          var interval := maxSteps / Power(nary, round);
          steps := steps + [start + i * interval];
        }
      } else {
        assert Weight(round) == 1 by { assert Pow2(0) == 1; }
        for i := 1 to naryLastRound
          invariant |steps| == i - 1
          invariant forall j :: 0 <= j < |steps| ==> steps[j] == start + (j + 1) * Weight(round)
        {
          steps := steps + [start + i];
        }
      }
    }
  }

  lemma RoundsIsValid(b: nat, k: nat, full: nat, left: nat)
    requires left < k && b == Times(full, k) + left
    ensures Pow2(k) > 1
    ensures var d := NArySearchDefinition.Rounds(b, Pow2(k), full, left);
            d.Valid() && d.naryLastRound < d.nary && d.maxSteps == Pow2(b)
  {
    hide FloorLog2, Times;
    assert Pow2(k) == 2 * Pow2(k - 1);
    FloorLog2OfPow2(k);
    if left != 0 {
      FloorLog2OfPow2(left);
      assert Pow2(left) == 2 * Pow2(left - 1);
      Pow2Monotone(left + 1, k);
    }
  }

  /** For a power-of-two arity the definition is valid and covers the requested steps with
      the least power of two. */
  lemma NewIsValid(aproxMaxSteps: nat, k: nat) returns (d: NArySearchDefinition)
    requires aproxMaxSteps >= 1 && k >= 1
    ensures Pow2(k) > 1
    ensures d == NArySearchDefinition.New(aproxMaxSteps, Pow2(k))
    ensures d.Valid() && d.naryLastRound < d.nary
    ensures aproxMaxSteps <= d.maxSteps
    ensures d.maxSteps > 1 ==> d.maxSteps < 2 * aproxMaxSteps
  {
    FloorLog2OfPow2(k);
    var b := CeilLog2(aproxMaxSteps);
    var full, left := b / k, b % k;
    DivModIdentity(b, k);
    RoundsIsValid(b, k, full, left);
    d := NArySearchDefinition.Rounds(b, Pow2(k), full, left);
  }

  // ---------------------------------------------------------------- choosing a segment

  /** Position (from 1) of the first hash that differs, one past the last hash if none does;
      `None` when the verifier's list is too short to be compared. */
  function FirstMismatch<H(==)>(prover: seq<H>, mine: seq<H>, i: nat): (r: Option<nat>)
    requires i <= |prover|
    ensures r.Some? ==> 1 <= r.value <= |prover| + 1
    decreases |prover| - i
  {
    if i == |prover| then Some(|prover| + 1)
    else if i >= |mine| then None
    else if prover[i] != mine[i] then Some(i + 1)
    else FirstMismatch(prover, mine, i + 1)
  }

  datatype Segment = Segment(bits: nat, base: nat, choice: nat)

  function SegmentFor(d: NArySearchDefinition, base: nat, selected: nat, round: nat, selection: nat): Segment
    requires d.Valid() && 1 <= round <= d.TotalRounds() && selection >= 1
  {
    d.StepFromBaseGrows(round, base, selection);
    var mismatch: nat := d.StepFromBaseAndBits(round, base, selection) - 1;
    var bits := if selected < mismatch then d.StepBitsForRound(round, selected) else selection - 1;
    Segment(bits, d.StepFromBaseAndBits(round, base, bits),
            if mismatch < selected then mismatch else selected)
  }

  ghost predicate IsFirstMismatch<H>(prover: seq<H>, mine: seq<H>, n: nat)
  {
    && 1 <= n <= |prover| + 1 <= |mine| + 1
    && (forall j :: 0 <= j < n - 1 ==> prover[j] == mine[j])
    && (n <= |prover| ==> prover[n - 1] != mine[n - 1])
  }

  lemma MismatchIsLeast<H>(prover: seq<H>, mine: seq<H>, i: nat)
    requires i <= |prover| <= |mine|
    requires forall j :: 0 <= j < i ==> prover[j] == mine[j]
    ensures FirstMismatch(prover, mine, i).Some?
    ensures IsFirstMismatch(prover, mine, FirstMismatch(prover, mine, i).value)
    decreases |prover| - i
  {
    if i < |prover| && prover[i] == mine[i] { MismatchIsLeast(prover, mine, i + 1); }
  }

  /** The verifier's choice. Indexing a verifier list shorter than the prover's aborts. */
  method ChooseSegment<H(==)>(d: NArySearchDefinition, base: nat, selected: nat, round: nat,
                              prover: seq<H>, mine: seq<H>) returns (r: Option<Segment>)
    requires d.Valid() && 1 <= round <= d.TotalRounds()
    ensures r.None? <==> FirstMismatch(prover, mine, 0).None?
    ensures r.Some? ==> r.value == SegmentFor(d, base, selected, round, FirstMismatch(prover, mine, 0).value)
  {
    var selection := |prover| + 1;
    var i := 0;
    while i < |prover|
      invariant 0 <= i <= |prover|
      invariant selection == |prover| + 1
      invariant FirstMismatch(prover, mine, 0) == FirstMismatch(prover, mine, i)
    {
      if i >= |mine| { return None; }
      if prover[i] != mine[i] {
        selection := i + 1;
        break;
      }
      i := i + 1;
    }
    d.StepFromBaseGrows(round, base, selection);
    var mismatchStep: nat := d.StepFromBaseAndBits(round, base, selection) - 1;
    var lowerLimitBits := if selected < mismatchStep then d.StepBitsForRound(round, selected) else selection - 1;
    var choice := if mismatchStep < selected then mismatchStep else selected;
    r := Some(Segment(lowerLimitBits, d.StepFromBaseAndBits(round, base, lowerLimitBits), choice));
  }

  ghost predicate IsMultiple(n: nat, w: nat)
  {
    exists q: nat :: n == Times(q, w)
  }

  /** Where the search stands after a round: aligned to the round's segments and holding the
      selected step inside the current segment. */
  ghost predicate Located(d: NArySearchDefinition, round: nat, base: nat, selected: nat)
  {
    && IsMultiple(base, d.Weight(round))
    && base <= selected < base + d.Weight(round)
  }

  lemma QuotientBetween(k: int, rest: int, b: int, digits: int, w: int)
    requires w >= 1 && 0 <= rest < w
    requires b * w <= k * w + rest < (b + digits) * w
    ensures b <= k < b + digits
  {
    MulSub(k, b, w);
    MulGrows(k - b, w);
    MulSub(b + digits, k, w);
    MulGrows(b + digits - k, w);
  }

  /** The digit of a step inside an aligned interval of `digits` segments of size `w`. */
  lemma DigitLocates(base: nat, selected: nat, digits: nat, w: nat)
    requires digits >= 1 && w >= 1
    requires IsMultiple(base, digits * w) && base <= selected < base + digits * w
    ensures var bits := (selected / w) % digits;
            && bits < digits
            && base + bits * w <= selected < base + bits * w + w
  {
    hide Times;
    var q: nat :| base == Times(q, digits * w);
    var b := q * digits;
    TimesIsProduct(q, digits * w);
    MulAssoc(q, digits, w);
    var k, rest := selected / w, selected % w;
    DivModIdentity(selected, w);
    MulSub(b, -(digits as int), w);
    QuotientBetween(k, rest, b, digits, w);
    var bits := k - b;
    DivModUnique(k, digits, q, bits);
    MulSub(k, b, w);
  }

  /** A multiple of the larger segment plus whole smaller segments is aligned to the smaller. */
  lemma StaysAligned(base: nat, bits: nat, digits: nat, w: nat)
    requires IsMultiple(base, digits * w)
    ensures IsMultiple(base + bits * w, w)
  {
    var q: nat :| base == Times(q, digits * w);
    TimesIsProduct(q, digits * w);
    MulAssoc(q, digits, w);
    var n := q * digits + bits;
    MulSub(n, bits, w);
    TimesIsProduct(n, w);
    assert base + bits * w == Times(n, w);
  }

  /** One round keeps the search located, never widens it, and records what moved it: the
      hash just above a lowered choice is the mismatching one, and every hash up to the new
      base was found equal. */
  lemma SegmentNarrows(d: NArySearchDefinition, base: nat, selected: nat, round: nat, selection: nat)
    requires d.Valid() && 1 <= round <= d.TotalRounds() && Located(d, round - 1, base, selected)
    requires 1 <= selection <= d.Digits(round)
    ensures var s, w := SegmentFor(d, base, selected, round, selection), d.Weight(round);
            && s.bits < d.Digits(round) && s.bits < selection
            && s.base == base + s.bits * w
            && s.base + w <= base + d.Weight(round - 1)
            && Located(d, round, s.base, s.choice)
            && s.choice <= selected
            && (s.choice < selected ==> selection < d.Digits(round) && s.choice + 1 == base + selection * w)
  {
    hide NArySearchDefinition.Valid, NArySearchDefinition.Weight, NArySearchDefinition.Digits, SegmentFor, IsMultiple;
    var w, digits := d.Weight(round), d.Digits(round);
    d.WeightOfRound(round);
    DigitLocates(base, selected, digits, w);
    var digit := (selected / w) % digits;
    SegmentValues(d, base, selected, round, selection);
    var s := SegmentFor(d, base, selected, round, selection);
    StaysAligned(base, s.bits, digits, w);
    DigitIsBelow(base, selected, digit, selection, w);
    FewerSegments(digits, s.bits, w);
    FewerSegments(digits, selection, w);
  }

  /** The segment: the digit of the selected step if that is below the mismatch, otherwise the
      segment just below the mismatch. */
  lemma SegmentValues(d: NArySearchDefinition, base: nat, selected: nat, round: nat, selection: nat)
    requires d.Valid() && 1 <= round <= d.TotalRounds() && 1 <= selection <= d.Digits(round)
    ensures var s, w := SegmentFor(d, base, selected, round, selection), d.Weight(round);
            && d.Digits(round) >= 2
            && s.bits == (if selected + 1 < base + selection * w then (selected / w) % d.Digits(round) else selection - 1)
            && s.base == base + s.bits * w
            && s.choice == (if base + selection * w <= selected then base + selection * w - 1 else selected)
            && (selection - 1) * w + w == selection * w
  {
    hide NArySearchDefinition.Valid, NArySearchDefinition.Weight, NArySearchDefinition.Digits,
         NArySearchDefinition.StepFromBaseAndBits, NArySearchDefinition.StepBitsForRound;
    d.WeightOfRound(round);
    d.StepFromBaseIsSum(round, base, selection);
    d.StepBitsIsDigit(round, selected);
    var s := SegmentFor(d, base, selected, round, selection);
    d.StepFromBaseIsSum(round, base, s.bits);
    MulSub(selection, 1, d.Weight(round));
  }

  /** The digit of a step below a segment border is below the border's number. */
  lemma DigitIsBelow(base: nat, selected: nat, digit: nat, selection: nat, w: nat)
    requires w > 0 && base + digit * w <= selected < base + digit * w + w
    ensures selected < base + selection * w ==> digit < selection && digit * w + w <= selection * w
  {
    FewerSegments(digit, selection, w);
    FewerSegments(selection, digit, w);
  }

  lemma FewerSegments(more: nat, fewer: nat, w: nat)
    requires w > 0
    ensures fewer < more ==> fewer * w + w <= more * w
    ensures fewer <= more ==> fewer * w <= more * w
  {
    if fewer < more {
      MulSub(more, fewer, w);
      MulGrows(more - fewer, w);
    }
  }

  /** A mismatch above the selected step leaves the choice as if there were none. */
  lemma MismatchAboveIsIgnored(d: NArySearchDefinition, base: nat, selected: nat, round: nat, selection: nat)
    requires d.Valid() && 1 <= round <= d.TotalRounds() && Located(d, round - 1, base, selected)
    requires 1 <= selection <= d.Digits(round)
    requires base + selection * d.Weight(round) > selected
    ensures var bits := d.StepBitsForRound(round, selected);
            SegmentFor(d, base, selected, round, selection)
            == Segment(bits, d.StepFromBaseAndBits(round, base, bits), selected)
  {
    var w, digits := d.Weight(round), d.Digits(round);
    d.WeightOfRound(round);
    d.StepFromBaseIsSum(round, base, selection);
    d.StepBitsIsDigit(round, selected);
    DigitLocates(base, selected, digits, w);
    var bits: int := d.StepBitsForRound(round, selected);
    var s := SegmentFor(d, base, selected, round, selection);
    if selected >= base + selection * w - 1 {
      MulSub(selection, 1, w);
      MulSub(selection - 1, bits, w);
      MulGrows(selection - 1 - bits, w);
    }
  }

  /** The choice depends only on hashes of steps up to the selected one: fillers for steps
      past the end of an execution never change it, whoever supplies them. */
  lemma PaddingIsHarmless<H>(d: NArySearchDefinition, base: nat, selected: nat, round: nat,
                             prover: seq<H>, mine: seq<H>, prover': seq<H>, mine': seq<H>)
    requires d.Valid() && 1 <= round <= d.TotalRounds() && Located(d, round - 1, base, selected)
    requires |prover| == |mine| == |prover'| == |mine'| == d.Digits(round) - 1
    requires forall i :: 0 <= i < |prover| && ReachedBy(d, base, selected, round, i + 1)
                         ==> prover[i] == prover'[i] && mine[i] == mine'[i]
    ensures FirstMismatch(prover, mine, 0).Some? && FirstMismatch(prover', mine', 0).Some?
    ensures SegmentFor(d, base, selected, round, FirstMismatch(prover, mine, 0).value)
            == SegmentFor(d, base, selected, round, FirstMismatch(prover', mine', 0).value)
  {
    MismatchIsLeast(prover, mine, 0);
    MismatchIsLeast(prover', mine', 0);
    var n, n' := FirstMismatch(prover, mine, 0).value, FirstMismatch(prover', mine', 0).value;
    if ReachedBy(d, base, selected, round, n) {
      ReachedMismatchIsShared(d, base, selected, round, prover, mine, prover', mine', n, n');
    } else if ReachedBy(d, base, selected, round, n') {
      ReachedMismatchIsShared(d, base, selected, round, prover', mine', prover, mine, n', n);
    } else {
      MismatchAboveIsIgnored(d, base, selected, round, n);
      MismatchAboveIsIgnored(d, base, selected, round, n');
    }
  }

  ghost predicate ReachedBy(d: NArySearchDefinition, base: nat, selected: nat, round: nat, n: nat)
  {
    base + n * d.Weight(round) <= selected
  }

  lemma ReachedMismatchIsShared<H>(d: NArySearchDefinition, base: nat, selected: nat, round: nat,
                                   prover: seq<H>, mine: seq<H>, prover': seq<H>, mine': seq<H>,
                                   n: nat, n': nat)
    requires d.Valid() && 1 <= round <= d.TotalRounds() && Located(d, round - 1, base, selected)
    requires IsFirstMismatch(prover, mine, n) && IsFirstMismatch(prover', mine', n')
    requires |prover| == |mine| == |prover'| == |mine'| == d.Digits(round) - 1
    requires ReachedBy(d, base, selected, round, n)
    requires forall i :: 0 <= i < |prover| && ReachedBy(d, base, selected, round, i + 1)
                         ==> prover[i] == prover'[i] && mine[i] == mine'[i]
    ensures n == n'
  {
    d.WeightOfRound(round);
    var w := d.Weight(round);
    MulSub(d.Digits(round), n, w);
    MulGrows(d.Digits(round) - n, w);
    assert n <= |prover|;
    forall j | 0 <= j < n
      ensures prover[j] == prover'[j] && mine[j] == mine'[j]
    {
      MulSub(n, j + 1, w);
      MulGrows(n - (j + 1), w);
      assert ReachedBy(d, base, selected, round, j + 1);
    }
    assert prover'[n - 1] != mine'[n - 1];
  }
}
