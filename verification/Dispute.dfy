/** The two challenge logs, the round functions of prover and verifier, and the theorem about
    every dispute between an honest verifier and an arbitrary adaptive prover. */
module Dispute {
  import opened Options
  import opened NArySearch
  import opened StepMapping
  import opened Trace

  /** What a party answers in a round, given the round's base step. The base encodes every
      earlier decision, so such a function is an arbitrary adaptive strategy. */
  type RoundHashes = (nat, nat) -> seq<Hash>

  /** The verifier's side of the search as a value. */
  datatype Search = Search(base: nat, selected: nat, decisions: seq<nat>,
                           proverRounds: seq<seq<Hash>>, verifierRounds: seq<seq<Hash>>)

  function StartSearch(start: nat): Search
  {
    Search(0, start, [], [], [])
  }

  function NextSearch(d: NArySearchDefinition, s: Search, round: nat, prover: seq<Hash>, mine: seq<Hash>): Option<Search>
    requires d.Valid() && 1 <= round <= d.TotalRounds()
  {
    match FirstMismatch(prover, mine, 0)
    case None => None
    case Some(n) =>
      var seg := SegmentFor(d, s.base, s.selected, round, n);
      Some(Search(seg.base, seg.choice, s.decisions + [seg.bits],
                  s.proverRounds + [prover], s.verifierRounds + [mine]))
  }

  /** Answers of the size the round asks for. */
  ghost predicate Answers(d: NArySearchDefinition, hashes: RoundHashes)
  {
    forall round: nat, base: nat :: 1 <= round <= d.TotalRounds() ==> |hashes(round, base)| == d.Digits(round) - 1
  }

  /** A list that carries the hash `h` of every step up to `start`; its other entries are arbitrary. */
  ghost predicate HonestList(d: NArySearchDefinition, h: nat -> Hash, start: nat, round: nat, base: nat, mine: seq<Hash>)
  {
    && |mine| == d.Digits(round) - 1
    && forall n: nat :: n < |mine| && RequiredStep(d, base, round, n) <= start
                        ==> mine[n] == h(RequiredStep(d, base, round, n))
  }

  ghost predicate Honest(d: NArySearchDefinition, h: nat -> Hash, start: nat, hashes: RoundHashes)
  {
    forall round: nat, base: nat :: 1 <= round <= d.TotalRounds() && base <= start
                                    ==> HonestList(d, h, start, round, base, hashes(round, base))
  }

  ghost predicate Sized(d: NArySearchDefinition, rounds: seq<seq<Hash>>)
  {
    forall i :: 0 <= i < |rounds| ==> |rounds[i]| == d.Digits(i + 1) - 1
  }

  /** Every hash the prover sent for `step` is the verifier's. */
  ghost predicate AgreesAt(d: NArySearchDefinition, h: nat -> Hash, bits: seq<nat>, rounds: seq<seq<Hash>>, step: nat)
    requires |bits| == |rounds| && Sized(d, rounds)
  {
    forall round: nat, n: nat :: Speaks(d, bits, step, round, n) ==> rounds[round - 1][n] == h(step)
  }

  /** The prover sent a hash for `step` and it is not the verifier's. */
  ghost predicate DiffersAt(d: NArySearchDefinition, h: nat -> Hash, bits: seq<nat>, rounds: seq<seq<Hash>>, step: nat)
    requires |bits| == |rounds| && Sized(d, rounds)
  {
    exists round: nat, n: nat :: Speaks(d, bits, step, round, n) && rounds[round - 1][n] != h(step)
  }

  /** The invariant of the dispute. */
  ghost predicate Converging(d: NArySearchDefinition, h: nat -> Hash, start: nat, s: Search)
  {
    var r := |s.decisions|;
    && AreDigits(d, s.decisions)
    && s.base == BaseAfter(d, s.decisions, r)
    && Located(d, r, s.base, s.selected)
    && s.selected <= start
    && |s.proverRounds| == |s.verifierRounds| == r
    && Sized(d, s.proverRounds) && Sized(d, s.verifierRounds)
    && AgreesAt(d, h, s.decisions, s.proverRounds, s.base)
    && (s.selected < start ==> DiffersAt(d, h, s.decisions, s.proverRounds, s.selected + 1))
  }

  lemma {:induction false} BaseOfPrefix(d: NArySearchDefinition, bits: seq<nat>, more: seq<nat>, r: nat)
    requires r <= |bits|
    ensures BaseAfter(d, bits + more, r) == BaseAfter(d, bits, r)
  {
    if r > 0 { BaseOfPrefix(d, bits, more, r - 1); }
  }

  lemma SpeaksKept(d: NArySearchDefinition, bits: seq<nat>, bit: nat, step: nat, round: nat, n: nat)
    ensures round <= |bits| ==> (Speaks(d, bits + [bit], step, round, n) <==> Speaks(d, bits, step, round, n))
  {
    if 1 <= round <= |bits| {
      BaseOfPrefix(d, bits, [bit], round - 1);
    }
  }

  lemma StartConverges(d: NArySearchDefinition, h: nat -> Hash, start: nat)
    requires d.Valid() && start < d.maxSteps
    ensures Converging(d, h, start, StartSearch(start))
  {
    d.WeightEnds();
    assert 0 == Times(0, d.Weight(0));
  }

  /** One round keeps the invariant, whatever the prover answers. */
  lemma RoundConverges(d: NArySearchDefinition, h: nat -> Hash, start: nat, s: Search, prover: seq<Hash>, mine: seq<Hash>)
    returns (s': Search)
    requires d.Valid() && Converging(d, h, start, s) && |s.decisions| < d.TotalRounds()
    requires |prover| == |mine| && HonestList(d, h, start, |s.decisions| + 1, s.base, mine)
    ensures NextSearch(d, s, |s.decisions| + 1, prover, mine) == Some(s')
    ensures Converging(d, h, start, s') && s.base <= s'.base && s'.selected <= s.selected
    ensures |s'.decisions| == |s.decisions| + 1
  {
    hide NArySearchDefinition.Weight, NArySearchDefinition.Valid, NArySearchDefinition.StepFromBaseAndBits, SegmentFor;
    var selection;
    s', selection := RoundFacts(d, s, prover, mine);
    Extends(d, h, start, s, s', prover, mine, selection);
  }

  lemma Extends(d: NArySearchDefinition, h: nat -> Hash, start: nat, s: Search, s': Search,
                prover: seq<Hash>, mine: seq<Hash>, selection: nat)
    requires d.Valid() && Converging(d, h, start, s) && |s.decisions| < d.TotalRounds()
    requires HonestList(d, h, start, |s.decisions| + 1, s.base, mine)
    requires Moved(d, s, s', prover, mine, selection)
    requires Located(d, |s.decisions| + 1, s'.base, s'.selected)
    ensures Converging(d, h, start, s')
  {
    hide NArySearchDefinition.Weight, NArySearchDefinition.Valid, NArySearchDefinition.StepFromBaseAndBits, SegmentFor;
    DecisionsStayDigits(d, s.decisions, s'.decisions);
    assert Sized(d, s'.proverRounds) && Sized(d, s'.verifierRounds);
    BaseAgrees(d, h, start, s, s', prover, mine, selection);
    ChoiceDiffers(d, h, start, s, s', prover, mine, selection);
  }

  lemma DecisionsStayDigits(d: NArySearchDefinition, bits: seq<nat>, bits': seq<nat>)
    requires AreDigits(d, bits) && |bits| < d.TotalRounds()
    requires |bits'| == |bits| + 1 && bits'[..|bits|] == bits && bits'[|bits|] < d.Digits(|bits| + 1)
    ensures AreDigits(d, bits')
    ensures BaseAfter(d, bits', |bits'|) == d.StepFromBaseAndBits(|bits'|, BaseAfter(d, bits, |bits|), bits'[|bits|])
  {
    hide NArySearchDefinition.Weight, NArySearchDefinition.Valid, NArySearchDefinition.StepFromBaseAndBits, SegmentFor;
    assert bits' == bits + [bits'[|bits|]];
    assert forall i :: 0 <= i < |bits| ==> bits'[i] == bits[i];
    BaseOfPrefix(d, bits, [bits'[|bits|]], |bits|);
  }

  ghost predicate Moved(d: NArySearchDefinition, s: Search, s': Search, prover: seq<Hash>, mine: seq<Hash>, selection: nat)
  {
    var round := |s.decisions| + 1;
    && IsFirstMismatch(prover, mine, selection)
    && |prover| == |mine| == d.Digits(round) - 1
    && |s'.decisions| == round && s'.decisions == s.decisions + [s'.decisions[round - 1]]
    && s'.proverRounds == s.proverRounds + [prover] && s'.verifierRounds == s.verifierRounds + [mine]
    && s'.decisions[round - 1] < selection <= d.Digits(round)
    && s'.base == d.StepFromBaseAndBits(round, s.base, s'.decisions[round - 1])
    && (s'.decisions[round - 1] == 0 ==> s'.base == s.base)
    && (s'.decisions[round - 1] > 0 ==> s'.base == RequiredStep(d, s.base, round, s'.decisions[round - 1] - 1))
    && s.base <= s'.base <= s'.selected <= s.selected
    && (s'.selected < s.selected ==>
          selection <= |prover| && s'.selected + 1 == RequiredStep(d, s.base, round, selection - 1))
  }

  lemma BaseAgrees(d: NArySearchDefinition, h: nat -> Hash, start: nat, s: Search, s': Search,
                   prover: seq<Hash>, mine: seq<Hash>, selection: nat)
    requires d.Valid() && Moved(d, s, s', prover, mine, selection)
    requires AreDigits(d, s'.decisions) && s.base == BaseAfter(d, s.decisions, |s.decisions|)
    requires |s.decisions| == |s.proverRounds| && Sized(d, s.proverRounds) && Sized(d, s'.proverRounds)
    requires s.selected <= start && HonestList(d, h, start, |s.decisions| + 1, s.base, mine)
    requires AgreesAt(d, h, s.decisions, s.proverRounds, s.base)
    ensures AgreesAt(d, h, s'.decisions, s'.proverRounds, s'.base)
  {
    hide NArySearchDefinition.Weight, NArySearchDefinition.Valid, NArySearchDefinition.StepFromBaseAndBits, SegmentFor, Located;
    var bit := s'.decisions[|s.decisions|];
    if bit == 0 {
      OldBaseStillAgrees(d, h, s.decisions, s.proverRounds, prover);
    } else {
      NewBaseAgrees(d, h, s.decisions, s.proverRounds, bit, prover);
    }
  }

  lemma ChoiceDiffers(d: NArySearchDefinition, h: nat -> Hash, start: nat, s: Search, s': Search,
                      prover: seq<Hash>, mine: seq<Hash>, selection: nat)
    requires d.Valid() && Moved(d, s, s', prover, mine, selection)
    requires s.base == BaseAfter(d, s.decisions, |s.decisions|)
    requires |s.decisions| == |s.proverRounds| && Sized(d, s.proverRounds) && Sized(d, s'.proverRounds)
    requires s.selected <= start && HonestList(d, h, start, |s.decisions| + 1, s.base, mine)
    requires s.selected < start ==> DiffersAt(d, h, s.decisions, s.proverRounds, s.selected + 1)
    ensures s'.selected < start ==> DiffersAt(d, h, s'.decisions, s'.proverRounds, s'.selected + 1)
  {
    hide NArySearchDefinition.Weight, NArySearchDefinition.Valid, NArySearchDefinition.StepFromBaseAndBits, SegmentFor, Located;
    var round, bit := |s.decisions| + 1, s'.decisions[|s.decisions|];
    if s'.selected < s.selected {
      BaseOfPrefix(d, s.decisions, [bit], round - 1);
      assert Speaks(d, s'.decisions, s'.selected + 1, round, selection - 1);
      assert s'.proverRounds[round - 1][selection - 1] == prover[selection - 1];
    } else if s.selected < start {
      OldChoiceStillDiffers(d, h, s.decisions, s.proverRounds, bit, prover, s.selected + 1);
    }
  }

  /** A segment in terms of the steps that hashes stand for. */
  lemma SegmentFacts(d: NArySearchDefinition, base: nat, selected: nat, round: nat, selection: nat)
    requires d.Valid() && 1 <= round <= d.TotalRounds() && Located(d, round - 1, base, selected)
    requires 1 <= selection <= d.Digits(round)
    ensures var s := SegmentFor(d, base, selected, round, selection);
            && s.bits < selection && s.base == d.StepFromBaseAndBits(round, base, s.bits)
            && s.base == (if s.bits == 0 then base else RequiredStep(d, base, round, s.bits - 1))
            && base <= s.base <= s.choice <= selected && Located(d, round, s.base, s.choice)
            && (s.choice < selected ==>
                  selection < d.Digits(round) && s.choice + 1 == RequiredStep(d, base, round, selection - 1))
  {
    hide NArySearchDefinition.Weight, NArySearchDefinition.Valid, NArySearchDefinition.StepFromBaseAndBits,
         NArySearchDefinition.StepBitsForRound, IsMultiple, RequiredStep;
    SegmentNarrows(d, base, selected, round, selection);
    var s := SegmentFor(d, base, selected, round, selection);
    RequiredIsSum(d, base, round, selection - 1);
    if s.bits > 0 { RequiredIsSum(d, base, round, s.bits - 1); }
  }

  /** What a round does, stated through the steps the prover's hashes stand for. */
  lemma RoundFacts(d: NArySearchDefinition, s: Search, prover: seq<Hash>, mine: seq<Hash>)
    returns (s': Search, selection: nat)
    requires d.Valid() && |s.decisions| < d.TotalRounds()
    requires Located(d, |s.decisions|, s.base, s.selected)
    requires |prover| == |mine| == d.Digits(|s.decisions| + 1) - 1
    ensures NextSearch(d, s, |s.decisions| + 1, prover, mine) == Some(s')
    ensures Moved(d, s, s', prover, mine, selection)
    ensures Located(d, |s.decisions| + 1, s'.base, s'.selected)
  {
    hide NArySearchDefinition.Weight, NArySearchDefinition.StepFromBaseAndBits, NArySearchDefinition.Valid, FirstMismatch, Located,
         SegmentFor, RequiredStep;
    var round := |s.decisions| + 1;
    MismatchIsLeast(prover, mine, 0);
    d.WeightOfRound(round);
    selection := FirstMismatch(prover, mine, 0).value;
    SegmentFacts(d, s.base, s.selected, round, selection);
    s' := NextSearch(d, s, round, prover, mine).value;
  }

  lemma NewBaseAgrees(d: NArySearchDefinition, h: nat -> Hash, bits: seq<nat>, rounds: seq<seq<Hash>>, bit: nat, prover: seq<Hash>)
    requires d.Valid() && AreDigits(d, bits + [bit]) && bit > 0
    requires |bits| == |rounds| && Sized(d, rounds + [prover]) && bit < d.Digits(|bits| + 1) == |prover| + 1
    requires var base := RequiredStep(d, BaseAfter(d, bits, |bits|), |bits| + 1, bit - 1);
             prover[bit - 1] == h(base)
    ensures AgreesAt(d, h, bits + [bit], rounds + [prover], RequiredStep(d, BaseAfter(d, bits, |bits|), |bits| + 1, bit - 1))
  {
    hide NArySearchDefinition.Weight, NArySearchDefinition.Valid, NArySearchDefinition.StepFromBaseAndBits, SegmentFor;
    var bits', rounds', round := bits + [bit], rounds + [prover], |bits| + 1;
    var base := RequiredStep(d, BaseAfter(d, bits, |bits|), round, bit - 1);
    BaseOfPrefix(d, bits, [bit], |bits|);
    assert Speaks(d, bits', base, round, bit - 1);
    forall r: nat, n: nat | Speaks(d, bits', base, r, n)
      ensures rounds'[r - 1][n] == h(base)
    {
      SpeakerIsUnique(d, bits', base, r, n, round, bit - 1);
    }
  }

  lemma OldBaseStillAgrees(d: NArySearchDefinition, h: nat -> Hash, bits: seq<nat>, rounds: seq<seq<Hash>>, prover: seq<Hash>)
    requires d.Valid() && AreDigits(d, bits + [0])
    requires |bits| == |rounds| && Sized(d, rounds) && Sized(d, rounds + [prover])
    requires AgreesAt(d, h, bits, rounds, BaseAfter(d, bits, |bits|))
    ensures AgreesAt(d, h, bits + [0], rounds + [prover], BaseAfter(d, bits, |bits|))
  {
    hide NArySearchDefinition.Weight, NArySearchDefinition.Valid, NArySearchDefinition.StepFromBaseAndBits, SegmentFor;
    var bits', rounds', round := bits + [0], rounds + [prover], |bits| + 1;
    var base := BaseAfter(d, bits, |bits|);
    BaseOfPrefix(d, bits, [0], |bits|);
    forall r: nat, n: nat | Speaks(d, bits', base, r, n)
      ensures rounds'[r - 1][n] == h(base)
    {
      SpeaksInside(d, bits', base, r, n);
      assert r < round;
      SpeaksKept(d, bits, 0, base, r, n);
    }
  }

  lemma OldChoiceStillDiffers(d: NArySearchDefinition, h: nat -> Hash, bits: seq<nat>, rounds: seq<seq<Hash>>,
                              bit: nat, prover: seq<Hash>, step: nat)
    requires |bits| == |rounds| && Sized(d, rounds) && Sized(d, rounds + [prover])
    requires DiffersAt(d, h, bits, rounds, step)
    ensures DiffersAt(d, h, bits + [bit], rounds + [prover], step)
  {
    hide NArySearchDefinition.Weight, NArySearchDefinition.Valid, NArySearchDefinition.StepFromBaseAndBits, SegmentFor;
    var r: nat, n: nat :| Speaks(d, bits, step, r, n) && rounds[r - 1][n] != h(step);
    SpeaksKept(d, bits, bit, step, r, n);
    assert Speaks(d, bits + [bit], step, r, n) && (rounds + [prover])[r - 1][n] != h(step);
  }

  // ---------------------------------------------------------------- whole disputes

  /** The verifier's search after `r` rounds against the prover's strategy. */
  ghost function Play(d: NArySearchDefinition, start: nat, prover: RoundHashes, mine: RoundHashes, r: nat): Search
    requires d.Valid() && r <= d.TotalRounds()
  {
    if r == 0 then StartSearch(start)
    else
      var s := Play(d, start, prover, mine, r - 1);
      match NextSearch(d, s, r, prover(r, s.base), mine(r, s.base))
      case Some(s') => s'
      case None => s
  }

  lemma {:induction false} PlayConverges(d: NArySearchDefinition, h: nat -> Hash, start: nat,
                                         prover: RoundHashes, mine: RoundHashes, r: nat)
    requires d.Valid() && start < d.maxSteps && r <= d.TotalRounds()
    requires Answers(d, prover) && Honest(d, h, start, mine)
    ensures var s := Play(d, start, prover, mine, r);
            && Converging(d, h, start, s) && |s.decisions| == r
            && forall i :: 0 <= i < r ==> s.proverRounds[i] == prover(i + 1, BaseAfter(d, s.decisions, i))
    ensures r > 0 ==>
              var s := Play(d, start, prover, mine, r - 1);
              NextSearch(d, s, r, prover(r, s.base), mine(r, s.base)) == Some(Play(d, start, prover, mine, r))
  {
    hide NArySearchDefinition.Weight, NArySearchDefinition.Valid, NArySearchDefinition.StepFromBaseAndBits, SegmentFor;
    if r == 0 {
      StartConverges(d, h, start);
    } else {
      PlayConverges(d, h, start, prover, mine, r - 1);
      var s := Play(d, start, prover, mine, r - 1);
      assert HonestList(d, h, start, r, s.base, mine(r, s.base));
      var s' := RoundConverges(d, h, start, s, prover(r, s.base), mine(r, s.base));
      assert Play(d, start, prover, mine, r) == s';
      SentInEarlierRounds(d, s, s', prover, mine, r);
    }
  }

  lemma SentInEarlierRounds(d: NArySearchDefinition, s: Search, s': Search, prover: RoundHashes, mine: RoundHashes, r: nat)
    requires d.Valid() && 1 <= r <= d.TotalRounds() && |s.decisions| == |s.proverRounds| == r - 1
    requires s.base == BaseAfter(d, s.decisions, r - 1)
    requires NextSearch(d, s, r, prover(r, s.base), mine(r, s.base)) == Some(s')
    requires forall i :: 0 <= i < r - 1 ==> s.proverRounds[i] == prover(i + 1, BaseAfter(d, s.decisions, i))
    ensures |s'.decisions| == |s'.proverRounds| == r && s'.decisions[..r - 1] == s.decisions
    ensures s'.proverRounds == s.proverRounds + [prover(r, s.base)]
    ensures s'.base == d.StepFromBaseAndBits(r, s.base, s'.decisions[r - 1])
    ensures forall i :: 0 <= i < r ==> s'.proverRounds[i] == prover(i + 1, BaseAfter(d, s'.decisions, i))
  {
    hide NArySearchDefinition.Weight, NArySearchDefinition.Valid, NArySearchDefinition.StepFromBaseAndBits,
         NArySearchDefinition.StepBitsForRound, FirstMismatch;
    var bit := s'.decisions[r - 1];
    forall i | 0 <= i < r
      ensures s'.proverRounds[i] == prover(i + 1, BaseAfter(d, s'.decisions, i))
    {
      BaseOfPrefix(d, s.decisions, [bit], i);
    }
  }

  /** Convergence: against every adaptive prover the search ends on one step `s`. The hash the
      prover committed for `s` is the verifier's, and either `s` is where the search started
      or the hash the prover committed for `s + 1` is not the verifier's. */
  lemma DisputeConverges(d: NArySearchDefinition, h: nat -> Hash, start: nat, prover: RoundHashes, mine: RoundHashes)
    returns (s: Search)
    requires d.Valid() && start < d.maxSteps
    requires Answers(d, prover) && Honest(d, h, start, mine)
    ensures s == Play(d, start, prover, mine, d.TotalRounds())
    ensures |s.decisions| == |s.proverRounds| == d.TotalRounds() && AreDigits(d, s.decisions) && Sized(d, s.proverRounds)
    ensures s.base == s.selected == BaseAfter(d, s.decisions, d.TotalRounds()) <= start
    ensures AgreesAt(d, h, s.decisions, s.proverRounds, s.base)
    ensures s.base < start ==> DiffersAt(d, h, s.decisions, s.proverRounds, s.base + 1)
  {
    hide NArySearchDefinition.Weight, NArySearchDefinition.Valid, NArySearchDefinition.StepFromBaseAndBits, SegmentFor;
    PlayConverges(d, h, start, prover, mine, d.TotalRounds());
    s := Play(d, start, prover, mine, d.TotalRounds());
    d.WeightEnds();
  }

  /** Searches that differ at most in the verifier's hashes. */
  predicate SameSearch(s: Search, s': Search)
  {
    s.base == s'.base && s.selected == s'.selected && s.decisions == s'.decisions && s.proverRounds == s'.proverRounds
  }

  /** The verifier's hashes only matter up to the step it started from: any two honest sources
      with any fillers lead to the same search. */
  lemma {:induction false} FillersNeverMatter(d: NArySearchDefinition, h: nat -> Hash, start: nat, prover: RoundHashes,
                                              mine: RoundHashes, mine': RoundHashes, r: nat)
    requires d.Valid() && start < d.maxSteps && r <= d.TotalRounds()
    requires Answers(d, prover) && Honest(d, h, start, mine) && Honest(d, h, start, mine')
    ensures SameSearch(Play(d, start, prover, mine, r), Play(d, start, prover, mine', r))
  {
    hide NArySearchDefinition.Weight, NArySearchDefinition.Valid, NArySearchDefinition.StepFromBaseAndBits, SegmentFor, NextSearch,
         HonestList, AgreesAt, DiffersAt;
    if r > 0 {
      FillersNeverMatter(d, h, start, prover, mine, mine', r - 1);
      PlayConverges(d, h, start, prover, mine, r - 1);
      PlayConverges(d, h, start, prover, mine, r);
      PlayConverges(d, h, start, prover, mine', r);
      var s, s' := Play(d, start, prover, mine, r - 1), Play(d, start, prover, mine', r - 1);
      var p, m, m' := prover(r, s.base), mine(r, s.base), mine'(r, s.base);
      assert HonestList(d, h, start, r, s.base, m) && HonestList(d, h, start, r, s.base, m');
      SameRound(d, h, start, s, s', r, p, m, m');
    }
  }

  lemma SameRound(d: NArySearchDefinition, h: nat -> Hash, start: nat, s: Search, s': Search, r: nat,
                  p: seq<Hash>, m: seq<Hash>, m': seq<Hash>)
    requires d.Valid() && 1 <= r <= d.TotalRounds() && |s.decisions| == r - 1 && SameSearch(s, s')
    requires Located(d, r - 1, s.base, s.selected) && s.selected <= start && |p| == d.Digits(r) - 1
    requires HonestList(d, h, start, r, s.base, m) && HonestList(d, h, start, r, s.base, m')
    ensures NextSearch(d, s, r, p, m).Some? && NextSearch(d, s', r, p, m').Some?
    ensures SameSearch(NextSearch(d, s, r, p, m).value, NextSearch(d, s', r, p, m').value)
  {
    hide NArySearchDefinition.Weight, NArySearchDefinition.Valid, NArySearchDefinition.StepFromBaseAndBits, SegmentFor, Located,
         ReachedBy, FirstMismatch, RequiredStep;
    FillersAreUnread(d, h, start, s, r, m, m');
    PaddingIsHarmless(d, s.base, s.selected, r, p, m, p, m');
  }

  /** Two honest lists agree wherever the selected step reaches. */
  lemma FillersAreUnread(d: NArySearchDefinition, h: nat -> Hash, start: nat, s: Search, r: nat, m: seq<Hash>, m': seq<Hash>)
    requires d.Valid() && 1 <= r <= d.TotalRounds() && s.selected <= start
    requires HonestList(d, h, start, r, s.base, m) && HonestList(d, h, start, r, s.base, m')
    ensures forall i :: 0 <= i < |m| && i < |m'| && ReachedBy(d, s.base, s.selected, r, i + 1) ==> m[i] == m'[i]
  {
    hide NArySearchDefinition.Weight, NArySearchDefinition.Valid, NArySearchDefinition.StepFromBaseAndBits, RequiredStep;
    forall i | 0 <= i < |m| && i < |m'| && ReachedBy(d, s.base, s.selected, r, i + 1)
      ensures m[i] == m'[i]
    {
      RequiredIsSum(d, s.base, r, i);
      assert RequiredStep(d, s.base, r, i) <= start;
    }
  }

  class VerifierChallengeLog {
    var baseStep: nat
    var stepToChallenge: nat
    var verifierDecisions: seq<nat>
    var proverHashRounds: seq<seq<Hash>>
    var verifierHashRounds: seq<seq<Hash>>

    ghost function View(): Search
      reads this
    {
      Search(baseStep, stepToChallenge, verifierDecisions, proverHashRounds, verifierHashRounds)
    }

    /** The log of a new challenge: the last step both parties can agree on is the one before
        the earlier of the two ends. Both ends must be positive or the code aborts. */
    constructor CheckExecution(claimLastStep: nat, lastStep: nat)
      requires claimLastStep > 0 && lastStep > 0
      ensures View() == StartSearch((if claimLastStep < lastStep then claimLastStep else lastStep) - 1)
    {
      stepToChallenge := (if claimLastStep < lastStep then claimLastStep else lastStep) - 1;
      baseStep := 0;
      verifierDecisions := [];
      proverHashRounds := [];
      verifierHashRounds := [];
    }

    /** One round of the verifier; `None` is an abort, with the saved log untouched. */
    method ChooseSegment(d: NArySearchDefinition, round: nat, proverLastHashes: seq<Hash>, roundHashes: RoundHashes)
      returns (decision: Option<nat>)
      requires d.Valid() && 1 <= round <= d.TotalRounds()
      modifies this
      ensures match NextSearch(d, old(View()), round, proverLastHashes, roundHashes(round, old(baseStep)))
              case None => decision.None? && View() == old(View())
              case Some(s') => View() == s' && decision == Some(s'.decisions[|s'.decisions| - 1])
    {
      var hashes := roundHashes(round, baseStep);
      var choice := NArySearch.ChooseSegment(d, baseStep, stepToChallenge, round, proverLastHashes, hashes);
      match choice {
        case None => decision := None;
        case Some(segment) =>
          baseStep := segment.base;
          stepToChallenge := segment.choice;
          verifierDecisions := verifierDecisions + [segment.bits];
          proverHashRounds := proverHashRounds + [proverLastHashes];
          verifierHashRounds := verifierHashRounds + [hashes];
          decision := Some(segment.bits);
      }
    }

    /** The two committed hashes the verifier's final challenge is about. */
    method CommittedHashes(d: NArySearchDefinition, initialHash: Hash, ghost h: nat -> Hash, ghost start: nat)
      returns (r: Option<(Hash, Hash)>)
      requires d.Valid() && |verifierDecisions| == d.TotalRounds()
      requires Converging(d, h, start, View()) && h(0) == initialHash
      ensures r.Some? <==> stepToChallenge + 1 < d.maxSteps
      ensures r.Some? ==> r.value.0 == h(stepToChallenge)
      ensures r.Some? && stepToChallenge < start ==> r.value.1 != h(stepToChallenge + 1)
    {
      hide NArySearchDefinition.Weight, NArySearchDefinition.Valid, NArySearchDefinition.StepFromBaseAndBits,
           Located, AgreesAt, DiffersAt, BaseAfter, Speaks, Sized, AreDigits, IsMapping;
      var mapping := BuildStepMapping(d, verifierDecisions);
      LookupFinds(d, h, start, View(), mapping);
      r := GetHashes(mapping, proverHashRounds, initialHash, stepToChallenge);
    }
  }

  /** In the map of a finished search the isolated step is found whenever it is not 0, and its
      successor exactly when it is below the step limit; the hashes there are the ones the
      search compared. */
  lemma LookupFinds(d: NArySearchDefinition, h: nat -> Hash, start: nat, s: Search, mapping: map<nat, (nat, nat)>)
    requires d.Valid() && Converging(d, h, start, s) && |s.decisions| == d.TotalRounds()
    requires IsMapping(d, s.decisions, mapping)
    ensures s.base == s.selected
    ensures s.selected > 0 ==> s.selected in mapping
    ensures s.selected + 1 in mapping <==> s.selected + 1 < d.maxSteps
    ensures forall step :: step in mapping ==> 1 <= mapping[step].0 <= |s.proverRounds|
                                               && mapping[step].1 < |s.proverRounds[mapping[step].0 - 1]|
    ensures s.selected > 0 ==> s.proverRounds[mapping[s.selected].0 - 1][mapping[s.selected].1] == h(s.selected)
    ensures s.selected + 1 < d.maxSteps && s.selected < start ==>
              var m := mapping[s.selected + 1]; s.proverRounds[m.0 - 1][m.1] != h(s.selected + 1)
  {
    hide NArySearchDefinition.Weight, NArySearchDefinition.Valid, NArySearchDefinition.StepFromBaseAndBits, 
         RequiredStep, BaseAfter;
    var total := d.TotalRounds();
    d.WeightEnds();
    assert forall step :: step in mapping ==> Speaks(d, s.decisions, step, mapping[step].0, mapping[step].1);
    var r1, n1 := BaseIsSpokenFor(d, s.decisions, total);
    var r2, n2 := SegmentEndIsSpokenFor(d, s.decisions, total);
    SpokenForIsBelowMax(d, s.decisions, mapping, s.selected + 1);
    if s.selected > 0 {
      assert mapping[s.selected] == (r1, n1);
    }
    if s.selected < start {
      var r: nat, n: nat :| Speaks(d, s.decisions, s.selected + 1, r, n) && s.proverRounds[r - 1][n] != h(s.selected + 1);
      assert mapping[s.selected + 1] == (r, n);
    }
  }

  lemma SpokenForIsBelowMax(d: NArySearchDefinition, bits: seq<nat>, mapping: map<nat, (nat, nat)>, step: nat)
    requires d.Valid() && AreDigits(d, bits)
    requires IsMapping(d, bits, mapping)
    ensures step in mapping ==> 0 < step < d.maxSteps
  {
    if step in mapping {
      var round, n := mapping[step].0, mapping[step].1;
      SpeaksInside(d, bits, step, round, n);
      SegmentsNest(d, bits, 0, round - 1);
      d.WeightEnds();
    }
  }

  class ProverChallengeLog {
    var baseStep: nat
    var verifierDecisions: seq<nat>
    var hashRounds: seq<seq<Hash>>
    var finalTrace: Option<TraceRWStep>

    constructor ()
      ensures baseStep == 0 && verifierDecisions == [] && hashRounds == [] && finalTrace == None
    {
      baseStep, verifierDecisions, hashRounds, finalTrace := 0, [], [], None;
    }

    method GetHashesForRound(d: NArySearchDefinition, round: nat, verifierDecision: nat, roundHashes: RoundHashes)
      returns (hashes: seq<Hash>)
      requires d.Valid() && 1 <= round <= d.TotalRounds()
      modifies this
      ensures baseStep == if round == 1 then old(baseStep) else d.StepFromBaseAndBits(round - 1, old(baseStep), verifierDecision)
      ensures hashes == roundHashes(round, baseStep)
      ensures hashRounds == old(hashRounds) + [hashes]
      ensures verifierDecisions == old(verifierDecisions) + [verifierDecision]
      ensures finalTrace == old(finalTrace)
    {
      if round != 1 {
        baseStep := d.StepFromBaseAndBits(round - 1, baseStep, verifierDecision);
      }
      hashes := roundHashes(round, baseStep);
      hashRounds := hashRounds + [hashes];
      verifierDecisions := verifierDecisions + [verifierDecision];
    }

    method FinalTrace(d: NArySearchDefinition, finalBits: nat, traceAt: nat -> TraceRWStep) returns (t: TraceRWStep)
      requires d.Valid()
      modifies this
      ensures baseStep == d.StepFromBaseAndBits(d.TotalRounds(), old(baseStep), finalBits)
      ensures t == traceAt(baseStep) && finalTrace == Some(t)
      ensures verifierDecisions == old(verifierDecisions) + [finalBits] && hashRounds == old(hashRounds)
    {
      var totalRounds := d.TotalRounds();
      baseStep := d.StepFromBaseAndBits(totalRounds, baseStep, finalBits);
      verifierDecisions := verifierDecisions + [finalBits];
      t := traceAt(baseStep);
      finalTrace := Some(t);
    }
  }

  /** One more than the last digit names the step after the isolated one, also when the digit
      leaves its round. */
  lemma FinalStepIsNext(d: NArySearchDefinition, bits: seq<nat>)
    requires d.Valid() && AreDigits(d, bits) && |bits| == d.TotalRounds() >= 1
    ensures var total := d.TotalRounds();
            d.StepFromBaseAndBits(total, BaseAfter(d, bits, total - 1), bits[total - 1] + 1)
            == BaseAfter(d, bits, total) + 1
  {
    var total := d.TotalRounds();
    BaseStep(d, bits, total);
    d.WeightEnds();
    d.StepFromBaseIsSum(total, BaseAfter(d, bits, total - 1), bits[total - 1] + 1);
  }

  /** The rounds of a dispute, up to the prover's final trace: both logs stay in step, the
      verifier's ends as `Play` says, and the prover reveals the step after the isolated one. */
  method RunDispute(d: NArySearchDefinition, proverLog: ProverChallengeLog, verifierLog: VerifierChallengeLog,
                    proverHashes: RoundHashes, verifierHashes: RoundHashes, traceAt: nat -> TraceRWStep,
                    ghost h: nat -> Hash, ghost start: nat)
    returns (finalTrace: TraceRWStep)
    requires d.Valid() && d.maxSteps >= 2 && start < d.maxSteps
    requires Answers(d, proverHashes) && Honest(d, h, start, verifierHashes)
    requires verifierLog.View() == StartSearch(start)
    requires proverLog.baseStep == 0 && proverLog.verifierDecisions == [] && proverLog.hashRounds == []
    modifies proverLog, verifierLog
    ensures verifierLog.View() == Play(d, start, proverHashes, verifierHashes, d.TotalRounds())
    ensures Converging(d, h, start, verifierLog.View()) && |verifierLog.verifierDecisions| == d.TotalRounds()
    ensures verifierLog.baseStep == verifierLog.stepToChallenge <= start
    ensures proverLog.hashRounds == verifierLog.proverHashRounds
    ensures proverLog.baseStep == verifierLog.stepToChallenge + 1
    ensures finalTrace == traceAt(verifierLog.stepToChallenge + 1)
  {
    hide NArySearchDefinition.Weight, NArySearchDefinition.Valid, NArySearchDefinition.StepFromBaseAndBits,
         SegmentFor, NextSearch;
    var decision := 0;
    PlayConverges(d, h, start, proverHashes, verifierHashes, 0);
    d.WeightEnds();
    for round := 1 to d.TotalRounds() + 1
      invariant InStep(d, start, proverHashes, verifierHashes, proverLog, verifierLog, round - 1, decision)
    {
      decision := RunRound(d, proverLog, verifierLog, proverHashes, verifierHashes, h, start, round, decision);
    }
    PlayConverges(d, h, start, proverHashes, verifierHashes, d.TotalRounds());
    FinalStepIsNext(d, verifierLog.verifierDecisions);
    finalTrace := proverLog.FinalTrace(d, decision + 1, traceAt);
  }

  /** Both logs after `r` rounds: the prover's base is the one the verifier had before its last
      decision, and both hold the same hashes. */
  ghost predicate InStep(d: NArySearchDefinition, start: nat, prover: RoundHashes, mine: RoundHashes,
                         proverLog: ProverChallengeLog, verifierLog: VerifierChallengeLog, r: nat, decision: nat)
    requires d.Valid() && r <= d.TotalRounds()
    reads proverLog, verifierLog
  {
    && verifierLog.View() == Play(d, start, prover, mine, r)
    && |verifierLog.verifierDecisions| == r
    && proverLog.hashRounds == verifierLog.proverHashRounds
    && decision == (if r > 0 then verifierLog.verifierDecisions[r - 1] else 0)
    && proverLog.baseStep == BaseAfter(d, verifierLog.verifierDecisions, if r > 0 then r - 1 else 0)
    && proverLog.verifierDecisions == if r == 0 then [] else [0] + verifierLog.verifierDecisions[..r - 1]
  }

  lemma PlayShape(d: NArySearchDefinition, h: nat -> Hash, start: nat, prover: RoundHashes, mine: RoundHashes, r: nat)
    requires d.Valid() && start < d.maxSteps && r <= d.TotalRounds()
    requires Answers(d, prover) && Honest(d, h, start, mine)
    ensures var s := Play(d, start, prover, mine, r);
            |s.decisions| == |s.proverRounds| == r && s.base == BaseAfter(d, s.decisions, r)
  {
    hide Located, AgreesAt, DiffersAt, Answers, Honest, Play;
    PlayConverges(d, h, start, prover, mine, r);
  }

  /** What both parties need to know about round `r`. */
  lemma RoundInStep(d: NArySearchDefinition, h: nat -> Hash, start: nat, prover: RoundHashes, mine: RoundHashes, r: nat)
    returns (s: Search, s': Search, bit: nat)
    requires d.Valid() && start < d.maxSteps && 1 <= r <= d.TotalRounds()
    requires Answers(d, prover) && Honest(d, h, start, mine)
    ensures s == Play(d, start, prover, mine, r - 1) && s' == Play(d, start, prover, mine, r)
    ensures NextSearch(d, s, r, prover(r, s.base), mine(r, s.base)) == Some(s')
    ensures |s.decisions| == r - 1 && s'.decisions == s.decisions + [bit]
    ensures s'.proverRounds == s.proverRounds + [prover(r, s.base)]
    ensures s.base == BaseAfter(d, s'.decisions, r - 1)
    ensures s.base == if r == 1 then BaseAfter(d, s.decisions, 0)
                      else d.StepFromBaseAndBits(r - 1, BaseAfter(d, s.decisions, r - 2), s.decisions[r - 2])
  {
    hide NArySearchDefinition.Weight, NArySearchDefinition.Valid, NArySearchDefinition.StepFromBaseAndBits,
         SegmentFor, Located, NextSearch, Play, AgreesAt, DiffersAt, Answers, Honest;
    PlayShape(d, h, start, prover, mine, r - 1);
    s, s' := Play(d, start, prover, mine, r - 1), Play(d, start, prover, mine, r);
    assert NextSearch(d, s, r, prover(r, s.base), mine(r, s.base)) == Some(s') by {
      PlayConverges(d, h, start, prover, mine, r);
    }
    bit := StepAppends(d, s, s', prover, mine, r);
    BaseOfPrefix(d, s.decisions, [bit], r - 1);
  }

  lemma StepAppends(d: NArySearchDefinition, s: Search, s': Search, prover: RoundHashes, mine: RoundHashes, r: nat)
    returns (bit: nat)
    requires d.Valid() && 1 <= r <= d.TotalRounds() && |s.decisions| == r - 1
    requires NextSearch(d, s, r, prover(r, s.base), mine(r, s.base)) == Some(s')
    ensures s'.decisions == s.decisions + [bit] && s'.proverRounds == s.proverRounds + [prover(r, s.base)]
  {
    hide NArySearchDefinition.Weight, NArySearchDefinition.Valid, NArySearchDefinition.StepFromBaseAndBits, FirstMismatch;
    bit := s'.decisions[r - 1];
  }

  method RunRound(d: NArySearchDefinition, proverLog: ProverChallengeLog, verifierLog: VerifierChallengeLog,
                  proverHashes: RoundHashes, verifierHashes: RoundHashes,
                  ghost h: nat -> Hash, ghost start: nat, round: nat, decision: nat)
    returns (newDecision: nat)
    requires d.Valid() && start < d.maxSteps && 1 <= round <= d.TotalRounds()
    requires Answers(d, proverHashes) && Honest(d, h, start, verifierHashes)
    requires InStep(d, start, proverHashes, verifierHashes, proverLog, verifierLog, round - 1, decision)
    modifies proverLog, verifierLog
    ensures InStep(d, start, proverHashes, verifierHashes, proverLog, verifierLog, round, newDecision)
  {
    hide NArySearchDefinition.Weight, NArySearchDefinition.Valid, NArySearchDefinition.StepFromBaseAndBits,
         SegmentFor, Located, Play, NextSearch, BaseAfter, Converging, Answers, Honest;
    ghost var s, s', bit := RoundInStep(d, h, start, proverHashes, verifierHashes, round);
    var hashes := proverLog.GetHashesForRound(d, round, decision, proverHashes);
    assert proverLog.baseStep == s.base;
    var choice := verifierLog.ChooseSegment(d, round, hashes, verifierHashes);
    newDecision := choice.value;
  }
}
