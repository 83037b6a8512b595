/** Which hash of which round speaks for a step: the map both parties rebuild from the
    verifier's decisions. */
module StepMapping {
  import opened Bits
  import opened Options
  import opened NArySearch

  ghost predicate AreDigits(d: NArySearchDefinition, bits: seq<nat>)
  {
    && |bits| <= d.TotalRounds()
    && forall i :: 0 <= i < |bits| ==> bits[i] < d.Digits(i + 1)
  }

  /** The base step after the first `r` decisions. */
  function BaseAfter(d: NArySearchDefinition, bits: seq<nat>, r: nat): nat
    requires r <= |bits|
  {
    if r == 0 then 0 else d.StepFromBaseAndBits(r, BaseAfter(d, bits, r - 1), bits[r - 1])
  }

  /** The step that hash number `n` of a round stands for, given the round's base. */
  function RequiredStep(d: NArySearchDefinition, base: nat, round: nat, n: nat): nat
  {
    base + Times(n + 1, d.Weight(round))
  }

  lemma RequiredIsSum(d: NArySearchDefinition, base: nat, round: nat, n: nat)
    ensures RequiredStep(d, base, round, n) == base + (n + 1) * d.Weight(round)
  {
    TimesIsProduct(n + 1, d.Weight(round));
  }

  /** Hash number `n` of `round` is the hash of `step`. */
  ghost predicate Speaks(d: NArySearchDefinition, bits: seq<nat>, step: nat, round: nat, n: nat)
  {
    && 1 <= round <= |bits| && n + 1 < d.Digits(round)
    && step == RequiredStep(d, BaseAfter(d, bits, round - 1), round, n)
  }

  lemma BaseStep(d: NArySearchDefinition, bits: seq<nat>, r: nat)
    requires d.Valid() && AreDigits(d, bits) && 1 <= r <= |bits|
    ensures BaseAfter(d, bits, r) == BaseAfter(d, bits, r - 1) + bits[r - 1] * d.Weight(r)
    ensures BaseAfter(d, bits, r) + d.Weight(r) <= BaseAfter(d, bits, r - 1) + d.Weight(r - 1)
  {
    d.StepFromBaseIsSum(r, BaseAfter(d, bits, r - 1), bits[r - 1]);
    d.WeightOfRound(r);
    MulSub(d.Digits(r), bits[r - 1], d.Weight(r));
    MulGrows(d.Digits(r) - bits[r - 1], d.Weight(r));
  }

  /** Later segments lie inside earlier ones. */
  lemma {:induction false} SegmentsNest(d: NArySearchDefinition, bits: seq<nat>, r: nat, r': nat)
    requires d.Valid() && AreDigits(d, bits) && r <= r' <= |bits|
    ensures BaseAfter(d, bits, r) <= BaseAfter(d, bits, r')
    ensures BaseAfter(d, bits, r') + d.Weight(r') <= BaseAfter(d, bits, r) + d.Weight(r)
    decreases r'
  {
    if r < r' {
      SegmentsNest(d, bits, r, r' - 1);
      BaseStep(d, bits, r');
    }
  }

  /** The hashes of a round are for steps strictly inside the previous segment, and never
      inside a segment that the round leaves. */
  lemma SpeaksInside(d: NArySearchDefinition, bits: seq<nat>, step: nat, round: nat, n: nat)
    requires d.Valid() && AreDigits(d, bits) && Speaks(d, bits, step, round, n)
    ensures BaseAfter(d, bits, round - 1) < step < BaseAfter(d, bits, round - 1) + d.Weight(round - 1)
    ensures !(BaseAfter(d, bits, round) < step < BaseAfter(d, bits, round) + d.Weight(round))
  {
    var w := d.Weight(round);
    BaseStep(d, bits, round);
    RequiredIsSum(d, BaseAfter(d, bits, round - 1), round, n);
    d.WeightOfRound(round);
    MulGrows(n + 1, w);
    MulSub(d.Digits(round), n + 1, w);
    MulGrows(d.Digits(round) - (n + 1), w);
    MulSub(n + 1, bits[round - 1], w);
    MulGrows(n + 1 - bits[round - 1], w);
  }

  /** No step is spoken for twice. */
  lemma SpeakerIsUnique(d: NArySearchDefinition, bits: seq<nat>, step: nat,
                        round: nat, n: nat, round': nat, n': nat)
    requires d.Valid() && AreDigits(d, bits)
    requires Speaks(d, bits, step, round, n) && Speaks(d, bits, step, round', n')
    ensures round == round' && n == n'
  {
    if round < round' {
      LaterSpeakersDiffer(d, bits, step, round, n, round', n');
    } else if round' < round {
      LaterSpeakersDiffer(d, bits, step, round', n', round, n);
    } else {
      RequiredIsSum(d, BaseAfter(d, bits, round - 1), round, n);
      RequiredIsSum(d, BaseAfter(d, bits, round - 1), round, n');
      MulSub(n + 1, n' + 1, d.Weight(round));
      MulGrows(n - n', d.Weight(round));
    }
  }

  lemma LaterSpeakersDiffer(d: NArySearchDefinition, bits: seq<nat>, step: nat,
                            round: nat, n: nat, round': nat, n': nat)
    requires d.Valid() && AreDigits(d, bits) && round < round'
    requires Speaks(d, bits, step, round, n)
    ensures !Speaks(d, bits, step, round', n')
  {
    if Speaks(d, bits, step, round', n') {
      SpeaksInside(d, bits, step, round, n);
      SpeaksInside(d, bits, step, round', n');
      SegmentsNest(d, bits, round, round' - 1);
    }
  }

  /** The base after `r` rounds is step 0 or was spoken for in one of them. */
  lemma {:induction false} BaseIsSpokenFor(d: NArySearchDefinition, bits: seq<nat>, r: nat) returns (round: nat, n: nat)
    requires d.Valid() && AreDigits(d, bits) && r <= |bits|
    ensures BaseAfter(d, bits, r) == 0
            || (round <= r && Speaks(d, bits, BaseAfter(d, bits, r), round, n))
  {
    round, n := 0, 0;
    if r > 0 {
      BaseStep(d, bits, r);
      if bits[r - 1] > 0 {
        round, n := r, bits[r - 1] - 1;
        RequiredIsSum(d, BaseAfter(d, bits, r - 1), round, n);
      } else {
        round, n := BaseIsSpokenFor(d, bits, r - 1);
      }
    }
  }

  /** The end of the segment after `r` rounds is the end of the whole search or was spoken for,
      also when adding one to the last digits carries through several rounds. */
  lemma {:induction false} SegmentEndIsSpokenFor(d: NArySearchDefinition, bits: seq<nat>, r: nat) returns (round: nat, n: nat)
    requires d.Valid() && AreDigits(d, bits) && r <= |bits|
    ensures BaseAfter(d, bits, r) + d.Weight(r) == d.maxSteps
            || (round <= r && Speaks(d, bits, BaseAfter(d, bits, r) + d.Weight(r), round, n))
  {
    round, n := 0, 0;
    if r == 0 {
      d.WeightEnds();
    } else {
      BaseStep(d, bits, r);
      d.WeightOfRound(r);
      var w := d.Weight(r);
      if bits[r - 1] + 1 < d.Digits(r) {
        round, n := r, bits[r - 1];
        RequiredIsSum(d, BaseAfter(d, bits, r - 1), round, n);
        MulSub(bits[r - 1], -1, w);
      } else {
        MulSub(d.Digits(r), 1, w);
        round, n := SegmentEndIsSpokenFor(d, bits, r - 1);
      }
    }
  }

  function HashesUpTo(d: NArySearchDefinition, round: nat): nat
    requires d.Valid() && round <= d.TotalRounds()
  {
    if round == 0 then 0 else HashesUpTo(d, round - 1) + (d.WeightOfRound(round); d.Digits(round) - 1)
  }

  /** The map holds exactly the steps spoken for, each at its speaker. */
  ghost predicate IsMapping(d: NArySearchDefinition, bits: seq<nat>, mapping: map<nat, (nat, nat)>)
  {
    forall step: nat, round: nat, n: nat ::
      (step in mapping && mapping[step] == (round, n)) <==> Speaks(d, bits, step, round, n)
  }

  /** So far the map holds the steps of the rounds before `round` and of its first `n` hashes. */
  ghost predicate MapsUpTo(d: NArySearchDefinition, bits: seq<nat>, mapping: map<nat, (nat, nat)>, round: nat, n: nat)
  {
    forall step: nat, r: nat, m: nat ::
      (step in mapping && mapping[step] == (r, m)) <==> (r < round || (r == round && m < n)) && Speaks(d, bits, step, r, m)
  }

  lemma MapsNext(d: NArySearchDefinition, bits: seq<nat>, mapping: map<nat, (nat, nat)>, round: nat, n: nat, step: nat)
    requires d.Valid() && AreDigits(d, bits) && MapsUpTo(d, bits, mapping, round, n) && Speaks(d, bits, step, round, n)
    ensures step !in mapping && MapsUpTo(d, bits, mapping[step := (round, n)], round, n + 1)
  {
    hide Speaks;
    if step in mapping {
      var at := mapping[step];
      SpeakerIsUnique(d, bits, step, round, n, at.0, at.1);
      assert false;
    }
    var mapping' := mapping[step := (round, n)];
    forall s: nat, r: nat, m: nat
      ensures (s in mapping' && mapping'[s] == (r, m))
              <==> (r < round || (r == round && m < n + 1)) && Speaks(d, bits, s, r, m)
    {
      if s == step && Speaks(d, bits, s, r, m) {
        SpeakerIsUnique(d, bits, s, round, n, r, m);
      }
      assert s != step && s in mapping' ==> s in mapping && mapping[s] == mapping'[s];
      if r == round && m == n && Speaks(d, bits, s, r, m) { SameSpeakerSameStep(d, bits, s, step, r, m); }
    }
  }

  lemma SameSpeakerSameStep(d: NArySearchDefinition, bits: seq<nat>, s: nat, s': nat, r: nat, n: nat)
    requires Speaks(d, bits, s, r, n) && Speaks(d, bits, s', r, n)
    ensures s == s'
  {
  }

  /** A finished round. */
  lemma MapsRound(d: NArySearchDefinition, bits: seq<nat>, mapping: map<nat, (nat, nat)>, round: nat)
    requires 1 <= round <= |bits| && d.Digits(round) >= 1 && MapsUpTo(d, bits, mapping, round, d.Digits(round) - 1)
    ensures MapsUpTo(d, bits, mapping, round + 1, 0)
  {
    hide NArySearchDefinition.Digits, RequiredStep;
  }

  lemma MapsEnds(d: NArySearchDefinition, bits: seq<nat>, mapping: map<nat, (nat, nat)>)
    ensures MapsUpTo(d, bits, map[], 1, 0)
    ensures MapsUpTo(d, bits, mapping, |bits| + 1, 0) ==> IsMapping(d, bits, mapping)
  {
    hide NArySearchDefinition.Digits, RequiredStep;
  }

  /** The map of all decisions; its size says that no insertion overwrote another. */
  method BuildStepMapping(d: NArySearchDefinition, bits: seq<nat>) returns (mapping: map<nat, (nat, nat)>)
    requires d.Valid() && |bits| == d.TotalRounds() && AreDigits(d, bits)
    ensures IsMapping(d, bits, mapping) && |mapping| == HashesUpTo(d, d.TotalRounds())
  {
    hide NArySearchDefinition.Valid, AreDigits, MapsUpTo, IsMapping, RequiredStep, NArySearchDefinition.Digits,
         NArySearchDefinition.StepFromBaseAndBits;
    var base := 0;
    mapping := map[];
    MapsEnds(d, bits, mapping);
    for round := 1 to d.TotalRounds() + 1
      invariant base == BaseAfter(d, bits, round - 1)
      invariant MapsUpTo(d, bits, mapping, round, 0)
      invariant |mapping| == HashesUpTo(d, round - 1)
    {
      d.WeightOfRound(round);
      var required := d.RequiredSteps(round, base);
      for n := 0 to |required|
        invariant MapsUpTo(d, bits, mapping, round, n)
        invariant |mapping| == HashesUpTo(d, round - 1) + n
      {
        var step := required[n];
        RequiredIsSum(d, base, round, n);
        MapsNext(d, bits, mapping, round, n, step);
        mapping := mapping[step := (round, n)];
      }
      MapsRound(d, bits, mapping, round);
      base := d.StepFromBaseAndBits(round, base, bits[round - 1]);
    }
    MapsEnds(d, bits, mapping);
  }

  /** The two hashes the prover committed for a step and its successor; a missing entry aborts. */
  method GetHashes<H>(mapping: map<nat, (nat, nat)>, hashes: seq<seq<H>>, initialHash: H, challengeStep: nat)
    returns (r: Option<(H, H)>)
    requires forall step :: step in mapping
                            ==> 1 <= mapping[step].0 <= |hashes| && mapping[step].1 < |hashes[mapping[step].0 - 1]|
    ensures r.Some? <==> challengeStep + 1 in mapping && (challengeStep == 0 || challengeStep in mapping)
    ensures r.Some? ==> r.value.0 == HashOf(mapping, hashes, initialHash, challengeStep)
                        && r.value.1 == HashOf(mapping, hashes, initialHash, challengeStep + 1)
  {
    var nextStep := challengeStep + 1;
    if challengeStep == 0 {
      if nextStep !in mapping { return None; }
      var nextAccess := mapping[nextStep];
      return Some((initialHash, hashes[nextAccess.0 - 1][nextAccess.1]));
    }
    if challengeStep !in mapping || nextStep !in mapping { return None; }
    var stepAccess, nextAccess := mapping[challengeStep], mapping[nextStep];
    return Some((hashes[stepAccess.0 - 1][stepAccess.1], hashes[nextAccess.0 - 1][nextAccess.1]));
  }

  ghost function HashOf<H>(mapping: map<nat, (nat, nat)>, hashes: seq<seq<H>>, initialHash: H, step: nat): H
    requires step == 0 || (step in mapping && 1 <= mapping[step].0 <= |hashes|
                           && mapping[step].1 < |hashes[mapping[step].0 - 1]|)
  {
    if step == 0 then initialHash else hashes[mapping[step].0 - 1][mapping[step].1]
  }
}
