/** Checkpoints, and the hashes a party answers with in a round. */
module Checkpoints {
  import opened Bits
  import opened Options
  import opened NArySearch
  import opened StepMapping
  import opened Trace
  import opened SectionMemory
  import opened Machine
  import opened Programs
  import opened Execution
  import opened Dispute

  // ---------------------------------------------------------------- checkpoints

  /** The checkpoint a step is reached from; `None` when the step is out of range or the
      checkpoint was never written. */
  method LoadProgramFromCheckpoint(d: NArySearchDefinition, store: map<nat, State>, step: nat) returns (r: Option<State>)
    ensures r == if step < d.maxSteps && CheckpointOf(step) in store then Some(store[CheckpointOf(step)]) else None
  {
    if step >= d.maxSteps { return None; }
    var checkpointStep := 0;
    while step >= checkpointStep + CHECKPOINT_SIZE
      invariant checkpointStep % CHECKPOINT_SIZE == 0 && checkpointStep <= step
      decreases step - checkpointStep
    {
      checkpointStep := checkpointStep + CHECKPOINT_SIZE;
    }
    r := if checkpointStep in store then Some(store[checkpointStep]) else None;
  }

  function CheckpointOf(step: nat): (c: nat)
    ensures c <= step < c + CHECKPOINT_SIZE && c % CHECKPOINT_SIZE == 0
  {
    step - step % CHECKPOINT_SIZE
  }

  // ---------------------------------------------------------------- round hashes

  /** A finished run from the start: it makes exactly `last` turns. */
  ghost predicate Ends(m: State, decode: Decoder, hf: Hasher, limit: nat, last: nat)
  {
    && Valid(m) && m.step == 0 && 1 <= last <= limit && limit + 1 < LAST_STEP_INIT
    && TurnAfter(m, decode, hf, limit, last).Turn? && TurnAfter(m, decode, hf, limit, last).stop.Some?
  }

  /** The hash at step `n` of the run that starts at `m`. */
  ghost function HashAt(m: State, decode: Decoder, hf: Hasher, limit: nat, n: nat): Hash
    requires Valid(m)
  {
    if n == m.step then m.hash
    else if m.step < n < LAST_STEP_INIT && TurnAfter(m, decode, hf, limit, n - m.step).Turn? then
      TurnAfter(m, decode, hf, limit, n - m.step).state.hash
    else []
  }

  /** What a run that is asked for step `n` collects there. The record of the step it starts
      from is a default one; only its hash is meaningful. */
  ghost function EntryAt(m: State, decode: Decoder, hf: Hasher, limit: nat, n: nat): Entry
    requires Valid(m)
  {
    var t := if m.step < n < LAST_STEP_INIT then TurnAfter(m, decode, hf, limit, n - m.step) else Dead;
    (if t.Turn? then t.trace else FromStep(0), HashAt(m, decode, hf, limit, n))
  }

  ghost predicate Increasing(steps: seq<nat>)
  {
    forall i, j :: 0 <= i < j < |steps| ==> steps[i] < steps[j]
  }

  /** How many of the steps are at most `bound`. */
  function UpTo(steps: seq<nat>, bound: nat): (n: nat)
    ensures n <= |steps|
  {
    if steps == [] then 0
    else if steps[|steps| - 1] <= bound then |steps|
    else UpTo(steps[..|steps| - 1], bound)
  }

  lemma {:induction false} UpToSplits(steps: seq<nat>, bound: nat)
    requires Increasing(steps)
    ensures UpTo(steps, bound) <= |steps|
    ensures forall i :: 0 <= i < |steps| ==> (i < UpTo(steps, bound) <==> steps[i] <= bound)
  {
    if steps != [] && steps[|steps| - 1] > bound {
      UpToSplits(steps[..|steps| - 1], bound);
    }
  }

  lemma IncreasingAt(steps: seq<nat>, i: nat, j: nat)
    requires Increasing(steps) && i < |steps| && j < |steps|
    ensures i < j ==> steps[i] < steps[j]
  {
  }

  /** The collected entries are those of the asked steps reached so far, in order. */
  lemma {:induction false} CollectedInOrder(m: State, decode: Decoder, hf: Hasher, limit: nat, steps: seq<nat>, k: nat)
    requires Valid(m) && m.step + k < LAST_STEP_INIT && Increasing(steps)
    requires forall i :: 0 <= i < |steps| ==> steps[i] >= m.step
    requires k > 0 ==> TurnAfter(m, decode, hf, limit, k).Turn?
    ensures var es := Collected(m, decode, hf, limit, steps, k);
            && |es| == UpTo(steps, m.step + k)
            && forall i :: 0 <= i < |es| ==> es[i] == EntryAt(m, decode, hf, limit, steps[i])
  {
    hide TurnOf, TurnAfter, HashAt, EntryAt, Collected, Valid;
    if k == 0 {
      FirstCollected(m, decode, hf, limit, steps);
    } else {
      if k > 1 { EarlierTurns(m, decode, hf, limit, k - 1, k); }
      CollectedInOrder(m, decode, hf, limit, steps, k - 1);
      CollectedNext(m, decode, hf, limit, steps, k);
      NextCollected(steps, m.step + k);
      EntryOfTurn(m, decode, hf, limit, k);
    }
  }

  lemma EntryOfTurn(m: State, decode: Decoder, hf: Hasher, limit: nat, k: nat)
    requires Valid(m) && m.step + k < LAST_STEP_INIT && k > 0 && TurnAfter(m, decode, hf, limit, k).Turn?
    ensures var t := TurnAfter(m, decode, hf, limit, k);
            EntryAt(m, decode, hf, limit, m.step + k) == (t.trace, t.state.hash)
  {
    hide TurnAfter, TurnOf, Valid;
  }

  lemma FirstCollected(m: State, decode: Decoder, hf: Hasher, limit: nat, steps: seq<nat>)
    requires Valid(m) && m.step < LAST_STEP_INIT && Increasing(steps)
    requires forall i :: 0 <= i < |steps| ==> steps[i] >= m.step
    ensures var es := Collected(m, decode, hf, limit, steps, 0);
            |es| == UpTo(steps, m.step) && forall i :: 0 <= i < |es| ==> es[i] == EntryAt(m, decode, hf, limit, steps[i])
  {
    hide Valid, TurnAfter, UpTo, Increasing, HashAt;
    UpToSplits(steps, m.step);
    if m.step in steps {
      var i :| 0 <= i < |steps| && steps[i] == m.step;
      IncreasingAt(steps, 0, i);
      if |steps| > 1 { IncreasingAt(steps, 0, 1); }
      assert steps[0] == m.step && UpTo(steps, m.step) == 1;
      StartEntry(m, decode, hf, limit);
    } else if |steps| > 0 {
      assert steps[0] in steps;
      assert UpTo(steps, m.step) == 0;
    }
  }

  lemma StartEntry(m: State, decode: Decoder, hf: Hasher, limit: nat)
    requires Valid(m)
    ensures EntryAt(m, decode, hf, limit, m.step) == (FromStep(0), m.hash)
  {
    hide Valid, TurnAfter;
  }

  lemma NextCollected(steps: seq<nat>, n: nat)
    requires Increasing(steps) && n > 0
    ensures var p := UpTo(steps, n - 1);
            && (n in steps ==> p < |steps| && steps[p] == n && UpTo(steps, n) == p + 1)
            && (n !in steps ==> UpTo(steps, n) == p)
  {
    hide UpTo;
    UpToSplits(steps, n);
    UpToSplits(steps, n - 1);
    var p, q := UpTo(steps, n - 1), UpTo(steps, n);
    if n in steps {
      var i :| 0 <= i < |steps| && steps[i] == n;
      IncreasingAt(steps, p, i);
      if p + 1 < |steps| { IncreasingAt(steps, p, p + 1); }
    } else {
      assert p < |steps| ==> steps[p] in steps;
      assert q < |steps| ==> steps[q] in steps;
    }
  }

  /** What a party answers in a round: the hashes of the round's steps, as far as its run from
      the checkpoint reaches, then copies of the last hash it obtained. `None` when there is no
      checkpoint, the process aborts, or the base step itself is not reached. */
  method GetRoundHashes(d: NArySearchDefinition, store: map<nat, State>, decode: Decoder, hf: Hasher, limit: nat, round: nat, base: nat)
    returns (r: Option<seq<Hash>>, ghost k: nat)
    requires d.Valid() && 1 <= round <= d.TotalRounds()
    requires GoodStore(store) && CheckpointOf(base) < limit && limit + 1 < LAST_STEP_INIT
    ensures base >= d.maxSteps || CheckpointOf(base) !in store ==> r.None?
    ensures base < d.maxSteps && CheckpointOf(base) in store ==>
              Answered(d, store[CheckpointOf(base)], decode, hf, limit, round, base, r, k)
  {
    hide TurnAfter, TurnOf, Collected, NArySearchDefinition.Weight, NArySearchDefinition.Valid, CheckpointOf, HonestList, UpTo, HashAt,
         NArySearchDefinition.IsRequired, Answered;
    k := 0;
    var required := d.RequiredSteps(round, base);
    var steps := [base] + required;
    var state := LoadProgramFromCheckpoint(d, store, base);
    if state.None? { return None, 0; }
    CheckpointBelow(base);
    var program := new Program.Restore(state.value);
    var result, traces, _, turns := ExecuteProgram(program, decode, hf, limit, Some(steps));
    k := turns;
    assert RanFor(state.value, decode, hf, limit, k);
    hide RanFor;
    if result.None? {
      NoAnswer(d, state.value, decode, hf, limit, round, base, k);
      return None, k;
    }
    CollectedSteps(d, state.value, decode, hf, limit, round, base, required, k);
    if |traces| == 0 {
      NoAnswer(d, state.value, decode, hf, limit, round, base, k);
      return None, k;
    }
    var hashes := PadHashes(traces, |required|);
    AnswerIsHonest(d, state.value, decode, hf, limit, round, base, required, hashes, k);
    r := Some(hashes);
  }

  lemma NoAnswer(d: NArySearchDefinition, s: State, decode: Decoder, hf: Hasher, limit: nat, round: nat, base: nat, k: nat)
    requires Valid(s) && limit + 1 < LAST_STEP_INIT && RanFor(s, decode, hf, limit, k)
    requires TurnAfter(s, decode, hf, limit, k).Dead? || s.step + k < base
    ensures Answered(d, s, decode, hf, limit, round, base, None, k)
  {
    hide TurnAfter, Valid;
  }

  /** What a run asked for the base step and the round's steps has collected at its end. */
  lemma CollectedSteps(d: NArySearchDefinition, s: State, decode: Decoder, hf: Hasher, limit: nat, round: nat, base: nat,
                       required: seq<nat>, k: nat)
    requires d.Valid() && 1 <= round <= d.TotalRounds() && d.IsRequired(round, base, required)
    requires Valid(s) && limit + 1 < LAST_STEP_INIT && RanFor(s, decode, hf, limit, k) && s.step <= base
    requires TurnAfter(s, decode, hf, limit, k).Turn?
    ensures var es := Collected(s, decode, hf, limit, [base] + required, k);
            && 1 <= |required| && |es| <= |required| + 1 && (|es| == 0 <==> s.step + k < base)
            && forall i :: 0 <= i <= |required| ==>
                 && (i < |es| <==> ([base] + required)[i] <= s.step + k)
                 && (i < |es| ==> es[i].1 == HashAt(s, decode, hf, limit, ([base] + required)[i]))
  {
    hide TurnAfter, TurnOf, Collected, NArySearchDefinition.Weight, NArySearchDefinition.Valid, UpTo, HashAt, Valid,
         NArySearchDefinition.IsRequired, NArySearchDefinition.Digits, RequiredStep;
    var steps := [base] + required;
    AskedSteps(d, round, base, required);
    forall i | 0 <= i < |steps| ensures steps[i] >= s.step {
      if i > 0 { IncreasingAt(steps, 0, i); }
    }
    CollectedHashes(s, decode, hf, limit, steps, k);
    assert steps[0] == base;
  }

  lemma CollectedHashes(s: State, decode: Decoder, hf: Hasher, limit: nat, steps: seq<nat>, k: nat)
    requires Valid(s) && s.step + k < LAST_STEP_INIT && k > 0 && TurnAfter(s, decode, hf, limit, k).Turn?
    requires |steps| > 0 && Increasing(steps) && forall i :: 0 <= i < |steps| ==> steps[i] >= s.step
    ensures var es := Collected(s, decode, hf, limit, steps, k);
            && |es| <= |steps| && (|es| == 0 <==> s.step + k < steps[0])
            && forall i :: 0 <= i < |steps| ==>
                 && (i < |es| <==> steps[i] <= s.step + k)
                 && (i < |es| ==> es[i].1 == HashAt(s, decode, hf, limit, steps[i]))
  {
    hide TurnAfter, TurnOf, Collected, UpTo, HashAt, Valid, Increasing;
    CollectedInOrder(s, decode, hf, limit, steps, k);
    UpToSplits(steps, s.step + k);
  }

  lemma AnswerIsHonest(d: NArySearchDefinition, s: State, decode: Decoder, hf: Hasher, limit: nat, round: nat, base: nat,
                       required: seq<nat>, hashes: seq<Hash>, k: nat)
    requires d.Valid() && 1 <= round <= d.TotalRounds() && d.IsRequired(round, base, required)
    requires Valid(s) && limit + 1 < LAST_STEP_INIT && RanFor(s, decode, hf, limit, k) && s.step <= base <= s.step + k
    requires TurnAfter(s, decode, hf, limit, k).Turn? && |hashes| == |required|
    requires var es := Collected(s, decode, hf, limit, [base] + required, k);
             forall j :: 0 <= j < |required| && j + 1 < |es| ==> hashes[j] == es[j + 1].1
    ensures Answered(d, s, decode, hf, limit, round, base, Some(hashes), k)
  {
    hide TurnAfter, TurnOf, Collected, NArySearchDefinition.Weight, NArySearchDefinition.Valid, UpTo, HashAt, Valid,
         NArySearchDefinition.IsRequired, NArySearchDefinition.Digits, RequiredStep, HonestList;
    AskedSteps(d, round, base, required);
    CollectedSteps(d, s, decode, hf, limit, round, base, required, k);
    var es := Collected(s, decode, hf, limit, [base] + required, k);
    PaddedAnswer(d, s, decode, hf, limit, round, base, [base] + required, es, hashes, k);
  }

  lemma CheckpointBelow(step: nat)
    ensures CheckpointOf(step) <= step
  {
  }

  /** The hashes of all entries but the base step's, or of that one alone, then copies of the
      last up to the required number. */
  method PadHashes(traces: seq<Entry>, required: nat) returns (hashes: seq<Hash>)
    requires 1 <= |traces| <= required + 1 && required >= 1
    ensures |hashes| == required
    ensures forall j :: 0 <= j < required ==>
              hashes[j] == if j + 1 < |traces| then traces[j + 1].1 else traces[|traces| - 1].1
  {
    var skip := if |traces| > 1 then 1 else 0;
    hashes := [];
    for i := skip to |traces|
      invariant |hashes| == i - skip
      invariant forall j :: 0 <= j < |hashes| ==> hashes[j] == traces[skip + j].1
    {
      hashes := hashes + [traces[i].1];
    }
    var obtained := |hashes|;
    assert obtained <= required;
    for i := 0 to required - obtained
      invariant |hashes| == obtained + i
      invariant forall j :: 0 <= j < obtained ==> hashes[j] == traces[skip + j].1
      invariant forall j :: obtained <= j < |hashes| ==> hashes[j] == traces[|traces| - 1].1
    {
      hashes := hashes + [traces[|traces| - 1].1];
    }
  }

  /** A run that made `k` turns and no more. */
  ghost predicate RanFor(s: State, decode: Decoder, hf: Hasher, limit: nat, k: nat)
    requires Valid(s) && limit + 1 < LAST_STEP_INIT
  {
    && 1 <= k && s.step + k <= limit
    && (k == 1 || (TurnAfter(s, decode, hf, limit, k - 1).Turn? && TurnAfter(s, decode, hf, limit, k - 1).stop.None?))
    && (TurnAfter(s, decode, hf, limit, k).Turn? ==> TurnAfter(s, decode, hf, limit, k).stop.Some?)
  }

  /** The meaning of an answer computed from the checkpoint `s`, whose run makes `k` turns. */
  ghost predicate Answered(d: NArySearchDefinition, s: State, decode: Decoder, hf: Hasher, limit: nat,
                           round: nat, base: nat, r: Option<seq<Hash>>, k: nat)
    requires Valid(s) && limit + 1 < LAST_STEP_INIT
  {
    && RanFor(s, decode, hf, limit, k)
    && var t := TurnAfter(s, decode, hf, limit, k);
       && (r.None? <==> t.Dead? || s.step + k < base)
       && (r.Some? ==> HonestList(d, n => HashAt(s, decode, hf, limit, n), s.step + k, round, base, r.value))
  }

  lemma AskedSteps(d: NArySearchDefinition, round: nat, base: nat, required: seq<nat>)
    requires d.Valid() && 1 <= round <= d.TotalRounds() && d.IsRequired(round, base, required)
    ensures Increasing([base] + required) && |required| == d.Digits(round) - 1 >= 1
    ensures forall n: nat :: n < |required| ==> ([base] + required)[n + 1] == RequiredStep(d, base, round, n)
  {
    d.WeightOfRound(round);
    var steps, w := [base] + required, d.Weight(round);
    forall n: nat | n < |required|
      ensures steps[n + 1] == RequiredStep(d, base, round, n)
    {
      RequiredIsSum(d, base, round, n);
    }
    forall i: nat, j: nat | i < j < |steps|
      ensures steps[i] < steps[j]
    {
      StepsGrow(d, base, round, i, j);
      if i > 0 { RequiredIsSum(d, base, round, i - 1); }
      RequiredIsSum(d, base, round, j - 1);
    }
  }

  lemma StepsGrow(d: NArySearchDefinition, base: nat, round: nat, i: nat, j: nat)
    requires i < j
    ensures base + i * d.Weight(round) < base + j * d.Weight(round)
  {
    MulSub(j, i, d.Weight(round));
    MulGrows(j - i, d.Weight(round));
  }

  lemma PaddedAnswer(d: NArySearchDefinition, s: State, decode: Decoder, hf: Hasher, limit: nat, round: nat, base: nat,
                     steps: seq<nat>, traces: seq<Entry>, hashes: seq<Hash>, k: nat)
    requires Valid(s)
    requires |steps| == d.Digits(round) && |steps| > 1 && steps[0] == base && Increasing(steps)
    requires forall n: nat :: n < |steps| - 1 ==> steps[n + 1] == RequiredStep(d, base, round, n)
    requires 1 <= |traces| <= |steps| && |hashes| == |steps| - 1
    requires forall i :: 0 <= i < |steps| ==> (i < |traces| <==> steps[i] <= s.step + k)
    requires forall i :: 0 <= i < |traces| ==> traces[i].1 == HashAt(s, decode, hf, limit, steps[i])
    requires forall j :: 0 <= j < |traces| - 1 ==> hashes[j] == traces[j + 1].1
    ensures HonestList(d, n => HashAt(s, decode, hf, limit, n), s.step + k, round, base, hashes)
  {
    hide HashAt, RequiredStep, Valid, NArySearchDefinition.Digits;
    forall n: nat | n < |hashes| && RequiredStep(d, base, round, n) <= s.step + k
      ensures hashes[n] == HashAt(s, decode, hf, limit, RequiredStep(d, base, round, n))
    {
      assert steps[n + 1] <= s.step + k;
    }
  }

  // ---------------------------------------------------------------- an honest party

  /** From any checkpoint before the end, the resumed run ends at the same step as the run from
      the start and passes through the same hashes. */
  lemma CheckpointRun(m: State, decode: Decoder, hf: Hasher, limit: nat, last: nat, store: map<nat, State>, c: nat)
    requires Ends(m, decode, hf, limit, last) && Saves(store, m, decode, hf, limit, last)
    requires c < last && c % CHECKPOINT_SIZE == 0
    ensures c in store && Valid(store[c]) && store[c].step == c
    ensures TurnAfter(store[c], decode, hf, limit, last - c).Turn? && TurnAfter(store[c], decode, hf, limit, last - c).stop.Some?
    ensures forall n: nat :: c <= n <= last ==> HashAt(store[c], decode, hf, limit, n) == HashAt(m, decode, hf, limit, n)
  {
    hide TurnOf, TurnAfter, Ordered, HashAt;
    if c > 0 {
      assert SavedTurn(store, m, decode, hf, limit, c);
      EarlierTurns(m, decode, hf, limit, c, last);
      TurnsCompose(m, decode, hf, limit, c, last - c);
      forall n: nat | c <= n <= last
        ensures HashAt(store[c], decode, hf, limit, n) == HashAt(m, decode, hf, limit, n)
      {
        HashFromCheckpoint(m, decode, hf, limit, last, c, n);
      }
    }
  }

  lemma HashFromCheckpoint(m: State, decode: Decoder, hf: Hasher, limit: nat, last: nat, c: nat, n: nat)
    requires Valid(m) && m.step == 0 && 1 <= c <= n <= last < LAST_STEP_INIT
    requires TurnAfter(m, decode, hf, limit, last).Turn?
    requires TurnAfter(m, decode, hf, limit, c).Turn? && TurnAfter(m, decode, hf, limit, c).stop.None?
    ensures HashAt(TurnAfter(m, decode, hf, limit, c).state, decode, hf, limit, n) == HashAt(m, decode, hf, limit, n)
  {
    hide TurnOf, TurnAfter, Ordered;
    if c < n {
      TurnsCompose(m, decode, hf, limit, c, n - c);
      if n < last { EarlierTurns(m, decode, hf, limit, n, last); }
    }
  }

  /** The turn at which a run ends is unique. */
  lemma EndIsUnique(m: State, decode: Decoder, hf: Hasher, limit: nat, k: nat, last: nat)
    requires Valid(m) && 1 <= k && 1 <= last && m.step + k < LAST_STEP_INIT && m.step + last < LAST_STEP_INIT
    requires TurnAfter(m, decode, hf, limit, last).Turn? && TurnAfter(m, decode, hf, limit, last).stop.Some?
    requires k == 1 || (TurnAfter(m, decode, hf, limit, k - 1).Turn? && TurnAfter(m, decode, hf, limit, k - 1).stop.None?)
    requires TurnAfter(m, decode, hf, limit, k).Turn? ==> TurnAfter(m, decode, hf, limit, k).stop.Some?
    ensures k == last
  {
    hide TurnOf, TurnAfter;
    if k < last {
      EarlierTurns(m, decode, hf, limit, k, last);
    } else if last < k - 1 {
      EarlierTurns(m, decode, hf, limit, last, k - 1);
    }
  }

  /** An honest party's answers: in every round whose base step its execution passes, the
      hashes it computes from its checkpoints are those of the run from the start, for every
      step the run reaches. */
  lemma AnswersAreHonest(m: State, decode: Decoder, hf: Hasher, limit: nat, last: nat, store: map<nat, State>,
                         d: NArySearchDefinition, round: nat, base: nat, r: Option<seq<Hash>>, k: nat)
    requires Ends(m, decode, hf, limit, last) && Saves(store, m, decode, hf, limit, last)
    requires d.Valid() && 1 <= round <= d.TotalRounds() && base < last && base < d.maxSteps
    requires CheckpointOf(base) in store && Valid(store[CheckpointOf(base)])
    requires Answered(d, store[CheckpointOf(base)], decode, hf, limit, round, base, r, k)
    ensures r.Some? && HonestList(d, n => HashAt(m, decode, hf, limit, n), last, round, base, r.value)
  {
    hide TurnOf, TurnAfter, HashAt, RequiredStep, Ordered, NArySearchDefinition.Valid, NArySearchDefinition.Weight;
    var c := CheckpointOf(base);
    CheckpointRun(m, decode, hf, limit, last, store, c);
    EndIsUnique(store[c], decode, hf, limit, k, last - c);
    forall n: nat | n < |r.value| && RequiredStep(d, base, round, n) <= last
      ensures r.value[n] == HashAt(m, decode, hf, limit, RequiredStep(d, base, round, n))
    {
      RequiredIsSum(d, base, round, n);
      RequiredAfterBase(d, base, round, n);
    }
  }

  /** The hashes are those a party computes in a round from its nearest checkpoint. */
  ghost predicate AnsweredFrom(store: map<nat, State>, d: NArySearchDefinition, decode: Decoder, hf: Hasher, limit: nat,
                               round: nat, base: nat, hashes: seq<Hash>)
    requires limit + 1 < LAST_STEP_INIT
  {
    && CheckpointOf(base) in store && Valid(store[CheckpointOf(base)])
    && exists k :: Answered(d, store[CheckpointOf(base)], decode, hf, limit, round, base, Some(hashes), k)
  }

  /** The party computes each of its answers so. */
  ghost predicate AnswersFrom(store: map<nat, State>, d: NArySearchDefinition, decode: Decoder, hf: Hasher, limit: nat,
                              start: nat, mine: RoundHashes)
    requires limit + 1 < LAST_STEP_INIT
  {
    forall round: nat, base: nat :: 1 <= round <= d.TotalRounds() && base <= start
                                    ==> AnsweredFrom(store, d, decode, hf, limit, round, base, mine(round, base))
  }

  /** Such a party is honest, for the whole search, about every step before the end of its run:
      the hashes it plays with are those of the run from the start. */
  lemma PartyIsHonest(m: State, decode: Decoder, hf: Hasher, limit: nat, last: nat, store: map<nat, State>,
                      d: NArySearchDefinition, h: nat -> Hash, start: nat, mine: RoundHashes)
    requires Ends(m, decode, hf, limit, last) && Saves(store, m, decode, hf, limit, last)
    requires d.Valid() && start < last && start < d.maxSteps
    requires forall n: nat :: h(n) == HashAt(m, decode, hf, limit, n)
    requires AnswersFrom(store, d, decode, hf, limit, start, mine)
    ensures Honest(d, h, start, mine)
  {
    hide Saves, Answered, TurnAfter, HashAt, RequiredStep, Valid, NArySearchDefinition.Valid, CheckpointOf;
    forall round: nat, base: nat | 1 <= round <= d.TotalRounds() && base <= start
      ensures HonestList(d, h, start, round, base, mine(round, base))
    {
      assert AnsweredFrom(store, d, decode, hf, limit, round, base, mine(round, base));
      var k :| Answered(d, store[CheckpointOf(base)], decode, hf, limit, round, base, Some(mine(round, base)), k);
      AnswersAreHonest(m, decode, hf, limit, last, store, d, round, base, Some(mine(round, base)), k);
    }
  }

  lemma RequiredAfterBase(d: NArySearchDefinition, base: nat, round: nat, n: nat)
    ensures RequiredStep(d, base, round, n) >= base
  {
  }
}
