/** What each party does outside the rounds: the first full execution with its checkpoints, the
    verifier's decision to challenge, and the prover's final trace. */
module Parties {
  import opened Bits
  import opened Options
  import opened NArySearch
  import opened Trace
  import opened SectionMemory
  import opened Machine
  import opened Runs
  import opened Programs
  import opened Execution
  import opened Resuming
  import opened Checkpoints
  import opened Dispute
  import opened Challenges
  import opened DisputeOutcome

  // ---------------------------------------------------------------- the first execution

  lemma TurnIsNumbered(m: State, decode: Decoder, hf: Hasher, limit: nat)
    requires Valid(m) && m.step + 1 < LAST_STEP_INIT && TurnOf(m, decode, hf, limit).Turn?
    ensures TurnOf(m, decode, hf, limit).trace.stepNumber == m.step + 1
    ensures TurnOf(m, decode, hf, limit).stop.Some? && TurnOf(m, decode, hf, limit).stop.value.Halt? ==>
              TurnOf(m, decode, hf, limit).stop.value.step == m.step + 1
  {
    hide Tick, Valid;
    if Tick(m, decode, hf).Stepped? {
      TickIsNumbered(m, decode, hf);
    } else {
      ErrorsAreErrors(m, decode, hf);
    }
  }

  lemma TickIsNumbered(m: State, decode: Decoder, hf: Hasher)
    requires Valid(m) && m.step + 1 < LAST_STEP_INIT && Tick(m, decode, hf).Stepped?
    ensures Tick(m, decode, hf).trace.stepNumber == Tick(m, decode, hf).state.step == m.step + 1
  {
    hide Tick, Valid;
    TickChangesOnlyItsTrace(m, decode, hf);
  }

  lemma LastIsNumbered(m: State, decode: Decoder, hf: Hasher, limit: nat, k: nat)
    requires Valid(m) && m.step + k < LAST_STEP_INIT && k >= 1 && TurnAfter(m, decode, hf, limit, k).Turn?
    ensures TurnAfter(m, decode, hf, limit, k).trace.stepNumber == m.step + k
    ensures var stop := TurnAfter(m, decode, hf, limit, k).stop; stop.Some? && stop.value.Halt? ==> stop.value.step == m.step + k
  {
    hide TurnOf, Valid;
    TurnIsNumbered(if k == 1 then m else TurnAfter(m, decode, hf, limit, k - 1).state, decode, hf, limit);
  }

  /** The result of a whole execution, the number of its last step and the hash there. `None`
      is an abort, or a run that met the step limit, whose last record is not kept. */
  method GetExecutionResult(program: Program, decode: Decoder, hf: Hasher, limit: nat)
    returns (r: Option<(ExecutionResult, nat, Hash)>, store: map<nat, State>, ghost last: nat)
    requires program.Valid() && program.step == 0 && 1 <= limit && limit + 1 < LAST_STEP_INIT
    modifies program`sections, program`pc, program`halt, program`step, program`hash,
             program.registers.value, program.registers.lastStep
    ensures 1 <= last <= limit
    ensures var m := old(program.Model());
            var t := TurnAfter(m, decode, hf, limit, last);
            && (r.None? <==> t.Dead? || t.stop == Some(LimitStepReached(limit)))
            && (r.Some? ==>
                  && Ends(m, decode, hf, limit, last) && Saves(store, m, decode, hf, limit, last) && GoodStore(store)
                  && r.value == (t.stop.value, last, HashAt(m, decode, hf, limit, last)))
  {
    hide TurnAfter, Machine.Valid, Saves, GoodStore;
    ghost var m := program.Model();
    var result, traces, saved, k := ExecuteProgram(program, decode, hf, limit, None);
    store, last := saved, k;
    if result.None? { return None, store, last; }
    LimitIsLimit(m, decode, hf, limit, k);
    if |traces| == 0 { return None, store, last; }
    LastIsNumbered(m, decode, hf, limit, k);
    var entry := traces[|traces| - 1];
    r := Some((result.value, entry.0.stepNumber, entry.1));
  }

  lemma LimitIsLimit(m: State, decode: Decoder, hf: Hasher, limit: nat, k: nat)
    requires Valid(m) && m.step + k < LAST_STEP_INIT && k >= 1 && limit < LAST_STEP_INIT
    ensures var t := TurnAfter(m, decode, hf, limit, k);
            t.Turn? && t.stop.Some? && t.stop.value.LimitStepReached? ==> t.stop == Some(LimitStepReached(limit))
  {
    hide TurnOf, Valid;
    if TurnAfter(m, decode, hf, limit, k).Turn? {
      OnlyTheLimit(if k == 1 then m else TurnAfter(m, decode, hf, limit, k - 1).state, decode, hf, limit);
    }
  }

  lemma OnlyTheLimit(m: State, decode: Decoder, hf: Hasher, limit: nat)
    requires Valid(m) && m.step + 1 < LAST_STEP_INIT && limit < LAST_STEP_INIT
    ensures var t := TurnOf(m, decode, hf, limit);
            t.Turn? && t.stop.Some? && t.stop.value.LimitStepReached? ==> t.stop == Some(LimitStepReached(limit))
  {
    hide Tick, Valid;
    if Tick(m, decode, hf).Failed? { ErrorsAreErrors(m, decode, hf); }
  }

  /** The verifier's decision: it challenges exactly if its own execution does not halt with
      exit code zero, whatever the prover claims, and from one step before the earlier end. */
  method CheckExecution(program: Program, decode: Decoder, hf: Hasher, limit: nat, claimLastStep: nat)
    returns (r: Option<(VerifierChallengeLog, Option<nat>)>, store: map<nat, State>, ghost last: nat)
    requires program.Valid() && program.step == 0 && 1 <= limit && limit + 1 < LAST_STEP_INIT && claimLastStep > 0
    modifies program`sections, program`pc, program`halt, program`step, program`hash,
             program.registers.value, program.registers.lastStep
    ensures 1 <= last <= limit
    ensures var m := old(program.Model());
            var t := TurnAfter(m, decode, hf, limit, last);
            var start := (if claimLastStep < last then claimLastStep else last) - 1;
            && (r.None? <==> t.Dead? || t.stop == Some(LimitStepReached(limit)))
            && (r.Some? ==>
                  && Ends(m, decode, hf, limit, last) && Saves(store, m, decode, hf, limit, last) && GoodStore(store)
                  && fresh(r.value.0) && r.value.0.View() == StartSearch(start)
                  && (if t.stop == Some(Halt(0, last)) then r.value.1 == None else r.value.1 == Some(start)))
  {
    hide TurnAfter, Machine.Valid, Saves, GoodStore;
    var result, saved, k := GetExecutionResult(program, decode, hf, limit);
    store, last := saved, k;
    if result.None? { return None, store, last; }
    var (stop, lastStep, _) := result.value;
    var shouldChallenge := stop != Halt(0, lastStep);
    var log := new VerifierChallengeLog.CheckExecution(claimLastStep, lastStep);
    r := Some((log, if shouldChallenge then Some(log.stepToChallenge) else None));
  }

  // ---------------------------------------------------------------- the final trace

  /** The run from `s` stops at its turn `k`. */
  ghost predicate StopsAfter(s: State, decode: Decoder, hf: Hasher, limit: nat, k: nat)
    requires Valid(s)
  {
    && k >= 1 && s.step + k < LAST_STEP_INIT
    && TurnAfter(s, decode, hf, limit, k).Turn? && TurnAfter(s, decode, hf, limit, k).stop.Some?
  }

  /** The record that a run from `s` collects of a step, if the run stops and passes the step;
      of the step it starts from, a default record. */
  ghost function RecordFrom(s: State, decode: Decoder, hf: Hasher, limit: nat, step: nat): Option<TraceRWStep>
    requires Valid(s)
  {
    if exists k :: StopsAfter(s, decode, hf, limit, k) && step <= s.step + k
    then Some(if step == s.step then FromStep(0) else EntryAt(s, decode, hf, limit, step).0)
    else None
  }

  /** The prover's record of a step, executed again from the nearest checkpoint. `None` is an
      error, an abort, or a run without an end. */
  method GetTraceStep(d: NArySearchDefinition, store: map<nat, State>, decode: Decoder, hf: Hasher, limit: nat, step: nat)
    returns (r: Option<TraceRWStep>)
    requires GoodStore(store) && step + 1 < LAST_STEP_INIT
    ensures r == if step < d.maxSteps && CheckpointOf(step) in store
                 then RecordFrom(store[CheckpointOf(step)], decode, hf, limit, step) else None
  {
    hide TurnAfter, TurnOf, Collected, CheckpointOf, EntryAt, Machine.Valid, UpTo, HashAt, RecordFrom;
    var state := LoadProgramFromCheckpoint(d, store, step);
    if state.None? { return None; }
    CheckpointBelow(step);
    var program := new Program.Restore(state.value);
    var result, traces, _, k := ExecuteProgram(program, decode, hf, limit, Some([step]));
    if result.None? {
      EndlessRecord(state.value, decode, hf, limit, k, step);
      return None;
    }
    StoppedRecord(state.value, decode, hf, limit, k, step);
    r := if |traces| == 0 then None else Some(traces[0].0);
  }

  lemma StoppedRecord(s: State, decode: Decoder, hf: Hasher, limit: nat, k: nat, step: nat)
    requires Valid(s) && StopsAfter(s, decode, hf, limit, k) && s.step <= step
    ensures var traces := Collected(s, decode, hf, limit, [step], k);
            RecordFrom(s, decode, hf, limit, step) == if |traces| == 0 then None else Some(traces[0].0)
  {
    hide TurnAfter, TurnOf, Collected, Valid, UpTo, HashAt;
    CollectedInOrder(s, decode, hf, limit, [step], k);
    UpToSplits([step], s.step + k);
    assert [step][0] == step;
    forall j | StopsAfter(s, decode, hf, limit, j) ensures j == k {
      StopsOnce(s, decode, hf, limit, j, k);
    }
  }

  lemma StopsOnce(s: State, decode: Decoder, hf: Hasher, limit: nat, j: nat, k: nat)
    requires Valid(s) && StopsAfter(s, decode, hf, limit, j) && StopsAfter(s, decode, hf, limit, k)
    ensures j == k
  {
    hide TurnAfter, Valid;
    if j < k { EarlierTurns(s, decode, hf, limit, j, k); }
    if k < j { EarlierTurns(s, decode, hf, limit, k, j); }
  }

  lemma EndlessRecord(s: State, decode: Decoder, hf: Hasher, limit: nat, k: nat, step: nat)
    requires Valid(s) && 1 <= k && s.step + k < LAST_STEP_INIT
    requires k > 1 ==> TurnAfter(s, decode, hf, limit, k - 1).Turn? && TurnAfter(s, decode, hf, limit, k - 1).stop.None?
    requires var t := TurnAfter(s, decode, hf, limit, k);
             t.Dead? || (t.stop.None? && s.step + k + 1 == LAST_STEP_INIT)
    ensures RecordFrom(s, decode, hf, limit, step) == None
  {
    hide TurnAfter, Valid;
    forall j: nat | StopsAfter(s, decode, hf, limit, j) ensures false {
      if j < k - 1 { EarlierTurns(s, decode, hf, limit, j, k - 1); }
      if j > k { EarlierTurns(s, decode, hf, limit, k, j); }
    }
  }

  /** In a finished run the record is the run's own, or the default one of a checkpoint, for every
      step up to the end; there is none for a later step. At a checkpoint where the run ended by a
      halt or an error, the resumed run stops again and gives the default record. */
  lemma RecordOfStep(m: State, decode: Decoder, hf: Hasher, limit: nat, last: nat, store: map<nat, State>, step: nat)
    requires Ends(m, decode, hf, limit, last) && Saves(store, m, decode, hf, limit, last)
    requires CheckpointOf(step) <= last
    ensures CheckpointOf(step) in store && Valid(store[CheckpointOf(step)])
    ensures var r := RecordFrom(store[CheckpointOf(step)], decode, hf, limit, step);
            && (CheckpointOf(step) < last ==>
                  r == if step > last then None
                       else Some(if step % CHECKPOINT_SIZE == 0 then FromStep(0) else EntryAt(m, decode, hf, limit, step).0))
            && (step == CheckpointOf(step) == last && !m.halt && !TurnAfter(m, decode, hf, limit, last).stop.value.LimitStepReached? ==>
                  r == Some(FromStep(0)))
  {
    hide TurnAfter, TurnOf, Valid, HashAt, EntryAt, Saves;
    var c := CheckpointOf(step);
    SavedAt(m, decode, hf, limit, last, store, c);
    if c < last {
      CheckpointRun(m, decode, hf, limit, last, store, c);
      assert StopsAfter(store[c], decode, hf, limit, last - c);
      forall j | StopsAfter(store[c], decode, hf, limit, j) ensures j == last - c {
        StopsOnce(store[c], decode, hf, limit, j, last - c);
      }
      if c < step <= last { EntryFromCheckpoint(m, decode, hf, limit, last, store, c, step); }
    } else if step == c && !m.halt && !TurnAfter(m, decode, hf, limit, last).stop.value.LimitStepReached? {
      StopsAgain(m, decode, hf, limit, last);
      assert StopsAfter(store[c], decode, hf, limit, 1);
    }
  }

  lemma SavedAt(m: State, decode: Decoder, hf: Hasher, limit: nat, last: nat, store: map<nat, State>, c: nat)
    requires Ends(m, decode, hf, limit, last) && Saves(store, m, decode, hf, limit, last)
    requires c <= last && c % CHECKPOINT_SIZE == 0
    ensures c in store && Valid(store[c]) && store[c].step == c
    ensures c == last ==> store[c] == TurnAfter(m, decode, hf, limit, last).state
  {
    hide TurnAfter, Valid;
    if c > 0 { assert SavedTurn(store, m, decode, hf, limit, c); }
  }

  /** A run that a halt or an error stopped stops again at its next turn. */
  lemma StopsAgain(m: State, decode: Decoder, hf: Hasher, limit: nat, last: nat)
    requires Ends(m, decode, hf, limit, last) && !m.halt && !TurnAfter(m, decode, hf, limit, last).stop.value.LimitStepReached?
    ensures StopsAfter(TurnAfter(m, decode, hf, limit, last).state, decode, hf, limit, 1)
  {
    hide TurnOf, Valid;
    var s := StateBefore(m, decode, hf, limit, last);
    TurnStopsAgain(s, decode, hf, limit);
  }

  lemma TurnStopsAgain(m: State, decode: Decoder, hf: Hasher, limit: nat)
    requires Valid(m) && !m.halt && m.step + 2 < LAST_STEP_INIT && TurnOf(m, decode, hf, limit).Turn?
    requires TurnOf(m, decode, hf, limit).stop.Some? && !TurnOf(m, decode, hf, limit).stop.value.LimitStepReached?
    ensures var t := TurnOf(TurnOf(m, decode, hf, limit).state, decode, hf, limit); t.Turn? && t.stop.Some?
  {
    hide Tick, Valid, AtHalt;
    var r := Tick(m, decode, hf);
    if r.Failed? {
      FailsAgain(m, decode, hf);
    } else if r.Stepped? {
      HaltedIsNotStuck(m, decode, hf);
      HaltsAgain(r.state, decode, hf);
    }
  }

  /** The prover's last answer: its log moves to the step that the final digit names, and holds
      the record executed again from the nearest checkpoint. Without a record the log stays. */
  method ProverFinalTrace(log: ProverChallengeLog, d: NArySearchDefinition, finalBits: nat, store: map<nat, State>,
                          decode: Decoder, hf: Hasher, limit: nat)
    returns (r: Option<TraceRWStep>)
    requires d.Valid() && GoodStore(store)
    requires d.StepFromBaseAndBits(d.TotalRounds(), log.baseStep, finalBits) + 1 < LAST_STEP_INIT
    modifies log
    ensures var step := d.StepFromBaseAndBits(d.TotalRounds(), old(log.baseStep), finalBits);
            && r == (if step < d.maxSteps && CheckpointOf(step) in store
                     then RecordFrom(store[CheckpointOf(step)], decode, hf, limit, step) else None)
            && (if r.Some? then
                  && log.baseStep == step && log.finalTrace == r
                  && log.verifierDecisions == old(log.verifierDecisions) + [finalBits] && log.hashRounds == old(log.hashRounds)
                else unchanged(log))
  {
    hide RecordFrom, CheckpointOf, NArySearchDefinition.StepFromBaseAndBits, NArySearchDefinition.Valid;
    var step := d.StepFromBaseAndBits(d.TotalRounds(), log.baseStep, finalBits);
    r := GetTraceStep(d, store, decode, hf, limit, step);
    if r.Some? {
      var record := r.value;
      var _ := log.FinalTrace(d, finalBits, _ => record);
    }
  }

  /** The honest prover's final trace of a step that is a checkpoint loses, although every hash
      it committed is right: the verifier challenges the hash of the default record and wins,
      unless the step is as empty as that record, or two inputs of the hash collide. */
  lemma CheckpointStepLoses(m: State, decode: Decoder, hf: Hasher, limit: nat, isInput: u32 -> bool, k: nat,
                            stepHash: Hash, nextHash: Hash, execution: seq<Entry>)
    requires Executes(m, decode, hf, limit, k) && Around(m, decode, hf, limit, k, execution)
    requires stepHash == HashAt(m, decode, hf, limit, k) && nextHash == HashAt(m, decode, hf, limit, k + 1)
    ensures Ordered(m.sections)
    ensures var c := ChooseChallenge(m, hf, isInput, k, stepHash, nextHash, FromStep(0), execution);
            var own := EntryAt(m, decode, hf, limit, k + 1).0.traceStep;
            || (c == Chosen(TraceHash(stepHash, EMPTY_STEP, nextHash)) && Wins(hf, c.challenge))
            || own == EMPTY_STEP
            || (stepHash + ToBytes(own) != stepHash + ToBytes(EMPTY_STEP) && hf(stepHash + ToBytes(own)) == hf(stepHash + ToBytes(EMPTY_STEP)))
  {
    hide EntryAt, HashAt, TurnAfter, Tick, ToBytes, StateAt;
    ExecutedHash(m, decode, hf, limit, k);
    var own := EntryAt(m, decode, hf, limit, k + 1).0.traceStep;
    if stepHash + ToBytes(own) == stepHash + ToBytes(EMPTY_STEP) {
      assert ToBytes(own) == (stepHash + ToBytes(own))[|stepHash|..];
      assert ToBytes(EMPTY_STEP) == (stepHash + ToBytes(EMPTY_STEP))[|stepHash|..];
      ToBytesInjective(own, EMPTY_STEP);
    }
  }
}
