/** The end of a dispute: a prover whose hash for the isolated step is wrong loses a challenge,
    fails the step's script, or has misreported a value that the step used. */
module DisputeOutcome {
  import opened Bits
  import opened Options
  import opened NArySearch
  import opened StepMapping
  import opened Trace
  import opened SectionMemory
  import opened SectionIndex
  import opened Machine
  import opened Runs
  import opened MicroStates
  import opened Programs
  import opened Loader
  import opened Execution
  import opened Checkpoints
  import opened Dispute
  import opened ScriptOutcomes
  import opened MemoryScripts
  import opened ScriptAgreement
  import opened UniqueResults
  import opened Challenges

  // ---------------------------------------------------------------- the verifier's own records

  /** From any earlier checkpoint, a step is collected with the record of the run from the start. */
  lemma EntryFromCheckpoint(m: State, decode: Decoder, hf: Hasher, limit: nat, last: nat, store: map<nat, State>, c: nat, n: nat)
    requires Ends(m, decode, hf, limit, last) && Saves(store, m, decode, hf, limit, last)
    requires c < n <= last && c % CHECKPOINT_SIZE == 0
    ensures c in store && Valid(store[c]) && EntryAt(store[c], decode, hf, limit, n) == EntryAt(m, decode, hf, limit, n)
  {
    hide TurnOf, TurnAfter, HashAt, Valid;
    CheckpointRun(m, decode, hf, limit, last, store, c);
    if c > 0 {
      assert SavedTurn(store, m, decode, hf, limit, c);
      EarlierTurns(m, decode, hf, limit, c, last);
      TurnsCompose(m, decode, hf, limit, c, n - c);
    }
  }

  /** The steps the verifier re-executes around the isolated one. */
  function StepsAround(step: nat): seq<nat>
  {
    if step > 0 then [step - 1, step, step + 1] else [step, step + 1]
  }

  /** Re-execute the steps around the isolated one from the nearest checkpoint. */
  method ExecuteAround(d: NArySearchDefinition, store: map<nat, State>, decode: Decoder, hf: Hasher, limit: nat, step: nat,
                       ghost m: State, ghost last: nat)
    returns (execution: Option<seq<Entry>>)
    requires GoodStore(store) && CheckpointOf(StepsAround(step)[0]) < limit && limit + 1 < LAST_STEP_INIT
    requires Ends(m, decode, hf, limit, last) && Saves(store, m, decode, hf, limit, last)
    requires step + 1 <= last && step < d.maxSteps
    ensures execution.Some? && Around(m, decode, hf, limit, step, execution.value)
  {
    hide TurnAfter, TurnOf, Collected, CheckpointOf, EntryAt, Valid, Saves, UpTo, HashAt;
    var steps := [step, step + 1];
    if step > 0 { steps := [step - 1] + steps; }
    assert steps == StepsAround(step);
    ghost var c := CheckpointOf(steps[0]);
    CheckpointBelow(steps[0]);
    CheckpointRun(m, decode, hf, limit, last, store, c);
    var state := LoadProgramFromCheckpoint(d, store, steps[0]);
    var program := new Program.Restore(state.value);
    var result, traces, _, k := ExecuteProgram(program, decode, hf, limit, Some(steps));
    EndIsUnique(store[c], decode, hf, limit, k, last - c);
    CollectedAround(m, decode, hf, limit, last, store, c, step);
    execution := Some(traces);
  }

  lemma CollectedAround(m: State, decode: Decoder, hf: Hasher, limit: nat, last: nat, store: map<nat, State>, c: nat, step: nat)
    requires Ends(m, decode, hf, limit, last) && Saves(store, m, decode, hf, limit, last)
    requires c <= StepsAround(step)[0] && step + 1 <= last && c % CHECKPOINT_SIZE == 0
    ensures c in store && Valid(store[c]) && store[c].step == c
    ensures Around(m, decode, hf, limit, step, Collected(store[c], decode, hf, limit, StepsAround(step), last - c))
  {
    hide TurnAfter, TurnOf, Collected, EntryAt, Valid, Saves, UpTo, HashAt;
    var steps := StepsAround(step);
    CheckpointRun(m, decode, hf, limit, last, store, c);
    CollectedInOrder(store[c], decode, hf, limit, steps, last - c);
    UpToSplits(steps, last);
    CheckpointedHash(m, decode, hf, limit, last, store, c, steps[0]);
    EntryFromCheckpoint(m, decode, hf, limit, last, store, c, step + 1);
    if step > 0 { EntryFromCheckpoint(m, decode, hf, limit, last, store, c, step); }
    var traces := Collected(store[c], decode, hf, limit, steps, last - c);
    assert steps[|steps| - 1] == step + 1;
    assert |traces| == |steps|;
    assert traces[0] == EntryAt(store[c], decode, hf, limit, steps[0]);
  }

  lemma CheckpointedHash(m: State, decode: Decoder, hf: Hasher, limit: nat, last: nat, store: map<nat, State>, c: nat, n: nat)
    requires Ends(m, decode, hf, limit, last) && Saves(store, m, decode, hf, limit, last)
    requires c <= n < last && c % CHECKPOINT_SIZE == 0
    ensures c in store && Valid(store[c])
    ensures EntryAt(store[c], decode, hf, limit, n).1 == HashAt(m, decode, hf, limit, n)
  {
    hide TurnOf, TurnAfter, HashAt, Valid, Saves;
    CheckpointRun(m, decode, hf, limit, last, store, c);
  }

  // ---------------------------------------------------------------- runs without errors

  /** The states up to an executed step form a run. */
  lemma {:induction false} TurnsAreRun(m: State, decode: Decoder, hf: Hasher, limit: nat, k: nat, n: nat)
    returns (ms: seq<State>, ts: seq<TraceRWStep>)
    requires Executes(m, decode, hf, limit, k) && Fresh(m) && n <= k
    ensures |ms| == n + 1 && |ts| == n && IsRun(ms, ts, decode, hf)
    ensures forall j :: 0 <= j <= n ==> ms[j] == StateAt(m, decode, hf, limit, j)
  {
    hide TurnAfter, Valid, Tick, StateAt, Fresh, EntryAt, HashAt;
    if n == 0 {
      ms, ts := [m], [];
      AtStart(m, decode, hf, limit);
    } else {
      ms, ts := TurnsAreRun(m, decode, hf, limit, k, n - 1);
      ExecutedBefore(m, decode, hf, limit, n - 1, k);
      ExecutedEntry(m, decode, hf, limit, n - 1);
      var s := StateAt(m, decode, hf, limit, n - 1);
      RunExtends(ms, ts, decode, hf, Tick(s, decode, hf).trace, Tick(s, decode, hf).state);
      ms, ts := ms + [Tick(s, decode, hf).state], ts + [Tick(s, decode, hf).trace];
    }
  }

  lemma AtStart(m: State, decode: Decoder, hf: Hasher, limit: nat)
    requires Valid(m) && m.step < LAST_STEP_INIT
    ensures StateAt(m, decode, hf, limit, 0) == m
  {
  }

  /** The first `k` steps of the execution fetch from decodable code. */
  ghost predicate StaysInCode(m: State, decode: Decoder, hf: Hasher, limit: nat, k: nat)
  {
    Valid(m) && m.step + k < LAST_STEP_INIT
    && (forall j: nat :: j <= k ==> Valid(StateAt(m, decode, hf, limit, j)))
    && forall j: nat :: j < k ==> Fetched(StateAt(m, decode, hf, limit, j), decode).Some?
  }

  /** The instruction of step `k + 1`, if that fetches from decodable code. */
  ghost function InstructionAt(m: State, decode: Decoder, hf: Hasher, limit: nat, k: nat): Option<Instruction>
    requires StaysInCode(m, decode, hf, limit, k)
  {
    Fetched(StateAt(m, decode, hf, limit, k), decode)
  }

  /** A program counter that the code table lists is that of an instruction, if the step is
      executed. */
  lemma ListedPcIsFetched(m: State, decode: Decoder, hf: Hasher, limit: nat, k: nat)
    requires Loaded(m, hf) && Executes(m, decode, hf, limit, k)
    requires InRanges(StateAt(m, decode, hf, limit, k).pc.address, m.tables.code)
    ensures Fetched(StateAt(m, decode, hf, limit, k), decode).Some?
  {
    hide TurnAfter, Valid, Tick, StateAt, Fresh, ReadMem, Locate, RangesOf;
    var s := StateAt(m, decode, hf, limit, k);
    LoadedIsOrdered(m, hf);
    TableLocates(m.sections, CodeTable, s.pc.address);
    var ms, ts := TurnsAreRun(m, decode, hf, limit, k, k);
    AtStart(m, decode, hf, limit);
    CodeIsConstant(ms, ts, decode, hf, k, s.pc.address);
    OpcodeOfTick(s, decode, hf);
  }

  /** The verifier's own record of an executed step is accepted by the step's script exactly when
      its operands stay inside the tables and it is none of the refused steps. */
  lemma OwnStepIsAccepted(m: State, decode: Decoder, hf: Hasher, limit: nat, k: nat)
    requires Executes(m, decode, hf, limit, k) && Fresh(m) && StaysInCode(m, decode, hf, limit, k)
    requires m.pc.micro == 0 && m.base % 256 == 0 && InstructionAt(m, decode, hf, limit, k).Some?
    ensures StateAt(m, decode, hf, limit, k).base == m.base
    ensures var s, i := StateAt(m, decode, hf, limit, k), InstructionAt(m, decode, hf, limit, k).value;
            Accepts(i, EntryAt(m, decode, hf, limit, k + 1).0, m.base) <==> OperandsFit(s, i) && !Refused(s, i)
  {
    hide TurnAfter, Valid, Tick, StateAt, Fresh, EntryAt, HashAt, Fetched, ScratchReady, Executing, Accepts, OperandsFit, Refused,
         Decided;
    var ms, ts := TurnsAreRun(m, decode, hf, limit, k, k);
    AtStart(m, decode, hf, limit);
    ReadyAlongRuns(ms, ts, decode, hf, k);
    ReadyStepIsAccepted(StateAt(m, decode, hf, limit, k), decode, hf);
    ExecutedEntry(m, decode, hf, limit, k);
  }

  // ---------------------------------------------------------------- a wrong hash is caught

  /** The trace reports another value than the verifier reads, for a read that one of the two
      records marks as used, and no challenge is about it. */
  ghost predicate UnchallengedMisread(ss: seq<Section>, isInput: u32 -> bool, trace: TraceRWStep, mine: TraceRWStep)
    requires Ordered(ss)
  {
    && !(&& SameRead(trace.memWitness.read1, trace.read1, mine.memWitness.read1, mine.read1)
         && SameRead(trace.memWitness.read2, trace.read2, mine.memWitness.read2, mine.read2))
    && !ContradictsLoaded(ss, isInput, trace, mine)
  }

  /** How a wrong step comes out: the verifier's challenge wins; or, in decodable code, the trace
      misreports a value that one of the records uses and that no challenge is about; or the
      step's script rejects the trace, or leaves its tables on it; or it is a division whose pair
      overflows. */
  ghost predicate Caught(m: State, decode: Decoder, hf: Hasher, limit: nat, isInput: u32 -> bool, k: nat,
                         stepHash: Hash, nextHash: Hash, trace: TraceRWStep, execution: seq<Entry>)
    requires Ordered(m.sections) && m.base % 256 == 0
    requires StaysInCode(m, decode, hf, limit, k) && |execution| == if k > 0 then 3 else 2
  {
    var c := ChooseChallenge(m, hf, isInput, k, stepHash, nextHash, trace, execution);
    var i := InstructionAt(m, decode, hf, limit, k);
    || (c.Chosen? && Wins(hf, c.challenge))
    || (i.Some? &&
        (|| UnchallengedMisread(m.sections, isInput, trace, execution[|execution| - 1].0)
         || Rejects(i.value, trace, m.base)
         || !Decided(i.value, trace)
         || OverflowingDivision(i.value, trace)))
  }

  /** If the prover's hash after the isolated step is wrong, it is caught. The steps before must
      be in decodable code, the isolated one need not. */
  lemma WrongStepIsCaught(m: State, decode: Decoder, hf: Hasher, limit: nat, isInput: u32 -> bool, k: nat,
                          stepHash: Hash, nextHash: Hash, trace: TraceRWStep, execution: seq<Entry>)
    requires Loaded(m, hf) && Populated(m.tables) && m.base % 256 == 0
    requires Executes(m, decode, hf, limit, k) && Around(m, decode, hf, limit, k, execution)
    requires StaysInCode(m, decode, hf, limit, k)
    requires stepHash == HashAt(m, decode, hf, limit, k) && trace.stepNumber == k + 1
    requires nextHash != HashAt(m, decode, hf, limit, k + 1)
    ensures Ordered(m.sections)
    ensures Caught(m, decode, hf, limit, isInput, k, stepHash, nextHash, trace, execution)
  {
    hide EntryAt, HashAt, Executes, Valid, Wins, ChooseChallenge, StateAt, Fetched, HasVerdict, Tick, OverflowingDivision, Loaded,
         ContradictsLoaded, ValidAddresses, Ordered, ScriptOutcome, StaysInCode;
    var mine := execution[|execution| - 1].0;
    ChosenChallengeWins(m, decode, hf, limit, isInput, k, stepHash, nextHash, trace, execution);
    if ValidateStepHash(hf, stepHash, trace.traceStep, nextHash) && ValidAddresses(m.tables, trace) && trace.readPc == mine.readPc {
      PcIsCode(m.tables, trace);
      ExecutesReaches(m, decode, hf, limit, k);
      ListedPcIsFetched(m, decode, hf, limit, k);
      var i := InstructionAt(m, decode, hf, limit, k).value;
      if SameValues(trace, mine) && Accepts(i, trace, m.base) && !OverflowingDivision(i, trace) {
        SameValuesSameStep(m, decode, hf, limit, k, trace, mine);
        WrongHashMeansWrongStep(m, decode, hf, limit, k, trace, nextHash);
      }
    }
  }

  lemma ExecutedHash(m: State, decode: Decoder, hf: Hasher, limit: nat, k: nat)
    requires Executes(m, decode, hf, limit, k)
    ensures HashAt(m, decode, hf, limit, k + 1)
            == ComputeStepHash(hf, HashAt(m, decode, hf, limit, k), EntryAt(m, decode, hf, limit, k + 1).0.traceStep)
  {
    hide EntryAt, HashAt, StateAt, TurnAfter, Tick, Valid;
    ExecutedEntry(m, decode, hf, limit, k);
  }

  /** Hashes that agree before a step and differ after it mean that the prover's validated trace
      is not the verifier's. */
  lemma WrongHashMeansWrongStep(m: State, decode: Decoder, hf: Hasher, limit: nat, k: nat, trace: TraceRWStep, nextHash: Hash)
    requires Executes(m, decode, hf, limit, k)
    requires ValidateStepHash(hf, HashAt(m, decode, hf, limit, k), trace.traceStep, nextHash)
    requires nextHash != HashAt(m, decode, hf, limit, k + 1)
    ensures trace.traceStep != EntryAt(m, decode, hf, limit, k + 1).0.traceStep
  {
    hide EntryAt, HashAt, Executes;
    ExecutedHash(m, decode, hf, limit, k);
  }

  /** An accepted trace of the values that the verifier uses is the verifier's step, overflowing
      divisions apart. */
  lemma SameValuesSameStep(m: State, decode: Decoder, hf: Hasher, limit: nat, k: nat, trace: TraceRWStep, mine: TraceRWStep)
    requires Loaded(m, hf) && m.base % 256 == 0
    requires Executes(m, decode, hf, limit, k) && StaysInCode(m, decode, hf, limit, k)
    requires mine == EntryAt(m, decode, hf, limit, k + 1).0 && SameValues(trace, mine)
    requires var i := InstructionAt(m, decode, hf, limit, k);
             i.Some? && Accepts(i.value, trace, m.base) && !OverflowingDivision(i.value, trace)
    ensures trace.traceStep == mine.traceStep
  {
    hide EntryAt, HashAt, Valid, StateAt, Fetched, Accepts, OperandsFit, Refused, Tick, OverflowingDivision, Fresh, TurnAfter,
         SameValues;
    var s := StateAt(m, decode, hf, limit, k);
    var i := InstructionAt(m, decode, hf, limit, k).value;
    OwnStepIsAccepted(m, decode, hf, limit, k);
    ExecutedEntry(m, decode, hf, limit, k);
    AcceptedIsAcceptable(s, decode, hf, trace);
    OwnDivisionFits(s, decode, hf, m.base);
    OneResult(i, trace, mine, m.base);
  }

  // ---------------------------------------------------------------- the whole dispute

  /** Against every adaptive prover the search isolates a step up to which the hashes agree. Where
      the verifier executes the step and the prover's hash after it is wrong, as it is for every
      step before the start of the search, the prover is caught; where the verifier's own step
      fails, its challenge wins exactly when `FailedStepWins` says. The verifier's answers are
      honest as far as its execution goes; the hashes it argues with are those the prover
      committed. */
  lemma DisputeCatchesProver(m: State, decode: Decoder, hf: Hasher, limit: nat, isInput: u32 -> bool,
                             h: nat -> Hash, d: NArySearchDefinition, start: nat, prover: RoundHashes, mine: RoundHashes,
                             mapping: map<nat, (nat, nat)>, trace: TraceRWStep, execution: seq<Entry>)
    returns (s: Search, stepHash: Hash, nextHash: Hash)
    requires Loaded(m, hf) && Populated(m.tables) && m.base % 256 == 0
    requires d.Valid() && start < d.maxSteps && start + 1 < LAST_STEP_INIT
    requires forall n: nat :: h(n) == HashAt(m, decode, hf, limit, n)
    requires Answers(d, prover) && Honest(d, h, start, mine)
    requires IsMapping(d, Play(d, start, prover, mine, d.TotalRounds()).decisions, mapping)
    requires var k := Play(d, start, prover, mine, d.TotalRounds()).selected;
             trace.stepNumber == k + 1 && Around(m, decode, hf, limit, k, execution)
    ensures s == Play(d, start, prover, mine, d.TotalRounds()) && s.selected <= start && Ordered(m.sections)
    ensures s.selected + 1 < d.maxSteps ==>
              && Committed(s, mapping, InitialHash(hf), s.selected, stepHash)
              && Committed(s, mapping, InitialHash(hf), s.selected + 1, nextHash)
              && stepHash == h(s.selected) && (s.selected < start ==> nextHash != h(s.selected + 1))
    ensures s.selected + 1 < d.maxSteps && nextHash != h(s.selected + 1) && Executes(m, decode, hf, limit, s.selected)
            && StaysInCode(m, decode, hf, limit, s.selected) ==>
              Caught(m, decode, hf, limit, isInput, s.selected, stepHash, nextHash, trace, execution)
    ensures s.selected + 1 < d.maxSteps && FailsAt(m, decode, hf, limit, s.selected) ==>
              var c := ChooseChallenge(m, hf, isInput, s.selected, stepHash, nextHash, trace, execution);
              (c.Chosen? && Wins(hf, c.challenge)
               <==> FailedStepWins(m, decode, hf, limit, isInput, s.selected, stepHash, nextHash, trace))
  {
    hide HashAt, EntryAt, NArySearchDefinition.Valid, Play, Valid, Fresh, StateAt, Fetched, TurnAfter, Answers,
         Honest, IsMapping, Caught, Around, Committed, StaysInCode, Loaded, Executes, FailsAt, FailedStepWins, ChooseChallenge,
         Wins, Ordered;
    LoadedIsOrdered(m, hf);
    HashAtStart(m, decode, hf, limit);
    s, stepHash, nextHash := CommittedPair(h, d, start, prover, mine, mapping, InitialHash(hf));
    if s.selected + 1 < d.maxSteps {
      if FailsAt(m, decode, hf, limit, s.selected) {
        FailedStepChallenge(m, decode, hf, limit, isInput, s.selected, stepHash, nextHash, trace, execution);
      }
      if nextHash != h(s.selected + 1) && Executes(m, decode, hf, limit, s.selected)
         && StaysInCode(m, decode, hf, limit, s.selected) {
        WrongStepIsCaught(m, decode, hf, limit, isInput, s.selected, stepHash, nextHash, trace, execution);
      }
    }
  }

  /** The two hashes the prover committed for the isolated step and its successor: the first is
      the verifier's, the second is not unless the step is where the search started. */
  lemma CommittedPair(h: nat -> Hash, d: NArySearchDefinition, start: nat, prover: RoundHashes, mine: RoundHashes,
                      mapping: map<nat, (nat, nat)>, initial: Hash)
    returns (s: Search, stepHash: Hash, nextHash: Hash)
    requires d.Valid() && start < d.maxSteps && Answers(d, prover) && Honest(d, h, start, mine) && h(0) == initial
    requires IsMapping(d, Play(d, start, prover, mine, d.TotalRounds()).decisions, mapping)
    ensures s == Play(d, start, prover, mine, d.TotalRounds()) && s.selected <= start
    ensures s.selected + 1 < d.maxSteps ==>
              && Committed(s, mapping, initial, s.selected, stepHash) && stepHash == h(s.selected)
              && Committed(s, mapping, initial, s.selected + 1, nextHash)
              && (s.selected < start ==> nextHash != h(s.selected + 1))
  {
    hide NArySearchDefinition.Weight, NArySearchDefinition.Valid, NArySearchDefinition.StepFromBaseAndBits,
         Located, AgreesAt, DiffersAt, BaseAfter, Speaks, Play, Answers, Honest, IsMapping;
    PlayConverges(d, h, start, prover, mine, d.TotalRounds());
    s := Play(d, start, prover, mine, d.TotalRounds());
    LookupFinds(d, h, start, s, mapping);
    var k := s.selected;
    stepHash, nextHash := [], [];
    if k + 1 < d.maxSteps {
      nextHash := s.proverRounds[mapping[k + 1].0 - 1][mapping[k + 1].1];
      stepHash := if k == 0 then initial else s.proverRounds[mapping[k].0 - 1][mapping[k].1];
    }
  }

  /** The prover's committed hash of a step; the hash of step 0 is fixed. */
  ghost predicate Committed(s: Search, mapping: map<nat, (nat, nat)>, initial: Hash, step: nat, h: Hash)
  {
    if step == 0 then h == initial
    else
      && step in mapping && 1 <= mapping[step].0 <= |s.proverRounds| && mapping[step].1 < |s.proverRounds[mapping[step].0 - 1]|
      && h == s.proverRounds[mapping[step].0 - 1][mapping[step].1]
  }

  /** Errors are neither halts nor limits. */
  lemma ErrorsAreErrors(m: State, decode: Decoder, hf: Hasher)
    requires Valid(m) && m.step + 1 < LAST_STEP_INIT && Tick(m, decode, hf).Failed?
    ensures !Tick(m, decode, hf).error.Halt? && !Tick(m, decode, hf).error.LimitStepReached?
  {
    hide Ordered, Locate, Commit, TraceOf, ArithValue, ArithHint, CompareValue, ShiftImmValue, ArithImmValue, Condition,
         And, Or32, MoveBytes, SignExtension, MaskRound1, MaskRound2, LoadMaskRound1, LoadMaskRound2;
  }

  /** A finished run executes all its steps, the last one if it halted or met the limit; otherwise
      that one fails. */
  lemma FinishedRunExecutes(m: State, decode: Decoder, hf: Hasher, limit: nat, last: nat, k: nat)
    requires Ends(m, decode, hf, limit, last) && k + 1 <= last
    ensures var stop := TurnAfter(m, decode, hf, limit, last).stop.value;
            Executes(m, decode, hf, limit, k) <==> (k + 1 == last ==> stop.Halt? || stop.LimitStepReached?)
    ensures !Executes(m, decode, hf, limit, k) ==> FailsAt(m, decode, hf, limit, k)
  {
    hide TurnAfter, Valid, Tick, StateAt;
    if k + 1 < last { EarlierTurns(m, decode, hf, limit, k + 1, last); }
    ExecutedTurn(m, decode, hf, limit, k);
    var s := StateAt(m, decode, hf, limit, k);
    TurnByTick(s, decode, hf, limit);
    if k > 0 {
      ExecutedTurn(m, decode, hf, limit, k - 1);
      TurnByTick(StateAt(m, decode, hf, limit, k - 1), decode, hf, limit);
    }
  }

  /** A turn that goes on, halts or meets the limit executed its step; any other turn failed. */
  lemma TurnByTick(m: State, decode: Decoder, hf: Hasher, limit: nat)
    requires Valid(m) && m.step + 1 < LAST_STEP_INIT && TurnOf(m, decode, hf, limit).Turn?
    ensures var stop := TurnOf(m, decode, hf, limit).stop;
            Tick(m, decode, hf).Stepped? <==> (stop.Some? ==> stop.value.Halt? || stop.value.LimitStepReached?)
    ensures Tick(m, decode, hf).Stepped? || Tick(m, decode, hf).Failed?
  {
    hide Tick, Valid;
    if Tick(m, decode, hf).Failed? { ErrorsAreErrors(m, decode, hf); }
  }
}
