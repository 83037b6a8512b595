/** The execution loop, checkpoints, and the round hashes of a dispute, whether they are
    computed from the start or from a checkpoint. */
module Execution {
  import opened Options
  import opened Trace
  import opened SectionMemory
  import opened Machine
  import opened Runs
  import opened Programs
  import opened Fetcher

  const CHECKPOINT_SIZE: nat := 50_000_000

  /** The trace of a step that failed: only its number is set. */
  function FromStep(step: u64): TraceRWStep
  {
    TraceRWStep(step, NO_READ, NO_READ, TraceReadPC(ProgramCounter(0, 0), 0), EMPTY_STEP, None, NO_WITNESS)
  }

  /** One turn of the loop: the new state, its trace, and why the loop stops, if it does.
      `Dead` is a turn that does not happen: the loop had stopped, or the process aborts. */
  datatype Turn = Turn(state: State, trace: TraceRWStep, stop: Option<ExecutionResult>) | Dead

  lemma TickKeepsValid(m: State, decode: Decoder, hf: Hasher)
    requires Valid(m) && m.step + 1 < LAST_STEP_INIT
    ensures Tick(m, decode, hf).Stepped? ==> Valid(Tick(m, decode, hf).state) && Tick(m, decode, hf).state.step == m.step + 1
    ensures Tick(m, decode, hf).Failed? ==> Valid(Tick(m, decode, hf).state) && Tick(m, decode, hf).state.step == m.step + 1
  {
    hide InstructionOutcome, Commit, TraceOf, Ordered, ReadMem;
    if Tick(m, decode, hf).Stepped? {
      TickChangesOnlyItsTrace(m, decode, hf);
    }
  }

  function StopOf(m: State, limit: nat): Option<ExecutionResult>
    requires Valid(m) && m.step < LAST_STEP_INIT
  {
    if m.halt then Some(Halt(m.regs[REGISTER_A0], m.step))
    else if m.step == limit then Some(LimitStepReached(m.step))
    else None
  }

  function TurnOf(m: State, decode: Decoder, hf: Hasher, limit: nat): (r: Turn)
    requires Valid(m) && m.step + 1 < LAST_STEP_INIT
    ensures r.Turn? ==> Valid(r.state) && r.state.step == m.step + 1
  {
    TickKeepsValid(m, decode, hf);
    match Tick(m, decode, hf)
    case Stepped(m', t) => Turn(m', t, StopOf(m', limit))
    case Failed(m', e) => Turn(m', FromStep(m'.step), Some(e))
    case Aborted => Dead
  }

  /** The turn number `k` of a loop started at `m`. The loop does not look at how `m` itself
      came about. */
  ghost function TurnAfter(m: State, decode: Decoder, hf: Hasher, limit: nat, k: nat): (r: Turn)
    requires Valid(m) && m.step + k < LAST_STEP_INIT && k >= 1
    ensures r.Turn? ==> Valid(r.state) && r.state.step == m.step + k
  {
    if k == 1 then TurnOf(m, decode, hf, limit)
    else
      match TurnAfter(m, decode, hf, limit, k - 1)
      case Turn(s, _, None) => TurnOf(s, decode, hf, limit)
      case _ => Dead
  }

  /** Turns go on exactly while none has stopped the loop. */
  lemma {:induction false} TurnsCompose(m: State, decode: Decoder, hf: Hasher, limit: nat, c: nat, k: nat)
    requires Valid(m) && m.step + c + k < LAST_STEP_INIT && c >= 1 && k >= 1
    ensures var t := TurnAfter(m, decode, hf, limit, c);
            TurnAfter(m, decode, hf, limit, c + k)
            == if t.Turn? && t.stop.None? then TurnAfter(t.state, decode, hf, limit, k) else Dead
    decreases k
  {
    hide TurnOf;
    if k > 1 {
      TurnsCompose(m, decode, hf, limit, c, k - 1);
    }
  }

  lemma {:induction false} EarlierTurns(m: State, decode: Decoder, hf: Hasher, limit: nat, j: nat, k: nat)
    requires Valid(m) && m.step + k < LAST_STEP_INIT && 1 <= j < k
    requires TurnAfter(m, decode, hf, limit, k).Turn?
    ensures TurnAfter(m, decode, hf, limit, j).Turn? && TurnAfter(m, decode, hf, limit, j).stop.None?
  {
    hide TurnOf;
    TurnsCompose(m, decode, hf, limit, j, k - j);
  }

  // ---------------------------------------------------------------- the loop

  type Entry = (TraceRWStep, Hash)

  /** What a run that is asked for `steps` has collected after `k` turns. */
  ghost function Collected(m: State, decode: Decoder, hf: Hasher, limit: nat, steps: seq<nat>, k: nat): seq<Entry>
    requires Valid(m) && m.step + k < LAST_STEP_INIT
  {
    if k == 0 then if m.step in steps then [(FromStep(0), m.hash)] else []
    else
      var t := TurnAfter(m, decode, hf, limit, k);
      Collected(m, decode, hf, limit, steps, k - 1)
      + if t.Turn? && m.step + k in steps then [(t.trace, t.state.hash)] else []
  }

  /** The saved states of a run: its start, and every reached multiple of the checkpoint size. */
  ghost predicate Saves(store: map<nat, State>, m: State, decode: Decoder, hf: Hasher, limit: nat, k: nat)
    requires Valid(m) && m.step + k < LAST_STEP_INIT
  {
    && m.step in store && store[m.step] == m
    && forall j: nat :: 1 <= j <= k && (m.step + j) % CHECKPOINT_SIZE == 0 ==> SavedTurn(store, m, decode, hf, limit, j)
  }

  /** The state after `k` turns is saved under its step. */
  ghost predicate SavedTurn(store: map<nat, State>, m: State, decode: Decoder, hf: Hasher, limit: nat, k: nat)
    requires Valid(m) && m.step + k < LAST_STEP_INIT && k >= 1
  {
    && TurnAfter(m, decode, hf, limit, k).Turn?
    && m.step + k in store && store[m.step + k] == TurnAfter(m, decode, hf, limit, k).state
  }

  /** Saved states are valid and filed under their step. */
  ghost predicate GoodStore(store: map<nat, State>)
  {
    forall c :: c in store ==> Valid(store[c]) && store[c].step == c
  }

  /** What a run has gathered after `k` turns: the entries it was asked for, or its saved states. */
  ghost predicate Gathered(m: State, decode: Decoder, hf: Hasher, limit: nat, traceList: Option<seq<nat>>,
                           traces: seq<Entry>, store: map<nat, State>, k: nat)
    requires Valid(m) && m.step + k < LAST_STEP_INIT
  {
    match traceList
    case Some(steps) => traces == Collected(m, decode, hf, limit, steps, k)
    case None => Saves(store, m, decode, hf, limit, k) && GoodStore(store)
  }

  /** The run has made `k` turns, none of which stopped it, and is in state `s`. */
  ghost predicate Running(m: State, decode: Decoder, hf: Hasher, limit: nat, k: nat, s: State)
    requires Valid(m) && m.step + k < LAST_STEP_INIT
  {
    if k == 0 then s == m
    else
      var t := TurnAfter(m, decode, hf, limit, k);
      t.Turn? && t.stop.None? && t.state == s
  }

  /** Run until something stops the loop, or the step counter is used up. With a list of steps,
      collect the entries of those steps; without one, save checkpoints and report the last
      entry of a run that ended by itself. A limit that the counter does not reach is none.
      `None` is an abort, or a run without an end. */
  method ExecuteProgram(program: Program, decode: Decoder, hf: Hasher, limit: nat, traceList: Option<seq<nat>>)
    returns (result: Option<ExecutionResult>, traces: seq<Entry>, store: map<nat, State>, ghost k: nat)
    requires program.Valid() && program.step + 1 < LAST_STEP_INIT
    modifies program`sections, program`pc, program`halt, program`step, program`hash,
             program.registers.value, program.registers.lastStep
    ensures var m := old(program.Model());
            && 1 <= k && m.step + k < LAST_STEP_INIT && (m.step < limit ==> m.step + k <= limit)
            && (k > 1 ==> TurnAfter(m, decode, hf, limit, k - 1).Turn? && TurnAfter(m, decode, hf, limit, k - 1).stop.None?)
            && var t := TurnAfter(m, decode, hf, limit, k);
               && (result.None? <==> t.Dead? || t.stop.None?)
               && (t.Turn? && t.stop.None? ==> m.step + k + 1 == LAST_STEP_INIT)
               && (result.Some? ==>
                     && t.stop == result && program.Model() == t.state
                     && Gathered(m, decode, hf, limit, traceList, traces, store, k)
                     && (traceList.None? ==> traces == if result.value.LimitStepReached? then [] else [(t.trace, t.state.hash)]))
  {
    hide TurnOf, Gathered, Machine.Valid, Running;
    ghost var m := program.Model();
    traces, store, result, k := [], map[], None, 0;
    if traceList.None? {
      var saved := program.Serialize();
      store := map[program.step := saved];
    }
    if traceList.Some? && program.step in traceList.value {
      traces := [(FromStep(0), program.hash)];
    }
    StartOfLoop(m, decode, hf, limit, traceList, traces, store);
    hide TurnAfter;
    while program.step + 1 < LAST_STEP_INIT
      invariant program.Valid() && program.step == m.step + k < LAST_STEP_INIT && (m.step < limit ==> m.step + k < limit)
      invariant Running(m, decode, hf, limit, k, program.Model())
      invariant Gathered(m, decode, hf, limit, traceList, traces, store, k)
      invariant traceList.None? ==> traces == []
      decreases LAST_STEP_INIT - program.step
    {
      ghost var before := program.Model();
      var trace, stop := OneTurn(program, decode, hf, limit);
      NextTurn(m, decode, hf, limit, k, before);
      LimitStops(before, decode, hf, limit);
      k := k + 1;
      if trace.None? {
        return;
      }
      traces, store := RecordTurn(program, limit, traceList, trace.value, stop, traces, store, m, decode, hf, k);
      if stop.Some? {
        result := stop;
        return;
      }
    }
    LastTurn(m, decode, hf, limit, k, program.Model());
  }

  /** Add a turn to what the run gathers. */
  method RecordTurn(program: Program, limit: nat, traceList: Option<seq<nat>>, trace: TraceRWStep, stop: Option<ExecutionResult>,
                    traces: seq<Entry>, store: map<nat, State>, ghost m: State, ghost decode: Decoder, ghost hf: Hasher, ghost k: nat)
    returns (traces': seq<Entry>, store': map<nat, State>)
    requires program.Valid() && Valid(m) && m.step + k < LAST_STEP_INIT && k > 0
    requires TurnAfter(m, decode, hf, limit, k) == Turn(program.Model(), trace, stop)
    requires Gathered(m, decode, hf, limit, traceList, traces, store, k - 1)
    ensures Gathered(m, decode, hf, limit, traceList, traces', store', k)
    ensures traceList.None? ==>
              traces' == if stop.Some? && !stop.value.LimitStepReached? then [(trace, program.Model().hash)] else traces
  {
    hide TurnAfter, Collected, Saves;
    traces', store' := traces, store;
    if traceList.Some? {
      if program.step in traceList.value {
        traces' := traces + [(trace, program.hash)];
      }
      CollectedNext(m, decode, hf, limit, traceList.value, k);
    } else {
      if stop.Some? && !stop.value.LimitStepReached? {
        traces' := [(trace, program.hash)];
      }
      if program.step % CHECKPOINT_SIZE == 0 || (stop.Some? && !stop.value.LimitStepReached?) {
        var state := program.Serialize();
        store' := store[program.step := state];
      }
      SavesNext(store, store', m, decode, hf, limit, k);
    }
  }

  /** A turn of the loop on the program: the trace and the reason to stop, or an abort. */
  method OneTurn(program: Program, decode: Decoder, hf: Hasher, limit: nat)
    returns (trace: Option<TraceRWStep>, stop: Option<ExecutionResult>)
    requires program.Valid() && program.step + 1 < LAST_STEP_INIT
    modifies program`sections, program`pc, program`halt, program`step, program`hash,
             program.registers.value, program.registers.lastStep
    ensures match TurnOf(old(program.Model()), decode, hf, limit)
            case Turn(m', t, s) => program.Valid() && program.Model() == m' && trace == Some(t) && stop == s
            case Dead => trace == None
  {
    hide Step, InstructionOutcome, Ordered;
    ghost var m := program.Model();
    TickKeepsValid(m, decode, hf);
    stop := None;
    var r := ExecuteStep(program, decode);
    match r {
      case StepAborted => return None, None;
      case StepErr(e) =>
        trace := Some(FromStep(program.step));
        program.hash := ComputeStepHash(hf, program.hash, EMPTY_STEP);
        stop := Some(e);
      case StepOk(t) =>
        trace := Some(t);
        program.hash := ComputeStepHash(hf, program.hash, t.traceStep);
        if program.halt {
          stop := Some(Halt(program.registers.Get(REGISTER_A0), program.step));
        } else if program.step == limit {
          stop := Some(LimitStepReached(limit));
        }
    }
  }

  lemma StartOfLoop(m: State, decode: Decoder, hf: Hasher, limit: nat, traceList: Option<seq<nat>>, traces: seq<Entry>, store: map<nat, State>)
    requires Valid(m) && m.step < LAST_STEP_INIT
    requires traces == if traceList.Some? && m.step in traceList.value then [(FromStep(0), m.hash)] else []
    requires traceList.None? ==> store == map[m.step := m]
    ensures Gathered(m, decode, hf, limit, traceList, traces, store, 0) && Running(m, decode, hf, limit, 0, m)
  {
  }

  lemma NextTurn(m: State, decode: Decoder, hf: Hasher, limit: nat, k: nat, before: State)
    requires Valid(m) && Valid(before) && m.step + k + 1 < LAST_STEP_INIT && before.step == m.step + k
    requires Running(m, decode, hf, limit, k, before)
    ensures k > 0 ==> TurnAfter(m, decode, hf, limit, k).Turn? && TurnAfter(m, decode, hf, limit, k).stop.None?
    ensures var t := TurnAfter(m, decode, hf, limit, k + 1);
            && t == TurnOf(before, decode, hf, limit)
            && (t.Turn? && t.stop.None? ==> Running(m, decode, hf, limit, k + 1, t.state))
  {
    hide TurnOf;
  }

  lemma LastTurn(m: State, decode: Decoder, hf: Hasher, limit: nat, k: nat, s: State)
    requires Valid(m) && m.step + k < LAST_STEP_INIT && k > 0 && Running(m, decode, hf, limit, k, s)
    ensures TurnAfter(m, decode, hf, limit, k).Turn? && TurnAfter(m, decode, hf, limit, k).stop.None?
    ensures k > 1 ==> TurnAfter(m, decode, hf, limit, k - 1).Turn? && TurnAfter(m, decode, hf, limit, k - 1).stop.None?
  {
    hide TurnOf;
  }

  lemma LimitStops(m: State, decode: Decoder, hf: Hasher, limit: nat)
    requires Valid(m) && m.step + 1 < LAST_STEP_INIT
    ensures var t := TurnOf(m, decode, hf, limit); t.Turn? && t.stop.None? ==> t.state.step != limit
  {
    hide Tick;
  }

  lemma CollectedNext(m: State, decode: Decoder, hf: Hasher, limit: nat, steps: seq<nat>, k: nat)
    requires Valid(m) && m.step + k < LAST_STEP_INIT && k > 0 && TurnAfter(m, decode, hf, limit, k).Turn?
    ensures var t := TurnAfter(m, decode, hf, limit, k);
            Collected(m, decode, hf, limit, steps, k)
            == Collected(m, decode, hf, limit, steps, k - 1) + if m.step + k in steps then [(t.trace, t.state.hash)] else []
  {
    hide TurnAfter;
  }

  lemma SavesNext(store: map<nat, State>, store': map<nat, State>, m: State, decode: Decoder, hf: Hasher, limit: nat, k: nat)
    requires Valid(m) && m.step + k < LAST_STEP_INIT && k > 0 && TurnAfter(m, decode, hf, limit, k).Turn?
    requires Saves(store, m, decode, hf, limit, k - 1)
    requires store' == store || store' == store[m.step + k := TurnAfter(m, decode, hf, limit, k).state]
    requires (m.step + k) % CHECKPOINT_SIZE == 0 ==> store' == store[m.step + k := TurnAfter(m, decode, hf, limit, k).state]
    ensures Saves(store', m, decode, hf, limit, k)
  {
    hide TurnAfter, Valid;
    forall j: nat | 1 <= j <= k && (m.step + j) % CHECKPOINT_SIZE == 0
      ensures SavedTurn(store', m, decode, hf, limit, j)
    {
      if j < k {
        assert SavedTurn(store, m, decode, hf, limit, j);
      } else {
        assert j == k;
        assert store' == store[m.step + k := TurnAfter(m, decode, hf, limit, k).state];
      }
    }
    assert m.step in store' && store'[m.step] == m;
  }
}
