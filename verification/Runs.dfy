/** Whole runs of the machine: what a trace says about the state change, and the consistency
    of every traced read with the writes before it. */
module Runs {
  import opened Bits
  import opened Trace
  import opened SectionMemory
  import opened Machine

  /** A step together with its link in the hash chain; a failed step hashes an empty trace. */
  function Tick(m: State, decode: Decoder, hf: Hasher): StepResult
    requires Valid(m) && m.step + 1 < LAST_STEP_INIT
  {
    match Step(m, decode)
    case Stepped(m', t) => Stepped(m'.(hash := ComputeStepHash(hf, m.hash, t.traceStep)), t)
    case Failed(m', e) => Failed(m'.(hash := ComputeStepHash(hf, m.hash, EMPTY_STEP)), e)
    case Aborted => Aborted
  }

  const EMPTY_STEP := TraceStep(NO_WRITE, ProgramCounter(0, 0))

  /** The step reports a write to this address. */
  predicate Writes(t: TraceRWStep, address: u32)
  {
    t.memWitness.write != Unused && t.traceStep.write1.address == address
  }

  // ---------------------------------------------------------------- one step

  /** Register addresses are never those of readable memory. */
  lemma RegistersApart(m: State, i: RegIndex, a: u32)
    requires Valid(m) && FindSection(m.sections, a).Ok?
    ensures a != RegisterAddress(m, i)
  {
    var k :| 0 <= k < |m.sections| && IsRegisterFile(m.sections[k], m.base);
    LocateUnique(m.sections, RegisterAddress(m, i), k);
  }

  ghost predicate SamePlaces(m: State, m': State)
    requires Valid(m)
  {
    && Valid(m') && m'.base == m.base
    && forall a :: FindSection(m'.sections, a) == FindSection(m.sections, a)
  }

  lemma CommitKeepsPlaces(m: State, e: Effect)
    requires Valid(m) && Possible(m, e) && m.step < LAST_STEP_INIT
    ensures SamePlaces(m, Commit(m, e))
  {
    hide ReadMem, LastStepOf, Ordered, FindSection;
    if e.write.ToMem? {
      WriteOk(m.sections, e.write.address, e.write.value, m.step);
      WriteKeepsPlaces(m, e.write.address, e.write.value);
    }
  }

  lemma WriteOk(ss: seq<Section>, a: u32, v: u32, step: u64)
    requires Ordered(ss) && WriteMem(ss, a, v, 0).Ok?
    ensures WriteMem(ss, a, v, step).Ok?
  {
  }

  lemma WriteFinds(ss: seq<Section>, a: u32, v: u32, step: u64, b: u32)
    requires Ordered(ss) && WriteMem(ss, a, v, step).Ok?
    ensures FindSection(WriteMem(ss, a, v, step).value, b) == FindSection(ss, b)
  {
    hide Ordered, ReadMem, LastStepOf;
    WriteMemExact(ss, a, v, step, b);
  }

  lemma WriteKeepsPlaces(m: State, a: u32, v: u32)
    requires Valid(m) && m.step < LAST_STEP_INIT && WriteMem(m.sections, a, v, m.step).Ok?
    ensures SamePlaces(m, m.(sections := WriteMem(m.sections, a, v, m.step).value))
  {
    hide ReadMem, LastStepOf, WriteMem, FindSection, Ordered, Locate;
    WriteMemKeepsShape(m.sections, a, v, m.step);
    var ss' := WriteMem(m.sections, a, v, m.step).value;
    var k :| 0 <= k < |m.sections| && IsRegisterFile(m.sections[k], m.base);
    assert SameShape(m.sections[k], ss'[k]) && IsRegisterFile(ss'[k], m.base);
    forall b ensures FindSection(ss', b) == FindSection(m.sections, b) {
      WriteFinds(m.sections, a, v, m.step, b);
    }
  }

  /** The new contents of a register are what the trace reports, or the old ones. */
  lemma RegisterAfter(m: State, e: Effect, i: RegIndex, opcode: u32)
    requires Valid(m) && Possible(m, e) && m.step < LAST_STEP_INIT
    ensures var m', t := Commit(m, e), TraceOf(m, opcode, e);
            |m'.regs| == |m'.regStep| == REGISTERS
            && m'.regs[i] == (if Writes(t, RegisterAddress(m, i)) then t.traceStep.write1.value else m.regs[i])
            && m'.regStep[i] == if Writes(t, RegisterAddress(m, i)) then t.stepNumber else m.regStep[i]
  {
    hide ReadMem, LastStepOf, Ordered;
    if e.write.ToMem? {
      RegistersApart(m, i, e.write.address);
    }
  }

  /** The new contents of a readable word are what the trace reports, or the old ones. */
  lemma WordAfter(m: State, e: Effect, a: u32, opcode: u32)
    requires Valid(m) && Possible(m, e) && m.step < LAST_STEP_INIT
    requires a % 4 == 0 && ReadMem(m.sections, a).Ok?
    ensures var m', t := Commit(m, e), TraceOf(m, opcode, e);
            Valid(m') && FindSection(m'.sections, a) == FindSection(m.sections, a)
            && ReadMem(m'.sections, a) == (if Writes(t, a) then Ok(t.traceStep.write1.value) else ReadMem(m.sections, a))
            && LastStepOf(m'.sections, a) == if Writes(t, a) then t.stepNumber else LastStepOf(m.sections, a)
  {
    CommitKeepsPlaces(m, e);
    WordAfterWrite(m, e, a, opcode);
  }

  lemma WordAfterWrite(m: State, e: Effect, a: u32, opcode: u32)
    requires Valid(m) && Possible(m, e) && m.step < LAST_STEP_INIT && SamePlaces(m, Commit(m, e))
    requires a % 4 == 0 && ReadMem(m.sections, a).Ok?
    ensures var m', t := Commit(m, e), TraceOf(m, opcode, e);
            && ReadMem(m'.sections, a) == (if Writes(t, a) then Ok(t.traceStep.write1.value) else ReadMem(m.sections, a))
            && LastStepOf(m'.sections, a) == if Writes(t, a) then t.stepNumber else LastStepOf(m.sections, a)
  {
    hide ReadMem, LastStepOf, Ordered, FindSection;
    match e.write {
      case NoWrite =>
      case ToReg(i, v) => ReadableIsFound(m, a); RegistersApart(m, i, a);
      case ToMem(b, v) =>
        WriteOk(m.sections, b, v, m.step);
        WriteMemExact(m.sections, b, v, m.step, a);
    }
  }

  lemma ReadableIsFound(m: State, a: u32)
    requires Valid(m) && ReadMem(m.sections, a).Ok?
    ensures FindSection(m.sections, a).Ok?
  {
  }

  /** Everything a step changes is in its trace: the written place, the next program counter,
      the step number, and the halt flag. */
  lemma TickChangesOnlyItsTrace(m: State, decode: Decoder, hf: Hasher)
    requires Valid(m) && m.step + 1 < LAST_STEP_INIT && Tick(m, decode, hf).Stepped?
    ensures var m', t := Tick(m, decode, hf).state, Tick(m, decode, hf).trace;
            && SamePlaces(m, m') && m'.step == t.stepNumber == m.step + 1
            && t.readPc.pc == m.pc && m'.pc == t.traceStep.writePc
            && m'.hash == ComputeStepHash(hf, m.hash, t.traceStep)
            && (forall i: RegIndex ::
                  && m'.regs[i] == (if Writes(t, RegisterAddress(m, i)) then t.traceStep.write1.value else m.regs[i])
                  && m'.regStep[i] == if Writes(t, RegisterAddress(m, i)) then t.stepNumber else m.regStep[i])
            && (forall a: u32 :: a % 4 == 0 && ReadMem(m.sections, a).Ok? ==>
                  && ReadMem(m'.sections, a) == (if Writes(t, a) then Ok(t.traceStep.write1.value) else ReadMem(m.sections, a))
                  && LastStepOf(m'.sections, a) == if Writes(t, a) then t.stepNumber else LastStepOf(m.sections, a))
  {
    hide InstructionOutcome, ReadMem, LastStepOf, Ordered, FindSection, Commit, TraceOf, Possible;
    var m1, opcode, e := EffectOfTick(m, decode, hf);
    CommitKeepsPlaces(m1, e);
    var m', t := Tick(m, decode, hf).state, Tick(m, decode, hf).trace;
    forall i: RegIndex
      ensures m'.regs[i] == (if Writes(t, RegisterAddress(m, i)) then t.traceStep.write1.value else m.regs[i])
      ensures m'.regStep[i] == if Writes(t, RegisterAddress(m, i)) then t.stepNumber else m.regStep[i]
    {
      RegisterAfter(m1, e, i, opcode);
    }
    forall a: u32 | a % 4 == 0 && ReadMem(m.sections, a).Ok?
      ensures FindSection(m'.sections, a).Ok? && FindSection(m.sections, a).Ok?
      ensures ReadMem(m'.sections, a) == (if Writes(t, a) then Ok(t.traceStep.write1.value) else ReadMem(m.sections, a))
      ensures LastStepOf(m'.sections, a) == if Writes(t, a) then t.stepNumber else LastStepOf(m.sections, a)
    {
      ReadableIsFound(m1, a);
      WordAfter(m1, e, a, opcode);
    }
  }

  lemma EffectOfTick(m: State, decode: Decoder, hf: Hasher) returns (m1: State, opcode: u32, e: Effect)
    requires Valid(m) && m.step + 1 < LAST_STEP_INIT && Tick(m, decode, hf).Stepped?
    ensures m1 == m.(step := m.step + 1) && Valid(m1)
    ensures ReadMem(m.sections, m.pc.address) == Ok(opcode) && decode(opcode).Some?
    ensures InstructionOutcome(m1, decode(opcode).value) == Does(e) && Possible(m1, e)
    ensures var m', t := Tick(m, decode, hf).state, Tick(m, decode, hf).trace;
            && t == TraceOf(m1, opcode, e)
            && m' == Commit(m1, e).(hash := ComputeStepHash(hf, m.hash, t.traceStep))
            && m'.step == m1.step == t.stepNumber && t.readPc == TraceReadPC(m.pc, opcode)
            && m'.pc == t.traceStep.writePc == e.next
  {
    hide InstructionOutcome, ReadMem, Ordered, FindSection, LastStepOf;
    m1 := m.(step := m.step + 1);
    opcode := ReadMem(m.sections, m.pc.address).value;
    e := InstructionOutcome(m1, decode(opcode).value).effect;
    OutcomeIsPossible(m1, decode(opcode).value);
  }

  /** What a step does not use is zero in its record. */
  lemma UnusedIsZero(m: State, decode: Decoder, hf: Hasher)
    requires Valid(m) && m.step + 1 < LAST_STEP_INIT && Tick(m, decode, hf).Stepped?
    ensures var t := Tick(m, decode, hf).trace;
            && (t.memWitness.read1 == Unused ==> t.read1 == TraceRead(0, 0, 0))
            && (t.memWitness.read2 == Unused ==> t.read2 == TraceRead(0, 0, 0))
            && (t.memWitness.write == Unused ==> t.traceStep.write1 == TraceWrite(0, 0))
  {
    hide Tick, InstructionOutcome, Ordered, ReadMem, WriteMem, LastStepOf, FindSection;
    var m1, opcode, e := EffectOfTick(m, decode, hf);
  }

  // ---------------------------------------------------------------- whole runs

  /** `ms` are the states and `ts` the traces of an execution from a freshly loaded program. */
  ghost predicate IsRun(ms: seq<State>, ts: seq<TraceRWStep>, decode: Decoder, hf: Hasher)
  {
    && |ms| == |ts| + 1 < LAST_STEP_INIT && Fresh(ms[0])
    && forall k :: 0 <= k < |ts| ==>
         && Valid(ms[k]) && ms[k].step == k
         && Tick(ms[k], decode, hf) == Stepped(ms[k + 1], ts[k])
  }

  ghost predicate Fresh(m: State)
  {
    && Valid(m) && m.step == 0
    && (forall i :: 0 <= i < REGISTERS ==> m.regStep[i] == LAST_STEP_INIT)
    && (forall a: u32 :: ReadMem(m.sections, a).Ok? ==> LastStepOf(m.sections, a) == LAST_STEP_INIT)
  }

  lemma RunStep(ms: seq<State>, ts: seq<TraceRWStep>, decode: Decoder, hf: Hasher, k: nat)
    requires IsRun(ms, ts, decode, hf) && k < |ts|
    ensures Valid(ms[k]) && ms[k].step == k && ms[k].step + 1 < LAST_STEP_INIT
    ensures Tick(ms[k], decode, hf) == Stepped(ms[k + 1], ts[k])
  {
  }

  /** The run `ms` with one more step is a run. */
  lemma RunExtends(ms: seq<State>, ts: seq<TraceRWStep>, decode: Decoder, hf: Hasher, t: TraceRWStep, m: State)
    requires IsRun(ms, ts, decode, hf) && |ms| + 1 < LAST_STEP_INIT
    requires Valid(ms[|ts|]) && ms[|ts|].step == |ts| && Tick(ms[|ts|], decode, hf) == Stepped(m, t)
    ensures IsRun(ms + [m], ts + [t], decode, hf)
  {
    hide Tick, Valid, Fresh;
    var ms', ts' := ms + [m], ts + [t];
    forall k | 0 <= k < |ts'|
      ensures Valid(ms'[k]) && ms'[k].step == k && Tick(ms'[k], decode, hf) == Stepped(ms'[k + 1], ts'[k])
    {
      assert ms'[k] == ms[k];
    }
  }

  /** A value and its time stamp are those of the last write to `address` in `ts`, or the
      initial ones if there was none. */
  ghost predicate Tracks(value: u32, lastStep: u64, address: u32, initial: u32, ts: seq<TraceRWStep>)
  {
    if lastStep == LAST_STEP_INIT then
      value == initial && forall k :: 0 <= k < |ts| ==> !Writes(ts[k], address)
    else
      && 1 <= lastStep <= |ts|
      && Writes(ts[lastStep - 1], address) && ts[lastStep - 1].traceStep.write1.value == value
      && forall k :: lastStep <= k < |ts| ==> !Writes(ts[k], address)
  }

  lemma TracksNext(value: u32, lastStep: u64, address: u32, initial: u32, ts: seq<TraceRWStep>, t: TraceRWStep)
    requires Tracks(value, lastStep, address, initial, ts) && t.stepNumber == |ts| + 1 < LAST_STEP_INIT
    ensures if Writes(t, address)
            then Tracks(t.traceStep.write1.value, t.stepNumber, address, initial, ts + [t])
            else Tracks(value, lastStep, address, initial, ts + [t])
  {
    assert forall k :: 0 <= k < |ts| ==> (ts + [t])[k] == ts[k];
  }

  /** Every register and every readable word of a state tracks the writes of the run so far. */
  ghost predicate AllTrack(m: State, m0: State, ts: seq<TraceRWStep>)
    requires Valid(m0)
  {
    && SamePlaces(m0, m)
    && (forall i: RegIndex :: Tracks(m.regs[i], m.regStep[i], RegisterAddress(m0, i), m0.regs[i], ts))
    && (forall a: u32 :: a % 4 == 0 && ReadMem(m0.sections, a).Ok? ==>
          && ReadMem(m.sections, a).Ok?
          && Tracks(ReadMem(m.sections, a).value, LastStepOf(m.sections, a), a, ReadMem(m0.sections, a).value, ts))
  }

  lemma {:induction false} StatesTrack(ms: seq<State>, ts: seq<TraceRWStep>, decode: Decoder, hf: Hasher, n: nat)
    requires IsRun(ms, ts, decode, hf) && n <= |ts|
    ensures AllTrack(ms[n], ms[0], ts[..n])
  {
    hide Tick, ReadMem, LastStepOf, Ordered, FindSection, Tracks;
    if n == 0 {
      FreshTracks(ms[0]);
      assert ts[..0] == [];
    } else {
      StatesTrack(ms, ts, decode, hf, n - 1);
      assert ts[..n] == ts[..n - 1] + [ts[n - 1]];
      StepTracks(ms[n - 1], ms[0], ts[..n - 1], decode, hf, ms[n], ts[n - 1]);
    }
  }

  lemma FreshTracks(m: State)
    requires Fresh(m)
    ensures AllTrack(m, m, [])
  {
    hide Ordered;
  }

  lemma StepTracks(m: State, m0: State, ts: seq<TraceRWStep>, decode: Decoder, hf: Hasher, m': State, t: TraceRWStep)
    requires Valid(m0) && AllTrack(m, m0, ts) && m.step == |ts| && |ts| + 1 < LAST_STEP_INIT
    requires Valid(m) && Tick(m, decode, hf) == Stepped(m', t)
    ensures AllTrack(m', m0, ts + [t])
  {
    hide Tick, ReadMem, LastStepOf, Ordered, FindSection, Tracks;
    TickChangesOnlyItsTrace(m, decode, hf);
    forall i: RegIndex
      ensures Tracks(m'.regs[i], m'.regStep[i], RegisterAddress(m0, i), m0.regs[i], ts + [t])
    {
      TracksNext(m.regs[i], m.regStep[i], RegisterAddress(m0, i), m0.regs[i], ts, t);
    }
    forall a: u32 | a % 4 == 0 && ReadMem(m0.sections, a).Ok?
      ensures ReadMem(m'.sections, a).Ok? && FindSection(m'.sections, a).Ok?
      ensures Tracks(ReadMem(m'.sections, a).value, LastStepOf(m'.sections, a), a, ReadMem(m0.sections, a).value, ts + [t])
    {
      ReadableIsFound(m, a);
      TracksNext(ReadMem(m.sections, a).value, LastStepOf(m.sections, a), a, ReadMem(m0.sections, a).value, ts, t);
    }
  }

  /** The value that a traced address held in the initial state. */
  ghost function InitialValue(m0: State, address: u32, access: Access): u32
    requires Valid(m0)
  {
    if access == Register && m0.base <= address < m0.base + 4 * REGISTERS then m0.regs[(address - m0.base) / 4]
    else if access == Memory && ReadMem(m0.sections, address).Ok? then ReadMem(m0.sections, address).value
    else 0
  }

  /** Read-consistency: in every step of every run, each read that the witness marks as used
      reports the value and the step number of the last write to its address before the step,
      or the initial value and the initial marker if nothing wrote it. */
  lemma ReadsAreConsistent(ms: seq<State>, ts: seq<TraceRWStep>, decode: Decoder, hf: Hasher, n: nat)
    requires IsRun(ms, ts, decode, hf) && n < |ts|
    ensures var t := ts[n];
            && (t.memWitness.read1 != Unused ==>
                  Tracks(t.read1.value, t.read1.lastStep, t.read1.address,
                         InitialValue(ms[0], t.read1.address, t.memWitness.read1), ts[..n]))
            && (t.memWitness.read2 != Unused ==>
                  Tracks(t.read2.value, t.read2.lastStep, t.read2.address,
                         InitialValue(ms[0], t.read2.address, t.memWitness.read2), ts[..n]))
  {
    hide Tick, ReadMem, LastStepOf, Ordered, FindSection, Tracks, InstructionOutcome, InitialValue, Fresh, AllTrack, Commit;
    StatesTrack(ms, ts, decode, hf, n);
    RunStep(ms, ts, decode, hf, n);
    var m1, opcode, e := EffectOfTick(ms[n], decode, hf);
    ReadTracks(ms[n], m1, ms[0], e.read1, ts[..n]);
    ReadTracks(ms[n], m1, ms[0], e.read2, ts[..n]);
  }

  lemma ReadTracks(m: State, m1: State, m0: State, l: Location, ts: seq<TraceRWStep>)
    requires Valid(m0) && AllTrack(m, m0, ts)
    requires Valid(m) && m1 == m.(step := m1.step) && Valid(m1) && Readable(m1, l)
    ensures !l.Nowhere? ==>
              var r := ReadAt(m1, l);
              Tracks(r.value, r.lastStep, r.address, InitialValue(m0, r.address, AccessOfRead(l)), ts)
  {
    hide Ordered, Tracks, LastStepOf;
    match l {
      case Nowhere =>
      case AtReg(i) =>
        assert (RegisterAddress(m0, i) - m0.base) / 4 == i;
        assert InitialValue(m0, RegisterAddress(m0, i), Register) == m0.regs[i];
      case AtMem(a) =>
        assert FindSection(m0.sections, a).Ok?;
    }
  }
}
