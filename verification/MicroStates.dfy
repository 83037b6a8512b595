/** The micro-step counter of reachable states, and the ROM commitment that lists them. */
module MicroStates {
  import opened Bits
  import opened Options
  import opened Trace
  import opened SectionMemory
  import opened Machine
  import opened Runs
  import opened ByteMemory
  import opened LoadMemory

  /** How many micro-steps the commitment reserves for an instruction. */
  function RequiredMicros(i: Instruction): nat
  {
    match i
    case Load(op, _, _, _) => if op == Lh || op == Lhu || op == Lw then 4 else 1
    case Store(op, _, _, _) => if op == Sb then 4 else 8
    case _ => 1
  }

  /** The states an instruction can be in: fresh, or inside a load or store whose address
      really needs the micro-step. */
  ghost predicate MicroOk(m: State, i: Instruction)
    requires Valid(m)
  {
    m.pc.micro == 0 ||
    match i
    case Load(op, rd, rs1, imm) =>
      rd != 0 && m.pc.micro <= 3 && LoadReads(op, Wrap(m.regs[rs1] + imm) % 4) == 2
    case Store(op, rs1, _, imm) =>
      var needed := StoreReads(op, Wrap(m.regs[rs1] + imm) % 4);
      (m.pc.micro <= 3 && needed >= 1) || (4 <= m.pc.micro <= 7 && needed == 2)
    case _ => false
  }

  ghost predicate InCode(m: State, a: u32)
  {
    && a % 4 == 0 && FindSection(m.sections, a).Ok?
    && m.sections[FindSection(m.sections, a).value].isCode
  }

  /** The instruction at the program counter, if that is an aligned word of decodable code. */
  ghost function Fetched(m: State, decode: Decoder): Option<Instruction>
    requires Valid(m)
  {
    if InCode(m, m.pc.address) then decode(ReadMem(m.sections, m.pc.address).value) else None
  }

  ghost predicate Executing(m: State, decode: Decoder)
  {
    Valid(m) && Fetched(m, decode).Some? && MicroOk(m, Fetched(m, decode).value)
  }

  /** No unreachable mask or micro-step is entered. */
  lemma NeverAborts(m: State, i: Instruction)
    requires Valid(m) && MicroOk(m, i)
    ensures !InstructionOutcome(m, i).Aborts?
    ensures m.pc.micro < RequiredMicros(i)
  {
    hide And, Or32, MoveBytes, SignExtension, Ordered, ReadMem, WriteMem, ArithValue, ArithHint, CompareValue,
         ShiftImmValue, ArithImmValue, Condition;
  }

  /** The number committed for a store is the largest that a store of its width takes. */
  lemma StoreMicrosAreTight(op: StoreOp, rs1: Reg, rs2: Reg, imm: u32)
    ensures forall alignment: nat :: alignment < 4 ==> StoreSteps(StoreWidth(op), alignment) <= RequiredMicros(Store(op, rs1, rs2, imm))
    ensures exists alignment: nat :: alignment < 4 && StoreSteps(StoreWidth(op), alignment) == RequiredMicros(Store(op, rs1, rs2, imm))
  {
    assert StoreSteps(StoreWidth(op), 3) == RequiredMicros(Store(op, rs1, rs2, imm));
  }

  lemma LoadMicrosAreTight(op: LoadOp, rd: Reg, rs1: Reg, imm: u32)
    ensures forall alignment: nat :: alignment < 4 ==> LoadSteps(LoadWidth(op), alignment) <= RequiredMicros(Load(op, rd, rs1, imm))
    ensures exists alignment: nat :: alignment < 4 && LoadSteps(LoadWidth(op), alignment) == RequiredMicros(Load(op, rd, rs1, imm))
  {
    assert LoadSteps(LoadWidth(op), 3) == RequiredMicros(Load(op, rd, rs1, imm));
  }

  /** For every load into a register and every store whose base register is not the zero register
      there is a value of that register with which the last committed micro-step is a legal
      state. Any other instruction has micro-step zero only. */
  lemma LastMicroIsNeeded(m: State, i: Instruction) returns (v: u32)
    requires Valid(m) && ((i.Load? && i.rd != 0) || i.Store?) && i.rs1 != 0
    ensures var m' := m.(regs := m.regs[i.rs1 := v], pc := m.pc.(micro := RequiredMicros(i) - 1));
            Valid(m') && MicroOk(m', i)
    ensures forall j: Instruction :: !j.Load? && !j.Store? ==> RequiredMicros(j) == 1 && (MicroOk(m, j) ==> m.pc.micro == 0)
  {
    hide Ordered, Wrap;
    v := Wrap(3 - i.imm);
    ReachesThree(i.imm);
  }

  lemma ReachesThree(imm: u32)
    ensures Wrap(Wrap(3 - imm) + imm) == 3
  {
  }

  /** Where one step of an instruction leaves the micro-step counter. */
  lemma MicroAfter(m: State, i: Instruction, e: Effect)
    requires Valid(m) && MicroOk(m, i) && InstructionOutcome(m, i) == Does(e) && m.step < LAST_STEP_INIT
    requires Possible(m, e)
    ensures e.next.micro == 0 || (e.next == NextMicro(m.pc) && Valid(Commit(m, e)) && MicroOk(Commit(m, e), i))
  {
    hide Ordered, WriteMem, ArithValue, ArithHint, CompareValue, ShiftImmValue, ArithImmValue, Condition, StoreOutcome, LoadOutcome,
         Wrap, Possible, Commit;
    CommitKeepsPlaces(m, e);
    match i {
      case Store(op, rs1, rs2, imm) => StoreMicroAfter(m, op, rs1, rs2, imm, e);
      case Load(op, rd, rs1, imm) => LoadMicroAfter(m, op, rd, rs1, imm, e);
      case _ =>
    }
  }

  lemma StoreMicroAfter(m: State, op: StoreOp, rs1: Reg, rs2: Reg, imm: u32, e: Effect)
    requires Valid(m) && MicroOk(m, Store(op, rs1, rs2, imm)) && StoreOutcome(m, op, rs1, rs2, imm) == Does(e)
    requires m.step < LAST_STEP_INIT && Possible(m, e) && Valid(Commit(m, e))
    ensures e.next.micro == 0 || (e.next == NextMicro(m.pc) && MicroOk(Commit(m, e), Store(op, rs1, rs2, imm)))
  {
    hide And, Or32, MoveBytes, Ordered, ReadMem, WriteMem, MaskRound1, MaskRound2, Wrap;
  }

  lemma LoadMicroAfter(m: State, op: LoadOp, rd: Reg, rs1: Reg, imm: u32, e: Effect)
    requires Valid(m) && MicroOk(m, Load(op, rd, rs1, imm)) && LoadOutcome(m, op, rd, rs1, imm) == Does(e)
    requires m.step < LAST_STEP_INIT && Possible(m, e) && Valid(Commit(m, e))
    ensures e.next.micro == 0 || (e.next == NextMicro(m.pc) && MicroOk(Commit(m, e), Load(op, rd, rs1, imm)))
  {
    hide And, Or32, MoveBytes, SignExtension, Ordered, ReadMem, LoadMaskRound1, LoadMaskRound2, Wrap;
  }

  /** A step changes no word of code and no section's kind. */
  lemma CodeStays(m: State, decode: Decoder, hf: Hasher, a: u32)
    requires Valid(m) && m.step + 1 < LAST_STEP_INIT && Tick(m, decode, hf).Stepped? && InCode(m, a)
    ensures var m' := Tick(m, decode, hf).state;
            Valid(m') && InCode(m', a) && ReadMem(m'.sections, a) == ReadMem(m.sections, a)
  {
    hide InstructionOutcome, Ordered, ReadMem, WriteMem, ReadAt, Tick;
    var m1, opcode, e := EffectOfTick(m, decode, hf);
    CommitKeepsPlaces(m1, e);
    if e.write.ToMem? {
      WriteOk(m.sections, e.write.address, e.write.value, m1.step);
      WritesMissReadOnly(m.sections, e.write.address, e.write.value, m1.step, a);
    }
  }

  /** Micro-states stay legal from step to step while the program counter stays in code. */
  lemma ExecutingNext(m: State, decode: Decoder, hf: Hasher)
    requires Executing(m, decode) && m.step + 1 < LAST_STEP_INIT && Tick(m, decode, hf).Stepped?
    ensures var m' := Tick(m, decode, hf).state;
            Valid(m') && (Fetched(m', decode).Some? ==> Executing(m', decode))
  {
    hide InstructionOutcome, Ordered, WriteMem, ReadAt, Tick, Commit, TraceOf, Possible, FindSection, MicroOk;
    var m1, opcode, e := EffectOfTick(m, decode, hf);
    var i := decode(opcode).value;
    SameMicroState(m, m1, i);
    MicroAfter(m1, i, e);
    TickChangesOnlyItsTrace(m, decode, hf);
    CodeStays(m, decode, hf, m.pc.address);
    var m' := Tick(m, decode, hf).state;
    if Fetched(m', decode).Some? {
      if e.next.micro == 0 {
        FreshMicroState(m', Fetched(m', decode).value);
      } else {
        SameMicroState(Commit(m1, e), m', i);
      }
    }
  }

  lemma SameMicroState(m: State, m': State, i: Instruction)
    requires Valid(m) && Valid(m') && m'.regs == m.regs && m'.pc == m.pc && MicroOk(m, i)
    ensures MicroOk(m', i)
  {
  }

  lemma FreshMicroState(m: State, i: Instruction)
    requires Valid(m) && m.pc.micro == 0
    ensures MicroOk(m, i)
  {
  }

  /** Every state of a run that starts at micro-step 0 and keeps its program counter in
      decodable code is in a legal micro-state; none of its steps is unreachable code. */
  lemma {:induction false} RunsStayExecuting(ms: seq<State>, ts: seq<TraceRWStep>, decode: Decoder, hf: Hasher, n: nat)
    requires IsRun(ms, ts, decode, hf) && n < |ms| && ms[0].pc.micro == 0
    requires forall k :: 0 <= k < |ms| ==> Valid(ms[k]) && Fetched(ms[k], decode).Some?
    ensures Executing(ms[n], decode)
    ensures ms[n].pc.micro < RequiredMicros(Fetched(ms[n], decode).value)
    ensures !InstructionOutcome(ms[n], Fetched(ms[n], decode).value).Aborts?
  {
    hide Tick, Valid, Fetched, InstructionOutcome, MicroOk, Fresh;
    var i := Fetched(ms[n], decode).value;
    if n == 0 {
      FreshMicroState(ms[0], i);
    } else {
      RunsStayExecuting(ms, ts, decode, hf, n - 1);
      RunStep(ms, ts, decode, hf, n - 1);
      ExecutingNext(ms[n - 1], decode, hf);
    }
    NeverAborts(ms[n], i);
  }

  /** Code words of the initial program are what every state of the run fetches. */
  lemma {:induction false} CodeIsConstant(ms: seq<State>, ts: seq<TraceRWStep>, decode: Decoder, hf: Hasher, n: nat, a: u32)
    requires IsRun(ms, ts, decode, hf) && n < |ms| && Valid(ms[0]) && Valid(ms[n])
    ensures InCode(ms[n], a) <==> InCode(ms[0], a)
    ensures InCode(ms[0], a) ==> ReadMem(ms[n].sections, a) == ReadMem(ms[0].sections, a)
  {
    hide Tick, Valid, ReadMem, FindSection;
    if n > 0 {
      RunStep(ms, ts, decode, hf, n - 1);
      CodeIsConstant(ms, ts, decode, hf, n - 1, a);
      if InCode(ms[n - 1], a) {
        CodeStays(ms[n - 1], decode, hf, a);
      } else {
        DataStays(ms[n - 1], decode, hf, a);
      }
    }
  }

  lemma DataStays(m: State, decode: Decoder, hf: Hasher, a: u32)
    requires Valid(m) && m.step + 1 < LAST_STEP_INIT && Tick(m, decode, hf).Stepped? && !InCode(m, a)
    ensures !InCode(Tick(m, decode, hf).state, a)
  {
    hide InstructionOutcome, ReadMem, ReadAt, Tick;
    var m1, opcode, e := EffectOfTick(m, decode, hf);
    CommitKeepsPlaces(m1, e);
    var m' := Tick(m, decode, hf).state;
    if e.write.ToMem? && FindSection(m.sections, a).Ok? {
      WriteOk(m.sections, e.write.address, e.write.value, m1.step);
      WriteMemKeepsShape(m.sections, e.write.address, e.write.value, m1.step);
      assert SameShape(m.sections[FindSection(m.sections, a).value], m'.sections[FindSection(m.sections, a).value]);
    }
  }
}
