/** When a run resumed from a saved state is the uninterrupted run. */
module Resuming {
  import opened Bits
  import opened Options
  import opened Trace
  import opened SectionMemory
  import opened SectionIndex
  import opened Machine
  import opened Runs
  import opened MicroStates
  import opened Loader
  import opened Execution

  /** The instruction at the program counter aborts the process: it does not decode, or its
      micro-step is one the code calls unreachable. */
  ghost predicate Stuck(m: State, decode: Decoder)
    requires Valid(m)
  {
    && ReadMem(m.sections, m.pc.address).Ok?
    && var i := decode(ReadMem(m.sections, m.pc.address).value);
       i.None? || InstructionOutcome(m, i.value).Aborts?
  }

  /** Turn `k` of a run resumed after `c` turns is turn `c + k` of the uninterrupted run. */
  ghost predicate ResumesAs(m: State, decode: Decoder, hf: Hasher, limit: nat, c: nat, k: nat)
    requires Valid(m) && m.step + c + k < LAST_STEP_INIT && c >= 1 && k >= 1
    requires TurnAfter(m, decode, hf, limit, c).Turn?
  {
    TurnAfter(TurnAfter(m, decode, hf, limit, c).state, decode, hf, limit, k) == TurnAfter(m, decode, hf, limit, c + k)
  }

  ghost predicate Resumes(m: State, decode: Decoder, hf: Hasher, limit: nat, c: nat)
    requires Valid(m) && m.step + c < LAST_STEP_INIT && c >= 1 && TurnAfter(m, decode, hf, limit, c).Turn?
  {
    forall k: nat :: k >= 1 && m.step + c + k < LAST_STEP_INIT ==> ResumesAs(m, decode, hf, limit, c, k)
  }

  ghost predicate SameButCounters(m: State, m': State)
  {
    Valid(m) && Valid(m') && m' == m.(step := m'.step, hash := m'.hash, halt := m'.halt)
  }

  lemma SameStore(m: State, m': State, op: StoreOp, rs1: Reg, rs2: Reg, imm: u32)
    requires SameButCounters(m, m')
    ensures StoreOutcome(m', op, rs1, rs2, imm) == StoreOutcome(m, op, rs1, rs2, imm)
  {
    hide And, Or32, MoveBytes, Valid, ReadMem, WriteMem, MaskRound1, MaskRound2, Wrap, StoreReads;
  }

  lemma SameLoad(m: State, m': State, op: LoadOp, rd: Reg, rs1: Reg, imm: u32)
    requires SameButCounters(m, m')
    ensures LoadOutcome(m', op, rd, rs1, imm) == LoadOutcome(m, op, rd, rs1, imm)
  {
    hide And, Or32, MoveBytes, SignExtension, Valid, ReadMem, LoadMaskRound1, LoadMaskRound2, Wrap, LoadReads;
  }

  /** What an instruction does depends neither on the step counter, the hash nor the halt flag. */
  lemma SameOutcome(m: State, m': State, i: Instruction)
    requires SameButCounters(m, m')
    ensures InstructionOutcome(m', i) == InstructionOutcome(m, i)
  {
    hide Valid, StoreOutcome, LoadOutcome, ArithValue, ArithHint, CompareValue, ShiftImmValue, ArithImmValue, Condition, Wrap;
    match i {
      case Store(op, rs1, rs2, imm) => SameStore(m, m', op, rs1, rs2, imm);
      case Load(op, rd, rs1, imm) => SameLoad(m, m', op, rd, rs1, imm);
      case _ =>
    }
  }

  /** Only a stuck state makes no turn. */
  lemma DeadIsStuck(m: State, decode: Decoder, hf: Hasher, limit: nat)
    requires Valid(m) && m.step + 1 < LAST_STEP_INIT
    ensures TurnOf(m, decode, hf, limit).Dead? <==> Stuck(m, decode)
  {
    hide InstructionOutcome, ReadMem, Ordered, Commit, TraceOf, StopOf;
    var m1 := m.(step := m.step + 1);
    if ReadMem(m.sections, m.pc.address).Ok? && decode(ReadMem(m.sections, m.pc.address).value).Some? {
      SameOutcome(m, m1, decode(ReadMem(m.sections, m.pc.address).value).value);
    }
  }

  /** A run resumed from the state after `c` turns makes the turns of the uninterrupted run
      exactly when that state had not stopped it, or can make no turn at all. */
  lemma ResumeEqualsFullRun(m: State, decode: Decoder, hf: Hasher, limit: nat, c: nat)
    requires Valid(m) && m.step + c + 1 < LAST_STEP_INIT && c >= 1
    requires TurnAfter(m, decode, hf, limit, c).Turn?
    ensures var t := TurnAfter(m, decode, hf, limit, c);
            Resumes(m, decode, hf, limit, c) <==> t.stop.None? || Stuck(t.state, decode)
  {
    hide TurnOf, Stuck, Valid;
    var t := TurnAfter(m, decode, hf, limit, c);
    TurnsCompose(m, decode, hf, limit, c, 1);
    DeadIsStuck(t.state, decode, hf, limit);
    assert ResumesAs(m, decode, hf, limit, c, 1) <==> t.stop.None? || Stuck(t.state, decode);
    if t.stop.None? || Stuck(t.state, decode) {
      forall k: nat | k >= 1 && m.step + c + k < LAST_STEP_INIT
        ensures ResumesAs(m, decode, hf, limit, c, k)
      {
        TurnsCompose(m, decode, hf, limit, c, k);
        if Stuck(t.state, decode) { DeadStaysDead(t.state, decode, hf, limit, k); }
      }
    }
  }

  lemma {:induction false} DeadStaysDead(m: State, decode: Decoder, hf: Hasher, limit: nat, k: nat)
    requires Valid(m) && m.step + k < LAST_STEP_INIT && k >= 1 && TurnOf(m, decode, hf, limit).Dead?
    ensures TurnAfter(m, decode, hf, limit, k).Dead?
  {
    hide TurnOf, Valid;
    if k > 1 { DeadStaysDead(m, decode, hf, limit, k - 1); }
  }

  // ---------------------------------------------------------------- which stopped states are stuck

  /** A program that has not halted stops by halting, by an error or at the limit. Halted, it
      halts again; in error, it errs again; so only a state at the limit can be stuck. */
  lemma StuckOnlyAtLimit(m: State, decode: Decoder, hf: Hasher, limit: nat, c: nat)
    requires Valid(m) && !m.halt && m.step + c + 1 < LAST_STEP_INIT && c >= 1
    requires TurnAfter(m, decode, hf, limit, c).Turn?
    ensures var t := TurnAfter(m, decode, hf, limit, c);
            t.stop.Some? && Stuck(t.state, decode) ==> t.stop.value.LimitStepReached?
  {
    hide TurnOf, TurnAfter, Stuck, Valid;
    var s := StateBefore(m, decode, hf, limit, c);
    StuckAfterTurn(s, decode, hf, limit);
  }

  /** The state in which turn `c` starts; it is not halted. */
  lemma StateBefore(m: State, decode: Decoder, hf: Hasher, limit: nat, c: nat) returns (s: State)
    requires Valid(m) && !m.halt && m.step + c < LAST_STEP_INIT && c >= 1
    requires TurnAfter(m, decode, hf, limit, c).Turn?
    ensures Valid(s) && s.step == m.step + c - 1 && !s.halt
    ensures TurnOf(s, decode, hf, limit) == TurnAfter(m, decode, hf, limit, c)
  {
    hide TurnOf, Valid;
    if c == 1 {
      s := m;
    } else {
      s := TurnAfter(m, decode, hf, limit, c - 1).state;
      if c == 2 {
        GoesOnUnhalted(m, decode, hf, limit);
      } else {
        var b := StateBefore(m, decode, hf, limit, c - 1);
        GoesOnUnhalted(b, decode, hf, limit);
      }
    }
  }

  lemma GoesOnUnhalted(m: State, decode: Decoder, hf: Hasher, limit: nat)
    requires Valid(m) && m.step + 1 < LAST_STEP_INIT
    ensures var t := TurnOf(m, decode, hf, limit); t.Turn? && t.stop.None? ==> !t.state.halt
  {
    hide Tick, Valid;
  }

  lemma StuckAfterTurn(m: State, decode: Decoder, hf: Hasher, limit: nat)
    requires Valid(m) && !m.halt && m.step + 2 < LAST_STEP_INIT && TurnOf(m, decode, hf, limit).Turn?
    ensures var t := TurnOf(m, decode, hf, limit);
            t.stop.Some? && Stuck(t.state, decode) ==> t.stop.value.LimitStepReached?
  {
    hide Tick, Stuck, Valid, AtHalt, Machine.Valid;
    var r := Tick(m, decode, hf);
    if r.Failed? {
      FailedIsNotStuck(m, decode, hf);
    } else if r.Stepped? && r.state.halt {
      HaltedIsNotStuck(m, decode, hf);
    }
  }

  /** A state left by an error meets the same error again. */
  lemma FailedIsNotStuck(m: State, decode: Decoder, hf: Hasher)
    requires Valid(m) && m.step + 1 < LAST_STEP_INIT && Tick(m, decode, hf).Failed?
    ensures Valid(Tick(m, decode, hf).state) && !Stuck(Tick(m, decode, hf).state, decode)
  {
    hide InstructionOutcome, ReadMem, Ordered, Commit, TraceOf;
    TickKeepsValid(m, decode, hf);
    var m1, m' := m.(step := m.step + 1), Tick(m, decode, hf).state;
    if ReadMem(m.sections, m.pc.address).Ok? {
      SameOutcome(m1, m', decode(ReadMem(m.sections, m.pc.address).value).value);
    }
  }

  lemma FailsAgain(m: State, decode: Decoder, hf: Hasher)
    requires Valid(m) && m.step + 2 < LAST_STEP_INIT && Tick(m, decode, hf).Failed?
    ensures Valid(Tick(m, decode, hf).state) && Tick(m, decode, hf).state.step == m.step + 1
    ensures Tick(Tick(m, decode, hf).state, decode, hf).Failed?
  {
    hide InstructionOutcome, ReadMem, Ordered, Commit, TraceOf;
    TickKeepsValid(m, decode, hf);
    var m1, m' := m.(step := m.step + 1), Tick(m, decode, hf).state;
    if ReadMem(m.sections, m.pc.address).Ok? {
      SameOutcome(m1, m'.(step := m.step + 2), decode(ReadMem(m.sections, m.pc.address).value).value);
    }
  }

  /** A state left by a halt is at its halt instruction. */
  lemma HaltedIsNotStuck(m: State, decode: Decoder, hf: Hasher)
    requires Valid(m) && !m.halt && m.step + 1 < LAST_STEP_INIT && Tick(m, decode, hf).Stepped?
    requires Tick(m, decode, hf).state.halt
    ensures Valid(Tick(m, decode, hf).state) && !Stuck(Tick(m, decode, hf).state, decode)
    ensures AtHalt(Tick(m, decode, hf).state, decode)
  {
    hide InstructionOutcome, ReadMem, Ordered, TraceOf;
    TickKeepsValid(m, decode, hf);
    var m1, opcode, e := EffectOfTick(m, decode, hf);
    OnlyEcallHalts(m1, decode(opcode).value, e);
    EcallOutcome(Tick(m, decode, hf).state);
  }

  ghost predicate AtHalt(m: State, decode: Decoder)
  {
    && Valid(m) && ReadMem(m.sections, m.pc.address).Ok? && m.regs[REGISTER_A7] == 93
    && decode(ReadMem(m.sections, m.pc.address).value) == Some(Ecall)
  }

  lemma OnlyEcallHalts(m: State, i: Instruction, e: Effect)
    requires Valid(m) && InstructionOutcome(m, i) == Does(e) && e.halts
    ensures i == Ecall && m.regs[REGISTER_A7] == 93 && e.next == m.pc && e.write == ToReg(REGISTER_A0, m.regs[REGISTER_A0])
  {
    hide Ordered, ReadMem, WriteMem, ArithValue, ArithHint, CompareValue, ShiftImmValue, ArithImmValue, Condition,
         And, Or32, MoveBytes, SignExtension, MaskRound1, MaskRound2, LoadMaskRound1, LoadMaskRound2;
  }

  lemma EcallOutcome(m: State)
    requires Valid(m)
    ensures InstructionOutcome(m, Ecall)
            == if m.regs[REGISTER_A7] == 93 then
                 Does(Effect(AtReg(REGISTER_A7), AtReg(REGISTER_A0), ToReg(REGISTER_A0, m.regs[REGISTER_A0]), m.pc, halts := true))
               else Nop(m)
  {
    hide Ordered;
  }

  /** In legal micro-states of decodable code nothing is stuck: a run resumes from such a state
      exactly when the state had not stopped it, by halting or at the limit. */
  lemma ExecutingResumes(m: State, decode: Decoder, hf: Hasher, limit: nat, c: nat)
    requires Valid(m) && m.step + c + 1 < LAST_STEP_INIT && c >= 1
    requires TurnAfter(m, decode, hf, limit, c).Turn? && Executing(TurnAfter(m, decode, hf, limit, c).state, decode)
    ensures Resumes(m, decode, hf, limit, c) <==> TurnAfter(m, decode, hf, limit, c).stop.None?
  {
    hide TurnAfter, MicroOk, InstructionOutcome, ReadMem, Ordered;
    var s := TurnAfter(m, decode, hf, limit, c).state;
    ResumeEqualsFullRun(m, decode, hf, limit, c);
    NeverAborts(s, Fetched(s, decode).value);
  }

  // ---------------------------------------------------------------- a halted program

  /** A halted program, resumed, halts once more one step later, although the uninterrupted run
      has no such step. */
  lemma HaltedResumesAgain(m: State, decode: Decoder, hf: Hasher, limit: nat)
    requires Valid(m) && !m.halt && m.step + 2 < LAST_STEP_INIT
    requires TurnOf(m, decode, hf, limit).Turn? && TurnOf(m, decode, hf, limit).state.halt
    ensures var m' := TurnOf(m, decode, hf, limit).state;
            && TurnOf(m', decode, hf, limit).Turn?
            && TurnOf(m', decode, hf, limit).stop == Some(Halt(m'.regs[REGISTER_A0], m'.step + 1))
            && TurnAfter(m, decode, hf, limit, 2).Dead?
  {
    hide Tick, AtHalt, Stuck, Machine.Valid;
    assert TurnAfter(m, decode, hf, limit, 1) == TurnOf(m, decode, hf, limit);
    match Tick(m, decode, hf) {
      case Stepped(m', _) =>
        HaltedIsNotStuck(m, decode, hf);
        HaltsAgain(m', decode, hf);
      case Failed(m', _) => FailedIsNotHalted(m, decode, hf);
      case Aborted =>
    }
  }

  lemma FailedIsNotHalted(m: State, decode: Decoder, hf: Hasher)
    requires Valid(m) && m.step + 1 < LAST_STEP_INIT
    ensures Tick(m, decode, hf).Failed? ==> Tick(m, decode, hf).state.halt == m.halt
  {
    hide InstructionOutcome, ReadMem, Ordered, Commit, TraceOf;
  }

  lemma HaltsAgain(m: State, decode: Decoder, hf: Hasher)
    requires Valid(m) && m.step + 1 < LAST_STEP_INIT && AtHalt(m, decode)
    ensures Tick(m, decode, hf).Stepped? && Tick(m, decode, hf).state.halt
            && Tick(m, decode, hf).state.regs[REGISTER_A0] == m.regs[REGISTER_A0]
  {
    hide InstructionOutcome, Ordered, ReadMem, ReadAt;
    var m1 := m.(step := m.step + 1);
    EcallOutcome(m1);
    OutcomeIsPossible(m1, Ecall);
  }

  /** Why the loop stops after a turn of a program that has not halted: at the exit call, with its
      code, even at the limit; at an error, with that error; at the limit after any other step. */
  lemma StopReasons(m: State, decode: Decoder, hf: Hasher, limit: nat)
    requires Valid(m) && !m.halt && m.step + 1 < LAST_STEP_INIT && TurnOf(m, decode, hf, limit).Turn?
    ensures AtHalt(m, decode) ==> TurnOf(m, decode, hf, limit).stop == Some(Halt(m.regs[10], m.step + 1))
    ensures Tick(m, decode, hf).Failed? ==> TurnOf(m, decode, hf, limit).stop == Some(Tick(m, decode, hf).error)
    ensures Tick(m, decode, hf).Stepped? && !AtHalt(m, decode) ==>
              TurnOf(m, decode, hf, limit).stop == if m.step + 1 == limit then Some(LimitStepReached(limit)) else None
  {
    hide Tick, AtHalt, Machine.Valid;
    if AtHalt(m, decode) {
      HaltsAgain(m, decode, hf);
      TickKeepsValid(m, decode, hf);
    } else if Tick(m, decode, hf).Stepped? {
      TickKeepsValid(m, decode, hf);
      if Tick(m, decode, hf).state.halt { HaltedWasAtHalt(m, decode, hf); }
    }
  }

  lemma HaltedWasAtHalt(m: State, decode: Decoder, hf: Hasher)
    requires Valid(m) && !m.halt && m.step + 1 < LAST_STEP_INIT && Tick(m, decode, hf).Stepped? && Tick(m, decode, hf).state.halt
    ensures AtHalt(m, decode)
  {
    hide InstructionOutcome, ReadMem, Ordered, TraceOf;
    var m1, opcode, e := EffectOfTick(m, decode, hf);
    OnlyEcallHalts(m1, decode(opcode).value, e);
  }

  /** Two instructions: load 93 into the register of the call number, and call. */
  function HaltingCode(): Section
  {
    Section([0x05D0_0893, 0x0000_0073], [LAST_STEP_INIT, LAST_STEP_INIT], 0x1000, 8, true, false, true, false)
  }

  ghost function HaltingProgram(hf: Hasher): State
  {
    var ss := [HaltingCode(), RegistersSection()];
    Starting(ss, 0x1000, hf).(tables := TablesOf(ss))
  }

  lemma HaltingProgramIsLoaded(hf: Hasher)
    ensures IsLoaded(HaltingProgram(hf), 0x1000, [HaltingCode()], hf)
  {
    var m, ss := HaltingProgram(hf), [HaltingCode(), RegistersSection()];
    assert ss[0].Valid() && ss[1].Valid();
    assert IsRegisterFile(ss[1], m.base);
    OrderedHoldsImage(ss, [RegistersSection()] + [HaltingCode()]);
  }

  /** The state after `k` of the two steps. */
  ghost predicate Halting(m: State, k: nat)
  {
    && Valid(m) && m.sections == [HaltingCode(), RegistersSection()] && m.step == k
    && m.pc == ProgramCounter(if k == 0 then 0x1000 else 0x1004, 0) && m.regs[REGISTER_A0] == 0
    && (k > 0 ==> m.regs[REGISTER_A7] == 93) && (m.halt <==> k >= 2)
  }

  lemma HaltingWord(m: State, k: nat)
    requires Halting(m, k)
    ensures ReadMem(m.sections, m.pc.address) == Ok(if k == 0 then 0x05D0_0893 else 0x0000_0073)
  {
    hide RegistersSection;
    LocateUnique(m.sections, m.pc.address, 0);
  }

  lemma FirstTurn(m: State, decode: Decoder, hf: Hasher, limit: nat)
    requires Halting(m, 0) && limit != 1 && decode(0x05D0_0893) == Some(ArithImm(Addi, 17, 0, 93))
    ensures var t := TurnOf(m, decode, hf, limit); t.Turn? && t.stop.None? && Halting(t.state, 1)
  {
    hide ReadMem, Ordered, ReadAt, HaltingCode, RegistersSection;
    HaltingWord(m, 0);
    TickKeepsValid(m, decode, hf);
    var m1 := m.(step := 1);
    var e := Effect(AtReg(0), Nowhere, ToReg(17, 93), NextAddress(m.pc));
    assert InstructionOutcome(m1, ArithImm(Addi, 17, 0, 93)) == Does(e);
  }

  lemma SecondTurn(m: State, decode: Decoder, hf: Hasher, limit: nat)
    requires Halting(m, 1) && decode(0x0000_0073) == Some(Ecall)
    ensures var t := TurnOf(m, decode, hf, limit); t.Turn? && t.stop == Some(Halt(0, 2)) && Halting(t.state, 2)
  {
    hide ReadMem, Ordered, ReadAt, HaltingCode, RegistersSection, InstructionOutcome;
    HaltingWord(m, 1);
    TickKeepsValid(m, decode, hf);
    EcallOutcome(m.(step := 2));
  }

  /** A loaded program whose halted state does not resume as the uninterrupted run. */
  lemma HaltedProgram(decode: Decoder, hf: Hasher, limit: nat) returns (m: State)
    requires decode(0x05D0_0893) == Some(ArithImm(Addi, 17, 0, 93)) && decode(0x0000_0073) == Some(Ecall) && limit > 2
    ensures m == HaltingProgram(hf) && Loaded(m, hf)
    ensures TurnAfter(m, decode, hf, limit, 2).Turn? && TurnAfter(m, decode, hf, limit, 2).stop == Some(Halt(0, 2))
    ensures !Resumes(m, decode, hf, limit, 2)
  {
    hide TurnOf, Resumes, Stuck, HaltingCode, RegistersSection;
    m := HaltingProgram(hf);
    HaltingProgramIsLoaded(hf);
    FirstTurn(m, decode, hf, limit);
    var m' := TurnAfter(m, decode, hf, limit, 1).state;
    SecondTurn(m', decode, hf, limit);
    ResumeEqualsFullRun(m, decode, hf, limit, 2);
    HaltingWord(TurnAfter(m, decode, hf, limit, 2).state, 2);
    StuckOnlyAtLimit(m, decode, hf, limit, 2);
  }
}
