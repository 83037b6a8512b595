/** The emulator's instruction methods, which update the program in place; each does what the
    machine model says its instruction does. */
module Fetcher {
  import opened Bits
  import opened Options
  import opened Trace
  import opened SectionMemory
  import opened Machine
  import opened Runs
  import opened Programs
  import W = WordArithmetic

  /** What an instruction method hands back to be traced. */
  datatype OpTrace = OpTrace(read1: TraceRead, read2: TraceRead, write1: TraceWrite, memWitness: MemoryWitness)
  datatype OpResult = Done(trace: OpTrace) | OpFailed(error: ExecutionResult) | OpAborted

  const NO_TRACE := OpTrace(NO_READ, NO_READ, NO_WRITE, NO_WITNESS)
  const ALL_REGISTERS := MemoryWitness(Register, Register, Register)
  const RUR := MemoryWitness(Register, Unused, Register)

  ghost function PartsOf(m: State, e: Effect): OpTrace
    requires Valid(m) && Possible(m, e)
  {
    OpTrace(ReadAt(m, e.read1), ReadAt(m, e.read2), WriteOf(m, e.write),
            MemoryWitness(AccessOfRead(e.read1), AccessOfRead(e.read2), AccessOfWrite(e.write)))
  }

  /** The method did to the program what the model says the outcome does. */
  ghost predicate Follows(m: State, m': State, o: Outcome, r: OpResult)
  {
    match o
    case Does(e) => Valid(m) && m.step < LAST_STEP_INIT && Possible(m, e) && m' == Commit(m, e) && r == Done(PartsOf(m, e))
    case Fails(e) => m' == m && r == OpFailed(e)
    case Aborts => m' == m && r == OpAborted
  }

  /** Write a register, time-stamped with the current step, and go on. */
  method SetAndGo(program: Program, idx: RegIndex, v: u32, next: ProgramCounter) returns (write1: TraceWrite)
    requires program.Valid() && program.step < LAST_STEP_INIT && idx != REGISTER_ZERO
    modifies program`pc, program.registers.value, program.registers.lastStep
    ensures var m := old(program.Model());
            program.Model() == m.(regs := m.regs[idx := v], regStep := m.regStep[idx := m.step], pc := next)
    ensures write1 == TraceWrite(program.registers.baseAddress + 4 * idx, v)
  {
    program.registers.Set(idx, v, program.step);
    program.pc := next;
    write1 := program.registers.ToTraceWrite(idx);
  }

  method OpEcall(program: Program) returns (t: OpTrace)
    requires program.Valid() && program.step < LAST_STEP_INIT
    modifies program`pc, program`halt, program.registers.value, program.registers.lastStep
    ensures Follows(old(program.Model()), program.Model(), InstructionOutcome(old(program.Model()), Ecall), Done(t))
  {
    var registers := program.registers;
    var syscall := registers.Get(REGISTER_A7);
    var value2 := registers.Get(REGISTER_A0);
    var read1 := registers.ToTraceRead(REGISTER_A7);
    var read2 := registers.ToTraceRead(REGISTER_A0);
    if syscall == 93 {
      program.halt := true;
      registers.Set(REGISTER_A0, value2, program.step);
      t := OpTrace(read1, read2, registers.ToTraceWrite(REGISTER_A0), ALL_REGISTERS);
    } else {
      program.pc := NextAddress(program.pc);
      t := NO_TRACE;
    }
  }

  method OpConditional(program: Program, op: BranchOp, rs1: Reg, rs2: Reg, imm: u32) returns (t: OpTrace)
    requires program.Valid() && program.step < LAST_STEP_INIT
    modifies program`pc
    ensures Follows(old(program.Model()), program.Model(), InstructionOutcome(old(program.Model()), Branch(op, rs1, rs2, imm)), Done(t))
  {
    hide Condition;
    var registers := program.registers;
    var value1, value2 := registers.Get(rs1), registers.Get(rs2);
    t := OpTrace(registers.ToTraceRead(rs1), registers.ToTraceRead(rs2), NO_WRITE, MemoryWitness(Register, Register, Unused));
    var conditionalDest := Wrap(program.pc.address + imm);
    if Condition(op, value1, value2) {
      program.pc := program.pc.(address := conditionalDest);
    } else {
      program.pc := NextAddress(program.pc);
    }
  }

  method OpJal(program: Program, rd: Reg, imm: u32) returns (t: OpTrace)
    requires program.Valid() && program.step < LAST_STEP_INIT
    modifies program`pc, program.registers.value, program.registers.lastStep
    ensures Follows(old(program.Model()), program.Model(), InstructionOutcome(old(program.Model()), Jal(rd, imm)), Done(t))
  {
    var pc := program.pc;
    t := NO_TRACE;
    if rd != REGISTER_ZERO {
      program.registers.Set(rd, Wrap(pc.address + 4), program.step);
      t := OpTrace(NO_READ, NO_READ, program.registers.ToTraceWrite(rd), MemoryWitness(Unused, Unused, Register));
    }
    program.pc := pc.(address := Wrap(pc.address + imm));
  }

  method OpJalr(program: Program, rd: Reg, rs1: Reg, imm: u32) returns (t: OpTrace)
    requires program.Valid() && program.step < LAST_STEP_INIT
    modifies program`pc, program.registers.value, program.registers.lastStep
    ensures Follows(old(program.Model()), program.Model(), InstructionOutcome(old(program.Model()), Jalr(rd, rs1, imm)), Done(t))
  {
    var pc := program.pc;
    var srcValue := program.registers.Get(rs1);
    var read1 := program.registers.ToTraceRead(rs1);
    if rd == REGISTER_ZERO {
      t := OpTrace(read1, NO_READ, NO_WRITE, MemoryWitness(Register, Unused, Unused));
    } else {
      program.registers.Set(rd, Wrap(pc.address + 4), program.step);
      t := OpTrace(read1, NO_READ, program.registers.ToTraceWrite(rd), RUR);
    }
    program.pc := pc.(address := Wrap(srcValue + imm));
  }

  method OpArithmetic(program: Program, op: ArithOp, rd: Reg, rs1: Reg, rs2: Reg) returns (t: OpTrace, hint: Option<u32>)
    requires program.Valid() && program.step < LAST_STEP_INIT
    modifies program`pc, program.registers.value, program.registers.lastStep
    ensures var o := InstructionOutcome(old(program.Model()), Arith(op, rd, rs1, rs2));
            Follows(old(program.Model()), program.Model(), o, Done(t)) && hint == o.effect.hint
  {
    hide ArithValue, ArithHint, Wrap, Ordered;
    if rd == REGISTER_ZERO {
      program.pc := NextAddress(program.pc);
      return NO_TRACE, None;
    }
    var registers := program.registers;
    var read1, read2 := registers.ToTraceRead(rs1), registers.ToTraceRead(rs2);
    var value1, value2 := registers.Get(rs1), registers.Get(rs2);
    hint := W.Witness(op, value1, value2);
    var result := W.Arithmetic(op, value1, value2);
    var write1 := SetAndGo(program, rd, result, NextAddress(program.pc));
    t := OpTrace(read1, read2, write1, ALL_REGISTERS);
  }

  method OpArithmeticImm(program: Program, op: ArithImmOp, rd: Reg, rs1: Reg, imm: u32) returns (t: OpTrace)
    requires program.Valid() && program.step < LAST_STEP_INIT
    modifies program`pc, program.registers.value, program.registers.lastStep
    ensures Follows(old(program.Model()), program.Model(), InstructionOutcome(old(program.Model()), ArithImm(op, rd, rs1, imm)), Done(t))
  {
    hide ArithImmValue, Wrap, Ordered;
    if rd == REGISTER_ZERO {
      program.pc := NextAddress(program.pc);
      return NO_TRACE;
    }
    var registers := program.registers;
    var read1 := registers.ToTraceRead(rs1);
    var result := W.ArithmeticImm(op, registers.Get(rs1), imm);
    var write1 := SetAndGo(program, rd, result, NextAddress(program.pc));
    t := OpTrace(read1, NO_READ, write1, RUR);
  }

  method OpShiftSl(program: Program, op: CompareOp, rd: Reg, rs1: Reg, rs2: Reg) returns (t: OpTrace)
    requires program.Valid() && program.step < LAST_STEP_INIT
    modifies program`pc, program.registers.value, program.registers.lastStep
    ensures Follows(old(program.Model()), program.Model(), InstructionOutcome(old(program.Model()), Compare(op, rd, rs1, rs2)), Done(t))
  {
    hide CompareValue, Wrap, Ordered;
    var registers := program.registers;
    var read1, read2 := registers.ToTraceRead(rs1), registers.ToTraceRead(rs2);
    var value1, value2 := registers.Get(rs1), registers.Get(rs2);
    if rd == REGISTER_ZERO {
      program.pc := NextAddress(program.pc);
      return NO_TRACE;
    }
    var result := W.ShiftSl(op, value1, value2);
    var write1 := SetAndGo(program, rd, result, NextAddress(program.pc));
    t := OpTrace(read1, read2, write1, ALL_REGISTERS);
  }

  method OpShiftImm(program: Program, op: ShiftImmOp, rd: Reg, rs1: Reg, shamt: Reg) returns (t: OpTrace)
    requires program.Valid() && program.step < LAST_STEP_INIT
    modifies program`pc, program.registers.value, program.registers.lastStep
    ensures Follows(old(program.Model()), program.Model(), InstructionOutcome(old(program.Model()), ShiftImm(op, rd, rs1, shamt)), Done(t))
  {
    hide ShiftImmValue, Wrap, Ordered;
    if rd == REGISTER_ZERO {
      program.pc := NextAddress(program.pc);
      return NO_TRACE;
    }
    var registers := program.registers;
    var read1 := registers.ToTraceRead(rs1);
    var result := W.ShiftImm(op, registers.Get(rs1), shamt);
    var write1 := SetAndGo(program, rd, result, NextAddress(program.pc));
    t := OpTrace(read1, NO_READ, write1, RUR);
  }

  method OpSlImm(program: Program, unsigned: bool, rd: Reg, rs1: Reg, imm: u32) returns (t: OpTrace)
    requires program.Valid() && program.step < LAST_STEP_INIT
    modifies program`pc, program.registers.value, program.registers.lastStep
    ensures Follows(old(program.Model()), program.Model(), InstructionOutcome(old(program.Model()), CompareImm(unsigned, rd, rs1, imm)), Done(t))
  {
    hide Signed, Wrap, Ordered;
    if rd == REGISTER_ZERO {
      program.pc := NextAddress(program.pc);
      return NO_TRACE;
    }
    var registers := program.registers;
    var read1 := registers.ToTraceRead(rs1);
    var value := registers.Get(rs1);
    var less := if unsigned then value < imm else Signed(value) < Signed(imm);
    var write1 := SetAndGo(program, rd, if less then 1 else 0, NextAddress(program.pc));
    t := OpTrace(read1, NO_READ, write1, RUR);
  }

  method OpUpper(program: Program, auipc: bool, rd: Reg, imm: u32) returns (t: OpTrace)
    requires program.Valid() && program.step < LAST_STEP_INIT
    modifies program`pc, program.registers.value, program.registers.lastStep
    ensures Follows(old(program.Model()), program.Model(), InstructionOutcome(old(program.Model()), Upper(auipc, rd, imm)), Done(t))
  {
    hide Wrap, Ordered;
    if rd == REGISTER_ZERO {
      program.pc := NextAddress(program.pc);
      return NO_TRACE;
    }
    var value := if auipc then Wrap(program.pc.address + imm) else imm;
    var write1 := SetAndGo(program, rd, value, NextAddress(program.pc));
    t := OpTrace(NO_READ, NO_READ, write1, MemoryWitness(Unused, Unused, Register));
  }

  method GetDestMem(program: Program, rs1: Reg, imm: u32) returns (read1: TraceRead, destMem: u32, alignment: nat)
    requires program.Valid()
    ensures read1 == program.registers.ToTraceRead(rs1)
    ensures var address := Wrap(program.registers.value[rs1] + imm);
            alignment == address % 4 && destMem == address - alignment
  {
    read1 := program.registers.ToTraceRead(rs1);
    var address := Wrap(program.registers.Get(rs1) + imm);
    alignment := address % 4;
    destMem := address - alignment;
  }

  method OpStore(program: Program, op: StoreOp, rs1: Reg, rs2: Reg, imm: u32) returns (r: OpResult)
    requires program.Valid() && program.step < LAST_STEP_INIT
    modifies program`sections, program`pc, program.registers.value, program.registers.lastStep
    ensures Follows(old(program.Model()), program.Model(), InstructionOutcome(old(program.Model()), Store(op, rs1, rs2, imm)), r)
  {
    hide And, Or32, MoveBytes, MaskRound1, MaskRound2, Ordered, SectionMemory.ReadMem, SectionMemory.WriteMem, LastStepOf;
    var micro := program.pc.micro;
    if micro == 0 || micro == 4 {
      r := StoreMicro0(program, op, rs1, rs2, imm);
    } else if micro == 1 || micro == 5 {
      r := StoreMicro1(program, op, rs1, rs2, imm);
    } else if micro == 2 || micro == 6 {
      var t := MergeMicro(program);
      r := Done(t);
    } else if micro == 3 || micro == 7 {
      r := StoreMicro3(program, op, rs1, rs2, imm);
    } else {
      r := OpAborted;
    }
  }

  method StoreMicro0(program: Program, op: StoreOp, rs1: Reg, rs2: Reg, imm: u32) returns (r: OpResult)
    requires program.Valid() && program.step < LAST_STEP_INIT && (program.pc.micro == 0 || program.pc.micro == 4)
    modifies program`sections, program`pc, program.registers.value, program.registers.lastStep
    ensures Follows(old(program.Model()), program.Model(), StoreOutcome(old(program.Model()), op, rs1, rs2, imm), r)
  {
    hide And, MaskRound1, MaskRound2, Ordered, SectionMemory.WriteMem, LastStepOf, SectionMemory.ReadMem,
         SectionMemory.FindSection, Wrap, StoreReads;
    var micro := program.pc.micro;
    ghost var m := program.Model();
    StoreIsPossibleIfDoes(m, op, rs1, rs2, imm);
    var read1, destMem, alignment := GetDestMem(program, rs1, imm);
    var words := StoreReads(op, alignment);
    if micro == 0 && op == Sw && words == 0 {
      r := StoreWord(program, rs2, read1, destMem);
      return;
    }
    var mask := if micro == 0 then MaskRound1(op, alignment) else MaskRound2(op, alignment);
    if mask.None? { return OpAborted; }
    if micro == 4 { destMem := Wrap(destMem as int + 4); }
    var read2 := ReadWord(program, destMem);
    if read2.Err? { return OpFailed(read2.error); }
    var write1 := SetAndGo(program, AUX1, And(mask.value.keep, read2.value.value), NextMicro(program.pc));
    r := Done(OpTrace(read1, read2.value, write1, MemoryWitness(Register, Memory, Register)));
  }

  /** Read a word together with the step that wrote it. */
  method ReadWord(program: Program, address: u32) returns (r: Result<TraceRead>)
    requires program.Valid()
    ensures match SectionMemory.ReadMem(program.sections, address)
            case Err(e) => r == Err(e)
            case Ok(v) => SectionMemory.FindSection(program.sections, address).Ok?
                          && r == Ok(TraceRead(address, v, LastStepOf(program.sections, address)))
  {
    hide Ordered, LastStepOf, SectionMemory.ReadMem;
    var value := program.ReadMem(address);
    if value.Err? { return Err(value.error); }
    ReadableIsFound(program.Model(), address);
    var lastStep := program.GetLastStep(address);
    r := Ok(TraceRead(address, value.value, lastStep));
  }

  /** An aligned word is stored at once. */
  method StoreWord(program: Program, rs2: Reg, read1: TraceRead, destMem: u32) returns (r: OpResult)
    requires program.Valid() && program.step < LAST_STEP_INIT
    modifies program`sections, program`pc
    ensures var m := old(program.Model());
            match WriteMem(m.sections, destMem, m.regs[rs2], 0)
            case Err(e) => r == OpFailed(e) && program.Model() == m
            case Ok(_) =>
              && WriteMem(m.sections, destMem, m.regs[rs2], m.step).Ok?
              && program.Model() == m.(sections := WriteMem(m.sections, destMem, m.regs[rs2], m.step).value, pc := NextAddress(m.pc))
              && r == Done(OpTrace(read1, TraceRead(m.base + 4 * rs2, m.regs[rs2], m.regStep[rs2]),
                                   TraceWrite(destMem, m.regs[rs2]), MemoryWitness(Register, Register, Memory)))
  {
    hide Ordered, SectionMemory.WriteMem;
    var read2 := program.registers.ToTraceRead(rs2);
    var value := program.registers.Get(rs2);
    SameWriteResult(program.sections, destMem, value, program.step);
    var written := program.WriteMem(destMem, value);
    if written.Err? { return OpFailed(written.error); }
    program.pc := NextAddress(program.pc);
    r := Done(OpTrace(read1, read2, TraceWrite(destMem, value), MemoryWitness(Register, Register, Memory)));
  }

  lemma StoreIsPossibleIfDoes(m: State, op: StoreOp, rs1: Reg, rs2: Reg, imm: u32)
    requires Valid(m)
    ensures StoreOutcome(m, op, rs1, rs2, imm).Does? ==> Possible(m, StoreOutcome(m, op, rs1, rs2, imm).effect)
  {
    hide StoreOutcome, Possible;
    if StoreOutcome(m, op, rs1, rs2, imm).Does? {
      StoreIsPossible(m, op, rs1, rs2, imm);
    }
  }

  lemma LoadIsPossibleIfDoes(m: State, op: LoadOp, rd: Reg, rs1: Reg, imm: u32)
    requires Valid(m)
    ensures LoadOutcome(m, op, rd, rs1, imm).Does? ==> Possible(m, LoadOutcome(m, op, rd, rs1, imm).effect)
  {
    hide LoadOutcome, Possible;
    if LoadOutcome(m, op, rd, rs1, imm).Does? {
      LoadIsPossible(m, op, rd, rs1, imm);
    }
  }

  /** Whether a write succeeds does not depend on the step that makes it. */
  lemma SameWriteResult(ss: seq<Section>, a: u32, v: u32, step: u64)
    requires Ordered(ss)
    ensures WriteMem(ss, a, v, step).Err? <==> WriteMem(ss, a, v, 0).Err?
    ensures WriteMem(ss, a, v, step).Err? ==> WriteMem(ss, a, v, step) == WriteMem(ss, a, v, 0)
  {
  }

  method StoreMicro1(program: Program, op: StoreOp, rs1: Reg, rs2: Reg, imm: u32) returns (r: OpResult)
    requires program.Valid() && program.step < LAST_STEP_INIT && (program.pc.micro == 1 || program.pc.micro == 5)
    modifies program`pc, program.registers.value, program.registers.lastStep
    ensures Follows(old(program.Model()), program.Model(), StoreOutcome(old(program.Model()), op, rs1, rs2, imm), r)
  {
    hide And, MoveBytes, MaskRound1, MaskRound2, Ordered, SectionMemory.ReadMem, SectionMemory.WriteMem;
    var registers := program.registers;
    var read1, _, alignment := GetDestMem(program, rs1, imm);
    var mask := if program.pc.micro == 1 then MaskRound1(op, alignment) else MaskRound2(op, alignment);
    if mask.None? { return OpAborted; }
    var read2 := registers.ToTraceRead(rs2);
    var masked := And(mask.value.take, registers.Get(rs2));
    var write1 := SetAndGo(program, AUX2, MoveBytes(masked, mask.value.move), NextMicro(program.pc));
    r := Done(OpTrace(read1, read2, write1, ALL_REGISTERS));
  }

  ghost function MergeEffect(m: State): Effect
    requires Valid(m)
  {
    Effect(AtReg(AUX1), AtReg(AUX2), ToReg(AUX1, Or32(m.regs[AUX1], m.regs[AUX2])), NextMicro(m.pc))
  }

  /** The micro-step that merges the auxiliary registers, shared by stores and loads. */
  method MergeMicro(program: Program) returns (t: OpTrace)
    requires program.Valid() && program.step < LAST_STEP_INIT
    modifies program`pc, program.registers.value, program.registers.lastStep
    ensures Follows(old(program.Model()), program.Model(), Does(MergeEffect(old(program.Model()))), Done(t))
  {
    hide Or32;
    var registers := program.registers;
    var value1, value2 := registers.Get(AUX1), registers.Get(AUX2);
    var read1, read2 := registers.ToTraceRead(AUX1), registers.ToTraceRead(AUX2);
    var write1 := SetAndGo(program, AUX1, Or32(value1, value2), NextMicro(program.pc));
    t := OpTrace(read1, read2, write1, ALL_REGISTERS);
  }

  method StoreMicro3(program: Program, op: StoreOp, rs1: Reg, rs2: Reg, imm: u32) returns (r: OpResult)
    requires program.Valid() && program.step < LAST_STEP_INIT && (program.pc.micro == 3 || program.pc.micro == 7)
    modifies program`sections, program`pc
    ensures Follows(old(program.Model()), program.Model(), StoreOutcome(old(program.Model()), op, rs1, rs2, imm), r)
  {
    hide MaskRound1, MaskRound2, Ordered, SectionMemory.ReadMem, SectionMemory.WriteMem;
    var registers, micro := program.registers, program.pc.micro;
    ghost var m := program.Model();
    StoreIsPossibleIfDoes(m, op, rs1, rs2, imm);
    var read1, destMem, alignment := GetDestMem(program, rs1, imm);
    var words := StoreReads(op, alignment);
    var value := registers.Get(AUX1);
    var read2 := registers.ToTraceRead(AUX1);
    if micro == 7 { destMem := Wrap(destMem as int + 4); }
    SameWriteResult(program.sections, destMem, value, program.step);
    var written := program.WriteMem(destMem, value);
    if written.Err? { return OpFailed(written.error); }
    if words == 1 || micro == 7 {
      program.pc := NextAddress(program.pc);
    } else {
      program.pc := NextMicro(program.pc);
    }
    r := Done(OpTrace(read1, read2, TraceWrite(destMem, value), MemoryWitness(Register, Register, Memory)));
  }

  method OpLoad(program: Program, op: LoadOp, rd: Reg, rs1: Reg, imm: u32) returns (r: OpResult)
    requires program.Valid() && program.step < LAST_STEP_INIT
    modifies program`pc, program.registers.value, program.registers.lastStep
    ensures Follows(old(program.Model()), program.Model(), InstructionOutcome(old(program.Model()), Load(op, rd, rs1, imm)), r)
  {
    hide And, Or32, MoveBytes, SignExtension, LoadMaskRound1, LoadMaskRound2, Ordered, SectionMemory.ReadMem, LastStepOf, Wrap,
         LoadReads;
    if rd == REGISTER_ZERO {
      program.pc := NextAddress(program.pc);
      return Done(NO_TRACE);
    }
    var registers, micro := program.registers, program.pc.micro;
    if micro == 0 || micro == 1 {
      r := LoadMicro0(program, op, rd, rs1, imm);
    } else if micro == 2 {
      var t := MergeMicro(program);
      r := Done(t);
    } else if micro == 3 {
      var value := registers.Get(AUX1);
      var read1 := registers.ToTraceRead(AUX1);
      var write1 := SetAndGo(program, rd, value, NextAddress(program.pc));
      r := Done(OpTrace(read1, NO_READ, write1, RUR));
    } else {
      r := OpAborted;
    }
  }

  method LoadMicro0(program: Program, op: LoadOp, rd: Reg, rs1: Reg, imm: u32) returns (r: OpResult)
    requires program.Valid() && program.step < LAST_STEP_INIT && program.pc.micro <= 1 && rd != REGISTER_ZERO
    modifies program`pc, program.registers.value, program.registers.lastStep
    ensures Follows(old(program.Model()), program.Model(), LoadOutcome(old(program.Model()), op, rd, rs1, imm), r)
  {
    hide And, MoveBytes, SignExtension, LoadMaskRound1, LoadMaskRound2, Ordered, LastStepOf, SectionMemory.ReadMem,
         SectionMemory.FindSection, Wrap, LoadReads;
    var micro := program.pc.micro;
    LoadIsPossibleIfDoes(program.Model(), op, rd, rs1, imm);
    var read1, srcMem, alignment := GetDestMem(program, rs1, imm);
    var words := LoadReads(op, alignment);
    if micro == 1 { srcMem := Wrap(srcMem as int + 4); }
    var read2 := ReadWord(program, srcMem);
    if read2.Err? { return OpFailed(read2.error); }
    var mask := if micro == 0 then LoadMaskRound1(op, alignment) else LoadMaskRound2(op, alignment);
    if mask.None? { return OpAborted; }
    var shifted := SignExtension(op, MoveBytes(And(mask.value.take, read2.value.value), mask.value.move));
    var dest: RegIndex := if words == 1 then rd else if micro == 0 then AUX1 else AUX2;
    var write1 := SetAndGo(program, dest, shifted, if words == 1 then NextAddress(program.pc) else NextMicro(program.pc));
    r := Done(OpTrace(read1, read2.value, write1, MemoryWitness(Register, Memory, Register)));
  }

  // ---------------------------------------------------------------- one step

  method ExecuteInstruction(program: Program, i: Instruction) returns (r: OpResult, hint: Option<u32>)
    requires program.Valid() && program.step < LAST_STEP_INIT
    modifies program`sections, program`pc, program`halt, program.registers.value, program.registers.lastStep
    ensures var o := InstructionOutcome(old(program.Model()), i);
            Follows(old(program.Model()), program.Model(), o, r) && (o.Does? ==> hint == o.effect.hint)
  {
    hide Follows, StoreOutcome, LoadOutcome, ArithValue, ArithHint, CompareValue, ShiftImmValue, ArithImmValue, Condition;
    hint := None;
    var t := NO_TRACE;
    match i {
      case Ebreak => t := OpNop(program); r := Done(t);
      case Fence => t := OpNop(program); r := Done(t);
      case Ecall => t := OpEcall(program); r := Done(t);
      case Jal(rd, imm) => t := OpJal(program, rd, imm); r := Done(t);
      case Jalr(rd, rs1, imm) => t := OpJalr(program, rd, rs1, imm); r := Done(t);
      case Arith(op, rd, rs1, rs2) => t, hint := OpArithmetic(program, op, rd, rs1, rs2); r := Done(t);
      case Compare(op, rd, rs1, rs2) => t := OpShiftSl(program, op, rd, rs1, rs2); r := Done(t);
      case ShiftImm(op, rd, rs1, shamt) => t := OpShiftImm(program, op, rd, rs1, shamt); r := Done(t);
      case CompareImm(unsigned, rd, rs1, imm) => t := OpSlImm(program, unsigned, rd, rs1, imm); r := Done(t);
      case Store(op, rs1, rs2, imm) => r := OpStore(program, op, rs1, rs2, imm); NoHintOfStore(old(program.Model()), op, rs1, rs2, imm);
      case Load(op, rd, rs1, imm) => r := OpLoad(program, op, rd, rs1, imm); NoHintOfLoad(old(program.Model()), op, rd, rs1, imm);
      case Upper(auipc, rd, imm) => t := OpUpper(program, auipc, rd, imm); r := Done(t);
      case Branch(op, rs1, rs2, imm) => t := OpConditional(program, op, rs1, rs2, imm); r := Done(t);
      case ArithImm(op, rd, rs1, imm) => t := OpArithmeticImm(program, op, rd, rs1, imm); r := Done(t);
      case NotImplemented =>
        r := OpFailed(InstructionNotImplemented);
        FailingFollows(old(program.Model()), InstructionNotImplemented);
    }
  }

  lemma NoHintOfStore(m: State, op: StoreOp, rs1: Reg, rs2: Reg, imm: u32)
    requires Valid(m)
    ensures StoreOutcome(m, op, rs1, rs2, imm).Does? ==> StoreOutcome(m, op, rs1, rs2, imm).effect.hint == None
  {
    hide And, Or32, MoveBytes, MaskRound1, MaskRound2, ReadMem, WriteMem;
  }

  lemma NoHintOfLoad(m: State, op: LoadOp, rd: Reg, rs1: Reg, imm: u32)
    requires Valid(m)
    ensures LoadOutcome(m, op, rd, rs1, imm).Does? ==> LoadOutcome(m, op, rd, rs1, imm).effect.hint == None
  {
    hide And, Or32, MoveBytes, SignExtension, LoadMaskRound1, LoadMaskRound2, ReadMem;
  }

  lemma FailingFollows(m: State, e: ExecutionResult)
    ensures Follows(m, m, Fails(e), OpFailed(e))
  {
  }

  method OpNop(program: Program) returns (t: OpTrace)
    requires program.Valid() && program.step < LAST_STEP_INIT
    modifies program`pc
    ensures Follows(old(program.Model()), program.Model(), Nop(old(program.Model())), Done(t))
  {
    program.pc := NextAddress(program.pc);
    t := NO_TRACE;
  }

  datatype StepOutcome = StepOk(trace: TraceRWStep) | StepErr(error: ExecutionResult) | StepAborted

  /** One step of the emulator is one step of the machine model. */
  method ExecuteStep(program: Program, decode: Decoder) returns (r: StepOutcome)
    requires program.Valid() && program.step + 1 < LAST_STEP_INIT
    modifies program`sections, program`pc, program`halt, program`step, program.registers.value, program.registers.lastStep
    ensures match Step(old(program.Model()), decode)
            case Stepped(m', t) => program.Model() == m' && r == StepOk(t)
            case Failed(m', e) => program.Model() == m' && r == StepErr(e)
            case Aborted => r == StepAborted
  {
    hide InstructionOutcome, Ordered, SectionMemory.ReadMem, Possible, ReadAt, WriteOf;
    var pc := program.pc;
    program.step := program.step + 1;
    ghost var m1 := program.Model();
    var opcode := program.ReadMem(pc.address);
    if opcode.Err? { return StepErr(opcode.error); }
    var instruction := decode(opcode.value);
    if instruction.None? { return StepAborted; }
    var result, hint := ExecuteInstruction(program, instruction.value);
    match result {
      case OpFailed(e) => r := StepErr(e);
      case OpAborted => r := StepAborted;
      case Done(t) =>
        r := StepOk(TraceRWStep(program.step, t.read1, t.read2, TraceReadPC(pc, opcode.value),
                                TraceStep(t.write1, program.pc), hint, t.memWitness));
    }
  }
}
