/** The micro-step scripts of loads and stores on digits, and the script of any instruction. */
module MemoryScripts {
  import opened Bits
  import opened Options
  import opened Trace
  import opened Nibbles
  import opened NibbleArithmetic
  import opened Multiplication
  import opened NibbleLogic
  import opened Machine
  import opened ScriptOutcomes
  import opened Alignment
  import opened Scripts

  // ---------------------------------------------------------------- stores

  /** The next word after an aligned one. */
  method AddFour(aligned: seq<nibble>) returns (next: seq<nibble>)
    requires |aligned| == 8
    ensures |next| == 8 && Value(next) == Wrap(Value(aligned) + 4)
  {
    next := AddWithBitExtension(aligned, [4], 0);
    FourExtended();
  }

  method OpStoreMicro0(op: StoreOp, rs1: Reg, rs2: Reg, imm: u32, r: ScriptRead, base: RegisterBase)
    returns (result: Option<STraceStep>)
    requires (r.micro == 0 || r.micro == 4) && IsShort(imm)
    ensures Matches(result, StoreMicro0(op, rs1, rs2, imm, r, base))
  {
    hide Value, NibblesOf, AlignmentTable, Masked, Wrap, AlignedPart;
    var valid1 := ValidateRegisterAddress(r.add1, rs1, base);
    if !valid1 { return None; }
    var address := MemoryAddress(r.value1, imm);
    var aligned, alignment := AlignMemory(address);
    var ifAlignmentLess := if op == Sw then 1 else 0;
    if r.micro == 4 {
      ifAlignmentLess := 0;
      aligned := AddFour(aligned);
    }
    if alignment < ifAlignmentLess {
      result := OpStoreSwAligned(aligned, rs2, r, base, AlignedPart(Wrap(r.value1 + imm)));
    } else {
      var round := if r.micro == 0 then 1 else 2;
      if AlignmentTable(op, round).None? { return None; }
      result := OpStoreMicro0Misaligned(op, aligned, alignment, round, r, base);
    }
  }

  method OpStoreSwAligned(aligned: seq<nibble>, rs2: Reg, r: ScriptRead, base: RegisterBase, ghost dest: u32)
    returns (result: Option<STraceStep>)
    requires |aligned| == 8 && Value(aligned) == dest
    ensures Matches(result, When(Witnessed(r, Register, Register, Memory) && r.add2 == RegisterAt(base, rs2),
                                 Written(dest, r.value2, Wrap(r.pc + 4), 0)))
  {
    hide Value, NibblesOf;
    if r.memWitness != WitnessByte(MemoryWitness(Register, Register, Memory)) { return None; }
    var valid := ValidateRegisterAddress(r.add2, rs2, base);
    if !valid { return None; }
    WordOfNibbles(r.value2);
    WordOfNibbles(r.pc);
    var pc := PcNext(NibblesOf(r.pc, 8));
    RecordDenotes(aligned, NibblesOf(r.value2, 8), pc, Written(dest, r.value2, Wrap(r.pc + 4), 0).value);
    result := Some(STraceStep(aligned, NibblesOf(r.value2, 8), pc, 0));
  }

  method OpStoreMicro0Misaligned(op: StoreOp, source: seq<nibble>, alignment: nibble, round: nat, r: ScriptRead, base: RegisterBase)
    returns (result: Option<STraceStep>)
    requires |source| == 8 && alignment < 4 && (round == 1 || round == 2) && AlignmentTable(op, round).Some? && r.micro < 255
    ensures |AlignmentTable(op, round).value| == 4
    ensures Matches(result, When(Witnessed(r, Register, Memory, Register) && r.add2 == Value(source),
                                 Written(RegisterAt(base, AUX1), Masked(AlignmentTable(op, round).value[alignment], r.value2),
                                         r.pc, r.micro + 1)))
  {
    hide Value, NibblesOf, AlignmentTable, Masked;
    TablesAreFlags(op, round, alignment);
    if r.memWitness != WitnessByte(MemoryWitness(Register, Memory, Register)) { return None; }
    WordOfNibbles(r.add2);
    var same := IsEqualTo(NibblesOf(r.add2, 8), source);
    if !same { return None; }
    var masked := MaskWithTable(r.value2, AlignmentTable(op, round).value, alignment, TableFlags(op, round, alignment));
    result := ScratchResult(AUX1, masked, r, base, Masked(AlignmentTable(op, round).value[alignment], r.value2));
  }

  /** A write to an auxiliary register that stays at the instruction. */
  method ScratchResult(aux: RegIndex, value: seq<nibble>, r: ScriptRead, base: RegisterBase, ghost v: u32)
    returns (result: Option<STraceStep>)
    requires |value| == 8 && Value(value) == v && r.micro < 255
    ensures Matches(result, Written(RegisterAt(base, aux), v, r.pc, r.micro + 1))
  {
    hide Value, NibblesOf;
    var address := RegisterWord(aux, base);
    WordOfNibbles(r.pc);
    RecordDenotes(address, value, NibblesOf(r.pc, 8), Written(RegisterAt(base, aux), v, r.pc, r.micro + 1).value);
    result := Some(STraceStep(address, value, NibblesOf(r.pc, 8), r.micro + 1));
  }

  method OpStoreMicro1(op: StoreOp, rs1: Reg, rs2: Reg, imm: u32, r: ScriptRead, base: RegisterBase)
    returns (result: Option<STraceStep>)
    requires (r.micro == 1 || r.micro == 5) && IsShort(imm)
    ensures Matches(result, StoreMicro1(op, rs1, rs2, imm, r, base))
  {
    hide Value, NibblesOf, AlignmentTable2, Masked, Rotated;
    if r.memWitness != WitnessByte(MemoryWitness(Register, Register, Register)) { return None; }
    var valid1 := ValidateRegisterAddress(r.add1, rs1, base);
    var valid2 := ValidateRegisterAddress(r.add2, rs2, base);
    if !valid1 || !valid2 { return None; }
    var address := MemoryAddress(r.value1, imm);
    var aligned, alignment := AlignMemory(address);
    var round := if r.micro == 1 then 1 else 2;
    TablesAreFlags(op, round, alignment);
    if AlignmentTable2(op, round).None? { return None; }
    var table := AlignmentTable2(op, round).value;
    var masked := MaskWithTable(r.value2, table, alignment, TableFlags2(op, round, alignment));
    var rotated := LeftRotate(masked, alignment);
    WordIsBelow(rotated);
    WrapKeeps(Value(rotated));
    result := ScratchResult(AUX2, rotated, r, base, Wrap(Rotated(Masked(table[alignment], r.value2), alignment)));
  }

  method OpStoreMicro2(r: ScriptRead, base: RegisterBase) returns (result: Option<STraceStep>)
    requires r.micro == 2 || r.micro == 6
    ensures Matches(result, StoreMicro2(r, base))
  {
    hide Value, NibblesOf, Wrap;
    if r.memWitness != WitnessByte(MemoryWitness(Register, Register, Register)) { return None; }
    if r.add1 != RegisterAt(base, AUX1) || r.add2 != RegisterAt(base, AUX2) { return None; }
    var x, y := NibblesOf(r.value1, 8), NibblesOf(r.value2, 8);
    var sum: seq<nat> := [];
    for i := 0 to 8
      invariant |sum| == i && forall k :: 0 <= k < i ==> sum[k] == x[k] as int + y[k]
    {
      sum := sum + [x[i] as int + y[i]];
    }
    var address := RegisterWord(AUX1, base);
    result := Some(STraceStep(address, sum, NibblesOf(r.pc, 8), r.micro + 1));
    if DigitsAdd(r.value1, r.value2) {
      DigitSum(x, y, sum);
      WordOfNibbles(r.value1);
      WordOfNibbles(r.value2);
      NibblesOfWord(sum);
      WordIsBelow(sum);
      WrapKeeps(Value(sum));
    }
  }

  lemma {:induction false} DigitSum(x: seq<nibble>, y: seq<nibble>, sum: seq<nat>)
    requires |x| == |y| == |sum| && forall k :: 0 <= k < |sum| ==> sum[k] == x[k] as int + y[k]
    ensures Value(sum) == Value(x) + Value(y)
  {
    if sum != [] {
      var n := |sum| - 1;
      DigitSum(x[..n], y[..n], sum[..n]);
    }
  }

  method OpStoreMicro3(op: StoreOp, rs1: Reg, imm: u32, r: ScriptRead, base: RegisterBase) returns (result: Option<STraceStep>)
    requires (r.micro == 3 || r.micro == 7) && IsShort(imm)
    ensures Matches(result, StoreMicro3(op, rs1, imm, r, base))
  {
    hide Value, NibblesOf, AlignedPart;
    if r.memWitness != WitnessByte(MemoryWitness(Register, Register, Memory)) { return None; }
    var valid := ValidateRegisterAddress(r.add1, rs1, base);
    if !valid || r.add2 != RegisterAt(base, AUX1) { return None; }
    var address := MemoryAddress(r.value1, imm);
    var target, alignment := AlignMemory(address);
    if r.micro == 7 { target := AddFour(target); }
    var more := r.micro != 7 && alignment >= LeastMisaligned(op);
    WordOfNibbles(r.pc);
    WordOfNibbles(r.value2);
    var pc := NibblesOf(r.pc, 8);
    if !more { pc := PcNext(pc); }
    var micro := if more then 4 else 0;
    RecordDenotes(target, NibblesOf(r.value2, 8), pc, StoreMicro3(op, rs1, imm, r, base).value);
    result := Some(STraceStep(target, NibblesOf(r.value2, 8), pc, micro));
  }

  method OpStore(op: StoreOp, rs1: Reg, rs2: Reg, imm: u32, r: ScriptRead, base: RegisterBase)
    returns (result: Option<STraceStep>)
    requires IsShort(imm)
    ensures Matches(result, StoreScript(op, rs1, rs2, imm, r, base))
  {
    hide StoreMicro0, StoreMicro1, StoreMicro2, StoreMicro3, Matches;
    match r.micro {
      case 0 | 4 => result := OpStoreMicro0(op, rs1, rs2, imm, r, base);
      case 1 | 5 => result := OpStoreMicro1(op, rs1, rs2, imm, r, base);
      case 2 | 6 => result := OpStoreMicro2(r, base);
      case 3 | 7 => result := OpStoreMicro3(op, rs1, imm, r, base);
      case _ => result := None; NothingMatches();
    }
  }

  lemma NothingMatches()
    ensures Matches(None, None)
  {
  }

  // ---------------------------------------------------------------- loads

  method OpLoadMicro0(op: LoadOp, rd: Reg, rs1: Reg, imm: u32, r: ScriptRead, base: RegisterBase)
    returns (result: Option<STraceStep>)
    requires r.micro == 0 && IsShort(imm)
    ensures Matches(result, LoadMicro0(op, rd, rs1, imm, r, base))
  {
    hide Value, NibblesOf, Chosen, AlignedPart;
    if r.memWitness != WitnessByte(MemoryWitness(Register, Memory, Register)) { return None; }
    var valid := ValidateRegisterAddress(r.add1, rs1, base);
    if !valid { return None; }
    var address := MemoryAddress(r.value1, imm);
    var aligned, alignment := AlignMemory(address);
    WordOfNibbles(r.add2);
    WordOfNibbles(r.value2);
    var same := IsEqualTo(NibblesOf(r.add2, 8), aligned);
    if !same { return None; }
    var c := ChoiceRound1(op);
    var value := ChooseNibbles(NibblesOf(r.value2, 8), alignment, c.nibs, c.maxExtra, 8 - c.nibs, c.unsigned, c.post);
    if alignment < AlignedIfLessThan(op) {
      result := RegisterResult(rd, value, r.pc, base, Chosen(c, r.value2, alignment));
    } else {
      result := ScratchResult(AUX1, value, r, base, Chosen(c, r.value2, alignment));
    }
  }

  method OpLoadMicro1(op: LoadOp, rs1: Reg, imm: u32, r: ScriptRead, base: RegisterBase) returns (result: Option<STraceStep>)
    requires r.micro == 1 && IsShort(imm) && ChoiceRound2(op).Some?
    ensures Matches(result, LoadMicro1(op, rs1, imm, r, base))
  {
    hide Value, NibblesOf, Chosen, AlignedPart;
    if r.memWitness != WitnessByte(MemoryWitness(Register, Memory, Register)) { return None; }
    var valid := ValidateRegisterAddress(r.add1, rs1, base);
    if !valid { return None; }
    var address := MemoryAddress(r.value1, imm);
    var aligned, alignment := AlignMemory(address);
    var next := AddFour(aligned);
    WordOfNibbles(r.add2);
    WordOfNibbles(r.value2);
    var same := IsEqualTo(NibblesOf(r.add2, 8), next);
    if !same { return None; }
    var c := ChoiceRound2(op).value;
    var value := ChooseNibbles(NibblesOf(r.value2, 8), alignment, c.nibs, c.maxExtra, 8 - c.nibs, c.unsigned, c.post);
    result := ScratchResult(AUX2, value, r, base, Chosen(c, r.value2, alignment));
  }

  method OpLoadMicro2(r: ScriptRead, base: RegisterBase) returns (result: Option<STraceStep>)
    requires r.micro == 2
    ensures Matches(result, LoadMicro2(r, base))
  {
    hide Value, NibblesOf, Or;
    if r.memWitness != WitnessByte(MemoryWitness(Register, Register, Register)) { return None; }
    if r.add1 != RegisterAt(base, AUX1) || r.add2 != RegisterAt(base, AUX2) { return None; }
    WordOfNibbles(r.value1);
    WordOfNibbles(r.value2);
    FullWord(NibblesOf(r.value2, 8));
    var value := LogicWithBitExtension(NibblesOf(r.value1, 8), NibblesOf(r.value2, 8), 0, LogicOr);
    result := ScratchResult(AUX1, value, r, base, Or32(r.value1, r.value2));
  }

  method OpLoadMicro3(rd: Reg, r: ScriptRead, base: RegisterBase) returns (result: Option<STraceStep>)
    requires r.micro == 3
    ensures Matches(result, LoadMicro3(rd, r, base))
  {
    hide Value, NibblesOf;
    if r.memWitness != WitnessByte(MemoryWitness(Register, Unused, Register)) { return None; }
    if r.add1 != RegisterAt(base, AUX1) || r.add2 != 0 || r.value2 != 0 { return None; }
    WordOfNibbles(r.value1);
    result := RegisterResult(rd, NibblesOf(r.value1, 8), r.pc, base, r.value1);
  }

  method OpLoad(op: LoadOp, rd: Reg, rs1: Reg, imm: u32, r: ScriptRead, base: RegisterBase) returns (result: Option<STraceStep>)
    requires IsShort(imm)
    ensures Matches(result, LoadScript(op, rd, rs1, imm, r, base))
  {
    hide LoadMicro0, LoadMicro1, LoadMicro2, LoadMicro3, Matches;
    NothingMatches();
    if r.micro == 0 {
      result := OpLoadMicro0(op, rd, rs1, imm, r, base);
    } else if ChoiceRound2(op).None? {
      result := None;
    } else {
      match r.micro {
        case 1 => result := OpLoadMicro1(op, rs1, imm, r, base);
        case 2 => result := OpLoadMicro2(r, base);
        case 3 => result := OpLoadMicro3(rd, r, base);
        case _ => result := None;
      }
    }
  }

  // ---------------------------------------------------------------- any instruction

  /** Immediates of twelve bits where the encoding has only those. */
  predicate Encodable(i: Instruction)
  {
    (i.Store? || i.Load? || i.Jalr? || i.ArithImm? || i.CompareImm?) ==> IsShort(i.imm)
  }

  predicate StaysInTables(i: Instruction, r: ScriptRead, committed: u32, hint: u32)
  {
    i.Arith? && i.rd != 0 ==> InTables(i.arith, r.value1, r.value2, committed, hint)
  }

  /** The digit script of an instruction is specified: outside the tables it reads other stack
      items, and what it then computes is not modelled. */
  predicate HasVerdict(i: Instruction, r: ScriptRead, committed: u32, hint: u32)
  {
    Encodable(i) && StaysInTables(i, r, committed, hint)
  }

  method ExecuteStep(i: Instruction, r: ScriptRead, committed: u32, hint: u32, base: RegisterBase)
    returns (result: Option<STraceStep>)
    requires HasVerdict(i, r, committed, hint)
    ensures Matches(result, ScriptOutcome(i, r, committed, hint, base))
  {
    hide Matches, NopScript, EcallScript, JalScript, JalrScript, BranchScript, StoreScript, LoadScript, UpperScript,
         InTables, IsShort, RegisterScript, DivisionScript;
    match i {
      case Ebreak | Fence => result := OpNop(r);
      case Ecall => result := OpEcall(r, base);
      case Jal(rd, imm) => result := OpJal(rd, imm, r, base);
      case Jalr(rd, rs1, imm) => result := OpJalr(rd, rs1, imm, r, base);
      case Branch(op, rs1, rs2, imm) => result := OpConditional(op, rs1, rs2, imm, r, base);
      case Store(op, rs1, rs2, imm) => result := OpStore(op, rs1, rs2, imm, r, base);
      case NotImplemented => result := None; NothingMatches();
      case _ =>
        if i.rd == 0 {
          result := OpNop(r);
        } else {
          match i {
            case Load(op, rd, rs1, imm) => result := OpLoad(op, rd, rs1, imm, r, base);
            case Upper(auipc, rd, imm) => result := OpUpper(auipc, rd, imm, r, base);
            case Arith(_, _, _, _) => result := OpArithmetic(i, r, committed, hint, base);
            case Compare(_, _, _, _) => result := OpArithmetic(i, r, committed, hint, base);
            case _ => result := OpArithmeticImm(i, r, base);
          }
        }
    }
  }

  lemma DenotesOne(s: STraceStep, t: TraceStep, committed: TraceStep)
    requires Denotes(s, t)
    ensures Denotes(s, committed) <==> t == committed
  {
    hide NibblesOf;
    SameWord(t.write1.address, committed.write1.address);
    SameWord(t.write1.value, committed.write1.value);
    SameWord(t.writePc.address, committed.writePc.address);
  }

  lemma SameWord(x: u32, y: u32)
    ensures NibblesOf(x, 8) == NibblesOf(y, 8) <==> x == y
  {
    hide NibblesOf;
    WordOfNibbles(x);
    WordOfNibbles(y);
  }

  /** The whole script: recompute the step from the committed reads and compare it with the
      committed write, digit by digit. */
  method VerifyExecution(i: Instruction, r: ScriptRead, committed: TraceStep, hint: u32, base: RegisterBase)
    returns (accepted: bool)
    requires HasVerdict(i, r, committed.write1.value, hint)
    ensures accepted <==> ScriptOutcome(i, r, committed.write1.value, hint, base) == Some(committed)
  {
    hide NibblesOf, ScriptOutcome;
    var result := ExecuteStep(i, r, committed.write1.value, hint, base);
    accepted := result.Some?
                && result.value.micro == committed.writePc.micro
                && result.value.pc == NibblesOf(committed.writePc.address, 8)
                && result.value.writeValue == NibblesOf(committed.write1.value, 8)
                && result.value.writeAdd == NibblesOf(committed.write1.address, 8);
    var expected := ScriptOutcome(i, r, committed.write1.value, hint, base);
    if expected.Some? { DenotesOne(result.value, expected.value, committed); }
  }

  function HintOf(t: TraceRWStep): u32
  {
    if t.hint.Some? then t.hint.value else 0
  }

  /** Whether the digit script of an instruction is specified on a trace. */
  predicate Decided(i: Instruction, t: TraceRWStep)
  {
    HasVerdict(i, ReadOf(t), t.traceStep.write1.value, HintOf(t))
  }

  /** The digit script is specified and accepts the trace. */
  predicate Accepts(i: Instruction, t: TraceRWStep, base: RegisterBase)
  {
    Decided(i, t) && ScriptOutcome(i, ReadOf(t), t.traceStep.write1.value, HintOf(t), base) == Some(t.traceStep)
  }

  /** The digit script is specified and rejects the trace. */
  predicate Rejects(i: Instruction, t: TraceRWStep, base: RegisterBase)
  {
    Decided(i, t) && ScriptOutcome(i, ReadOf(t), t.traceStep.write1.value, HintOf(t), base) != Some(t.traceStep)
  }

  /** Load a trace and run its instruction's script. */
  method Verify(i: Instruction, t: TraceRWStep, base: RegisterBase) returns (accepted: bool)
    requires Decided(i, t)
    ensures accepted <==> Accepts(i, t, base)
    ensures !accepted <==> Rejects(i, t, base)
  {
    hide HasVerdict, ScriptOutcome;
    accepted := VerifyExecution(i, ReadOf(t), t.traceStep, HintOf(t), base);
  }
}
