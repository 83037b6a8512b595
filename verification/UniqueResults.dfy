/** From the same values and the same program counter a script accepts one result only, the one
    the emulator computes, divisions with an overflowing pair apart. */
module UniqueResults {
  import opened Bits
  import opened Options
  import opened Trace
  import opened SectionMemory
  import opened Machine
  import opened WordArithmetic
  import opened Runs
  import opened MicroStates
  import opened Division
  import opened SignedDivision
  import opened ScriptOutcomes
  import S = Scripts
  import opened MemoryScripts
  import opened ScriptAgreement

  // ---------------------------------------------------------------- divisions

  /** Divisor times quotient plus remainder leaves the word; a signed division multiplies
      magnitudes. */
  predicate PairOverflows(op: ArithOp, divisor: u32, committed: u32, hint: u32)
    requires IsDivision(op)
  {
    var quotient, remainder := if op == Div || op == Divu then committed else hint, if op == Div || op == Divu then hint else committed;
    if op == Divu || op == Remu then divisor * quotient + remainder >= 0x1_0000_0000
    else MagnitudeOfWord(divisor) * MagnitudeOfWord(quotient) + MagnitudeOfWord(remainder) >= 0x1_0000_0000
  }

  /** The quotient and remainder a division's trace commits to do not fit a word together: the
      one way in which the division check accepts a false pair. */
  predicate OverflowingDivision(i: Instruction, t: TraceRWStep)
  {
    && i.Arith? && i.rd != 0 && IsDivision(i.arith) && !FixedDivisor(i.arith, t.read2.value)
    && PairOverflows(i.arith, t.read2.value, t.traceStep.write1.value, HintOf(t))
  }

  lemma SignedIsInjective(v: u32, w: u32)
    ensures Signed(v) == Signed(w) <==> v == w
  {
  }

  lemma OwnUnsignedPair(op: ArithOp, x: u32, y: u32)
    requires (op == Divu || op == Remu) && y > 0
    ensures ArithHint(op, x, y).Some?
    ensures var value, hint := ArithValue(op, x, y), ArithHint(op, x, y).value;
            && (if op == Divu then value else hint) == x / y
            && (if op == Divu then hint else value) == x % y
            && !PairOverflows(op, y, value, hint)
  {
    hide MagnitudeOfWord;
    QuotientFits(x, y);
    QuotientTimes(x, y);
  }

  /** A division's check accepts, of the pairs that fit a word, the emulator's only. */
  lemma AcceptedPairIsTrue(op: ArithOp, x: u32, y: u32, committed: u32, hint: u32)
    requires IsDivision(op) && !FixedDivisor(op, y) && DivisionAccepted(op, x, y, committed, hint)
    requires !PairOverflows(op, y, committed, hint)
    ensures committed == ArithValue(op, x, y) && ArithHint(op, x, y) == Some(hint)
  {
    hide ArithValue, ArithHint, MagnitudeOfWord, TruncDiv, TruncRem, Signed, Accepted, SignedAccepted;
    var quotient, remainder := if op == Div || op == Divu then committed else hint, if op == Div || op == Divu then hint else committed;
    if op == Divu || op == Remu {
      OwnUnsignedPair(op, x, y);
      AcceptedIsTrueWithoutOverflow(x, y, quotient, remainder);
    } else {
      OwnSignedPair(op, x, y);
      SignedAcceptedIsTrueWithoutOverflow(x, y, quotient, remainder);
      SignedIsInjective(committed, ArithValue(op, x, y));
      SignedIsInjective(hint, ArithHint(op, x, y).value);
    }
  }

  /** The emulator's own pair, where the check accepts it, does not overflow. */
  lemma OwnPairFits(op: ArithOp, x: u32, y: u32)
    requires IsDivision(op) && !FixedDivisor(op, y) && ArithHint(op, x, y).Some?
    requires DivisionAccepted(op, x, y, ArithValue(op, x, y), ArithHint(op, x, y).value)
    ensures !PairOverflows(op, y, ArithValue(op, x, y), ArithHint(op, x, y).value)
  {
    hide ArithValue, ArithHint, MagnitudeOfWord, TruncDiv, TruncRem, Signed, Accepted, SignedAccepted;
    var value, hint := ArithValue(op, x, y), ArithHint(op, x, y).value;
    if op == Divu || op == Remu {
      OwnUnsignedPair(op, x, y);
    } else {
      OwnSignedPair(op, x, y);
      SignedAcceptedIsTrueWithoutOverflow(x, y, if op == Div then value else hint, if op == Div then hint else value);
    }
  }

  // ---------------------------------------------------------------- one result

  /** Two records of a read agree: on the value, unless both leave the read unused. */
  predicate SameRead(access: Access, r: TraceRead, access': Access, r': TraceRead)
  {
    r.value == r'.value || (access == Unused && access' == Unused)
  }

  /** The traces agree on every value that one of them uses and on the program counter. */
  predicate SameValues(t: TraceRWStep, mine: TraceRWStep)
  {
    && SameRead(t.memWitness.read1, t.read1, mine.memWitness.read1, mine.read1)
    && SameRead(t.memWitness.read2, t.read2, mine.memWitness.read2, mine.read2)
    && t.readPc.pc == mine.readPc.pc
  }

  lemma WitnessIsInjective(w: MemoryWitness, w': MemoryWitness)
    ensures WitnessByte(w) == WitnessByte(w') <==> w == w'
  {
  }

  /** Where the value of a read matters to a script, the read is marked as used; a read that a
      load leaves unused is zero. */
  predicate UsesItsReads(i: Instruction, t: TraceRWStep)
  {
    var used1, used2 := t.memWitness.read1 != Unused, t.memWitness.read2 != Unused;
    match i
    case Ecall => t.read1.value == 93 ==> used1 && used2
    case Jalr(_, _, _) => used1
    case Branch(_, _, _, _) | Store(_, _, _, _) => used1 && used2
    case Arith(_, rd, _, _) => rd != 0 ==> used1 && used2
    case Compare(_, rd, _, _) => rd != 0 ==> used1 && used2
    case ArithImm(_, rd, _, _) => rd != 0 ==> used1
    case ShiftImm(_, rd, _, _) => rd != 0 ==> used1
    case CompareImm(_, rd, _, _) => rd != 0 ==> used1
    case Load(_, rd, _, _) => rd != 0 ==> used1 && (used2 || t.read2.value == 0)
    case _ => true
  }

  lemma AcceptedUsesItsReads(i: Instruction, t: TraceRWStep, base: RegisterBase)
    requires Accepts(i, t, base)
    ensures UsesItsReads(i, t)
  {
    hide ArithValue, CompareValue, ArithImmValue, ShiftImmValue, Condition, DivisionAccepted, Decided, Wrap, WitnessByte,
         Masked, Rotated, DigitsAdd, AlignmentTable, AlignmentTable2, Chosen, Or32;
    forall w: MemoryWitness ensures WitnessByte(w) == WitnessByte(t.memWitness) ==> w == t.memWitness {
      WitnessIsInjective(w, t.memWitness);
    }
  }

  /** Two accepted traces that agree on the values used and on the program counter take the same
      step, unless one is a division whose pair overflows. */
  lemma OneResult(i: Instruction, t: TraceRWStep, mine: TraceRWStep, base: RegisterBase)
    requires SameValues(t, mine) && Accepts(i, t, base) && Accepts(i, mine, base)
    requires !OverflowingDivision(i, t) && !OverflowingDivision(i, mine)
    ensures t.traceStep == mine.traceStep
  {
    hide ArithValue, CompareValue, ArithImmValue, ShiftImmValue, Condition, StoreScript, LoadScript, DivisionAccepted, Decided,
         PairOverflows, Wrap, WitnessByte;
    AcceptedUsesItsReads(i, t, base);
    AcceptedUsesItsReads(i, mine, base);
    if i.Store? {
      SameStore(i.store, i.rs1, i.rs2, i.imm, ReadOf(t), ReadOf(mine), base);
    } else if i.Load? && i.rd != 0 {
      SameLoad(i.load, i.rd, i.rs1, i.imm, ReadOf(t), ReadOf(mine), base);
    } else if i.Arith? && i.rd != 0 && IsDivision(i.arith) && !FixedDivisor(i.arith, t.read2.value) {
      AcceptedPairIsTrue(i.arith, t.read1.value, t.read2.value, t.traceStep.write1.value, HintOf(t));
      AcceptedPairIsTrue(i.arith, t.read1.value, t.read2.value, mine.traceStep.write1.value, HintOf(mine));
    }
  }

  /** The script reads of two traces name the same access kinds, and the same addresses where one
      of them uses the read. */
  predicate SameAccesses(t: TraceRWStep, mine: TraceRWStep)
  {
    && t.memWitness == mine.memWitness
    && (t.memWitness.read1 != Unused ==> t.read1.address == mine.read1.address)
    && (t.memWitness.read2 != Unused ==> t.read2.address == mine.read2.address)
  }

  lemma WitnessedAccesses(t: TraceRWStep, read1: Access, read2: Access, write: Access)
    ensures Witnessed(ReadOf(t), read1, read2, write) <==> t.memWitness == MemoryWitness(read1, read2, write)
  {
    hide WitnessByte;
    WitnessIsInjective(t.memWitness, MemoryWitness(read1, read2, write));
  }

  lemma AllWitnessedAccesses(t: TraceRWStep)
    ensures forall read1: Access, read2: Access, write: Access ::
              Witnessed(ReadOf(t), read1, read2, write) <==> t.memWitness == MemoryWitness(read1, read2, write)
  {
    hide Witnessed;
    forall read1: Access, read2: Access, write: Access
      ensures Witnessed(ReadOf(t), read1, read2, write) <==> t.memWitness == MemoryWitness(read1, read2, write)
    {
      WitnessedAccesses(t, read1, read2, write);
    }
  }

  lemma SameStoreAccesses(op: StoreOp, rs1: Reg, rs2: Reg, imm: u32, t: TraceRWStep, mine: TraceRWStep, base: RegisterBase)
    requires t.read1.value == mine.read1.value && t.readPc.pc == mine.readPc.pc
    requires StoreScript(op, rs1, rs2, imm, ReadOf(t), base).Some? && StoreScript(op, rs1, rs2, imm, ReadOf(mine), base).Some?
    ensures SameAccesses(t, mine)
  {
    hide Wrap, Masked, Rotated, DigitsAdd, Witnessed, AlignmentTable, AlignmentTable2, WitnessByte;
    AllWitnessedAccesses(t);
    AllWitnessedAccesses(mine);
  }

  lemma SameLoadAccesses(op: LoadOp, rd: Reg, rs1: Reg, imm: u32, t: TraceRWStep, mine: TraceRWStep, base: RegisterBase)
    requires t.read1.value == mine.read1.value && t.readPc.pc == mine.readPc.pc
    requires LoadScript(op, rd, rs1, imm, ReadOf(t), base).Some? && LoadScript(op, rd, rs1, imm, ReadOf(mine), base).Some?
    ensures SameAccesses(t, mine)
  {
    hide Wrap, Chosen, Witnessed, Or32, WitnessByte;
    AllWitnessedAccesses(t);
    AllWitnessedAccesses(mine);
  }

  /** Two accepted traces that agree on the values used and on the program counter also agree on
      where these values are read, and on what each access is. */
  lemma SameSources(i: Instruction, t: TraceRWStep, mine: TraceRWStep, base: RegisterBase)
    requires SameValues(t, mine) && Accepts(i, t, base) && Accepts(i, mine, base)
    ensures SameAccesses(t, mine)
  {
    hide ArithValue, CompareValue, ArithImmValue, ShiftImmValue, Condition, DivisionAccepted, Decided, Wrap, WitnessByte,
         StoreScript, LoadScript, Witnessed;
    AcceptedUsesItsReads(i, t, base);
    AcceptedUsesItsReads(i, mine, base);
    match i {
      case Store(op, rs1, rs2, imm) => SameStoreAccesses(op, rs1, rs2, imm, t, mine, base);
      case Load(op, rd, rs1, imm) =>
        if rd != 0 {
          SameLoadAccesses(op, rd, rs1, imm, t, mine, base);
        } else {
          AllWitnessedAccesses(t);
          AllWitnessedAccesses(mine);
        }
      case _ =>
        AllWitnessedAccesses(t);
        AllWitnessedAccesses(mine);
    }
  }

  predicate SameReads(r: ScriptRead, r': ScriptRead)
  {
    r.value1 == r'.value1 && r.value2 == r'.value2 && r.pc == r'.pc && r.micro == r'.micro
  }

  lemma SameStore(op: StoreOp, rs1: Reg, rs2: Reg, imm: u32, r: ScriptRead, r': ScriptRead, base: RegisterBase)
    requires SameReads(r, r')
    requires StoreScript(op, rs1, rs2, imm, r, base).Some? && StoreScript(op, rs1, rs2, imm, r', base).Some?
    ensures StoreScript(op, rs1, rs2, imm, r, base) == StoreScript(op, rs1, rs2, imm, r', base)
  {
    hide Wrap, Masked, Rotated, DigitsAdd, WitnessByte, AlignmentTable, AlignmentTable2;
  }

  lemma SameLoad(op: LoadOp, rd: Reg, rs1: Reg, imm: u32, r: ScriptRead, r': ScriptRead, base: RegisterBase)
    requires SameReads(r, r')
    requires LoadScript(op, rd, rs1, imm, r, base).Some? && LoadScript(op, rd, rs1, imm, r', base).Some?
    ensures LoadScript(op, rd, rs1, imm, r, base) == LoadScript(op, rd, rs1, imm, r', base)
  {
    hide Wrap, Chosen, WitnessByte, Or32;
  }

  // ---------------------------------------------------------------- the emulator's own step

  /** What the record of an executed step reads, where acceptance depends on it. */
  lemma OwnValues(m: State, decode: Decoder, hf: Hasher)
    requires Valid(m) && m.step + 1 < LAST_STEP_INIT && Tick(m, decode, hf).Stepped? && Fetched(m, decode).Some?
    ensures var i, t := Fetched(m, decode).value, Tick(m, decode, hf).trace;
            && (i.Ecall? && m.regs[REGISTER_A7] == 93 ==>
                  t.read1.value == m.regs[REGISTER_A7] && t.read2.value == m.regs[REGISTER_A0]
                  && t.memWitness == MemoryWitness(Register, Register, Register))
            && (i.Arith? && i.rd != 0 ==>
                  && t.memWitness == MemoryWitness(Register, Register, Register)
                  && t.read1.value == m.regs[i.rs1] && t.read2.value == m.regs[i.rs2]
                  && t.traceStep.write1.value == ArithValue(i.arith, m.regs[i.rs1], m.regs[i.rs2])
                  && t.hint == ArithHint(i.arith, m.regs[i.rs1], m.regs[i.rs2]))
  {
    hide Tick, Ordered, ReadMem, FindSection, StoreOutcome, LoadOutcome, ArithValue, ArithHint, CompareValue, ArithImmValue,
         ShiftImmValue, Condition;
    var m1, opcode, e := EffectOfTick(m, decode, hf);
  }

  /** A script that accepts any result, of a pair that fits, from the values of an executed step
      accepts the step itself. */
  lemma AcceptedIsAcceptable(m: State, decode: Decoder, hf: Hasher, t: TraceRWStep)
    requires Valid(m) && m.base % 256 == 0 && m.step + 1 < LAST_STEP_INIT
    requires Tick(m, decode, hf).Stepped? && Fetched(m, decode).Some? && SameValues(t, Tick(m, decode, hf).trace)
    requires Accepts(Fetched(m, decode).value, t, m.base) && !OverflowingDivision(Fetched(m, decode).value, t)
    ensures OperandsFit(m, Fetched(m, decode).value) && !Refused(m, Fetched(m, decode).value)
  {
    hide Tick, Valid, Fetched, ArithValue, ArithHint, CompareValue, ArithImmValue, ShiftImmValue, Condition, StoreScript, LoadScript,
         DivisionAccepted, PairOverflows, ZeroQuotientOfOppositeSigns, Encodable, S.InTables;
    var i := Fetched(m, decode).value;
    OwnValues(m, decode, hf);
    if i.Arith? && i.rd != 0 {
      MultiplicationTables(i.arith, t.read1.value, t.read2.value, t.traceStep.write1.value, HintOf(t));
      if IsDivision(i.arith) && !FixedDivisor(i.arith, t.read2.value) {
        AcceptedPairIsTrue(i.arith, t.read1.value, t.read2.value, t.traceStep.write1.value, HintOf(t));
        OwnDivision(i.arith, t.read1.value, t.read2.value);
      }
    }
  }

  /** Whether a multiplication stays in the tables does not depend on what is committed. */
  lemma MultiplicationTables(op: ArithOp, x: u32, y: u32, committed: u32, hint: u32)
    ensures IsMultiplication(op) ==> (S.InTables(op, x, y, committed, hint) <==> S.InTables(op, x, y, 0, 0))
  {
  }

  /** The emulator's own record, where its script accepts it, is no overflowing division. */
  lemma OwnDivisionFits(m: State, decode: Decoder, hf: Hasher, base: RegisterBase)
    requires Valid(m) && m.step + 1 < LAST_STEP_INIT && Tick(m, decode, hf).Stepped? && Fetched(m, decode).Some?
    requires Accepts(Fetched(m, decode).value, Tick(m, decode, hf).trace, base)
    ensures !OverflowingDivision(Fetched(m, decode).value, Tick(m, decode, hf).trace)
  {
    hide Tick, Valid, Fetched, ArithValue, ArithHint, CompareValue, ArithImmValue, ShiftImmValue, Condition, StoreScript, LoadScript,
         DivisionAccepted, PairOverflows, Decided;
    var i := Fetched(m, decode).value;
    OwnValues(m, decode, hf);
    var t := Tick(m, decode, hf).trace;
    if i.Arith? && i.rd != 0 && IsDivision(i.arith) && !FixedDivisor(i.arith, t.read2.value) {
      OwnDivision(i.arith, t.read1.value, t.read2.value);
      OwnPairFits(i.arith, t.read1.value, t.read2.value);
    }
  }
}
