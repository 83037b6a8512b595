/** The scripts accept what the emulator does: for every step of a run, the script of the
    executed instruction recomputes exactly the traced write and next program counter. */
module ScriptAgreement {
  import opened Bits
  import opened WordBits
  import opened Options
  import opened Trace
  import opened SectionMemory
  import opened Nibbles
  import opened Machine
  import opened Runs
  import opened ByteMemory
  import opened LoadMemory
  import opened MicroStates
  import opened Division
  import opened SignedDivision
  import opened MemoryScripts
  import S = Scripts
  import P = Multiplication
  import SignedProduct
  import opened ScriptOutcomes
  import opened Alignment

  // ---------------------------------------------------------------- what stores leave in the auxiliary registers

  ghost predicate HoldsKept(mask: Option<StoreMask>, w: u32)
  {
    mask.Some? && exists x: u32 :: w == And(mask.value.keep, x)
  }

  ghost predicate HoldsTaken(mask: Option<StoreMask>, v: u32, w: u32)
  {
    mask.Some? && w == MoveBytes(And(mask.value.take, v), mask.value.move)
  }

  /** Inside a store, the auxiliary registers hold the masked memory word and the moved bytes. */
  ghost predicate ScratchReady(m: State, i: Instruction)
    requires Valid(m)
  {
    match i
    case Store(op, rs1, rs2, imm) =>
      var alignment := Wrap(m.regs[rs1] + imm) % 4;
      && (m.pc.micro == 1 || m.pc.micro == 2 ==> HoldsKept(MaskRound1(op, alignment), m.regs[AUX1]))
      && (m.pc.micro == 2 ==> HoldsTaken(MaskRound1(op, alignment), m.regs[rs2], m.regs[AUX2]))
      && (m.pc.micro == 5 || m.pc.micro == 6 ==> HoldsKept(MaskRound2(op, alignment), m.regs[AUX1]))
      && (m.pc.micro == 6 ==> HoldsTaken(MaskRound2(op, alignment), m.regs[rs2], m.regs[AUX2]))
    case _ => true
  }

  lemma ScratchAfter(m: State, i: Instruction, e: Effect)
    requires Valid(m) && ScratchReady(m, i) && MicroOk(m, i) && InstructionOutcome(m, i) == Does(e) && m.step < LAST_STEP_INIT
    requires Possible(m, e) && Valid(Commit(m, e)) && e.next.micro != 0 && e.next == NextMicro(m.pc)
    ensures ScratchReady(Commit(m, e), i)
  {
    hide And, Or32, MoveBytes, Ordered, ReadMem, WriteMem, ArithValue, ArithHint, CompareValue,
         ShiftImmValue, ArithImmValue, Condition, MaskRound1, MaskRound2, LoadOutcome;
  }

  lemma SumOfDisjoint(a: byte, b: byte)
    requires a == 0 || b == 0
    ensures Either(a, b) as int == a + b
    ensures a / 16 + b / 16 < 16 && a % 16 + b % 16 < 16
  {
  }

  ghost predicate Disjoint(x: Bytes, y: Bytes)
  {
    (x.b0 == 0 || y.b0 == 0) && (x.b1 == 0 || y.b1 == 0) && (x.b2 == 0 || y.b2 == 0) && (x.b3 == 0 || y.b3 == 0)
  }

  lemma DisjointDigitsAdd(x: Bytes, y: Bytes)
    requires Disjoint(x, y)
    ensures DigitsAdd(ToWord(x), ToWord(y))
  {
    hide NibblesOf, ToWord;
    NibblesOfBytes(x);
    NibblesOfBytes(y);
    SumOfDisjoint(x.b0, y.b0);
    SumOfDisjoint(x.b1, y.b1);
    SumOfDisjoint(x.b2, y.b2);
    SumOfDisjoint(x.b3, y.b3);
  }

  /** Words with disjoint bytes: adding their digits is OR. */
  lemma DisjointWordsAdd(x: Bytes, y: Bytes)
    requires Disjoint(x, y)
    ensures Or(ToWord(x), ToWord(y)) == ToWord(x) as int + ToWord(y)
  {
    hide Or, Either;
    SumOfDisjoint(x.b0, y.b0);
    SumOfDisjoint(x.b1, y.b1);
    SumOfDisjoint(x.b2, y.b2);
    SumOfDisjoint(x.b3, y.b3);
    OrDisjointBytes(x.b0, x.b1, x.b2, x.b3, y.b0, y.b1, y.b2, y.b3);
  }

  /** The kept and the moved bytes of a mask round never meet. */
  lemma MaskRoundDisjoint(k: Flags, t: Flags, x: u32, v: u32, m: int)
    requires -3 <= m <= 3 && Vacant(k, Moved(t, BytesOf(v), m))
    ensures var a, b := And(FlagMask(k), x), MoveBytes(And(FlagMask(t), v), m);
            DigitsAdd(a, b) && Or(a, b) == a as int + b
  {
    hide And, Or, MoveBytes, Moved, Byte0, Byte1, Byte2, Byte3, DigitsAdd, Word, MaskOf;
    WordOfBytes(x);
    WordOfBytes(v);
    TakenBytes(t, BytesOf(v), m);
    MaskBytes(k.f0, k.f1, k.f2, k.f3, Byte0(x), Byte1(x), Byte2(x), Byte3(x));
    var kept := Bytes(Kept(k.f0, Byte0(x)), Kept(k.f1, Byte1(x)), Kept(k.f2, Byte2(x)), Kept(k.f3, Byte3(x)));
    DisjointDigitsAdd(kept, Moved(t, BytesOf(v), m));
    DisjointWordsAdd(kept, Moved(t, BytesOf(v), m));
  }

  lemma Round1Disjoint(op: StoreOp, alignment: nat, x: u32, v: u32)
    requires MaskRound1(op, alignment).Some?
    ensures var mask := MaskRound1(op, alignment).value;
            var a, b := And(mask.keep, x), MoveBytes(And(mask.take, v), mask.move);
            DigitsAdd(a, b) && Or(a, b) == a as int + b
  {
    hide And, Or, MoveBytes, FlagMask, Byte0, Byte1, Byte2, Byte3, DigitsAdd;
    Masks1AreFlags(op, alignment);
    var (k, t) := FlagsRound1(op, alignment);
    MaskRoundDisjoint(k, t, x, v, MaskRound1(op, alignment).value.move);
  }

  lemma Round2Disjoint(op: StoreOp, alignment: nat, x: u32, v: u32)
    requires MaskRound2(op, alignment).Some?
    ensures var mask := MaskRound2(op, alignment).value;
            var a, b := And(mask.keep, x), MoveBytes(And(mask.take, v), mask.move);
            DigitsAdd(a, b) && Or(a, b) == a as int + b
  {
    hide And, Or, MoveBytes, FlagMask, Byte0, Byte1, Byte2, Byte3, DigitsAdd;
    Masks2AreFlags(op, alignment);
    var (k, t) := FlagsRound2(op, alignment);
    MaskRoundDisjoint(k, t, x, v, MaskRound2(op, alignment).value.move);
  }

  // ---------------------------------------------------------------- stores

  /** The keep masks of the scripts are the emulator's. */
  lemma KeepMasksAgree(op: StoreOp, alignment: nat, round: nat)
    requires alignment < 4 && (round == 1 || round == 2)
    ensures var mask := if round == 1 then MaskRound1(op, alignment) else MaskRound2(op, alignment);
            mask.Some? ==> AlignmentTable(op, round).Some?
                           && 15 * AlignmentTable(op, round).value[alignment] == mask.value.keep
  {
  }

  lemma TakeMasksAgree(op: StoreOp, alignment: nat, round: nat)
    requires alignment < 4 && (round == 1 || round == 2)
    ensures var mask := if round == 1 then MaskRound1(op, alignment) else MaskRound2(op, alignment);
            mask.Some? ==> AlignmentTable2(op, round).Some?
                           && 15 * AlignmentTable2(op, round).value[alignment] == mask.value.take
                           && mask.value.move == if round == 1 then alignment else alignment - 4
  {
  }

  lemma ZeroBytes()
    ensures ToWord(Bytes(0, 0, 0, 0)) == 0
  {
  }

  /** The taken bytes lie where a shift in one direction loses nothing: rotating is moving. */
  lemma RotationMoves(t: Flags, v: u32, alignment: nat, m: int)
    requires alignment < 4 && (m == alignment || m == alignment - 4) && m >= -3
    requires m == alignment && alignment != 0 ==> Moved(t, BytesOf(v), alignment - 4) == Bytes(0, 0, 0, 0)
    requires m == alignment - 4 ==> Moved(t, BytesOf(v), alignment) == Bytes(0, 0, 0, 0)
    ensures Rotated(And(FlagMask(t), v), alignment) == MoveBytes(And(FlagMask(t), v), m)
  {
    hide And, MoveBytes, Moved, Byte0, Byte1, Byte2, Byte3, MaskOf, ToWord;
    WordOfBytes(v);
    assert ToWord(BytesOf(v)) == v by { BytesMakeWord(v); }
    TakenBytes(t, BytesOf(v), alignment);
    if alignment != 0 { TakenBytes(t, BytesOf(v), alignment - 4); }
    ZeroBytes();
    NothingMoves(And(FlagMask(t), v));
  }

  lemma BytesMakeWord(v: u32)
    ensures ToWord(BytesOf(v)) == v
  {
    WordOfBytes(v);
  }

  lemma NothingMoves(w: u32)
    ensures MoveBytes(w, -4) == 0
  {
  }

  lemma TakenFlagsMove(op: StoreOp, alignment: nat, round: nat, v: u32)
    requires alignment < 4 && (round == 1 || round == 2)
    requires (if round == 1 then MaskRound1(op, alignment) else MaskRound2(op, alignment)).Some?
    ensures var t := if round == 1 then FlagsRound1(op, alignment).1 else FlagsRound2(op, alignment).1;
            && (round == 1 && alignment != 0 ==> Moved(t, BytesOf(v), alignment - 4) == Bytes(0, 0, 0, 0))
            && (round == 2 ==> Moved(t, BytesOf(v), alignment) == Bytes(0, 0, 0, 0))
  {
    hide Byte0, Byte1, Byte2, Byte3;
  }

  lemma RotationAgrees(op: StoreOp, alignment: nat, round: nat, v: u32)
    requires alignment < 4 && (round == 1 || round == 2)
    ensures var mask := if round == 1 then MaskRound1(op, alignment) else MaskRound2(op, alignment);
            mask.Some? ==> AlignmentTable2(op, round).Some?
                           && Rotated(Masked(AlignmentTable2(op, round).value[alignment], v), alignment)
                              == MoveBytes(And(mask.value.take, v), mask.value.move)
  {
    hide And, MoveBytes, Moved, Rotated, FlagMask, BytesOf, FlagsRound1, FlagsRound2;
    var mask := if round == 1 then MaskRound1(op, alignment) else MaskRound2(op, alignment);
    if mask.Some? {
      TakeMasksAgree(op, alignment, round);
      if round == 1 { Masks1AreFlags(op, alignment); } else { Masks2AreFlags(op, alignment); }
      var t := if round == 1 then FlagsRound1(op, alignment).1 else FlagsRound2(op, alignment).1;
      TakenFlagsMove(op, alignment, round, v);
      RotationMoves(t, v, alignment, mask.value.move);
    }
  }

  lemma SmallSum(a: u32, b: u32)
    requires Or(a, b) == a as int + b
    ensures Wrap(a + b) == Or32(a, b)
  {
    hide Or;
    var c: u32 := Or32(a, b);
  }

  ghost predicate SumIsOr(x: u32, y: u32)
  {
    DigitsAdd(x, y) && Wrap(x + y) == Or32(x, y)
  }

  /** The sum without carries that micro-steps 2 and 6 of a store use is the OR of the emulator. */
  lemma MergeAgrees(op: StoreOp, alignment: nat, first: bool, kept: u32, v: u32, taken: u32)
    requires var mask := if first then MaskRound1(op, alignment) else MaskRound2(op, alignment);
             HoldsKept(mask, kept) && HoldsTaken(mask, v, taken)
    ensures SumIsOr(kept, taken)
  {
    hide And, Or, Or32, MoveBytes, MaskRound1, MaskRound2, DigitsAdd, Wrap;
    var mask := if first then MaskRound1(op, alignment) else MaskRound2(op, alignment);
    var x: u32 :| kept == And(mask.value.keep, x);
    if first {
      Round1Disjoint(op, alignment, x, v);
    } else {
      Round2Disjoint(op, alignment, x, v);
    }
    SmallSum(kept, taken);
  }

  /** On words, the script recomputes the traced write and next program counter from the traced reads. */
  ghost predicate Recomputes(m: State, i: Instruction, opcode: u32, e: Effect)
    requires Valid(m) && m.base % 256 == 0 && Possible(m, e) && m.step < LAST_STEP_INIT
  {
    var t := TraceOf(m, opcode, e);
    ScriptOutcome(i, ReadOf(t), t.traceStep.write1.value, HintOf(t), m.base) == Some(t.traceStep)
  }

  /** An aligned word store writes at once. */
  lemma StoreAlignedAgrees(m: State, rs1: Reg, rs2: Reg, imm: u32, opcode: u32, e: Effect)
    requires Valid(m) && m.base % 256 == 0 && m.step < LAST_STEP_INIT && m.pc.micro == 0 && Wrap(m.regs[rs1] + imm) % 4 == 0
    requires StoreOutcome(m, Sw, rs1, rs2, imm) == Does(e) && Possible(m, e)
    ensures Recomputes(m, Store(Sw, rs1, rs2, imm), opcode, e)
  {
    hide And, MaskRound1, MaskRound2, AlignmentTable, Ordered, ReadMem, WriteMem, Wrap;
  }

  /** Any other store first saves the kept bytes of the memory word. */
  lemma StoreFirstAgrees(m: State, op: StoreOp, rs1: Reg, rs2: Reg, imm: u32, opcode: u32, e: Effect)
    requires Valid(m) && m.base % 256 == 0 && m.step < LAST_STEP_INIT && m.pc.micro == 0
    requires op != Sw || Wrap(m.regs[rs1] + imm) % 4 != 0
    requires StoreOutcome(m, op, rs1, rs2, imm) == Does(e) && Possible(m, e)
    ensures Recomputes(m, Store(op, rs1, rs2, imm), opcode, e)
  {
    hide And, MaskRound1, AlignmentTable, Ordered, ReadMem, WriteMem, Wrap, WitnessByte, LastStepOf, FindSection;
    KeepMasksAgree(op, Wrap(m.regs[rs1] + imm) % 4, 1);
  }

  /** So does the second round of a store into two words. */
  lemma StoreFifthAgrees(m: State, op: StoreOp, rs1: Reg, rs2: Reg, imm: u32, opcode: u32, e: Effect)
    requires Valid(m) && m.base % 256 == 0 && m.step < LAST_STEP_INIT && m.pc.micro == 4
    requires StoreOutcome(m, op, rs1, rs2, imm) == Does(e) && Possible(m, e)
    ensures Recomputes(m, Store(op, rs1, rs2, imm), opcode, e)
  {
    hide And, MaskRound2, AlignmentTable, Ordered, ReadMem, WriteMem, Wrap, WitnessByte, LastStepOf, FindSection;
    KeepMasksAgree(op, Wrap(m.regs[rs1] + imm) % 4, 2);
  }

  lemma StoreSecondAgrees(m: State, op: StoreOp, rs1: Reg, rs2: Reg, imm: u32, opcode: u32, e: Effect)
    requires Valid(m) && m.base % 256 == 0 && m.step < LAST_STEP_INIT && (m.pc.micro == 1 || m.pc.micro == 5)
    requires StoreOutcome(m, op, rs1, rs2, imm) == Does(e) && Possible(m, e)
    ensures Recomputes(m, Store(op, rs1, rs2, imm), opcode, e)
  {
    hide And, MoveBytes, MaskRound1, MaskRound2, AlignmentTable2, Rotated, Masked, Ordered, ReadMem, Wrap;
    RotationAgrees(op, Wrap(m.regs[rs1] + imm) % 4, if m.pc.micro == 1 then 1 else 2, m.regs[rs2]);
    WrapKeeps(e.write.value);
  }

  lemma StoreThirdAgrees(m: State, op: StoreOp, rs1: Reg, rs2: Reg, imm: u32, opcode: u32, e: Effect)
    requires Valid(m) && m.base % 256 == 0 && m.step < LAST_STEP_INIT && (m.pc.micro == 2 || m.pc.micro == 6)
    requires ScratchReady(m, Store(op, rs1, rs2, imm))
    requires StoreOutcome(m, op, rs1, rs2, imm) == Does(e) && Possible(m, e)
    ensures Recomputes(m, Store(op, rs1, rs2, imm), opcode, e)
  {
    hide Or32, DigitsAdd, Ordered, Wrap, MaskRound1, MaskRound2, HoldsKept, HoldsTaken;
    MergeAgrees(op, Wrap(m.regs[rs1] + imm) % 4, m.pc.micro == 2, m.regs[AUX1], m.regs[rs2], m.regs[AUX2]);
  }

  lemma StoreLastAgrees(m: State, op: StoreOp, rs1: Reg, rs2: Reg, imm: u32, opcode: u32, e: Effect)
    requires Valid(m) && m.base % 256 == 0 && m.step < LAST_STEP_INIT && (m.pc.micro == 3 || m.pc.micro == 7)
    requires StoreOutcome(m, op, rs1, rs2, imm) == Does(e) && Possible(m, e)
    ensures Recomputes(m, Store(op, rs1, rs2, imm), opcode, e)
  {
    hide Ordered, WriteMem, Wrap;
  }

  lemma StoreAgrees(m: State, op: StoreOp, rs1: Reg, rs2: Reg, imm: u32, opcode: u32, e: Effect)
    requires Valid(m) && m.base % 256 == 0 && m.step < LAST_STEP_INIT && m.pc.micro <= 7
    requires StoreOutcome(m, op, rs1, rs2, imm) == Does(e) && Possible(m, e) && ScratchReady(m, Store(op, rs1, rs2, imm))
    ensures Recomputes(m, Store(op, rs1, rs2, imm), opcode, e)
  {
    hide StoreOutcome, Ordered, Possible, ScratchReady, Recomputes, Wrap;
    if m.pc.micro == 0 && op == Sw && Wrap(m.regs[rs1] + imm) % 4 == 0 {
      StoreAlignedAgrees(m, rs1, rs2, imm, opcode, e);
    } else if m.pc.micro == 0 {
      StoreFirstAgrees(m, op, rs1, rs2, imm, opcode, e);
    } else if m.pc.micro == 4 {
      StoreFifthAgrees(m, op, rs1, rs2, imm, opcode, e);
    } else if m.pc.micro == 1 || m.pc.micro == 5 {
      StoreSecondAgrees(m, op, rs1, rs2, imm, opcode, e);
    } else if m.pc.micro == 2 || m.pc.micro == 6 {
      StoreThirdAgrees(m, op, rs1, rs2, imm, opcode, e);
    } else {
      StoreLastAgrees(m, op, rs1, rs2, imm, opcode, e);
    }
  }

  // ---------------------------------------------------------------- loads

  lemma Pow2OfBytes()
    ensures Pow2(0) == 1 && Pow2(8) == 256 && Pow2(16) == 65536 && Pow2(24) == 16777216 && Pow2(32) == 0x1_0000_0000
  {
    Pow2Of8();
    Pow2Add(8, 8);
    Pow2Add(8, 16);
    Pow2Of32();
  }

  /** The bytes of a word from `alignment` on, then zeros. */
  function Dropped(x: u32, alignment: nat): Bytes
  {
    Bytes(ByteOf(x, alignment), ByteOf(x, alignment + 1), ByteOf(x, alignment + 2), ByteOf(x, alignment + 3))
  }

  lemma DropBytes(x: u32, alignment: nat)
    requires alignment < 4
    ensures x / Pow2(8 * alignment) == ToWord(Dropped(x, alignment))
  {
    hide Word, Pow2, Byte0, Byte1, Byte2, Byte3;
    Pow2OfBytes();
    MovedDown(Byte0(x), Byte1(x), Byte2(x), Byte3(x));
    WordOfBytes(x);
    if alignment == 0 {
      assert x / 1 == x;
    } else if alignment == 1 {
      assert x / 256 == MoveBytes(x, -1);
    } else if alignment == 2 {
      assert x / 65536 == MoveBytes(x, -2);
    } else {
      assert x / 16777216 == MoveBytes(x, -3);
    }
  }

  lemma LowBytes(b: Bytes)
    ensures ToWord(b) % 256 == b.b0 && ToWord(b) % 65536 == b.b0 + 256 * b.b1 && ToWord(b) % 0x1_0000_0000 == ToWord(b)
  {
    assert ToWord(b) == b.b0 + 256 * b.b1 + 65536 * (b.b2 + 256 * b.b3);
  }

  lemma ChosenBytes1(op: LoadOp, alignment: nat, x: u32)
    requires alignment < 4
    ensures var b := Dropped(x, alignment);
            Picked(ChoiceRound1(op), x, alignment)
            == match op
               case Lb | Lbu => b.b0 as int
               case Lh | Lhu => b.b0 + 256 * b.b1
               case Lw => ToWord(b)
  {
    hide Pow2, ToWord, Dropped;
    Pow2OfBytes();
    DropBytes(x, alignment);
    LowBytes(Dropped(x, alignment));
  }

  /** The first pick of a load is the emulator's mask, move and extension. */
  lemma Choice1Agrees(op: LoadOp, alignment: nat, x: u32)
    requires alignment < 4 && LoadMaskRound1(op, alignment).Some?
    ensures Chosen(ChoiceRound1(op), x, alignment) == LoadedPart(op, LoadMaskRound1(op, alignment).value, x)
  {
    hide And, Or, Or32, MoveBytes, Word, SignExtension, Byte0, Byte1, Byte2, Byte3, Picked, Pow2, LoadMaskRound1;
    Pow2OfBytes();
    ChosenBytes1(op, alignment, x);
    MovedPart1(op, alignment, x);
    var b := Dropped(x, alignment);
    match op {
      case Lb => SignExtendedByte(b.b0);
      case Lh => SignExtendedHalf(b.b0, b.b1); HalfWords(b.b0, b.b1);
      case _ => UnsignedIsPlain(op, b); PlainWords(b);
    }
  }

  lemma PlainWords(b: Bytes)
    ensures Wrap(b.b0) == b.b0 && Wrap(b.b0 + 256 * b.b1) == b.b0 + 256 * b.b1 && Wrap(ToWord(b)) == ToWord(b)
  {
  }

  lemma ChosenBytes2(op: LoadOp, alignment: nat, y: u32)
    requires LoadMaskRound2(op, alignment).Some?
    ensures ChoiceRound2(op).Some?
    ensures Picked(ChoiceRound2(op).value, y, alignment)
            == if op == Lw then MoveBytes(y, 4 - alignment) else 256 * Byte0(y)
  {
    hide Byte0;
    Pow2OfBytes();
    LiftedQuotients(y);
  }

  lemma LiftedQuotients(y: u32)
    ensures y * 0x1_0000_0000 / 16777216 == y * 256
    ensures y * 0x1_0000_0000 / 65536 == y * 65536
    ensures y * 0x1_0000_0000 / 256 == y * 16777216
    ensures y * 256 % 65536 == 256 * Byte0(y)
  {
  }

  /** The second pick of a load is the emulator's mask, move and extension of the next word. */
  lemma Choice2Agrees(op: LoadOp, alignment: nat, y: u32)
    requires LoadMaskRound2(op, alignment).Some?
    ensures ChoiceRound2(op).Some?
    ensures Chosen(ChoiceRound2(op).value, y, alignment) == LoadedPart(op, LoadMaskRound2(op, alignment).value, y)
  {
    hide And, Or, Or32, MoveBytes, Word, SignExtension, Byte0, Byte1, Byte2, Byte3, Picked, Pow2;
    Pow2OfBytes();
    ChosenBytes2(op, alignment, y);
    MovedPart2(op, alignment, y);
    var lo := Byte0(y);
    match op {
      case Lw =>
        WordOfBytes(y);
        MovedUp(Byte0(y), Byte1(y), Byte2(y), Byte3(y));
        UnsignedIsPlain(op, BytesOf(y));
        PlainWords(BytesOf(MoveBytes(y, 4 - alignment)));
        BytesMakeWord(MoveBytes(y, 4 - alignment));
      case Lh => SignExtendedHalf(0, lo); HalfWords(0, lo);
      case Lhu => UnsignedIsPlain(op, Bytes(0, lo, 0, 0)); PlainWords(Bytes(0, lo, 0, 0));
      case _ =>
    }
  }

  lemma LoadAgrees(m: State, op: LoadOp, rd: Reg, rs1: Reg, imm: u32, opcode: u32, e: Effect)
    requires Valid(m) && m.base % 256 == 0 && m.step < LAST_STEP_INIT && MicroOk(m, Load(op, rd, rs1, imm))
    requires LoadOutcome(m, op, rd, rs1, imm) == Does(e) && Possible(m, e)
    ensures Recomputes(m, Load(op, rd, rs1, imm), opcode, e)
  {
    hide And, Or, Or32, MoveBytes, LoadMaskRound1, LoadMaskRound2, SignExtension, Chosen, Ordered, ReadMem, Wrap, WitnessByte;
    if rd != 0 && m.pc.micro == 0 {
      LoadFirstAgrees(m, op, rd, rs1, imm, opcode, e);
    } else if rd != 0 && m.pc.micro == 1 {
      LoadSecondAgrees(m, op, rd, rs1, imm, opcode, e);
    }
  }

  lemma OneWordLoads(op: LoadOp, alignment: nat)
    requires alignment < 4
    ensures LoadReads(op, alignment) == 1 <==> alignment < AlignedIfLessThan(op)
  {
  }

  /** The first micro-step of a load, in the terms of its script. */
  lemma LoadFirstEffect(m: State, op: LoadOp, rd: Reg, rs1: Reg, imm: u32, e: Effect)
    requires Valid(m) && m.pc.micro == 0 && rd != 0 && LoadOutcome(m, op, rd, rs1, imm) == Does(e)
    ensures var address := Wrap(m.regs[rs1] + imm);
            var word := ReadMem(m.sections, AlignedPart(address));
            var last := address % 4 < AlignedIfLessThan(op);
            && word.Ok? && e.read1 == AtReg(rs1) && e.read2 == AtMem(AlignedPart(address))
            && e.write == ToReg(if last then rd else AUX1, Chosen(ChoiceRound1(op), word.value, address % 4))
            && e.next == if last then NextAddress(m.pc) else NextMicro(m.pc)
  {
    hide And, Or32, MoveBytes, LoadMaskRound1, LoadMaskRound2, SignExtension, Chosen, Ordered, ReadMem, Wrap, LoadReads,
         AlignedIfLessThan, ChoiceRound1, NextAddress, NextMicro;
    var address := Wrap(m.regs[rs1] + imm);
    OneWordLoads(op, address % 4);
    Choice1Agrees(op, address % 4, ReadMem(m.sections, AlignedPart(address)).value);
  }

  lemma LoadFirstAgrees(m: State, op: LoadOp, rd: Reg, rs1: Reg, imm: u32, opcode: u32, e: Effect)
    requires Valid(m) && m.base % 256 == 0 && m.step < LAST_STEP_INIT && m.pc.micro == 0 && rd != 0
    requires LoadOutcome(m, op, rd, rs1, imm) == Does(e) && Possible(m, e)
    ensures Recomputes(m, Load(op, rd, rs1, imm), opcode, e)
  {
    hide LoadOutcome, Chosen, Ordered, ReadMem, Wrap, WitnessByte, LoadReads, AlignedIfLessThan, AlignedPart, ChoiceRound1,
         ChoiceRound2, LoadMicro1, LoadMicro2, LoadMicro3, LastStepOf, FindSection;
    LoadFirstEffect(m, op, rd, rs1, imm, e);
  }

  lemma LoadSecondAgrees(m: State, op: LoadOp, rd: Reg, rs1: Reg, imm: u32, opcode: u32, e: Effect)
    requires Valid(m) && m.base % 256 == 0 && m.step < LAST_STEP_INIT && m.pc.micro == 1 && rd != 0
    requires MicroOk(m, Load(op, rd, rs1, imm))
    requires LoadOutcome(m, op, rd, rs1, imm) == Does(e) && Possible(m, e)
    ensures Recomputes(m, Load(op, rd, rs1, imm), opcode, e)
  {
    hide And, Or32, MoveBytes, LoadMaskRound2, SignExtension, Chosen, Ordered, ReadMem, Wrap, WitnessByte;
    var address := Wrap(m.regs[rs1] + imm);
    var aligned: int := address - address % 4;
    Choice2Agrees(op, address % 4, ReadMem(m.sections, Wrap(aligned + 4)).value);
  }

  // ---------------------------------------------------------------- every instruction

  /** The steps that no script accepts: a halt whose exit code is not zero, and a signed division
      with a zero quotient whose divisor and dividend differ in sign. */
  ghost predicate Refused(m: State, i: Instruction)
    requires Valid(m)
  {
    || (i.Ecall? && m.regs[REGISTER_A7] == 93 && m.regs[REGISTER_A0] != 0)
    || (i.Arith? && i.rd != 0 && (i.arith == Div || i.arith == Rem) && !FixedDivisor(i.arith, m.regs[i.rs2])
        && ZeroQuotientOfOppositeSigns(m.regs[i.rs1], m.regs[i.rs2]))
  }

  predicate IsMultiplication(op: ArithOp)
  {
    op == Mul || op == Mulh || op == Mulhsu || op == Mulhu
  }

  /** The digit script is specified for the operands of a step: its immediate is encodable, and a
      multiplication stays inside the tables. Divisions always do. */
  ghost predicate OperandsFit(m: State, i: Instruction)
    requires Valid(m)
  {
    && Encodable(i)
    && (i.Arith? && i.rd != 0 && IsMultiplication(i.arith) ==> S.InTables(i.arith, m.regs[i.rs1], m.regs[i.rs2], 0, 0))
  }

  lemma OwnTables(op: ArithOp, x: u32, y: u32)
    ensures var value, hint := ArithValue(op, x, y), if ArithHint(op, x, y).Some? then ArithHint(op, x, y).value else 0;
            S.InTables(op, x, y, value, hint) <==> (IsMultiplication(op) ==> S.InTables(op, x, y, 0, 0))
  {
    hide ArithValue, ArithHint, P.ColumnsFit, P.Columns, SignedProduct.Magnitude, NibblesOf;
    if !IsMultiplication(op) { S.HonestOperandsStayInTables(op, x, y); }
  }

  lemma OwnStepIsDecided(m: State, i: Instruction, opcode: u32, e: Effect)
    requires Valid(m) && m.step < LAST_STEP_INIT && InstructionOutcome(m, i) == Does(e) && Possible(m, e)
    ensures Decided(i, TraceOf(m, opcode, e)) <==> OperandsFit(m, i)
  {
    hide Ordered, ReadMem, WriteMem, ArithValue, ArithHint, S.InTables, S.IsShort;
    match i {
      case Arith(op, rd, rs1, rs2) => OwnTables(op, m.regs[rs1], m.regs[rs2]);
      case _ =>
    }
  }

  lemma DivisionAgrees(m: State, op: ArithOp, rd: Reg, rs1: Reg, rs2: Reg, opcode: u32, e: Effect)
    requires Valid(m) && m.base % 256 == 0 && m.step < LAST_STEP_INIT && IsDivision(op)
    requires InstructionOutcome(m, Arith(op, rd, rs1, rs2)) == Does(e) && Possible(m, e) && rd != 0
    ensures Recomputes(m, Arith(op, rd, rs1, rs2), opcode, e) <==> !Refused(m, Arith(op, rd, rs1, rs2))
  {
    hide Ordered, ReadMem, DivisionAccepted, ArithValue, ArithHint, ZeroQuotientOfOppositeSigns, P.ColumnsFit, P.Columns, NibblesOf;
    if !FixedDivisor(op, m.regs[rs2]) { OwnDivision(op, m.regs[rs1], m.regs[rs2]); }
  }

  /** The check of a division on the emulator's own pair. */
  lemma OwnDivision(op: ArithOp, x: u32, y: u32)
    requires IsDivision(op) && !FixedDivisor(op, y)
    ensures ArithHint(op, x, y).Some?
    ensures DivisionAccepted(op, x, y, ArithValue(op, x, y), ArithHint(op, x, y).value)
            <==> !((op == Div || op == Rem) && ZeroQuotientOfOppositeSigns(x, y))
  {
    hide ArithValue, ArithHint, ZeroQuotientOfOppositeSigns, Accepted, SignedAccepted, P.ColumnsFit, P.Columns, NibblesOf;
    if op == Divu || op == Remu { HonestDivisionPasses(op, x, y); } else { HonestSignedDivision(op, x, y); }
  }

  /** Every step of a legal state is accepted by its digit script exactly when its operands stay
      inside the tables and it is none of the refused steps. */
  lemma StepAgrees(m: State, i: Instruction, opcode: u32, e: Effect)
    requires Valid(m) && m.base % 256 == 0 && m.step < LAST_STEP_INIT && MicroOk(m, i) && ScratchReady(m, i)
    requires InstructionOutcome(m, i) == Does(e) && Possible(m, e)
    ensures Accepts(i, TraceOf(m, opcode, e), m.base) <==> OperandsFit(m, i) && !Refused(m, i)
  {
    hide Decided, OperandsFit, ScriptOutcome;
    OwnStepIsDecided(m, i, opcode, e);
    match i {
      case Store(op, rs1, rs2, imm) => StoreAgrees(m, op, rs1, rs2, imm, opcode, e);
      case Load(op, rd, rs1, imm) => LoadAgrees(m, op, rd, rs1, imm, opcode, e);
      case Arith(op, rd, rs1, rs2) =>
        if rd != 0 && IsDivision(op) {
          DivisionAgrees(m, op, rd, rs1, rs2, opcode, e);
        } else {
          PlainStepAgrees(m, i, opcode, e);
        }
      case _ => PlainStepAgrees(m, i, opcode, e);
    }
  }

  lemma PlainAgrees(m: State, i: Instruction, opcode: u32, e: Effect)
    requires Valid(m) && m.base % 256 == 0 && m.step < LAST_STEP_INIT && m.pc.micro == 0
    requires InstructionOutcome(m, i) == Does(e) && Possible(m, e)
    requires i.Ebreak? || i.Fence? || i.NotImplemented? || i.Upper?
    ensures Recomputes(m, i, opcode, e) <==> !Refused(m, i)
  {
    hide Ordered, ReadMem, WriteMem, LastStepOf, FindSection, ArithValue, ArithHint, CompareValue, ShiftImmValue, ArithImmValue,
         Condition, Wrap, ZeroQuotientOfOppositeSigns, DivisionAccepted, WitnessByte, StoreScript, LoadScript, StoreOutcome,
         LoadOutcome;
  }

  lemma EcallAgrees(m: State, i: Instruction, opcode: u32, e: Effect)
    requires Valid(m) && m.base % 256 == 0 && m.step < LAST_STEP_INIT && m.pc.micro == 0
    requires InstructionOutcome(m, i) == Does(e) && Possible(m, e)
    requires i.Ecall?
    ensures Recomputes(m, i, opcode, e) <==> !Refused(m, i)
  {
    hide Ordered, ReadMem, WriteMem, LastStepOf, FindSection, ArithValue, ArithHint, CompareValue, ShiftImmValue, ArithImmValue,
         Condition, Wrap, ZeroQuotientOfOppositeSigns, DivisionAccepted, WitnessByte, StoreScript, LoadScript, StoreOutcome,
         LoadOutcome;
  }

  lemma JumpAgrees(m: State, i: Instruction, opcode: u32, e: Effect)
    requires Valid(m) && m.base % 256 == 0 && m.step < LAST_STEP_INIT && m.pc.micro == 0
    requires InstructionOutcome(m, i) == Does(e) && Possible(m, e)
    requires i.Jal? || i.Jalr?
    ensures Recomputes(m, i, opcode, e) <==> !Refused(m, i)
  {
    hide Ordered, ReadMem, WriteMem, LastStepOf, FindSection, ArithValue, ArithHint, CompareValue, ShiftImmValue, ArithImmValue,
         Condition, Wrap, ZeroQuotientOfOppositeSigns, DivisionAccepted, WitnessByte, StoreScript, LoadScript, StoreOutcome,
         LoadOutcome;
  }

  lemma BranchAgrees(m: State, i: Instruction, opcode: u32, e: Effect)
    requires Valid(m) && m.base % 256 == 0 && m.step < LAST_STEP_INIT && m.pc.micro == 0
    requires InstructionOutcome(m, i) == Does(e) && Possible(m, e)
    requires i.Branch?
    ensures Recomputes(m, i, opcode, e) <==> !Refused(m, i)
  {
    hide Ordered, ReadMem, WriteMem, LastStepOf, FindSection, ArithValue, ArithHint, CompareValue, ShiftImmValue, ArithImmValue,
         Condition, Wrap, ZeroQuotientOfOppositeSigns, DivisionAccepted, WitnessByte, StoreScript, LoadScript, StoreOutcome,
         LoadOutcome;
  }

  /** A result computed from two registers. */
  lemma RegisterAgrees(m: State, i: Instruction, opcode: u32, e: Effect)
    requires Valid(m) && m.base % 256 == 0 && m.step < LAST_STEP_INIT && m.pc.micro == 0
    requires InstructionOutcome(m, i) == Does(e) && Possible(m, e)
    requires (i.Arith? && (i.rd == 0 || !IsDivision(i.arith))) || i.Compare?
    ensures Recomputes(m, i, opcode, e) <==> !Refused(m, i)
  {
    hide Ordered, ReadMem, WriteMem, LastStepOf, FindSection, ArithValue, ArithHint, CompareValue, ShiftImmValue, ArithImmValue,
         Condition, Wrap, ZeroQuotientOfOppositeSigns, DivisionAccepted, WitnessByte, StoreScript, LoadScript, StoreOutcome,
         LoadOutcome;
  }

  /** A result computed from a register and an immediate. */
  lemma ImmediateAgrees(m: State, i: Instruction, opcode: u32, e: Effect)
    requires Valid(m) && m.base % 256 == 0 && m.step < LAST_STEP_INIT && m.pc.micro == 0
    requires InstructionOutcome(m, i) == Does(e) && Possible(m, e)
    requires i.ArithImm? || i.ShiftImm? || i.CompareImm?
    ensures Recomputes(m, i, opcode, e) <==> !Refused(m, i)
  {
    hide Ordered, ReadMem, WriteMem, LastStepOf, FindSection, ArithValue, ArithHint, CompareValue, ShiftImmValue, ArithImmValue,
         Condition, Wrap, ZeroQuotientOfOppositeSigns, DivisionAccepted, WitnessByte, StoreScript, LoadScript, StoreOutcome,
         LoadOutcome, EcallScript, JalScript, JalrScript, BranchScript, RegisterScript, DivisionScript, UpperScript;
  }

  lemma PlainStepAgrees(m: State, i: Instruction, opcode: u32, e: Effect)
    requires Valid(m) && m.base % 256 == 0 && m.step < LAST_STEP_INIT && m.pc.micro == 0 && !i.Load? && !i.Store?
    requires i.Arith? ==> i.rd == 0 || !IsDivision(i.arith)
    requires InstructionOutcome(m, i) == Does(e) && Possible(m, e)
    ensures Recomputes(m, i, opcode, e) <==> !Refused(m, i)
  {
    hide Valid, Possible, InstructionOutcome, Recomputes, Refused;
    if i.Ecall? {
      EcallAgrees(m, i, opcode, e);
    } else if i.Jal? || i.Jalr? {
      JumpAgrees(m, i, opcode, e);
    } else if i.Branch? {
      BranchAgrees(m, i, opcode, e);
    } else if i.Arith? || i.Compare? {
      RegisterAgrees(m, i, opcode, e);
    } else if i.ArithImm? || i.ShiftImm? || i.CompareImm? {
      ImmediateAgrees(m, i, opcode, e);
    } else {
      PlainAgrees(m, i, opcode, e);
    }
  }

  /** The base address of the registers never moves. */
  lemma {:induction false} ReadyAlongRuns(ms: seq<State>, ts: seq<TraceRWStep>, decode: Decoder, hf: Hasher, n: nat)
    requires IsRun(ms, ts, decode, hf) && n < |ms| && ms[0].pc.micro == 0
    requires forall k :: 0 <= k < |ms| ==> Valid(ms[k]) && Fetched(ms[k], decode).Some?
    ensures ms[n].base == ms[0].base && Executing(ms[n], decode)
    ensures ScratchReady(ms[n], Fetched(ms[n], decode).value)
  {
    hide Tick, Valid, Fetched, InstructionOutcome, MicroOk, Fresh, Executing, ScratchReady, SamePlaces;
    RunsStayExecuting(ms, ts, decode, hf, n);
    if n == 0 {
      FreshScratch(ms[0], Fetched(ms[0], decode).value);
    } else {
      ReadyAlongRuns(ms, ts, decode, hf, n - 1);
      RunStep(ms, ts, decode, hf, n - 1);
      ReadyNext(ms[n - 1], decode, hf);
    }
  }

  lemma FreshScratch(m: State, i: Instruction)
    requires Valid(m) && m.pc.micro == 0
    ensures ScratchReady(m, i)
  {
  }

  lemma SameScratch(m: State, m': State, i: Instruction)
    requires Valid(m) && Valid(m') && m'.regs == m.regs && m'.pc == m.pc && ScratchReady(m, i)
    ensures ScratchReady(m', i)
  {
  }

  lemma ReadyNext(m: State, decode: Decoder, hf: Hasher)
    requires Executing(m, decode) && m.step + 1 < LAST_STEP_INIT && Tick(m, decode, hf).Stepped?
    requires ScratchReady(m, Fetched(m, decode).value)
    ensures var m' := Tick(m, decode, hf).state;
            Valid(m') && m'.base == m.base && (Fetched(m', decode).Some? ==> ScratchReady(m', Fetched(m', decode).value))
  {
    hide InstructionOutcome, Ordered, WriteMem, ReadAt, Tick, Commit, TraceOf, Possible, FindSection, MicroOk, ScratchReady;
    var m1, opcode, e := EffectOfTick(m, decode, hf);
    var i := decode(opcode).value;
    SameMicroState(m, m1, i);
    SameScratch(m, m1, i);
    MicroAfter(m1, i, e);
    TickChangesOnlyItsTrace(m, decode, hf);
    CodeStays(m, decode, hf, m.pc.address);
    var m' := Tick(m, decode, hf).state;
    if Fetched(m', decode).Some? {
      if e.next.micro == 0 {
        FreshScratch(m', Fetched(m', decode).value);
      } else {
        ScratchAfter(m1, i, e);
        SameScratch(Commit(m1, e), m', i);
      }
    }
  }

  /** The digit script of the instruction at the program counter accepts the step's trace exactly
      when the operands stay inside the tables and the step is none of the refused ones. */
  lemma ReadyStepIsAccepted(m: State, decode: Decoder, hf: Hasher)
    requires Executing(m, decode) && m.step + 1 < LAST_STEP_INIT && Tick(m, decode, hf).Stepped?
    requires ScratchReady(m, Fetched(m, decode).value) && m.base % 256 == 0
    ensures Accepts(Fetched(m, decode).value, Tick(m, decode, hf).trace, m.base)
            <==> OperandsFit(m, Fetched(m, decode).value) && !Refused(m, Fetched(m, decode).value)
    ensures Decided(Fetched(m, decode).value, Tick(m, decode, hf).trace) <==> OperandsFit(m, Fetched(m, decode).value)
  {
    hide Tick, Valid, InstructionOutcome, MicroOk, ScratchReady, Accepts, Decided, ReadMem, FindSection, Commit, TraceOf,
         Possible, Refused, OperandsFit;
    var m1, opcode, e := EffectOfTick(m, decode, hf);
    var i := decode(opcode).value;
    SameMicroState(m, m1, i);
    SameScratch(m, m1, i);
    SameOperands(m, m1, i);
    StepAgrees(m1, i, opcode, e);
    OwnStepIsDecided(m1, i, opcode, e);
  }

  lemma SameOperands(m: State, m': State, i: Instruction)
    requires Valid(m) && Valid(m') && m'.regs == m.regs
    ensures (Refused(m, i) <==> Refused(m', i)) && (OperandsFit(m, i) <==> OperandsFit(m', i))
  {
    hide S.InTables, ZeroQuotientOfOppositeSigns;
  }

  /** On every run that stays in decodable code, the digit script of each executed instruction
      accepts the step's trace exactly when the operands stay inside the tables and the step is
      none of the refused ones. */
  lemma RunsAreAccepted(ms: seq<State>, ts: seq<TraceRWStep>, decode: Decoder, hf: Hasher, n: nat)
    requires IsRun(ms, ts, decode, hf) && n < |ts| && ms[0].pc.micro == 0
    requires forall k :: 0 <= k < |ms| ==> Valid(ms[k]) && Fetched(ms[k], decode).Some?
    requires ms[0].base % 256 == 0
    ensures ms[n].base % 256 == 0
    ensures Accepts(Fetched(ms[n], decode).value, ts[n], ms[n].base)
            <==> OperandsFit(ms[n], Fetched(ms[n], decode).value) && !Refused(ms[n], Fetched(ms[n], decode).value)
  {
    hide Tick, Valid, Fresh, ScratchReady, Accepts, Decided, Executing, Fetched, Refused, OperandsFit;
    ReadyAlongRuns(ms, ts, decode, hf, n);
    RunStep(ms, ts, decode, hf, n);
    ReadyStepIsAccepted(ms[n], decode, hf);
  }

  /** Running the script of an executed step. */
  method VerifyStep(t: TraceRWStep, i: Instruction, base: RegisterBase, ghost m: State, ghost decode: Decoder, ghost hf: Hasher)
    returns (accepted: bool)
    requires Executing(m, decode) && m.step + 1 < LAST_STEP_INIT && Tick(m, decode, hf).Stepped?
    requires ScratchReady(m, Fetched(m, decode).value) && base == m.base
    requires i == Fetched(m, decode).value && t == Tick(m, decode, hf).trace && OperandsFit(m, i)
    ensures accepted <==> !Refused(m, i)
  {
    hide Tick, Valid, Fetched, ScratchReady, Accepts, Decided, Executing, Refused, OperandsFit;
    ReadyStepIsAccepted(m, decode, hf);
    accepted := Verify(i, t, base);
  }
}
