/** The emulator as a value: machine states, what each decoded instruction reads, writes and
    does next, and single steps with their traces. */
module Machine {
  import opened Bits
  import opened Options
  import opened Trace
  import opened SectionMemory
  import opened SectionIndex

  const REGISTERS := 34
  const REGISTER_ZERO := 0
  const REGISTER_A0 := 10
  const REGISTER_A7 := 17
  const AUX1 := 32
  const AUX2 := 33

  type Reg = x: nat | x < 32
  type RegIndex = x: nat | x < 34

  datatype BranchOp = Beq | Bne | Blt | Bge | Bltu | Bgeu
  datatype ArithOp = Mul | Mulh | Mulhsu | Mulhu | Div | Divu | Rem | Remu | Sub | XorOp | AndOp | OrOp | Add
  datatype CompareOp = Sll | Srl | Sra | Slt | Sltu
  datatype ShiftImmOp = Slli | Srli | Srai
  datatype ArithImmOp = Addi | Andi | Ori | Xori
  datatype StoreOp = Sb | Sh | Sw
  datatype LoadOp = Lb | Lh | Lw | Lbu | Lhu

  /** Decoded instructions; immediates are already sign-extended to a word. */
  datatype Instruction =
    | Ebreak | Fence | Ecall
    | Jal(rd: Reg, imm: u32)
    | Jalr(rd: Reg, rs1: Reg, imm: u32)
    | Arith(arith: ArithOp, rd: Reg, rs1: Reg, rs2: Reg)
    | Compare(compare: CompareOp, rd: Reg, rs1: Reg, rs2: Reg)
    | ShiftImm(shift: ShiftImmOp, rd: Reg, rs1: Reg, shamt: Reg)
    | CompareImm(unsigned: bool, rd: Reg, rs1: Reg, imm: u32)
    | Store(store: StoreOp, rs1: Reg, rs2: Reg, imm: u32)
    | Load(load: LoadOp, rd: Reg, rs1: Reg, imm: u32)
    | Upper(auipc: bool, rd: Reg, imm: u32)
    | Branch(branch: BranchOp, rs1: Reg, rs2: Reg, imm: u32)
    | ArithImm(arithImm: ArithImmOp, rd: Reg, rs1: Reg, imm: u32)
    | NotImplemented

  type Decoder = u32 -> Option<Instruction>

  // ---------------------------------------------------------------- word arithmetic

  function Wrap(x: int): u32
  {
    x % 0x1_0000_0000
  }

  function Signed(w: u32): int
  {
    if w < 0x8000_0000 then w else w - 0x1_0000_0000
  }

  /** Division of machine integers, which truncates toward zero. */
  function TruncDiv(a: int, b: int): int
    requires b != 0
  {
    if a >= 0 then a / b else -((-a) / b)
  }

  function TruncRem(a: int, b: int): int
    requires b != 0
  {
    a - b * TruncDiv(a, b)
  }

  function ArithValue(op: ArithOp, v1: u32, v2: u32): u32
  {
    match op
    case Mul => Wrap(v1 * v2)
    case Mulh => Wrap(Signed(v1) * Signed(v2) / 0x1_0000_0000)
    case Mulhsu => Wrap(Signed(v1) * v2 / 0x1_0000_0000)
    case Mulhu => Wrap(v1 * v2 / 0x1_0000_0000)
    case Div => if v2 == 0 then 0xFFFF_FFFF else if v2 == 0xFFFF_FFFF then v1
                else Wrap(TruncDiv(Signed(v1), Signed(v2)))
    case Divu => if v2 == 0 then 0xFFFF_FFFF else Wrap(v1 / v2)
    case Rem => if v2 == 0 then v1 else if v2 == 0xFFFF_FFFF then 0
                else Wrap(TruncRem(Signed(v1), Signed(v2)))
    case Remu => if v2 == 0 then v1 else Wrap(v1 % v2)
    case Sub => Wrap(v1 - v2)
    case XorOp => Xor32(v1, v2)
    case AndOp => And(v1, v2)
    case OrOp => Or32(v1, v2)
    case Add => Wrap(v1 + v2)
  }

  /** The other half of a division, which the prover supplies as a hint. */
  function ArithHint(op: ArithOp, v1: u32, v2: u32): Option<u32>
  {
    match op
    case Rem => Some(if v2 == 0 then 0xFFFF_FFFF else if v2 == 0xFFFF_FFFF then v1
                     else Wrap(TruncDiv(Signed(v1), Signed(v2))))
    case Div => Some(if v2 == 0 then v1 else if v2 == 0xFFFF_FFFF then 0
                     else Wrap(TruncRem(Signed(v1), Signed(v2))))
    case Remu => Some(if v2 == 0 then 0xFFFF_FFFF else Wrap(v1 / v2))
    case Divu => Some(if v2 == 0 then v1 else Wrap(v1 % v2))
    case _ => None
  }

  function CompareValue(op: CompareOp, v1: u32, v2: u32): u32
  {
    match op
    case Sll => Wrap(v1 * Pow2(v2 % 32))
    case Srl => Wrap(v1 / Pow2(v2 % 32))
    case Sra => Wrap(Signed(v1) / Pow2(v2 % 32))
    case Slt => if Signed(v1) < Signed(v2) then 1 else 0
    case Sltu => if v1 < v2 then 1 else 0
  }

  function ShiftImmValue(op: ShiftImmOp, v: u32, shamt: Reg): u32
  {
    match op
    case Slli => Wrap(v * Pow2(shamt))
    case Srli => Wrap(v / Pow2(shamt))
    case Srai => Wrap(Signed(v) / Pow2(shamt))
  }

  function ArithImmValue(op: ArithImmOp, v: u32, imm: u32): u32
  {
    match op
    case Addi => Wrap(v + imm)
    case Andi => And(imm, v)
    case Ori => Or32(imm, v)
    case Xori => Xor32(imm, v)
  }

  predicate Condition(op: BranchOp, v1: u32, v2: u32)
  {
    match op
    case Beq => v1 == v2
    case Bne => v1 != v2
    case Blt => Signed(v1) < Signed(v2)
    case Bge => Signed(v1) >= Signed(v2)
    case Bltu => v1 < v2
    case Bgeu => v1 >= v2
  }

  // ---------------------------------------------------------------- alignment masks

  /** Mask of the kept memory bytes, mask of the stored bytes, and how many bytes to move the
      latter up (or down, if negative). `None` is a combination the code calls unreachable. */
  datatype StoreMask = StoreMask(keep: u32, take: u32, move: int)

  function MaskRound1(op: StoreOp, alignment: nat): Option<StoreMask>
  {
    match op
    case Sb =>
      if alignment == 0 then Some(StoreMask(0xFFFF_FF00, 0x0000_00FF, 0))
      else if alignment == 1 then Some(StoreMask(0xFFFF_00FF, 0x0000_00FF, 1))
      else if alignment == 2 then Some(StoreMask(0xFF00_FFFF, 0x0000_00FF, 2))
      else if alignment == 3 then Some(StoreMask(0x00FF_FFFF, 0x0000_00FF, 3))
      else None
    case Sh =>
      if alignment == 0 then Some(StoreMask(0xFFFF_0000, 0x0000_FFFF, 0))
      else if alignment == 1 then Some(StoreMask(0xFF00_00FF, 0x0000_FFFF, 1))
      else if alignment == 2 then Some(StoreMask(0x0000_FFFF, 0x0000_FFFF, 2))
      else if alignment == 3 then Some(StoreMask(0x00FF_FFFF, 0x0000_00FF, 3))
      else None
    case Sw =>
      if alignment == 3 then Some(StoreMask(0x00FF_FFFF, 0x0000_00FF, 3))
      else if alignment == 2 then Some(StoreMask(0x0000_FFFF, 0x0000_FFFF, 2))
      else if alignment == 1 then Some(StoreMask(0x0000_00FF, 0x00FF_FFFF, 1))
      else None
  }

  function MaskRound2(op: StoreOp, alignment: nat): Option<StoreMask>
  {
    match op
    case Sb => None
    case Sh =>
      if alignment == 3 then Some(StoreMask(0xFFFF_FF00, 0x0000_FF00, -1)) else None
    case Sw =>
      if alignment == 3 then Some(StoreMask(0xFF00_0000, 0xFFFF_FF00, -1))
      else if alignment == 2 then Some(StoreMask(0xFFFF_0000, 0xFFFF_0000, -2))
      else if alignment == 1 then Some(StoreMask(0xFFFF_FF00, 0xFF00_0000, -3))
      else None
  }

  datatype LoadMask = LoadMask(take: u32, move: int)

  function LoadMaskRound1(op: LoadOp, alignment: nat): Option<LoadMask>
  {
    match op
    case Lb | Lbu =>
      if alignment == 0 then Some(LoadMask(0x0000_00FF, 0))
      else if alignment == 1 then Some(LoadMask(0x0000_FF00, -1))
      else if alignment == 2 then Some(LoadMask(0x00FF_0000, -2))
      else if alignment == 3 then Some(LoadMask(0xFF00_0000, -3))
      else None
    case Lhu | Lh =>
      if alignment == 0 then Some(LoadMask(0x0000_FFFF, 0))
      else if alignment == 1 then Some(LoadMask(0x00FF_FF00, -1))
      else if alignment == 2 then Some(LoadMask(0xFFFF_0000, -2))
      else if alignment == 3 then Some(LoadMask(0xFF00_0000, -3))
      else None
    case Lw =>
      if alignment == 3 then Some(LoadMask(0xFF00_0000, -3))
      else if alignment == 2 then Some(LoadMask(0xFFFF_0000, -2))
      else if alignment == 1 then Some(LoadMask(0xFFFF_FF00, -1))
      else if alignment == 0 then Some(LoadMask(0xFFFF_FFFF, 0))
      else None
  }

  function LoadMaskRound2(op: LoadOp, alignment: nat): Option<LoadMask>
  {
    match op
    case Lb | Lbu => None
    case Lhu | Lh =>
      if alignment == 3 then Some(LoadMask(0x0000_00FF, 1)) else None
    case Lw =>
      if alignment == 3 then Some(LoadMask(0x00FF_FFFF, 1))
      else if alignment == 2 then Some(LoadMask(0x0000_FFFF, 2))
      else if alignment == 1 then Some(LoadMask(0x0000_00FF, 3))
      else None
  }

  /** Shift a word by whole bytes, up for a positive count. */
  function MoveBytes(w: u32, count: int): u32
  {
    if count == 0 then w
    else if count == 1 then Wrap(w * 256)
    else if count == 2 then Wrap(w * 65536)
    else if count == 3 then Wrap(w * 16777216)
    else if count == -1 then w / 256
    else if count == -2 then w / 65536
    else if count == -3 then w / 16777216
    else 0
  }

  function SignExtension(op: LoadOp, value: u32): u32
  {
    match op
    case Lb => if And(value, 0x80) != 0 then Or32(0xFFFF_FF00, value) else value
    case Lh => if And(value, 0x8000) != 0 then Or32(0xFFFF_0000, value) else value
    case _ => value
  }

  function StoreReads(op: StoreOp, alignment: nat): nat
  {
    match op
    case Sb => 1
    case Sh => if alignment == 3 then 2 else 1
    case Sw => if alignment == 0 then 0 else 2
  }

  function LoadReads(op: LoadOp, alignment: nat): nat
  {
    match op
    case Lb | Lbu => 1
    case Lh | Lhu => if alignment == 3 then 2 else 1
    case Lw => if alignment == 0 then 1 else 2
  }

  // ---------------------------------------------------------------- states and effects

  datatype State = State(
    sections: seq<Section>, regs: seq<u32>, regStep: seq<u64>, base: u32,
    pc: ProgramCounter, step: nat, hash: Hash, halt: bool, tables: Tables)

  /** Well-formed sections with the registers in a section of their own, and x0 still zero. */
  ghost predicate Valid(m: State)
  {
    && Ordered(m.sections)
    && |m.regs| == |m.regStep| == REGISTERS && m.regs[REGISTER_ZERO] == 0
    && m.base % 4 == 0 && m.base + 4 * REGISTERS < 0x1_0000_0000
    && (exists i :: 0 <= i < |m.sections| && IsRegisterFile(m.sections[i], m.base))
  }

  ghost predicate IsRegisterFile(s: Section, base: u32)
  {
    s.registers && s.start == base && s.size == 4 * REGISTERS
  }

  datatype Location = Nowhere | AtReg(idx: RegIndex) | AtMem(address: u32)
  datatype Write = NoWrite | ToReg(idx: RegIndex, value: u32) | ToMem(address: u32, value: u32)

  /** Everything one instruction does: what it reads, the one thing it writes, where it goes. */
  datatype Effect = Effect(read1: Location, read2: Location, write: Write, next: ProgramCounter,
                           halts: bool := false, hint: Option<u32> := None)

  datatype Outcome = Does(effect: Effect) | Fails(error: ExecutionResult) | Aborts

  function NextAddress(pc: ProgramCounter): ProgramCounter
  {
    ProgramCounter(Wrap(pc.address + 4), 0)
  }

  function NextMicro(pc: ProgramCounter): ProgramCounter
  {
    pc.(micro := (pc.micro + 1) % 256)
  }

  function Nop(m: State): Outcome
  {
    Does(Effect(Nowhere, Nowhere, NoWrite, NextAddress(m.pc)))
  }

  function RegisterAddress(m: State, idx: RegIndex): u32
    requires Valid(m)
  {
    m.base + 4 * idx
  }

  function StoreOutcome(m: State, op: StoreOp, rs1: Reg, rs2: Reg, imm: u32): Outcome
    requires Valid(m)
  {
    var address := Wrap(m.regs[rs1] + imm);
    var alignment := address % 4;
    var dest := address - alignment;
    var micro := m.pc.micro;
    if micro == 0 || micro == 4 then
      if micro == 0 && op == Sw && StoreReads(op, alignment) == 0 then
        match WriteMem(m.sections, dest, m.regs[rs2], 0)
        case Err(e) => Fails(e)
        case Ok(_) => Does(Effect(AtReg(rs1), AtReg(rs2), ToMem(dest, m.regs[rs2]), NextAddress(m.pc)))
      else
        match if micro == 0 then MaskRound1(op, alignment) else MaskRound2(op, alignment)
        case None => Aborts
        case Some(mask) =>
          var source := if micro == 4 then Wrap(dest + 4) else dest;
          match ReadMem(m.sections, source)
          case Err(e) => Fails(e)
          case Ok(v) => Does(Effect(AtReg(rs1), AtMem(source), ToReg(AUX1, And(mask.keep, v)), NextMicro(m.pc)))
    else if micro == 1 || micro == 5 then
      match if micro == 1 then MaskRound1(op, alignment) else MaskRound2(op, alignment)
      case None => Aborts
      case Some(mask) =>
        Does(Effect(AtReg(rs1), AtReg(rs2), ToReg(AUX2, MoveBytes(And(mask.take, m.regs[rs2]), mask.move)), NextMicro(m.pc)))
    else if micro == 2 || micro == 6 then
      Does(Effect(AtReg(AUX1), AtReg(AUX2), ToReg(AUX1, Or32(m.regs[AUX1], m.regs[AUX2])), NextMicro(m.pc)))
    else if micro == 3 || micro == 7 then
      var target := if micro == 7 then Wrap(dest + 4) else dest;
      match WriteMem(m.sections, target, m.regs[AUX1], 0)
      case Err(e) => Fails(e)
      case Ok(_) =>
        Does(Effect(AtReg(rs1), AtReg(AUX1), ToMem(target, m.regs[AUX1]),
                    if StoreReads(op, alignment) == 1 || micro == 7 then NextAddress(m.pc) else NextMicro(m.pc)))
    else Aborts
  }

  function LoadOutcome(m: State, op: LoadOp, rd: Reg, rs1: Reg, imm: u32): Outcome
    requires Valid(m)
  {
    if rd == REGISTER_ZERO then Nop(m)
    else
      var address := Wrap(m.regs[rs1] + imm);
      var alignment := address % 4;
      var micro := m.pc.micro;
      if micro == 0 || micro == 1 then
        var source := if micro == 1 then Wrap(address - alignment + 4) else address - alignment;
        match ReadMem(m.sections, source)
        case Err(e) => Fails(e)
        case Ok(v) =>
          match if micro == 0 then LoadMaskRound1(op, alignment) else LoadMaskRound2(op, alignment)
          case None => Aborts
          case Some(mask) =>
            var value := SignExtension(op, MoveBytes(And(mask.take, v), mask.move));
            if LoadReads(op, alignment) == 1 then
              Does(Effect(AtReg(rs1), AtMem(source), ToReg(rd, value), NextAddress(m.pc)))
            else
              Does(Effect(AtReg(rs1), AtMem(source), ToReg(if micro == 0 then AUX1 else AUX2, value), NextMicro(m.pc)))
      else if micro == 2 then
        Does(Effect(AtReg(AUX1), AtReg(AUX2), ToReg(AUX1, Or32(m.regs[AUX1], m.regs[AUX2])), NextMicro(m.pc)))
      else if micro == 3 then
        Does(Effect(AtReg(AUX1), Nowhere, ToReg(rd, m.regs[AUX1]), NextAddress(m.pc)))
      else Aborts
  }

  function InstructionOutcome(m: State, i: Instruction): Outcome
    requires Valid(m)
  {
    match i
    case Ebreak | Fence => Nop(m)
    case Ecall =>
      if m.regs[REGISTER_A7] == 93 then
        Does(Effect(AtReg(REGISTER_A7), AtReg(REGISTER_A0), ToReg(REGISTER_A0, m.regs[REGISTER_A0]), m.pc, halts := true))
      else Nop(m)
    case Jal(rd, imm) =>
      var write := if rd == REGISTER_ZERO then NoWrite else ToReg(rd, Wrap(m.pc.address + 4));
      Does(Effect(Nowhere, Nowhere, write, m.pc.(address := Wrap(m.pc.address + imm))))
    case Jalr(rd, rs1, imm) =>
      var write := if rd == REGISTER_ZERO then NoWrite else ToReg(rd, Wrap(m.pc.address + 4));
      Does(Effect(AtReg(rs1), Nowhere, write, m.pc.(address := Wrap(m.regs[rs1] + imm))))
    case Arith(op, rd, rs1, rs2) =>
      if rd == REGISTER_ZERO then Nop(m)
      else Does(Effect(AtReg(rs1), AtReg(rs2), ToReg(rd, ArithValue(op, m.regs[rs1], m.regs[rs2])), NextAddress(m.pc),
                       hint := ArithHint(op, m.regs[rs1], m.regs[rs2])))
    case Compare(op, rd, rs1, rs2) =>
      if rd == REGISTER_ZERO then Nop(m)
      else Does(Effect(AtReg(rs1), AtReg(rs2), ToReg(rd, CompareValue(op, m.regs[rs1], m.regs[rs2])), NextAddress(m.pc)))
    case ShiftImm(op, rd, rs1, shamt) =>
      if rd == REGISTER_ZERO then Nop(m)
      else Does(Effect(AtReg(rs1), Nowhere, ToReg(rd, ShiftImmValue(op, m.regs[rs1], shamt)), NextAddress(m.pc)))
    case CompareImm(unsigned, rd, rs1, imm) =>
      if rd == REGISTER_ZERO then Nop(m)
      else Does(Effect(AtReg(rs1), Nowhere, ToReg(rd, CompareValue(if unsigned then Sltu else Slt, m.regs[rs1], imm)), NextAddress(m.pc)))
    case Store(op, rs1, rs2, imm) => StoreOutcome(m, op, rs1, rs2, imm)
    case Load(op, rd, rs1, imm) => LoadOutcome(m, op, rd, rs1, imm)
    case Upper(auipc, rd, imm) =>
      if rd == REGISTER_ZERO then Nop(m)
      else Does(Effect(Nowhere, Nowhere, ToReg(rd, if auipc then Wrap(m.pc.address + imm) else imm), NextAddress(m.pc)))
    case Branch(op, rs1, rs2, imm) =>
      Does(Effect(AtReg(rs1), AtReg(rs2), NoWrite,
                  if Condition(op, m.regs[rs1], m.regs[rs2]) then m.pc.(address := Wrap(m.pc.address + imm))
                  else NextAddress(m.pc)))
    case ArithImm(op, rd, rs1, imm) =>
      if rd == REGISTER_ZERO then Nop(m)
      else Does(Effect(AtReg(rs1), Nowhere, ToReg(rd, ArithImmValue(op, m.regs[rs1], imm)), NextAddress(m.pc)))
    case NotImplemented => Fails(InstructionNotImplemented)
  }

  // ---------------------------------------------------------------- steps

  /** What the reads and the write of an effect need: readable and writable memory, never x0. */
  ghost predicate Possible(m: State, e: Effect)
    requires Valid(m)
  {
    && Readable(m, e.read1) && Readable(m, e.read2)
    && match e.write
       case NoWrite => true
       case ToReg(idx, _) => idx != REGISTER_ZERO
       case ToMem(a, v) => a % 4 == 0 && WriteMem(m.sections, a, v, 0).Ok?
  }

  ghost predicate Readable(m: State, l: Location)
    requires Valid(m)
  {
    l.AtMem? ==> l.address % 4 == 0 && ReadMem(m.sections, l.address).Ok?
  }

  function ReadAt(m: State, l: Location): TraceRead
    requires Valid(m) && Readable(m, l)
  {
    match l
    case Nowhere => NO_READ
    case AtReg(i) => TraceRead(RegisterAddress(m, i), m.regs[i], m.regStep[i])
    case AtMem(a) => TraceRead(a, ReadMem(m.sections, a).value, LastStepOf(m.sections, a))
  }

  function WriteOf(m: State, w: Write): TraceWrite
    requires Valid(m)
  {
    match w
    case NoWrite => NO_WRITE
    case ToReg(i, v) => TraceWrite(RegisterAddress(m, i), v)
    case ToMem(a, v) => TraceWrite(a, v)
  }

  function AccessOfRead(l: Location): Access
  {
    match l
    case Nowhere => Unused
    case AtReg(_) => Register
    case AtMem(_) => Memory
  }

  function AccessOfWrite(w: Write): Access
  {
    match w
    case NoWrite => Unused
    case ToReg(_, _) => Register
    case ToMem(_, _) => Memory
  }

  /** The machine after an effect: its write, time-stamped with the current step, and its
      next program counter. Nothing else changes. */
  function Commit(m: State, e: Effect): State
    requires Valid(m) && Possible(m, e) && m.step < LAST_STEP_INIT
  {
    var written := match e.write
      case NoWrite => m
      case ToReg(i, v) => m.(regs := m.regs[i := v], regStep := m.regStep[i := m.step])
      case ToMem(a, v) => m.(sections := WriteMem(m.sections, a, v, m.step).value);
    written.(pc := e.next, halt := m.halt || e.halts)
  }

  function TraceOf(m: State, opcode: u32, e: Effect): TraceRWStep
    requires Valid(m) && Possible(m, e) && m.step < LAST_STEP_INIT
  {
    TraceRWStep(m.step, ReadAt(m, e.read1), ReadAt(m, e.read2), TraceReadPC(m.pc, opcode),
                TraceStep(WriteOf(m, e.write), e.next), e.hint,
                MemoryWitness(AccessOfRead(e.read1), AccessOfRead(e.read2), AccessOfWrite(e.write)))
  }

  datatype StepResult = Stepped(state: State, trace: TraceRWStep) | Failed(state: State, error: ExecutionResult) | Aborted

  lemma AlignedWords(address: u32)
    ensures var aligned: int := address - address % 4; aligned % 4 == 0 && Wrap(aligned + 4) % 4 == 0
  {
    var q := address / 4;
    DivModUnique(4 * q, 4, q, 0);
    if q == 0x3FFF_FFFF {
      assert Wrap(4 * q + 4) == 0;
    } else {
      assert Wrap(4 * q + 4) == 4 * (q + 1);
      DivModUnique(4 * (q + 1), 4, q + 1, 0);
    }
  }

  lemma StoreIsPossible(m: State, op: StoreOp, rs1: Reg, rs2: Reg, imm: u32)
    requires Valid(m) && StoreOutcome(m, op, rs1, rs2, imm).Does?
    ensures Possible(m, StoreOutcome(m, op, rs1, rs2, imm).effect)
  {
    hide And, Or, Or32, MoveBytes, MaskRound1, MaskRound2, Ordered, ReadMem, WriteMem;
    var address := Wrap(m.regs[rs1] + imm);
    AlignedWords(address);
  }

  lemma LoadIsPossible(m: State, op: LoadOp, rd: Reg, rs1: Reg, imm: u32)
    requires Valid(m) && LoadOutcome(m, op, rd, rs1, imm).Does?
    ensures Possible(m, LoadOutcome(m, op, rd, rs1, imm).effect)
  {
    hide And, Or, Or32, MoveBytes, SignExtension, LoadMaskRound1, LoadMaskRound2, Ordered, ReadMem;
    var address := Wrap(m.regs[rs1] + imm);
    AlignedWords(address);
  }

  /** Every effect is possible: x0 is never written, and memory is accessed at aligned words
      that exist. */
  lemma OutcomeIsPossible(m: State, i: Instruction)
    requires Valid(m) && InstructionOutcome(m, i).Does?
    ensures Possible(m, InstructionOutcome(m, i).effect)
  {
    hide ArithValue, ArithHint, CompareValue, ShiftImmValue, ArithImmValue, Condition, StoreOutcome, LoadOutcome,
         Ordered, ReadMem, WriteMem, Wrap;
    match i {
      case Store(op, rs1, rs2, imm) => StoreIsPossible(m, op, rs1, rs2, imm);
      case Load(op, rd, rs1, imm) => LoadIsPossible(m, op, rd, rs1, imm);
      case _ =>
    }
  }

  /** One step: the counter, the opcode at the program counter, its effect. */
  function Step(m: State, decode: Decoder): StepResult
    requires Valid(m) && m.step + 1 < LAST_STEP_INIT
  {
    var m1 := m.(step := m.step + 1);
    match ReadMem(m1.sections, m1.pc.address)
    case Err(e) => Failed(m1, e)
    case Ok(opcode) =>
      match decode(opcode)
      case None => Aborted
      case Some(i) =>
        match InstructionOutcome(m1, i)
        case Fails(e) => Failed(m1, e)
        case Aborts => Aborted
        case Does(e) =>
          OutcomeIsPossible(m1, i);
          Stepped(Commit(m1, e), TraceOf(m1, opcode, e))
  }
}
