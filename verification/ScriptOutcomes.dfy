/** What each verification script accepts, on words: its checks on the committed reads, and the
    written trace it recomputes from them. Operands come decoded. */
module ScriptOutcomes {
  import opened Bits
  import opened Options
  import opened Trace
  import opened Nibbles
  import opened Machine
  import opened Division
  import opened SignedDivision

  /** Register files start at a multiple of 256, so that a register is two digits. */
  type RegisterBase = x: int | 0 <= x < 0x1_0000_0000 && x % 256 == 0

  /** The committed read half of a step. */
  datatype ScriptRead = ScriptRead(
    memWitness: byte, add1: u32, value1: u32, add2: u32, value2: u32, pc: u32, micro: byte)

  function ReadOf(t: TraceRWStep): ScriptRead
  {
    ScriptRead(WitnessByte(t.memWitness), t.read1.address, t.read1.value, t.read2.address, t.read2.value,
               t.readPc.pc.address, t.readPc.pc.micro)
  }

  function RegisterAt(base: RegisterBase, idx: RegIndex): u32
  {
    base + 4 * idx
  }

  predicate Witnessed(r: ScriptRead, read1: Access, read2: Access, write: Access)
  {
    r.memWitness == WitnessByte(MemoryWitness(read1, read2, write))
  }

  function Written(address: u32, value: u32, pc: u32, micro: byte): Option<TraceStep>
  {
    Some(TraceStep(TraceWrite(address, value), ProgramCounter(pc, micro)))
  }

  function When(check: bool, result: Option<TraceStep>): Option<TraceStep>
  {
    if check then result else None
  }

  function NopScript(r: ScriptRead): Option<TraceStep>
  {
    When(Witnessed(r, Unused, Unused, Unused), Written(0, 0, Wrap(r.pc + 4), 0))
  }

  /** Only a successful halt, with a zero exit code, has a script that accepts. */
  function EcallScript(r: ScriptRead, base: RegisterBase): Option<TraceStep>
  {
    if r.value1 != 93 then NopScript(r)
    else
      When(Witnessed(r, Register, Register, Register) && r.value2 == 0
           && r.add2 == RegisterAt(base, REGISTER_A0) && r.add1 == RegisterAt(base, REGISTER_A7),
           Written(RegisterAt(base, REGISTER_A0), r.value2, r.pc, 0))
  }

  function JalScript(rd: Reg, imm: u32, r: ScriptRead, base: RegisterBase): Option<TraceStep>
  {
    if rd == 0 then When(Witnessed(r, Unused, Unused, Unused), Written(0, 0, Wrap(r.pc + imm), 0))
    else When(Witnessed(r, Unused, Unused, Register), Written(RegisterAt(base, rd), Wrap(r.pc + 4), Wrap(r.pc + imm), 0))
  }

  function JalrScript(rd: Reg, rs1: Reg, imm: u32, r: ScriptRead, base: RegisterBase): Option<TraceStep>
  {
    var target := Wrap(r.value1 + imm);
    When(r.add1 == RegisterAt(base, rs1),
         if rd == 0 then When(Witnessed(r, Register, Unused, Unused), Written(0, 0, target, 0))
         else When(Witnessed(r, Register, Unused, Register), Written(RegisterAt(base, rd), Wrap(r.pc + 4), target, 0)))
  }

  function BranchScript(op: BranchOp, rs1: Reg, rs2: Reg, imm: u32, r: ScriptRead, base: RegisterBase): Option<TraceStep>
  {
    When(Witnessed(r, Register, Register, Unused)
         && r.add1 == RegisterAt(base, rs1) && r.add2 == RegisterAt(base, rs2),
         Written(0, 0, Wrap(r.pc + if Condition(op, r.value1, r.value2) then imm else 4), 0))
  }

  /** A register result of an operation on registers. */
  function RegisterScript(rd: Reg, rs1: Reg, rs2: Reg, value: u32, r: ScriptRead, base: RegisterBase): Option<TraceStep>
  {
    When(Witnessed(r, Register, Register, Register)
         && r.add1 == RegisterAt(base, rs1) && r.add2 == RegisterAt(base, rs2),
         Written(RegisterAt(base, rd), value, Wrap(r.pc + 4), 0))
  }

  predicate IsDivision(op: ArithOp)
  {
    op == Div || op == Divu || op == Rem || op == Remu
  }

  /** Divisors with a fixed result: zero, and minus one where the division is signed. */
  predicate FixedDivisor(op: ArithOp, y: u32)
  {
    y == 0 || ((op == Div || op == Rem) && y == 0xFFFF_FFFF)
  }

  /** The check of a division: the committed result and the hint as quotient and remainder. */
  predicate DivisionAccepted(op: ArithOp, x: u32, y: u32, committed: u32, hint: u32)
    requires IsDivision(op)
  {
    match op
    case Div => SignedAccepted(x, y, committed, hint)
    case Divu => Accepted(x, y, committed, hint)
    case Rem => SignedAccepted(x, y, hint, committed)
    case _ => Accepted(x, y, hint, committed)
  }

  /** A division's result is fixed by its divisor or taken from the committed trace if the check
      passes. */
  function DivisionScript(op: ArithOp, rd: Reg, rs1: Reg, rs2: Reg, r: ScriptRead, committed: u32, hint: u32,
                          base: RegisterBase): Option<TraceStep>
    requires IsDivision(op)
  {
    if FixedDivisor(op, r.value2) then RegisterScript(rd, rs1, rs2, ArithValue(op, r.value1, r.value2), r, base)
    else When(DivisionAccepted(op, r.value1, r.value2, committed, hint), RegisterScript(rd, rs1, rs2, committed, r, base))
  }

  /** A register result of an operation on a register and an immediate. */
  function ImmediateScript(rd: Reg, rs1: Reg, value: u32, r: ScriptRead, base: RegisterBase): Option<TraceStep>
  {
    When(Witnessed(r, Register, Unused, Register) && r.add1 == RegisterAt(base, rs1),
         Written(RegisterAt(base, rd), value, Wrap(r.pc + 4), 0))
  }

  function UpperScript(auipc: bool, rd: Reg, imm: u32, r: ScriptRead, base: RegisterBase): Option<TraceStep>
  {
    When(Witnessed(r, Unused, Unused, Register),
         Written(RegisterAt(base, rd), if auipc then Wrap(r.pc + imm) else imm, Wrap(r.pc + 4), 0))
  }

  // ---------------------------------------------------------------- stores

  /** Mask tables: a digit 1 keeps the digit of the masked word. `None` has no script. */
  function AlignmentTable(op: StoreOp, round: nat): Option<seq<u32>>
  {
    if round == 1 then
      match op
      case Sb => Some([0x1111_1100, 0x1111_0011, 0x1100_1111, 0x0011_1111])
      case Sh => Some([0x1111_0000, 0x1100_0011, 0x0000_1111, 0x0011_1111])
      case Sw => Some([0x0000_0000, 0x0000_0011, 0x0000_1111, 0x0011_1111])
    else
      match op
      case Sb => None
      case Sh => Some([0x0000_0000, 0x0000_0000, 0x0000_0000, 0x1111_1100])
      case Sw => Some([0x0000_0000, 0x1111_1100, 0x1111_0000, 0x1100_0000])
  }

  function AlignmentTable2(op: StoreOp, round: nat): Option<seq<u32>>
  {
    if round == 1 then
      match op
      case Sb => Some([0x0000_0011, 0x0000_0011, 0x0000_0011, 0x0000_0011])
      case Sh => Some([0x0000_1111, 0x0000_1111, 0x0000_1111, 0x0000_0011])
      case Sw => Some([0x0000_0000, 0x0011_1111, 0x0000_1111, 0x0000_0011])
    else
      match op
      case Sb => None
      case Sh => Some([0x0000_0000, 0x0000_0000, 0x0000_0000, 0x0000_1100])
      case Sw => Some([0x0000_0000, 0x1100_0000, 0x1111_0000, 0x1111_1100])
  }

  /** A mask of ones and zeros, applied to the digits of a word. */
  function Masked(mask: u32, v: u32): u32
  {
    And(15 * mask, v)
  }

  /** Rotation by whole bytes toward the high end. */
  function Rotated(w: u32, count: nat): nat
    requires count < 4
  {
    MoveBytes(w, count) + MoveBytes(w, count - 4)
  }

  predicate DigitsAdd(x: u32, y: u32)
  {
    forall k :: 0 <= k < 8 ==> (NibblesOf(x, 8)[k] as int) + NibblesOf(y, 8)[k] < 16
  }

  function AlignedPart(address: u32): u32
  {
    address - address % 4
  }

  function StoreMicro0(op: StoreOp, rs1: Reg, rs2: Reg, imm: u32, r: ScriptRead, base: RegisterBase): Option<TraceStep>
    requires r.micro == 0 || r.micro == 4
  {
    var address := Wrap(r.value1 + imm);
    var alignment := address % 4;
    if r.add1 != RegisterAt(base, rs1) then None
    else if r.micro == 0 && op == Sw && alignment < 1 then
      When(Witnessed(r, Register, Register, Memory) && r.add2 == RegisterAt(base, rs2),
           Written(AlignedPart(address), r.value2, Wrap(r.pc + 4), 0))
    else
      match AlignmentTable(op, if r.micro == 0 then 1 else 2)
      case None => None
      case Some(table) =>
        var source := if r.micro == 4 then Wrap(AlignedPart(address) + 4) else AlignedPart(address);
        When(Witnessed(r, Register, Memory, Register) && r.add2 == source,
             Written(RegisterAt(base, AUX1), Masked(table[alignment], r.value2), r.pc, r.micro + 1))
  }

  function StoreMicro1(op: StoreOp, rs1: Reg, rs2: Reg, imm: u32, r: ScriptRead, base: RegisterBase): Option<TraceStep>
    requires r.micro == 1 || r.micro == 5
  {
    var alignment := Wrap(r.value1 + imm) % 4;
    match AlignmentTable2(op, if r.micro == 1 then 1 else 2)
    case None => None
    case Some(table) =>
      var rotated := Rotated(Masked(table[alignment], r.value2), alignment);
      When(Witnessed(r, Register, Register, Register)
           && r.add1 == RegisterAt(base, rs1) && r.add2 == RegisterAt(base, rs2) && rotated < 0x1_0000_0000,
           Written(RegisterAt(base, AUX2), Wrap(rotated), r.pc, r.micro + 1))
  }

  /** The digits of the two auxiliary registers are added without carry; a sum that is no
      digit matches no committed word. */
  function StoreMicro2(r: ScriptRead, base: RegisterBase): Option<TraceStep>
    requires r.micro == 2 || r.micro == 6
  {
    When(Witnessed(r, Register, Register, Register)
         && r.add1 == RegisterAt(base, AUX1) && r.add2 == RegisterAt(base, AUX2) && DigitsAdd(r.value1, r.value2),
         Written(RegisterAt(base, AUX1), Wrap(r.value1 + r.value2), r.pc, r.micro + 1))
  }

  function LeastMisaligned(op: StoreOp): nat
  {
    match op
    case Sb => 4
    case Sh => 3
    case Sw => 0
  }

  function StoreMicro3(op: StoreOp, rs1: Reg, imm: u32, r: ScriptRead, base: RegisterBase): Option<TraceStep>
    requires r.micro == 3 || r.micro == 7
  {
    var address := Wrap(r.value1 + imm);
    var target := if r.micro == 7 then Wrap(AlignedPart(address) + 4) else AlignedPart(address);
    var more := r.micro == 3 && address % 4 >= LeastMisaligned(op);
    When(Witnessed(r, Register, Register, Memory)
         && r.add1 == RegisterAt(base, rs1) && r.add2 == RegisterAt(base, AUX1),
         Written(target, r.value2, if more then r.pc else Wrap(r.pc + 4), if more then 4 else 0))
  }

  function StoreScript(op: StoreOp, rs1: Reg, rs2: Reg, imm: u32, r: ScriptRead, base: RegisterBase): Option<TraceStep>
  {
    if r.micro == 0 || r.micro == 4 then StoreMicro0(op, rs1, rs2, imm, r, base)
    else if r.micro == 1 || r.micro == 5 then StoreMicro1(op, rs1, rs2, imm, r, base)
    else if r.micro == 2 || r.micro == 6 then StoreMicro2(r, base)
    else if r.micro == 3 || r.micro == 7 then StoreMicro3(op, rs1, imm, r, base)
    else None
  }

  // ---------------------------------------------------------------- loads

  /** How a load picks digits: how many, the zeros put before and after the word, and whether
      to fill up with zeros instead of the sign. */
  datatype Choice = Choice(nibs: nat, maxExtra: nat, post: nat, unsigned: bool)

  function ChoiceRound1(op: LoadOp): Choice
  {
    match op
    case Lb => Choice(2, 0, 0, false)
    case Lh => Choice(4, 2, 0, false)
    case Lw => Choice(8, 6, 0, true)
    case Lbu => Choice(2, 0, 0, true)
    case Lhu => Choice(4, 2, 0, true)
  }

  function ChoiceRound2(op: LoadOp): Option<Choice>
  {
    match op
    case Lh => Some(Choice(4, 0, 8, false))
    case Lhu => Some(Choice(4, 0, 8, true))
    case Lw => Some(Choice(8, 0, 8, true))
    case Lb | Lbu => None
  }

  /** The picked digits as a number. */
  function Picked(c: Choice, v: u32, alignment: nat): nat
  {
    v * Pow2(4 * c.post) / Pow2(8 * alignment) % Pow2(4 * c.nibs)
  }

  /** The picked digits, filled up to a word. */
  function Chosen(c: Choice, v: u32, alignment: nat): u32
  {
    var picked := Picked(c, v, alignment);
    Wrap(if !c.unsigned && 2 * picked >= Pow2(4 * c.nibs) then picked - Pow2(4 * c.nibs) else picked)
  }

  function AlignedIfLessThan(op: LoadOp): nat
  {
    match op
    case Lb | Lbu => 4
    case Lh | Lhu => 3
    case Lw => 1
  }

  function LoadMicro0(op: LoadOp, rd: Reg, rs1: Reg, imm: u32, r: ScriptRead, base: RegisterBase): Option<TraceStep>
  {
    var address := Wrap(r.value1 + imm);
    var alignment := address % 4;
    var value := Chosen(ChoiceRound1(op), r.value2, alignment);
    When(Witnessed(r, Register, Memory, Register)
         && r.add1 == RegisterAt(base, rs1) && r.add2 == AlignedPart(address),
         if alignment < AlignedIfLessThan(op) then Written(RegisterAt(base, rd), value, Wrap(r.pc + 4), 0)
         else Written(RegisterAt(base, AUX1), value, r.pc, 1))
  }

  function LoadMicro1(op: LoadOp, rs1: Reg, imm: u32, r: ScriptRead, base: RegisterBase): Option<TraceStep>
    requires ChoiceRound2(op).Some?
  {
    var address := Wrap(r.value1 + imm);
    When(Witnessed(r, Register, Memory, Register)
         && r.add1 == RegisterAt(base, rs1) && r.add2 == Wrap(AlignedPart(address) + 4),
         Written(RegisterAt(base, AUX2), Chosen(ChoiceRound2(op).value, r.value2, address % 4), r.pc, 2))
  }

  function LoadMicro2(r: ScriptRead, base: RegisterBase): Option<TraceStep>
  {
    When(Witnessed(r, Register, Register, Register)
         && r.add1 == RegisterAt(base, AUX1) && r.add2 == RegisterAt(base, AUX2),
         Written(RegisterAt(base, AUX1), Or32(r.value1, r.value2), r.pc, 3))
  }

  function LoadMicro3(rd: Reg, r: ScriptRead, base: RegisterBase): Option<TraceStep>
  {
    When(Witnessed(r, Register, Unused, Register)
         && r.add1 == RegisterAt(base, AUX1) && r.add2 == 0 && r.value2 == 0,
         Written(RegisterAt(base, rd), r.value1, Wrap(r.pc + 4), 0))
  }

  function LoadScript(op: LoadOp, rd: Reg, rs1: Reg, imm: u32, r: ScriptRead, base: RegisterBase): Option<TraceStep>
  {
    if r.micro == 0 then LoadMicro0(op, rd, rs1, imm, r, base)
    else if ChoiceRound2(op).None? then None
    else if r.micro == 1 then LoadMicro1(op, rs1, imm, r, base)
    else if r.micro == 2 then LoadMicro2(r, base)
    else if r.micro == 3 then LoadMicro3(rd, r, base)
    else None
  }

  // ---------------------------------------------------------------- all instructions

  /** The written trace the script of an instruction recomputes, if its checks pass. */
  function ScriptOutcome(i: Instruction, r: ScriptRead, committed: u32, hint: u32, base: RegisterBase): Option<TraceStep>
  {
    match i
    case Ebreak | Fence => NopScript(r)
    case Ecall => EcallScript(r, base)
    case Jal(rd, imm) => JalScript(rd, imm, r, base)
    case Jalr(rd, rs1, imm) => JalrScript(rd, rs1, imm, r, base)
    case Branch(op, rs1, rs2, imm) => BranchScript(op, rs1, rs2, imm, r, base)
    case Store(op, rs1, rs2, imm) => StoreScript(op, rs1, rs2, imm, r, base)
    case Arith(op, rd, rs1, rs2) =>
      if rd == 0 then NopScript(r)
      else if IsDivision(op) then DivisionScript(op, rd, rs1, rs2, r, committed, hint, base)
      else RegisterScript(rd, rs1, rs2, ArithValue(op, r.value1, r.value2), r, base)
    case Compare(op, rd, rs1, rs2) =>
      if rd == 0 then NopScript(r)
      else RegisterScript(rd, rs1, rs2, CompareValue(op, r.value1, r.value2), r, base)
    case ArithImm(op, rd, rs1, imm) =>
      if rd == 0 then NopScript(r) else ImmediateScript(rd, rs1, ArithImmValue(op, r.value1, imm), r, base)
    case ShiftImm(op, rd, rs1, shamt) =>
      if rd == 0 then NopScript(r) else ImmediateScript(rd, rs1, ShiftImmValue(op, r.value1, shamt), r, base)
    case CompareImm(unsigned, rd, rs1, imm) =>
      if rd == 0 then NopScript(r)
      else ImmediateScript(rd, rs1, CompareValue(if unsigned then Sltu else Slt, r.value1, imm), r, base)
    case Upper(auipc, rd, imm) => if rd == 0 then NopScript(r) else UpperScript(auipc, rd, imm, r, base)
    case Load(op, rd, rs1, imm) => if rd == 0 then NopScript(r) else LoadScript(op, rd, rs1, imm, r, base)
    case NotImplemented => None
  }
}
