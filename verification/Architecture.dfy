/** What chapter 2 of the RISC-V Unprivileged ISA (version 20191213), RV32I, asks of the
    instructions without memory access, in terms of numbers and bits, against the machine model. */
module Architecture {
  import opened Bits
  import opened Options
  import opened SectionMemory
  import opened Machine
  import opened WordArithmetic

  // ---------------------------------------------------------------- numbers and bits of words

  /** The word stands for the signed number `x`: in range, and congruent modulo 2^32. */
  predicate StandsFor(w: u32, x: int)
  {
    -0x8000_0000 <= x < 0x8000_0000 && Congruent(x, w)
  }

  predicate Congruent(x: int, y: int)
  {
    (x - y) % 0x1_0000_0000 == 0
  }

  lemma StandsForSigned(w: u32, x: int)
    ensures StandsFor(w, x) <==> x == Signed(w)
  {
  }

  lemma WrapIsCongruent(x: int, w: u32)
    ensures Congruent(x, w) <==> w == Wrap(x)
  {
    if Congruent(x, w) {
      var k := (x - w) / 0x1_0000_0000;
      DivModUnique(x, 0x1_0000_0000, k, w);
    }
  }

  /** Bit `j` of a number. */
  function Bit(x: nat, j: nat): bool
  {
    if j == 0 then x % 2 == 1 else Bit(x / 2, j - 1)
  }

  lemma HalfAndRest(h: nat, b: nat)
    requires b < 2
    ensures (2 * h + b) / 2 == h && (2 * h + b) % 2 == b
  {
  }

  lemma {:induction false} AndBits(x: nat, y: nat, j: nat)
    ensures Bit(And(x, y), j) <==> Bit(x, j) && Bit(y, j)
  {
    hide And;
    AndStep(x, y);
    HalfAndRest(And(x / 2, y / 2), if x % 2 == 1 && y % 2 == 1 then 1 else 0);
    if j > 0 { AndBits(x / 2, y / 2, j - 1); }
  }

  lemma {:induction false} OrBits(x: nat, y: nat, j: nat)
    ensures Bit(Or(x, y), j) <==> Bit(x, j) || Bit(y, j)
  {
    hide Or;
    OrStep(x, y);
    HalfAndRest(Or(x / 2, y / 2), if x % 2 == 1 || y % 2 == 1 then 1 else 0);
    if j > 0 { OrBits(x / 2, y / 2, j - 1); }
  }

  lemma {:induction false} XorBits(x: nat, y: nat, j: nat)
    ensures Bit(Xor(x, y), j) <==> Bit(x, j) != Bit(y, j)
  {
    hide Xor;
    XorStep(x, y);
    HalfAndRest(Xor(x / 2, y / 2), if x % 2 != y % 2 then 1 else 0);
    if j > 0 { XorBits(x / 2, y / 2, j - 1); }
  }

  // ---------------------------------------------------------------- branches

  /** Whether a branch is taken, on the signed numbers and on the words. */
  predicate Taken(op: BranchOp, x: int, y: int, v: u32, w: u32)
  {
    match op
    case Beq => x == y
    case Bne => x != y
    case Blt => x < y
    case Bge => x >= y
    case Bltu => v < w
    case Bgeu => v >= w
  }

  /** A branch reads both registers, writes nothing, and goes to the program counter plus the
      immediate exactly if the numbers in the registers are related as its name says. */
  lemma BranchConforms(m: State, op: BranchOp, rs1: Reg, rs2: Reg, imm: u32, x: int, y: int)
    requires Valid(m) && StandsFor(m.regs[rs1], x) && StandsFor(m.regs[rs2], y)
    ensures InstructionOutcome(m, Branch(op, rs1, rs2, imm)).Does?
    ensures var e := InstructionOutcome(m, Branch(op, rs1, rs2, imm)).effect;
            var taken := Taken(op, x, y, m.regs[rs1], m.regs[rs2]);
            && e.read1 == AtReg(rs1) && e.read2 == AtReg(rs2) && e.write == NoWrite && !e.halts && e.hint == None
            && Congruent(m.pc.address + (if taken then imm else 4), e.next.address)
            && e.next.micro == if taken then m.pc.micro else 0
  {
    hide Signed, Wrap, StandsFor, Ordered;
    StandsForSigned(m.regs[rs1], x);
    StandsForSigned(m.regs[rs2], y);
    SameWhenSigned(m.regs[rs1], m.regs[rs2]);
    var next := InstructionOutcome(m, Branch(op, rs1, rs2, imm)).effect.next.address;
    WrapIsCongruent(m.pc.address + imm, next);
    WrapIsCongruent(m.pc.address + 4, next);
  }

  lemma SameWhenSigned(v: u32, w: u32)
    ensures Signed(v) == Signed(w) <==> v == w
  {
  }

  // ---------------------------------------------------------------- jumps

  /** A jump leaves the address of the next instruction in `rd`, unless that is register zero,
      and goes to the program counter plus the immediate. */
  lemma JalConforms(m: State, rd: Reg, imm: u32)
    requires Valid(m)
    ensures InstructionOutcome(m, Jal(rd, imm)).Does?
    ensures var e := InstructionOutcome(m, Jal(rd, imm)).effect;
            && e.read1 == Nowhere && e.read2 == Nowhere && Delivers(rd, e) && !e.halts && e.hint == None
            && (rd != 0 ==> Congruent(m.pc.address + 4, e.write.value))
            && Congruent(m.pc.address + imm, e.next.address) && e.next.micro == m.pc.micro
  {
    hide Ordered, Wrap;
    WrapIsCongruent(m.pc.address + 4, Wrap(m.pc.address + 4));
    WrapIsCongruent(m.pc.address + imm, Wrap(m.pc.address + imm));
  }

  /** The result goes to register `rd`; register zero takes none. */
  predicate Delivers(rd: Reg, e: Effect)
  {
    if rd == 0 then e.write == NoWrite else e.write.ToReg? && e.write.idx == rd
  }

  /** An indirect jump goes to register plus immediate; the architecture clears the low bit of
      that sum, so the model conforms exactly if it is even. */
  lemma JalrConforms(m: State, rd: Reg, rs1: Reg, imm: u32)
    requires Valid(m)
    ensures InstructionOutcome(m, Jalr(rd, rs1, imm)).Does?
    ensures var e := InstructionOutcome(m, Jalr(rd, rs1, imm)).effect;
            var sum := m.regs[rs1] + imm;
            && e.read1 == AtReg(rs1) && e.read2 == Nowhere && Delivers(rd, e) && !e.halts && e.hint == None
            && (rd != 0 ==> Congruent(m.pc.address + 4, e.write.value))
            && Congruent(sum, e.next.address) && e.next.micro == m.pc.micro
            && (Congruent(sum - sum % 2, e.next.address) <==> sum % 2 == 0)
  {
    hide Ordered, Wrap;
    WrapIsCongruent(m.pc.address + 4, Wrap(m.pc.address + 4));
    WrapIsCongruent(m.regs[rs1] + imm, Wrap(m.regs[rs1] + imm));
    NextToCongruent(m.regs[rs1] + imm, Wrap(m.regs[rs1] + imm));
  }

  lemma NextToCongruent(x: int, w: u32)
    requires Congruent(x, w)
    ensures !Congruent(x - 1, w)
  {
    var k := (x - w) / 0x1_0000_0000;
    DivModUnique(x - 1 - w, 0x1_0000_0000, k - 1, 0xFFFF_FFFF);
  }

  // ---------------------------------------------------------------- results in a register

  /** A register-register operation other than multiplication and division. */
  ghost predicate IsResult(op: ArithOp, v: u32, w: u32, r: u32)
  {
    match op
    case Add => Congruent(v as int + w, r)
    case Sub => Congruent(v as int - w, r)
    case AndOp => forall j: nat :: j < 32 ==> (Bit(r, j) <==> Bit(v, j) && Bit(w, j))
    case OrOp => forall j: nat :: j < 32 ==> (Bit(r, j) <==> Bit(v, j) || Bit(w, j))
    case XorOp => forall j: nat :: j < 32 ==> (Bit(r, j) <==> Bit(v, j) != Bit(w, j))
    case _ => true
  }

  lemma ArithConforms(op: ArithOp, v: u32, w: u32)
    ensures IsResult(op, v, w, ArithValue(op, v, w))
    ensures IsMultiplyOrDivide(op) ==> (Conforms(op, v, w, ArithValue(op, v, w)) <==> !NegatedQuotient(op, v, w))
  {
    hide And, Or, Xor, Wrap, Signed, Bit, TruncDiv, TruncRem, Congruent, Conforms;
    if IsMultiplyOrDivide(op) { ConformsUnlessNegated(op, v, w); }
    WrapIsCongruent(v as int + w, Wrap(v as int + w));
    WrapIsCongruent(v as int - w, Wrap(v as int - w));
    forall j: nat ensures Bit(And(v, w), j) <==> Bit(v, j) && Bit(w, j) { AndBits(v, w, j); }
    forall j: nat ensures Bit(Or(v, w), j) <==> Bit(v, j) || Bit(w, j) { OrBits(v, w, j); }
    forall j: nat ensures Bit(Xor(v, w), j) <==> Bit(v, j) != Bit(w, j) { XorBits(v, w, j); }
  }

  /** The low five bits of `w` are the shift amount; a signed right shift rounds down. */
  ghost predicate IsShifted(op: CompareOp, v: u32, n: nat, r: u32)
  {
    match op
    case Sll => Congruent(v * Pow2(n), r)
    case Srl => r * Pow2(n) <= v < (r + 1) * Pow2(n)
    case Sra => forall x: int, z: int :: StandsFor(v, x) && StandsFor(r, z) ==> z * Pow2(n) <= x < (z + 1) * Pow2(n)
    case _ => true
  }

  /** One or zero, as the first number is smaller or not. */
  ghost predicate IsComparison(op: CompareOp, v: u32, w: u32, r: u32)
  {
    match op
    case Slt => forall x: int, y: int :: StandsFor(v, x) && StandsFor(w, y) ==> r == if x < y then 1 else 0
    case Sltu => r == if v < w then 1 else 0
    case _ => true
  }

  lemma ComparisonConforms(op: CompareOp, v: u32, w: u32)
    ensures IsComparison(op, v, w, CompareValue(op, v, w))
  {
    hide Signed, StandsFor, Pow2, Wrap;
    forall x: int, y: int | StandsFor(v, x) && StandsFor(w, y)
      ensures x == Signed(v) && y == Signed(w)
    {
      StandsForSigned(v, x);
      StandsForSigned(w, y);
    }
  }

  /** A quotient rounded down. */
  lemma FloorOf(x: int, p: nat)
    requires p > 0
    ensures x / p * p <= x < (x / p + 1) * p
  {
    MulSub(x / p, -1, p);
    assert x == p * (x / p) + x % p;
    MulCommutes(p, x / p);
  }

  lemma AwayFromZero(q: int, p: nat)
    requires p > 0
    ensures q >= 0 ==> q <= q * p
    ensures q <= 0 ==> q * p <= q
  {
    MulSub(p, 1, q);
    MulCommutes(p, q);
    assert q >= 0 ==> (p - 1) * q >= 0;
    assert q <= 0 ==> (p - 1) * -q >= 0;
  }

  lemma FloorFits(x: int, p: nat)
    requires p > 0
    ensures 0 <= x < 0x1_0000_0000 ==> 0 <= x / p < 0x1_0000_0000
    ensures -0x8000_0000 <= x < 0x8000_0000 ==> -0x8000_0000 <= x / p < 0x8000_0000
  {
    FloorOf(x, p);
    AwayFromZero(x / p, p);
    AwayFromZero(x / p + 1, p);
  }

  lemma ShiftConforms(op: CompareOp, v: u32, w: u32)
    ensures IsShifted(op, v, w % 32, CompareValue(op, v, w))
  {
    hide Signed, StandsFor, Pow2, Wrap, Congruent;
    var p, r := Pow2(w % 32), CompareValue(op, v, w);
    WrapIsCongruent(v * p, Wrap(v * p));
    FloorOf(v, p);
    FloorOf(Signed(v), p);
    FloorFits(v, p);
    FloorFits(Signed(v), p);
    SignedRange(v);
    WrapKeepsWord(v / p);
    SignedWrapped(Signed(v) / p);
    forall x: int, z: int | StandsFor(v, x) && StandsFor(r, z)
      ensures x == Signed(v) && z == Signed(r)
    {
      StandsForSigned(v, x);
      StandsForSigned(r, z);
    }
  }

  lemma WrapKeepsWord(x: int)
    ensures 0 <= x < 0x1_0000_0000 ==> Wrap(x) == x
  {
  }

  lemma SignedWrapped(x: int)
    ensures -0x8000_0000 <= x < 0x8000_0000 ==> Signed(Wrap(x)) == x
  {
  }

  /** What an instruction with a register result computes from the values it reads. */
  ghost predicate Computes(i: Instruction, v: u32, w: u32, pc: u32, r: u32)
  {
    match i
    case Arith(op, _, _, _) =>
      IsResult(op, v, w, r) && (IsMultiplyOrDivide(op) && !NegatedQuotient(op, v, w) ==> Conforms(op, v, w, r))
    case Compare(op, _, _, _) => IsComparison(op, v, w, r) && IsShifted(op, v, w % 32, r)
    case ArithImm(op, _, _, imm) => IsResult(RegisterForm(op), v, imm, r)
    case ShiftImm(op, _, _, shamt) => IsShifted(ShiftForm(op), v, shamt, r)
    case CompareImm(unsigned, _, _, imm) => IsComparison(if unsigned then Sltu else Slt, v, imm, r)
    case Upper(auipc, _, imm) => if auipc then Congruent(pc as int + imm, r) else r == imm
    case _ => true
  }

  /** The register-register operation of the same name. */
  function RegisterForm(op: ArithImmOp): ArithOp
  {
    match op
    case Addi => Add
    case Andi => AndOp
    case Ori => OrOp
    case Xori => XorOp
  }

  function ShiftForm(op: ShiftImmOp): CompareOp
  {
    match op
    case Slli => Sll
    case Srli => Srl
    case Srai => Sra
  }

  predicate HasResult(i: Instruction)
  {
    i.Arith? || i.Compare? || i.ArithImm? || i.ShiftImm? || i.CompareImm? || i.Upper?
  }

  lemma AndCommutes(x: nat, y: nat)
    ensures And(x, y) == And(y, x)
  {
  }

  lemma OrCommutes(x: nat, y: nat)
    ensures Or(x, y) == Or(y, x)
    decreases x + y
  {
  }

  lemma XorCommutes(x: nat, y: nat)
    ensures Xor(x, y) == Xor(y, x)
    decreases x + y
  {
  }

  lemma ImmediateConforms(op: ArithImmOp, v: u32, imm: u32)
    ensures IsResult(RegisterForm(op), v, imm, ArithImmValue(op, v, imm))
  {
    hide And, Or, Xor, IsResult;
    AndCommutes(v, imm);
    OrCommutes(v, imm);
    XorCommutes(v, imm);
    ArithConforms(RegisterForm(op), v, imm);
  }

  lemma ShiftImmConforms(op: ShiftImmOp, v: u32, shamt: Reg)
    ensures IsShifted(ShiftForm(op), v, shamt, ShiftImmValue(op, v, shamt))
  {
    hide Pow2, Signed, Wrap, IsShifted;
    ShiftConforms(ShiftForm(op), v, shamt);
  }

  /** An instruction with a register result reads its source registers, delivers what the
      architecture asks for, and goes on to the next instruction. With register zero as its
      target it does nothing, and reads nothing. */
  lemma ResultConforms(m: State, i: Instruction)
    requires Valid(m) && HasResult(i)
    ensures InstructionOutcome(m, i).Does?
    ensures var e := InstructionOutcome(m, i).effect;
            && Delivers(i.rd, e) && !e.halts && Congruent(m.pc.address + 4, e.next.address) && e.next.micro == 0
            && (i.rd == 0 ==> e.read1 == Nowhere && e.read2 == Nowhere)
            && (i.rd != 0 ==>
                  && e.read1 == (if i.Upper? then Nowhere else AtReg(i.rs1))
                  && e.read2 == (if i.Arith? || i.Compare? then AtReg(i.rs2) else Nowhere)
                  && Computes(i, if i.Upper? then 0 else m.regs[i.rs1], if i.Arith? || i.Compare? then m.regs[i.rs2] else 0,
                              m.pc.address, e.write.value))
  {
    hide Ordered, Wrap, ArithValue, ArithHint, CompareValue, ArithImmValue, ShiftImmValue, IsResult, IsShifted, IsComparison,
         Conforms, NegatedQuotient, Congruent;
    WrapIsCongruent(m.pc.address + 4, Wrap(m.pc.address + 4));
    match i {
      case Arith(op, rd, rs1, rs2) => ArithConforms(op, m.regs[rs1], m.regs[rs2]);
      case Compare(op, rd, rs1, rs2) =>
        ComparisonConforms(op, m.regs[rs1], m.regs[rs2]);
        ShiftConforms(op, m.regs[rs1], m.regs[rs2]);
      case ArithImm(op, rd, rs1, imm) => ImmediateConforms(op, m.regs[rs1], imm);
      case ShiftImm(op, rd, rs1, shamt) => ShiftImmConforms(op, m.regs[rs1], shamt);
      case CompareImm(unsigned, rd, rs1, imm) => ComparisonConforms(if unsigned then Sltu else Slt, m.regs[rs1], imm);
      case Upper(auipc, rd, imm) => WrapIsCongruent(m.pc.address + imm, Wrap(m.pc.address + imm));
      case _ =>
    }
  }

  /** The call to exit, number 93 in register a7, ends the program: it reads a7 and a0, leaves the
      exit code in a0, and the program counter where it is. */
  lemma HaltConforms(m: State)
    requires Valid(m) && m.regs[17] == 93
    ensures InstructionOutcome(m, Ecall)
            == Does(Effect(AtReg(17), AtReg(10), ToReg(10, m.regs[10]), m.pc, halts := true))
  {
    hide Ordered;
  }

  /** Fences, breakpoints and calls other than the halt do nothing but go on. */
  lemma NothingConforms(m: State, i: Instruction)
    requires Valid(m) && (i.Ebreak? || i.Fence? || (i.Ecall? && m.regs[17] != 93))
    ensures InstructionOutcome(m, i).Does?
    ensures var e := InstructionOutcome(m, i).effect;
            && e.read1 == Nowhere && e.read2 == Nowhere && e.write == NoWrite && !e.halts && e.hint == None
            && Congruent(m.pc.address + 4, e.next.address) && e.next.micro == 0
  {
    hide Ordered, Wrap;
    WrapIsCongruent(m.pc.address + 4, Wrap(m.pc.address + 4));
  }
}
