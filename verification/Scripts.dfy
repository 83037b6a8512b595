/** The verification scripts on digits: each recomputes a step from its committed reads. */
module Scripts {
  import opened Bits
  import opened Options
  import opened Trace
  import W = WordBits
  import opened Nibbles
  import opened NibbleArithmetic
  import opened Multiplication
  import opened NibbleLogic
  import opened SignedProduct
  import D = Division
  import SD = SignedDivision
  import opened WordArithmetic
  import opened Shifts
  import opened Machine
  import opened ScriptOutcomes
  import opened Alignment

  /** A recomputed step; sums without carry may leave digits above 15 in the value. */
  datatype STraceStep = STraceStep(writeAdd: seq<nibble>, writeValue: seq<nat>, pc: seq<nibble>, micro: byte)

  predicate Denotes(s: STraceStep, t: TraceStep)
  {
    && s.writeAdd == NibblesOf(t.write1.address, 8)
    && s.writeValue == NibblesOf(t.write1.value, 8)
    && s.pc == NibblesOf(t.writePc.address, 8)
    && s.micro == t.writePc.micro
  }

  /** A script's result stands for the expected trace; when none is expected, the script fails
      or its result equals no committed word. */
  predicate Matches(result: Option<STraceStep>, expected: Option<TraceStep>)
  {
    match expected
    case Some(t) => result.Some? && Denotes(result.value, t)
    case None => result.None? || exists k :: 0 <= k < |result.value.writeValue| && result.value.writeValue[k] > 15
  }

  lemma RecordDenotes(add: seq<nibble>, value: seq<nibble>, pc: seq<nibble>, t: TraceStep)
    requires |add| == 8 && |value| == 8 && |pc| == 8
    requires Value(add) == t.write1.address && Value(value) == t.write1.value && Value(pc) == t.writePc.address
    ensures Denotes(STraceStep(add, value, pc, t.writePc.micro), t)
  {
    hide Value, NibblesOf;
    NibblesOfWord(add);
    NibblesOfWord(value);
    NibblesOfWord(pc);
  }

  lemma FullWord(ns: seq<nibble>)
    requires |ns| == 8
    ensures Extended(ns, 0) == ns
  {
  }

  /** Words as digits; addition of two words. */
  method AddWords(x: seq<nibble>, y: seq<nibble>) returns (sum: seq<nibble>)
    requires |x| == 8 && |y| == 8
    ensures |sum| == 8 && Value(sum) == Wrap(Value(x) + Value(y))
  {
    sum := AddWithBitExtension(x, y, 0);
    FullWord(y);
  }

  // ---------------------------------------------------------------- immediates

  /** The immediates of loads, stores and register-immediate instructions: twelve bits. */
  predicate IsShort(imm: u32)
  {
    imm < 0x800 || imm >= 0xFFFF_F800
  }

  lemma ShortMeans(imm: u32)
    ensures IsShort(imm) <==> -2048 <= Signed(imm) < 2048
  {
  }

  function ShortImmediate(imm: u32): (ns: seq<nibble>)
    ensures |ns| == 3
  {
    NibblesOf(imm % 4096, 3)
  }

  lemma ShortExtends(imm: u32)
    requires IsShort(imm)
    ensures Value(Extended(ShortImmediate(imm), SignDigit(ShortImmediate(imm)))) == imm
  {
    hide Value, Scaled;
    var ns := ShortImmediate(imm);
    ScaledOf3();
    ValueOfNibbles(imm % 4096, 3);
    TopDigit(ns);
    SignExtends(ns);
    WrapShort(imm);
  }

  lemma ScaledOf3()
    ensures Scaled(1, 3) == 4096
  {
    assert Scaled(1, 1) == 16;
    assert Scaled(1, 2) == 256;
  }

  lemma WrapShort(imm: u32)
    requires IsShort(imm)
    ensures 2 * (imm % 4096) < 4096 ==> Wrap(imm % 4096) == imm
    ensures 2 * (imm % 4096) >= 4096 ==> Wrap(imm % 4096 - 4096) == imm
  {
  }

  /** The address of a load or store, from the committed register value. */
  method MemoryAddress(value1: u32, imm: u32) returns (address: seq<nibble>)
    requires IsShort(imm)
    ensures |address| == 8 && Value(address) == Wrap(value1 + imm)
  {
    hide Value, NibblesOf;
    var ns := ShortImmediate(imm);
    address := AddWithBitExtension(NibblesOf(value1, 8), ns, SignDigit(ns));
    WordOfNibbles(value1);
    ShortExtends(imm);
  }

  // ---------------------------------------------------------------- jumps, branches and calls

  method OpNop(r: ScriptRead) returns (result: Option<STraceStep>)
    ensures Matches(result, NopScript(r))
  {
    hide Value, NibblesOf;
    if r.memWitness != WitnessByte(NO_WITNESS) { return None; }
    var zero := NibblesOf(0, 8);
    var pc := PcNext(NibblesOf(r.pc, 8));
    WordOfNibbles(0);
    WordOfNibbles(r.pc);
    RecordDenotes(zero, zero, pc, NopScript(r).value);
    result := Some(STraceStep(zero, zero, pc, 0));
  }

  method OpEcall(r: ScriptRead, base: RegisterBase) returns (result: Option<STraceStep>)
    ensures Matches(result, EcallScript(r, base))
  {
    hide Value, NibblesOf;
    WordOfNibbles(r.value1);
    WordOfNibbles(93);
    var halting := IsEqualTo(NibblesOf(r.value1, 8), NibblesOf(93, 8));
    if !halting {
      result := OpNop(r);
    } else if r.memWitness != WitnessByte(MemoryWitness(Register, Register, Register)) || r.value2 != 0
              || r.add2 != RegisterAt(base, REGISTER_A0) || r.add1 != RegisterAt(base, REGISTER_A7) {
      result := None;
    } else {
      result := Some(STraceStep(NibblesOf(RegisterAt(base, REGISTER_A0), 8), NibblesOf(r.value2, 8), NibblesOf(r.pc, 8), 0));
    }
  }

  /** The next program counter of a branch. */
  method BranchTarget(taken: bool, imm: u32, at: u32) returns (pc: seq<nibble>)
    ensures |pc| == 8 && Value(pc) == Wrap(at + if taken then imm else 4)
  {
    hide Value, NibblesOf;
    WordOfNibbles(at);
    WordOfNibbles(imm);
    if taken {
      pc := AddWords(NibblesOf(imm, 8), NibblesOf(at, 8));
    } else {
      pc := PcNext(NibblesOf(at, 8));
    }
  }

  method OpConditional(op: BranchOp, rs1: Reg, rs2: Reg, imm: u32, r: ScriptRead, base: RegisterBase)
    returns (result: Option<STraceStep>)
    ensures Matches(result, BranchScript(op, rs1, rs2, imm, r, base))
  {
    hide Value, NibblesOf, SignedValue, Wrap, Signed;
    var lower := op == Blt || op == Bge || op == Bltu || op == Bgeu;
    var unsigned := op == Bltu || op == Bgeu;
    var inverse := op == Bne || op == Bge || op == Bgeu;
    if r.memWitness != WitnessByte(MemoryWitness(Register, Register, Unused)) { return None; }
    var valid1 := ValidateRegisterAddress(r.add1, rs1, base);
    var valid2 := ValidateRegisterAddress(r.add2, rs2, base);
    if !valid1 || !valid2 { return None; }
    var value1, value2 := NibblesOf(r.value1, 8), NibblesOf(r.value2, 8);
    WordOfNibbles(r.value1);
    WordOfNibbles(r.value2);
    SignedWord(value1);
    SignedWord(value2);
    var condition;
    if lower {
      condition := IsLowerThan(value1, value2, unsigned);
    } else {
      condition := IsEqualTo(value1, value2);
    }
    if inverse { condition := !condition; }
    assert condition == Condition(op, r.value1, r.value2);
    var pc := BranchTarget(condition, imm, r.pc);
    var zero := NibblesOf(0, 8);
    WordOfNibbles(0);
    RecordDenotes(zero, zero, pc, BranchScript(op, rs1, rs2, imm, r, base).value);
    result := Some(STraceStep(zero, zero, pc, 0));
  }

  /** The link of a jump: nothing for register zero, otherwise the next program counter. */
  method StoreIfNotZero(rd: Reg, r: ScriptRead, read1: Access, base: RegisterBase)
    returns (written: Option<(seq<nibble>, seq<nibble>)>)
    ensures written.Some? <==> Witnessed(r, read1, Unused, if rd == 0 then Unused else Register)
    ensures written.Some? ==> |written.value.0| == 8 && |written.value.1| == 8
    ensures written.Some? ==> Value(written.value.0) == if rd == 0 then 0 else RegisterAt(base, rd)
    ensures written.Some? ==> Value(written.value.1) == if rd == 0 then 0 else Wrap(r.pc + 4)
  {
    hide Value, NibblesOf;
    WordOfNibbles(0);
    WordOfNibbles(r.pc);
    WordOfNibbles(RegisterAt(base, rd));
    OperandIsZero(rd);
    var operand := RegisterOperand(rd);
    if (operand[0] as int) + operand[1] == 0 {
      if r.memWitness != WitnessByte(MemoryWitness(read1, Unused, Unused)) { return None; }
      return Some((NibblesOf(0, 8), NibblesOf(0, 8)));
    }
    if r.memWitness != WitnessByte(MemoryWitness(read1, Unused, Register)) { return None; }
    var next := PcNext(NibblesOf(r.pc, 8));
    var address := RegisterWord(rd, base);
    return Some((address, next));
  }

  lemma OperandIsZero(idx: RegIndex)
    ensures var ns := RegisterOperand(idx); (ns[0] as int) + ns[1] == 0 <==> idx == 0
  {
    assert NibblesOf(4 * idx, 2) == NibblesOf(4 * idx / 16, 1) + [4 * idx % 16];
    assert NibblesOf(4 * idx / 16, 1) == [4 * idx / 16 % 16];
  }

  /** The write address of a register: six digits of the base, two of the register. */
  method RegisterWord(idx: RegIndex, base: RegisterBase) returns (address: seq<nibble>)
    ensures |address| == 8 && address == NibblesOf(RegisterAt(base, idx), 8) && Value(address) == RegisterAt(base, idx)
  {
    hide Value, NibblesOf;
    address := NibblesOf(base, 8)[..6] + RegisterOperand(idx);
    NibblesOfFile(base, 4 * idx);
    WordOfNibbles(RegisterAt(base, idx));
  }

  method OpJal(rd: Reg, imm: u32, r: ScriptRead, base: RegisterBase) returns (result: Option<STraceStep>)
    ensures Matches(result, JalScript(rd, imm, r, base))
  {
    hide Value, NibblesOf;
    var written := StoreIfNotZero(rd, r, Unused, base);
    if written.None? { return None; }
    WordOfNibbles(r.pc);
    WordOfNibbles(imm);
    var pc := AddWords(NibblesOf(r.pc, 8), NibblesOf(imm, 8));
    RecordDenotes(written.value.0, written.value.1, pc, JalScript(rd, imm, r, base).value);
    result := Some(STraceStep(written.value.0, written.value.1, pc, 0));
  }

  method OpJalr(rd: Reg, rs1: Reg, imm: u32, r: ScriptRead, base: RegisterBase) returns (result: Option<STraceStep>)
    requires IsShort(imm)
    ensures Matches(result, JalrScript(rd, rs1, imm, r, base))
  {
    hide Value, NibblesOf;
    var valid := ValidateRegisterAddress(r.add1, rs1, base);
    if !valid { return None; }
    var written := StoreIfNotZero(rd, r, Register, base);
    if written.None? { return None; }
    var pc := MemoryAddress(r.value1, imm);
    RecordDenotes(written.value.0, written.value.1, pc, JalrScript(rd, rs1, imm, r, base).value);
    result := Some(STraceStep(written.value.0, written.value.1, pc, 0));
  }

  // ---------------------------------------------------------------- arithmetic

  /** A register write followed by the next instruction. */
  method RegisterResult(rd: Reg, value: seq<nibble>, pc: u32, base: RegisterBase, ghost v: u32) returns (result: Option<STraceStep>)
    requires |value| == 8 && Value(value) == v
    ensures Matches(result, Written(RegisterAt(base, rd), v, Wrap(pc + 4), 0))
  {
    hide Value, NibblesOf;
    var address := RegisterWord(rd, base);
    WordOfNibbles(pc);
    var next := PcNext(NibblesOf(pc, 8));
    RecordDenotes(address, value, next, Written(RegisterAt(base, rd), v, Wrap(pc + 4), 0).value);
    result := Some(STraceStep(address, value, next, 0));
  }

  method IsLowerThanSlti(value: seq<nibble>, than: seq<nibble>, unsigned: bool, immediate: bool) returns (word: seq<nibble>)
    requires |value| == 8 && |than| == if immediate then 3 else 8
    ensures |word| == 8
    ensures var other := if immediate then Extended(than, SignDigit(than)) else than;
            Value(word) == if (if unsigned then Value(value) < Value(other) else SignedValue(value) < SignedValue(other)) then 1 else 0
  {
    hide Value, Scaled;
    var other := than;
    if immediate { other := BitExtend(than); }
    var lower := IsLowerThan(value, other, unsigned);
    word := [0, 0, 0, 0, 0, 0, 0, if lower then 1 else 0];
    OneDigitWord(word[7]);
  }

  lemma OneDigitWord(d: nibble)
    ensures Value([0, 0, 0, 0, 0, 0, 0, d]) == d
  {
    hide Value, Scaled;
    assert [0, 0, 0, 0, 0, 0, 0, d] == seq(7, _ => 0) + [d];
    ValueOfConcat(seq(7, _ => 0), [d]);
    ValueOfZeros(7);
    ValueOfOne(d);
    ScaledGrows(0, 0, 1);
  }

  function LogicOf(op: ArithOp): LogicOperation
    requires op == XorOp || op == AndOp || op == OrOp
  {
    if op == XorOp then LogicXor else if op == AndOp then LogicAnd else LogicOr
  }

  lemma LogicAgrees(op: ArithOp, x: u32, y: u32)
    requires op == XorOp || op == AndOp || op == OrOp
    ensures WordLogic(LogicOf(op), x, y) == ArithValue(op, x, y)
  {
  }

  /** A signed division multiplies magnitudes only after its divisor, signs and remainder test. */
  predicate SignedInTables(x: u32, y: u32, quotient: u32, remainder: u32)
  {
    y != 0 && y != 0xFFFF_FFFF && SD.SignsAgree(x, y, quotient, remainder)
    && MagnitudeOfWord(remainder) < MagnitudeOfWord(y)
    ==> ColumnsFit(Columns(Magnitude(NibblesOf(y, 8)), Magnitude(NibblesOf(quotient, 8))))
  }

  /** The operands for which a multiplication or division stays inside the lookup tables. */
  predicate InTables(op: ArithOp, x: u32, y: u32, committed: u32, hint: u32)
  {
    var a, b := NibblesOf(x, 8), NibblesOf(y, 8);
    match op
    case Mul | Mulhu => ColumnsFit(Columns(a, b))
    case Mulh => ColumnsFit(Columns(Magnitude(a), Magnitude(b)))
    case Mulhsu => ColumnsFit(Columns(Magnitude(a), b))
    case Divu => hint < y ==> ColumnsFit(Columns(b, NibblesOf(committed, 8)))
    case Remu => committed < y ==> ColumnsFit(Columns(b, NibblesOf(hint, 8)))
    case Div => SignedInTables(x, y, committed, hint)
    case Rem => SignedInTables(x, y, hint, committed)
    case _ => true
  }

  lemma MagnitudeOfNibbles(x: u32)
    ensures |Magnitude(NibblesOf(x, 8))| == 8 && Value(Magnitude(NibblesOf(x, 8))) == MagnitudeOfWord(x)
  {
    hide Value, NibblesOf, Magnitude;
    WordOfNibbles(x);
    SD.MagnitudeIsWord(NibblesOf(x, 8));
  }

  /** The factors of a multiplication: words or magnitudes. */
  function Factors(op: ArithOp, x: u32, y: u32): (u32, u32)
  {
    match op
    case Mulh => (MagnitudeOfWord(x), MagnitudeOfWord(y))
    case Mulhsu => (MagnitudeOfWord(x), y)
    case _ => (x, y)
  }

  /** The emulator's own divisions stay inside the tables, and so does every multiplication
      whose factors have a product below 2^32. */
  lemma HonestOperandsStayInTables(op: ArithOp, x: u32, y: u32)
    requires op == Mul || op == Mulh || op == Mulhsu || op == Mulhu ==> Factors(op, x, y).0 * Factors(op, x, y).1 < 0x1_0000_0000
    ensures InTables(op, x, y, ArithValue(op, x, y), if ArithHint(op, x, y).Some? then ArithHint(op, x, y).value else 0)
  {
    hide Value, NibblesOf, Columns, ColumnsFit, ArithValue, ArithHint, Magnitude, MagnitudeOfWord, SD.SignsAgree, SD.SignedAccepted;
    WordOfNibbles(x);
    WordOfNibbles(y);
    MagnitudeOfNibbles(x);
    MagnitudeOfNibbles(y);
    var hint := if ArithHint(op, x, y).Some? then ArithHint(op, x, y).value else 0;
    var quotient := if op == Div then ArithValue(op, x, y) else hint;
    match op {
      case Divu | Remu => if y != 0 { D.HonestDivisionPasses(op, x, y); }
      case Div | Rem =>
        if y != 0 && y != 0xFFFF_FFFF {
          SD.HonestSignedDivision(op, x, y);
          MagnitudeOfNibbles(quotient);
          WordProductsFit(Magnitude(NibblesOf(y, 8)), Magnitude(NibblesOf(quotient, 8)));
        }
      case Mulh => WordProductsFit(Magnitude(NibblesOf(x, 8)), Magnitude(NibblesOf(y, 8)));
      case Mulhsu => WordProductsFit(Magnitude(NibblesOf(x, 8)), NibblesOf(y, 8));
      case Mul | Mulhu => WordProductsFit(NibblesOf(x, 8), NibblesOf(y, 8));
      case _ =>
    }
  }

  /** The value of a register-register operation other than a division. */
  method ArithmeticWord(op: ArithOp, x: u32, y: u32) returns (value: seq<nibble>)
    requires !IsDivision(op) && InTables(op, x, y, 0, 0)
    ensures |value| == 8 && Value(value) == ArithValue(op, x, y)
  {
    hide Value, Scaled, NibblesOf, Columns, ColumnsFit, WordLogic, And, Or, Xor;
    var a, b := NibblesOf(x, 8), NibblesOf(y, 8);
    WordOfNibbles(x);
    WordOfNibbles(y);
    value := a;
    match op {
      case Mul => value := Multiply(a, b, LowPart);
      case Mulhu => value := Multiply(a, b, HighPart); HighWordIsSmall(value, x * y);
      case Mulh => value := SignedProduct.Mulh(a, b, false);
      case Mulhsu => value := SignedProduct.Mulh(a, b, true);
      case Sub => value := NibbleArithmetic.Sub(a, b);
      case Add => value := AddWords(a, b);
      case XorOp | AndOp | OrOp =>
        FullWord(b);
        LogicAgrees(op, x, y);
        value := LogicWithBitExtension(a, b, 0, LogicOf(op));
      case _ =>
    }
  }

  lemma HighWordIsSmall(value: seq<nibble>, product: nat)
    requires |value| == 8 && Value(value) == product / 0x1_0000_0000
    ensures Value(value) == Wrap(product / 0x1_0000_0000)
  {
    WordIsBelow(value);
  }

  /** The value of a comparison or shift by a register. */
  method CompareWord(op: CompareOp, x: u32, y: u32) returns (value: seq<nibble>)
    ensures |value| == 8 && Value(value) == CompareValue(op, x, y)
  {
    hide Value, Scaled, NibblesOf, Shifted, CompareValue, SignedValue, Signed;
    var a, b := NibblesOf(x, 8), NibblesOf(y, 8);
    WordOfNibbles(x);
    WordOfNibbles(y);
    SignedWord(a);
    SignedWord(b);
    ShiftsAreTheEmulators(x, y);
    ComparisonsAre(x, y);
    match op {
      case Slt => value := IsLowerThanSlti(a, b, false, false);
      case Sltu => value := IsLowerThanSlti(a, b, true, false);
      case _ =>
        var amount := LowFiveBits(b);
        value := ShiftValueWithBits(a, amount, op != Sll, op == Sra);
    }
  }

  lemma ComparisonsAre(x: u32, y: u32)
    ensures CompareValue(Slt, x, y) == if Signed(x) < Signed(y) then 1 else 0
    ensures CompareValue(Sltu, x, y) == if x < y then 1 else 0
  {
  }

  /** The low five bits of a word: one bit of the seventh digit and the eighth. */
  method LowFiveBits(word: seq<nibble>) returns (amount: seq<nibble>)
    requires |word| == 8
    ensures |amount| == 2 && amount[0] <= 1 && Value(amount) == Value(word) % 32
  {
    var shiftLeft3: seq<nibble> := seq(16, i requires 0 <= i => i * 8 % 16);
    var shiftRight3: seq<nibble> := seq(16, i requires 0 <= i < 16 => i / 8);
    var low := Lookup(shiftRight3, Lookup(shiftLeft3, word[6]));
    amount := [low, word[7]];
    assert low == word[6] % 2;
    assert amount[..1] == [low];
    ValueOfOne(low);
    assert word[..7][..6] == word[..6];
    assert word[..|word| - 1] == word[..7];
    LastTwo(Value(word[..6]), word[6], word[7]);
  }

  lemma LastTwo(front: nat, d: nibble, e: nibble)
    ensures (16 * (16 * front + d) + e) % 32 == 16 * (d % 2) + e
  {
    var half, odd := d / 2, d % 2;
    assert d == 2 * half + odd;
    DivModUnique(16 * (16 * front + d) + e, 32, 8 * front + half, 16 * odd + e);
  }

  method OpArithmetic(i: Instruction, r: ScriptRead, committed: u32, hint: u32, base: RegisterBase)
    returns (result: Option<STraceStep>)
    requires (i.Arith? || i.Compare?) && i.rd != 0
    requires i.Arith? ==> InTables(i.arith, r.value1, r.value2, committed, hint)
    ensures Matches(result, ScriptOutcome(i, r, committed, hint, base))
  {
    hide Value, NibblesOf, Columns, ColumnsFit, ArithValue, CompareValue, DivisionAccepted;
    if r.memWitness != WitnessByte(MemoryWitness(Register, Register, Register)) { return None; }
    var valid1 := ValidateRegisterAddress(r.add1, i.rs1, base);
    var valid2 := ValidateRegisterAddress(r.add2, i.rs2, base);
    if !valid1 || !valid2 { return None; }
    match i {
      case Compare(op, rd, rs1, rs2) =>
        var value := CompareWord(op, r.value1, r.value2);
        result := RegisterResult(rd, value, r.pc, base, CompareValue(op, r.value1, r.value2));
      case Arith(op, rd, rs1, rs2) =>
        if IsDivision(op) {
          result := DivisionResult(op, rd, r, committed, hint, base);
        } else {
          var value := ArithmeticWord(op, r.value1, r.value2);
          result := RegisterResult(rd, value, r.pc, base, ArithValue(op, r.value1, r.value2));
        }
    }
  }

  /** The digits of a division's result, if its check passes. */
  method DivisionWord(op: ArithOp, x: u32, y: u32, committed: u32, hint: u32) returns (value: Option<seq<nibble>>)
    requires IsDivision(op) && InTables(op, x, y, committed, hint)
    ensures value.Some? <==> FixedDivisor(op, y) || DivisionAccepted(op, x, y, committed, hint)
    ensures value.Some? ==> |value.value| == 8
                            && Value(value.value) == if FixedDivisor(op, y) then ArithValue(op, x, y) else committed
  {
    hide Value, NibblesOf, Columns, ColumnsFit, Magnitude, D.Accepted, SD.SignedAccepted, SD.SignsAgree, MagnitudeOfWord;
    var dividend, divisor := NibblesOf(x, 8), NibblesOf(y, 8);
    var written, other := NibblesOf(committed, 8), NibblesOf(hint, 8);
    WordOfNibbles(x);
    WordOfNibbles(y);
    WordOfNibbles(committed);
    WordOfNibbles(hint);
    WordOfNibbles(0xFFFF_FFFF);
    WordOfNibbles(0);
    match op {
      case Divu => value := D.Divu(dividend, divisor, written, other);
      case Remu => value := D.Remu(dividend, divisor, written, other);
      case Div => value := SD.DivScript(dividend, divisor, written, other);
      case _ => value := SD.RemScript(dividend, divisor, written, other);
    }
  }

  /** A division: the committed result and the hint are checked as quotient and remainder. */
  method DivisionResult(op: ArithOp, rd: Reg, r: ScriptRead, committed: u32, hint: u32, base: RegisterBase)
    returns (result: Option<STraceStep>)
    requires IsDivision(op) && rd != 0 && InTables(op, r.value1, r.value2, committed, hint)
    ensures FixedDivisor(op, r.value2) ==>
              Matches(result, Written(RegisterAt(base, rd), ArithValue(op, r.value1, r.value2), Wrap(r.pc + 4), 0))
    ensures !FixedDivisor(op, r.value2) ==>
              Matches(result, When(DivisionAccepted(op, r.value1, r.value2, committed, hint),
                                   Written(RegisterAt(base, rd), committed, Wrap(r.pc + 4), 0)))
  {
    hide Value, NibblesOf, InTables, DivisionAccepted, ArithValue;
    var value := DivisionWord(op, r.value1, r.value2, committed, hint);
    if value.None? { return None; }
    result := RegisterResult(rd, value.value, r.pc, base,
                             if FixedDivisor(op, r.value2) then ArithValue(op, r.value1, r.value2) else committed);
  }

  function LogicOfImmediate(op: ArithImmOp): LogicOperation
    requires op != Addi
  {
    if op == Xori then LogicXor else if op == Andi then LogicAnd else LogicOr
  }

  lemma LogicImmediateAgrees(op: ArithImmOp, x: u32, imm: u32)
    requires op != Addi
    ensures WordLogic(LogicOfImmediate(op), x, imm) == ArithImmValue(op, x, imm)
  {
    hide And, Or, Xor;
    WordBitsCommute(x, imm);
  }

  lemma WordBitsCommute(x: nat, y: nat)
    ensures And(x, y) == And(y, x) && Or(x, y) == Or(y, x) && Xor(x, y) == Xor(y, x)
  {
    hide And, Or, Xor;
    W.AndCommutes(x, y);
    W.OrCommutes(x, y);
    XorCommutes(x, y);
  }

  function ImmediateValue(i: Instruction, x: u32): u32
    requires i.ArithImm? || i.ShiftImm? || i.CompareImm?
  {
    match i
    case ArithImm(op, _, _, imm) => ArithImmValue(op, x, imm)
    case ShiftImm(op, _, _, shamt) => ShiftImmValue(op, x, shamt)
    case CompareImm(unsigned, _, _, imm) => CompareValue(if unsigned then Sltu else Slt, x, imm)
  }

  method ImmediateWord(i: Instruction, x: u32) returns (value: seq<nibble>)
    requires i.ArithImm? || i.ShiftImm? || i.CompareImm?
    requires i.ArithImm? || i.CompareImm? ==> IsShort(i.imm)
    ensures |value| == 8 && Value(value) == ImmediateValue(i, x)
  {
    hide Value, Scaled, NibblesOf, Shifted, SignedValue, Signed, WordLogic, ArithImmValue, CompareValue, ShiftImmValue;
    var a := NibblesOf(x, 8);
    WordOfNibbles(x);
    SignedWord(a);
    match i {
      case ArithImm(op, _, _, imm) =>
        ShortExtends(imm);
        AdditionIs(x, imm);
        var ns := ShortImmediate(imm);
        if op == Addi {
          value := AddWithBitExtension(a, ns, SignDigit(ns));
        } else {
          value := LogicWithBitExtension(a, ns, SignDigit(ns), LogicOfImmediate(op));
          LogicImmediateAgrees(op, x, imm);
        }
      case ShiftImm(op, _, _, shamt) =>
        var amount := NibblesOf(shamt, 2);
        ShiftAmount(shamt);
        ImmediateShifts(x, shamt);
        value := ShiftValueWithBits(a, amount, op != Slli, op == Srai);
      case CompareImm(unsigned, _, _, imm) =>
        ShortExtends(imm);
        var ns := ShortImmediate(imm);
        SignedWord(Extended(ns, SignDigit(ns)));
        ComparisonsAre(x, imm);
        value := IsLowerThanSlti(a, ns, unsigned, true);
    }
  }

  lemma AdditionIs(x: u32, imm: u32)
    ensures ArithImmValue(Addi, x, imm) == (x + imm) % 0x1_0000_0000
  {
  }

  lemma ShiftAmount(shamt: Reg)
    ensures var ns := NibblesOf(shamt, 2); ns[0] <= 1 && Value(ns) == shamt
  {
    assert Scaled(1, 1) == 16;
    assert Scaled(1, 2) == 256;
    ValueOfNibbles(shamt, 2);
    assert NibblesOf(shamt, 2) == NibblesOf(shamt / 16, 1) + [shamt % 16];
    assert NibblesOf(shamt / 16, 1) == [shamt / 16 % 16];
  }

  lemma ImmediateShifts(x: u32, shamt: Reg)
    ensures ShiftImmValue(Slli, x, shamt) == Shifted(x, shamt, false, false)
    ensures ShiftImmValue(Srli, x, shamt) == Shifted(x, shamt, true, false)
    ensures ShiftImmValue(Srai, x, shamt) == Shifted(x, shamt, true, true)
  {
  }

  method OpArithmeticImm(i: Instruction, r: ScriptRead, base: RegisterBase) returns (result: Option<STraceStep>)
    requires (i.ArithImm? || i.ShiftImm? || i.CompareImm?) && i.rd != 0
    requires i.ArithImm? || i.CompareImm? ==> IsShort(i.imm)
    ensures Matches(result, ImmediateScript(i.rd, i.rs1, ImmediateValue(i, r.value1), r, base))
  {
    hide Value, NibblesOf, ImmediateValue;
    if r.memWitness != WitnessByte(MemoryWitness(Register, Unused, Register)) { return None; }
    var valid := ValidateRegisterAddress(r.add1, i.rs1, base);
    if !valid { return None; }
    var value := ImmediateWord(i, r.value1);
    result := RegisterResult(i.rd, value, r.pc, base, ImmediateValue(i, r.value1));
  }

  method OpUpper(auipc: bool, rd: Reg, imm: u32, r: ScriptRead, base: RegisterBase) returns (result: Option<STraceStep>)
    ensures Matches(result, UpperScript(auipc, rd, imm, r, base))
  {
    hide Value, NibblesOf;
    if r.memWitness != WitnessByte(MemoryWitness(Unused, Unused, Register)) { return None; }
    var value := NibblesOf(imm, 8);
    WordOfNibbles(imm);
    WordOfNibbles(r.pc);
    if auipc { value := AddWords(NibblesOf(r.pc, 8), value); }
    result := RegisterResult(rd, value, r.pc, base, if auipc then Wrap(r.pc + imm) else imm);
  }
}
