/** Loads and stores against byte-addressed memory: the masks, moves and merges of the
    micro-steps put exactly the requested bytes in place. */
module ByteMemory {
  import opened Bits
  import opened WordBits
  import opened Options
  import opened Trace
  import opened SectionMemory
  import opened Machine
  import opened Runs

  function StoreWidth(op: StoreOp): nat
  {
    match op
    case Sb => 1
    case Sh => 2
    case Sw => 4
  }

  function LoadWidth(op: LoadOp): (width: nat)
    ensures width <= 4
  {
    match op
    case Lb | Lbu => 1
    case Lh | Lhu => 2
    case Lw => 4
  }

  /** Byte `i` of a word, counting from the least significant; 0 outside the word. */
  function ByteOf(w: u32, i: int): byte
  {
    if i == 0 then Byte0(w) else if i == 1 then Byte1(w) else if i == 2 then Byte2(w) else if i == 3 then Byte3(w) else 0
  }

  function Select(i: int, b0: byte, b1: byte, b2: byte, b3: byte): byte
  {
    if i == 0 then b0 else if i == 1 then b1 else if i == 2 then b2 else if i == 3 then b3 else 0
  }

  lemma WrapDrops(a: int, k: int)
    requires 0 <= a < 0x1_0000_0000
    ensures Wrap(a + 0x1_0000_0000 * k) == a
  {
  }

  lemma MovedUp(b0: byte, b1: byte, b2: byte, b3: byte)
    ensures MoveBytes(Word(b0, b1, b2, b3), 1) == Word(0, b0, b1, b2)
    ensures MoveBytes(Word(b0, b1, b2, b3), 2) == Word(0, 0, b0, b1)
    ensures MoveBytes(Word(b0, b1, b2, b3), 3) == Word(0, 0, 0, b0)
  {
    hide Wrap;
    WrapDrops(256 * b0 + 65536 * b1 + 16777216 * b2, b3);
    WrapDrops(65536 * b0 + 16777216 * b1, b2 + 256 * b3);
    WrapDrops(16777216 * b0, b1 + 256 * b2 + 65536 * b3);
  }

  lemma MovedDown(b0: byte, b1: byte, b2: byte, b3: byte)
    ensures MoveBytes(Word(b0, b1, b2, b3), -1) == Word(b1, b2, b3, 0)
    ensures MoveBytes(Word(b0, b1, b2, b3), -2) == Word(b2, b3, 0, 0)
    ensures MoveBytes(Word(b0, b1, b2, b3), -3) == Word(b3, 0, 0, 0)
  {
    var w: int := Word(b0, b1, b2, b3);
    assert w / 256 == b1 + 256 * b2 + 65536 * b3;
    assert w / 65536 == b2 + 256 * b3;
    assert w / 16777216 == b3;
  }

  lemma MovedWord(b0: byte, b1: byte, b2: byte, b3: byte, m: int)
    requires -3 <= m <= 3
    ensures MoveBytes(Word(b0, b1, b2, b3), m)
            == Word(Select(0 - m, b0, b1, b2, b3), Select(1 - m, b0, b1, b2, b3),
                    Select(2 - m, b0, b1, b2, b3), Select(3 - m, b0, b1, b2, b3))
  {
    hide Word;
    MovedUp(b0, b1, b2, b3);
    MovedDown(b0, b1, b2, b3);
  }

  lemma ChosenByte(k: bool, x: byte, s: byte)
    requires !k || s == 0
    ensures Kept(k, x) == 0 || s == 0
    ensures Either(Kept(k, x), s) == if k then x else s
  {
  }

  /** Which bytes of a word are kept or taken. */
  datatype Flags = Flags(f0: bool, f1: bool, f2: bool, f3: bool)

  datatype Bytes = Bytes(b0: byte, b1: byte, b2: byte, b3: byte)

  function ToWord(b: Bytes): u32
  {
    Word(b.b0, b.b1, b.b2, b.b3)
  }

  function BytesOf(w: u32): Bytes
  {
    Bytes(Byte0(w), Byte1(w), Byte2(w), Byte3(w))
  }

  function FlagMask(f: Flags): u32
  {
    MaskOf(f.f0, f.f1, f.f2, f.f3)
  }

  /** The taken bytes, moved up by `m`. */
  function Moved(t: Flags, v: Bytes, m: int): Bytes
  {
    var (m0, m1, m2, m3) := (Kept(t.f0, v.b0), Kept(t.f1, v.b1), Kept(t.f2, v.b2), Kept(t.f3, v.b3));
    Bytes(Select(0 - m, m0, m1, m2, m3), Select(1 - m, m0, m1, m2, m3),
          Select(2 - m, m0, m1, m2, m3), Select(3 - m, m0, m1, m2, m3))
  }

  /** The kept bytes of `x`, the others from `s`. */
  function Filled(k: Flags, x: Bytes, s: Bytes): Bytes
  {
    Bytes(if k.f0 then x.b0 else s.b0, if k.f1 then x.b1 else s.b1,
          if k.f2 then x.b2 else s.b2, if k.f3 then x.b3 else s.b3)
  }

  ghost predicate Vacant(k: Flags, s: Bytes)
  {
    (!k.f0 || s.b0 == 0) && (!k.f1 || s.b1 == 0) && (!k.f2 || s.b2 == 0) && (!k.f3 || s.b3 == 0)
  }

  lemma MergedBytes(k: Flags, x: Bytes, s: Bytes)
    requires Vacant(k, s)
    ensures Or(And(FlagMask(k), ToWord(x)), ToWord(s)) == ToWord(Filled(k, x, s))
  {
    hide And, Or, Word, MaskOf, Kept, Either;
    MaskBytes(k.f0, k.f1, k.f2, k.f3, x.b0, x.b1, x.b2, x.b3);
    ChosenByte(k.f0, x.b0, s.b0);
    ChosenByte(k.f1, x.b1, s.b1);
    ChosenByte(k.f2, x.b2, s.b2);
    ChosenByte(k.f3, x.b3, s.b3);
    OrDisjointBytes(Kept(k.f0, x.b0), Kept(k.f1, x.b1), Kept(k.f2, x.b2), Kept(k.f3, x.b3), s.b0, s.b1, s.b2, s.b3);
  }

  lemma TakenBytes(t: Flags, v: Bytes, m: int)
    requires -3 <= m <= 3
    ensures MoveBytes(And(FlagMask(t), ToWord(v)), m) == ToWord(Moved(t, v, m))
  {
    hide And, Word, MoveBytes, MaskOf, Select, Kept;
    MaskBytes(t.f0, t.f1, t.f2, t.f3, v.b0, v.b1, v.b2, v.b3);
    MovedWord(Kept(t.f0, v.b0), Kept(t.f1, v.b1), Kept(t.f2, v.b2), Kept(t.f3, v.b3), m);
  }

  /** The word four micro-steps of a store leave in the first auxiliary register. */
  function StoredWord(mask: StoreMask, x: u32, v: u32): u32
  {
    Or32(And(mask.keep, x), MoveBytes(And(mask.take, v), mask.move))
  }

  lemma StoredBytes(mask: StoreMask, k: Flags, t: Flags, x: u32, v: u32)
    requires mask.keep == FlagMask(k) && mask.take == FlagMask(t) && -3 <= mask.move <= 3
    requires Vacant(k, Moved(t, BytesOf(v), mask.move))
    ensures StoredWord(mask, x, v) == ToWord(Filled(k, BytesOf(x), Moved(t, BytesOf(v), mask.move)))
  {
    hide And, Or, MoveBytes, FlagMask, Moved, Vacant, Filled;
    WordOfBytes(x);
    WordOfBytes(v);
    TakenBytes(t, BytesOf(v), mask.move);
    MergedBytes(k, BytesOf(x), Moved(t, BytesOf(v), mask.move));
  }

  /** A word whose bytes `from .. from + count` come from `v`, starting at its byte `first`;
      the others are those of `x`. */
  function Spliced(x: u32, v: u32, from: int, count: int, first: int): Bytes
  {
    Bytes(if from <= 0 < from + count then ByteOf(v, first - from) else Byte0(x),
          if from <= 1 < from + count then ByteOf(v, first + 1 - from) else Byte1(x),
          if from <= 2 < from + count then ByteOf(v, first + 2 - from) else Byte2(x),
          if from <= 3 < from + count then ByteOf(v, first + 3 - from) else Byte3(x))
  }

  /** The flags behind the mask tables. */
  function FlagsRound1(op: StoreOp, alignment: nat): (Flags, Flags)
  {
    match op
    case Sb =>
      (Flags(alignment != 0, alignment != 1, alignment != 2, alignment != 3), Flags(true, false, false, false))
    case Sh =>
      if alignment == 0 then (Flags(false, false, true, true), Flags(true, true, false, false))
      else if alignment == 1 then (Flags(true, false, false, true), Flags(true, true, false, false))
      else if alignment == 2 then (Flags(true, true, false, false), Flags(true, true, false, false))
      else (Flags(true, true, true, false), Flags(true, false, false, false))
    case Sw =>
      if alignment == 1 then (Flags(true, false, false, false), Flags(true, true, true, false))
      else if alignment == 2 then (Flags(true, true, false, false), Flags(true, true, false, false))
      else (Flags(true, true, true, false), Flags(true, false, false, false))
  }

  function FlagsRound2(op: StoreOp, alignment: nat): (Flags, Flags)
  {
    if op == Sh then (Flags(false, true, true, true), Flags(false, true, false, false))
    else if alignment == 1 then (Flags(false, true, true, true), Flags(false, false, false, true))
    else if alignment == 2 then (Flags(false, false, true, true), Flags(false, false, true, true))
    else (Flags(false, false, false, true), Flags(false, true, true, true))
  }

  lemma MaskConstants()
    ensures MaskOf(false, false, false, false) == 0x0000_0000
    ensures MaskOf(true, false, false, false) == 0x0000_00FF
    ensures MaskOf(false, true, false, false) == 0x0000_FF00
    ensures MaskOf(true, true, false, false) == 0x0000_FFFF
    ensures MaskOf(false, false, true, false) == 0x00FF_0000
    ensures MaskOf(true, false, true, false) == 0x00FF_00FF
    ensures MaskOf(false, true, true, false) == 0x00FF_FF00
    ensures MaskOf(true, true, true, false) == 0x00FF_FFFF
    ensures MaskOf(false, false, false, true) == 0xFF00_0000
    ensures MaskOf(true, false, false, true) == 0xFF00_00FF
    ensures MaskOf(false, true, false, true) == 0xFF00_FF00
    ensures MaskOf(true, true, false, true) == 0xFF00_FFFF
    ensures MaskOf(false, false, true, true) == 0xFFFF_0000
    ensures MaskOf(true, false, true, true) == 0xFFFF_00FF
    ensures MaskOf(false, true, true, true) == 0xFFFF_FF00
    ensures MaskOf(true, true, true, true) == 0xFFFF_FFFF
  {
  }

  lemma Masks1AreFlags(op: StoreOp, alignment: nat)
    requires MaskRound1(op, alignment).Some?
    ensures MaskRound1(op, alignment).value.keep == FlagMask(FlagsRound1(op, alignment).0)
    ensures MaskRound1(op, alignment).value.take == FlagMask(FlagsRound1(op, alignment).1)
  {
    hide MaskOf;
    MaskConstants();
  }

  lemma Masks2AreFlags(op: StoreOp, alignment: nat)
    requires MaskRound2(op, alignment).Some?
    ensures MaskRound2(op, alignment).value.keep == FlagMask(FlagsRound2(op, alignment).0)
    ensures MaskRound2(op, alignment).value.take == FlagMask(FlagsRound2(op, alignment).1)
  {
    hide MaskOf;
    MaskConstants();
  }

  /** What the first four micro-steps compute from the memory word `x` and the register `v`. */
  lemma StoreRound1(op: StoreOp, alignment: nat, x: u32, v: u32)
    requires MaskRound1(op, alignment).Some?
    ensures StoredWord(MaskRound1(op, alignment).value, x, v) == ToWord(Spliced(x, v, alignment, StoreWidth(op), 0))
  {
    hide StoredWord, ToWord, Byte0, Byte1, Byte2, Byte3, FlagMask;
    Masks1AreFlags(op, alignment);
    var (k, t) := FlagsRound1(op, alignment);
    StoredBytes(MaskRound1(op, alignment).value, k, t, x, v);
  }

  /** What the last four micro-steps compute from the next memory word. */
  lemma StoreRound2(op: StoreOp, alignment: nat, y: u32, v: u32)
    requires MaskRound2(op, alignment).Some?
    ensures StoredWord(MaskRound2(op, alignment).value, y, v)
            == ToWord(Spliced(y, v, 0, alignment + StoreWidth(op) - 4, 4 - alignment))
  {
    hide StoredWord, ToWord, Byte0, Byte1, Byte2, Byte3, FlagMask;
    Masks2AreFlags(op, alignment);
    var (k, t) := FlagsRound2(op, alignment);
    StoredBytes(MaskRound2(op, alignment).value, k, t, y, v);
  }

  // ---------------------------------------------------------------- micro-steps of a store

  /** The state after `n` steps, if all of them succeed. */
  ghost function Ticks(m: State, decode: Decoder, hf: Hasher, n: nat): (r: Option<State>)
    requires Valid(m) && m.step + n < LAST_STEP_INIT
    ensures r.Some? ==> Valid(r.value) && r.value.step == m.step + n
    decreases n
  {
    if n == 0 then Some(m)
    else
      match Tick(m, decode, hf)
      case Stepped(m', _) => TickChangesOnlyItsTrace(m, decode, hf); Ticks(m', decode, hf, n - 1)
      case _ => None
  }

  lemma {:induction false} TicksCompose(m: State, decode: Decoder, hf: Hasher, n: nat, k: nat)
    requires Valid(m) && m.step + n + k < LAST_STEP_INIT && Ticks(m, decode, hf, n).Some?
    ensures Ticks(m, decode, hf, n + k) == Ticks(Ticks(m, decode, hf, n).value, decode, hf, k)
    decreases n
  {
    hide Tick;
    if n > 0 {
      TickChangesOnlyItsTrace(m, decode, hf);
      TicksCompose(Tick(m, decode, hf).state, decode, hf, n - 1, k);
    }
  }

  /** The program counter is in code and names this instruction. */
  ghost predicate Fetches(m: State, decode: Decoder, i: Instruction)
    requires Valid(m)
  {
    && FindSection(m.sections, m.pc.address).Ok?
    && m.sections[FindSection(m.sections, m.pc.address).value].isCode
    && decode(ReadMem(m.sections, m.pc.address).value) == Some(i)
  }

  lemma WritesMissReadOnly(ss: seq<Section>, a: u32, v: u32, step: u64, pc: u32)
    requires Ordered(ss) && WriteMem(ss, a, v, step).Ok?
    requires FindSection(ss, pc).Ok?
    requires ss[FindSection(ss, pc).value].isCode || !ss[FindSection(ss, pc).value].isWrite
    ensures var ss', i := WriteMem(ss, a, v, step).value, FindSection(ss, pc).value;
            && Ordered(ss') && FindSection(ss', pc) == FindSection(ss, pc) && ReadMem(ss', pc) == ReadMem(ss, pc)
            && ss'[i].isCode == ss[i].isCode && ss'[i].isWrite == ss[i].isWrite
  {
    hide Locate, Ordered;
    WriteMemKeepsShape(ss, a, v, step);
    WriteMemExact(ss, a, v, step, pc);
    ValidSection(ss, FindSection(ss, pc).value);
    assert SameShape(ss[FindSection(ss, pc).value], WriteMem(ss, a, v, step).value[FindSection(ss, pc).value]);
    if SameWord(a, pc) {
      ReadsItsWord(ss, a, pc);
    }
  }

  /** One step of a fetched instruction: its effect is committed, and the code stays. */
  lemma TickOf(m: State, decode: Decoder, hf: Hasher, i: Instruction, e: Effect) returns (m': State)
    requires Valid(m) && Fetches(m, decode, i) && m.step + 1 < LAST_STEP_INIT
    requires InstructionOutcome(m.(step := m.step + 1), i) == Does(e)
    ensures Tick(m, decode, hf).Stepped? && m' == Tick(m, decode, hf).state && Valid(m')
    ensures Possible(m.(step := m.step + 1), e)
    ensures m' == Commit(m.(step := m.step + 1), e).(hash := m'.hash) && m'.step == m.step + 1
    ensures m'.pc == e.next
    ensures e.next.address == m.pc.address ==> Fetches(m', decode, i)
  {
    hide InstructionOutcome, Ordered, WriteMem, ReadAt;
    var m1 := m.(step := m.step + 1);
    OutcomeIsPossible(m1, i);
    m' := Tick(m, decode, hf).state;
    CommitKeepsPlaces(m1, e);
    if e.write.ToMem? {
      WriteOk(m.sections, e.write.address, e.write.value, m1.step);
      WritesMissReadOnly(m.sections, e.write.address, e.write.value, m1.step, m.pc.address);
    }
  }

  ghost predicate Writable(ss: seq<Section>, a: u32)
  {
    && FindSection(ss, a).Ok?
    && ss[FindSection(ss, a).value].isWrite && !ss[FindSection(ss, a).value].isCode
  }

  lemma WritableMeans(ss: seq<Section>, a: u32, v: u32, step: u64)
    requires Ordered(ss)
    ensures Writable(ss, a) <==> WriteMem(ss, a, v, step).Ok?
  {
  }

  /** Registers other than the auxiliary ones are unchanged. */
  ghost predicate SameRegisters(m: State, m': State)
  {
    && |m.regs| == |m'.regs| == REGISTERS
    && forall i: Reg :: m'.regs[i] == m.regs[i]
  }

  /** Two micro-steps fill the auxiliary registers, one merges them. */
  lemma FillAux(m: State, decode: Decoder, hf: Hasher, i: Instruction, e0: Effect, e1: Effect, v0: u32, v1: u32)
    returns (m': State)
    requires Valid(m) && Fetches(m, decode, i) && m.step + 3 < LAST_STEP_INIT && m.pc.micro < 200
    requires InstructionOutcome(m.(step := m.step + 1), i) == Does(e0)
    requires e0.write == ToReg(AUX1, v0) && e0.next == NextMicro(m.pc) && !e0.halts
    requires e1.write == ToReg(AUX2, v1) && e1.next == NextMicro(NextMicro(m.pc)) && !e1.halts
    requires forall n: State :: Valid(n) && SameRegisters(m, n) && n.sections == m.sections && n.pc == NextMicro(m.pc)
                                ==> InstructionOutcome(n, i) == Does(e1)
    ensures Ticks(m, decode, hf, 2) == Some(m') && Fetches(m', decode, i)
    ensures m'.pc == NextMicro(NextMicro(m.pc)) && m'.sections == m.sections && SameRegisters(m, m') && m'.halt == m.halt
    ensures m'.base == m.base && m'.regs[AUX1] == v0 && m'.regs[AUX2] == v1
  {
    hide InstructionOutcome, Ordered, ReadMem, FindSection, Tick;
    var m1 := TickOf(m, decode, hf, i, e0);
    m' := TickOf(m1, decode, hf, i, e1);
    assert Ticks(m1, decode, hf, 1) == Some(m') by { assert Ticks(m', decode, hf, 0) == Some(m'); }
  }

  lemma StoreFillsAux(m: State, decode: Decoder, hf: Hasher, op: StoreOp, rs1: Reg, rs2: Reg, imm: u32, mask: StoreMask, target: u32, x: u32)
    returns (m': State)
    requires Valid(m) && Fetches(m, decode, Store(op, rs1, rs2, imm)) && m.step + 4 < LAST_STEP_INIT
    requires m.pc.micro == 0 || m.pc.micro == 4
    requires var address := Wrap(m.regs[rs1] + imm);
             && target == (if m.pc.micro == 4 then Wrap(address - address % 4 + 4) else address - address % 4)
             && (if m.pc.micro == 4 then MaskRound2(op, address % 4) else MaskRound1(op, address % 4)) == Some(mask)
             && ReadMem(m.sections, target) == Ok(x)
    ensures Ticks(m, decode, hf, 2) == Some(m') && Fetches(m', decode, Store(op, rs1, rs2, imm))
    ensures m'.pc == NextMicro(NextMicro(m.pc)) && m'.sections == m.sections && SameRegisters(m, m') && m'.halt == m.halt
    ensures m'.base == m.base
    ensures m'.regs[AUX1] == And(mask.keep, x) && m'.regs[AUX2] == MoveBytes(And(mask.take, m.regs[rs2]), mask.move)
  {
    hide And, MoveBytes, Ordered, ReadMem, FindSection, Tick, Wrap, Fetches, MaskRound2, Ticks;
    var v0, v1 := And(mask.keep, x), MoveBytes(And(mask.take, m.regs[rs2]), mask.move);
    var e0 := Effect(AtReg(rs1), AtMem(target), ToReg(AUX1, v0), NextMicro(m.pc));
    var e1 := Effect(AtReg(rs1), AtReg(rs2), ToReg(AUX2, v1), NextMicro(NextMicro(m.pc)));
    assert InstructionOutcome(m.(step := m.step + 1), Store(op, rs1, rs2, imm)) == Does(e0);
    m' := FillAux(m, decode, hf, Store(op, rs1, rs2, imm), e0, e1, v0, v1);
  }

  /** One round of a store: four steps replace one word of memory. */
  lemma StoreRound(m: State, decode: Decoder, hf: Hasher, op: StoreOp, rs1: Reg, rs2: Reg, imm: u32, mask: StoreMask, target: u32, x: u32)
    returns (m': State)
    requires Valid(m) && Fetches(m, decode, Store(op, rs1, rs2, imm)) && m.step + 4 < LAST_STEP_INIT
    requires m.pc.micro == 0 || m.pc.micro == 4
    requires var address := Wrap(m.regs[rs1] + imm);
             && target == (if m.pc.micro == 4 then Wrap(address - address % 4 + 4) else address - address % 4)
             && (if m.pc.micro == 4 then MaskRound2(op, address % 4) else MaskRound1(op, address % 4)) == Some(mask)
             && ReadMem(m.sections, target) == Ok(x) && Writable(m.sections, target)
    ensures Ticks(m, decode, hf, 4) == Some(m') && SameRegisters(m, m') && m'.halt == m.halt && m'.base == m.base
    ensures WriteMem(m.sections, target, StoredWord(mask, x, m.regs[rs2]), m.step + 4) == Ok(m'.sections)
    ensures var last := m.pc.micro == 4 || StoreReads(op, Wrap(m.regs[rs1] + imm) % 4) == 1;
            && m'.pc == (if last then NextAddress(m.pc) else ProgramCounter(m.pc.address, 4))
            && (!last ==> Fetches(m', decode, Store(op, rs1, rs2, imm)))
  {
    hide And, Or32, MoveBytes, Ordered, ReadMem, FindSection, Tick, Ticks, Wrap, Fetches, MaskRound1, MaskRound2, WriteMem;
    var i := Store(op, rs1, rs2, imm);
    var m2 := StoreFillsAux(m, decode, hf, op, rs1, rs2, imm, mask, target, x);
    var m3 := MergeAux(m2, decode, hf, op, rs1, rs2, imm);
    m' := FlushAux(m3, decode, hf, op, rs1, rs2, imm, target);
    TwoMore(m, m2, m3, m', decode, hf);
  }

  lemma MergeAux(m: State, decode: Decoder, hf: Hasher, op: StoreOp, rs1: Reg, rs2: Reg, imm: u32) returns (m': State)
    requires Valid(m) && Fetches(m, decode, Store(op, rs1, rs2, imm)) && m.step + 1 < LAST_STEP_INIT
    requires m.pc.micro == 2 || m.pc.micro == 6
    ensures Tick(m, decode, hf).Stepped? && m' == Tick(m, decode, hf).state
    ensures Valid(m') && Fetches(m', decode, Store(op, rs1, rs2, imm)) && m'.step == m.step + 1
    ensures m'.pc == NextMicro(m.pc) && m'.sections == m.sections && SameRegisters(m, m') && m'.halt == m.halt
    ensures m'.base == m.base && m'.regs[AUX1] == Or32(m.regs[AUX1], m.regs[AUX2])
  {
    hide Or32, Ordered, ReadMem, FindSection, Tick, Fetches, MaskRound1, MaskRound2;
    var e := Effect(AtReg(AUX1), AtReg(AUX2), ToReg(AUX1, Or32(m.regs[AUX1], m.regs[AUX2])), NextMicro(m.pc));
    assert InstructionOutcome(m.(step := m.step + 1), Store(op, rs1, rs2, imm)) == Does(e);
    m' := TickOf(m, decode, hf, Store(op, rs1, rs2, imm), e);
  }

  lemma FlushAux(m: State, decode: Decoder, hf: Hasher, op: StoreOp, rs1: Reg, rs2: Reg, imm: u32, target: u32)
    returns (m': State)
    requires Valid(m) && Fetches(m, decode, Store(op, rs1, rs2, imm)) && m.step + 1 < LAST_STEP_INIT
    requires m.pc.micro == 3 || m.pc.micro == 7
    requires var address := Wrap(m.regs[rs1] + imm);
             target == (if m.pc.micro == 7 then Wrap(address - address % 4 + 4) else address - address % 4)
    requires Writable(m.sections, target)
    ensures Tick(m, decode, hf).Stepped? && m' == Tick(m, decode, hf).state
    ensures Valid(m') && m'.step == m.step + 1 && SameRegisters(m, m') && m'.halt == m.halt && m'.base == m.base
    ensures WriteMem(m.sections, target, m.regs[AUX1], m.step + 1) == Ok(m'.sections)
    ensures var last := m.pc.micro == 7 || StoreReads(op, Wrap(m.regs[rs1] + imm) % 4) == 1;
            && m'.pc == (if last then NextAddress(m.pc) else NextMicro(m.pc))
            && (!last ==> Fetches(m', decode, Store(op, rs1, rs2, imm)))
  {
    hide Ordered, ReadMem, FindSection, Tick, Fetches, MaskRound1, MaskRound2, Wrap, WriteMem;
    var word := m.regs[AUX1];
    var last := m.pc.micro == 7 || StoreReads(op, Wrap(m.regs[rs1] + imm) % 4) == 1;
    var e := Effect(AtReg(rs1), AtReg(AUX1), ToMem(target, word), if last then NextAddress(m.pc) else NextMicro(m.pc));
    WritableWrites(m.sections, target, word, 0);
    WritableWrites(m.sections, target, word, m.step + 1);
    assert InstructionOutcome(m.(step := m.step + 1), Store(op, rs1, rs2, imm)) == Does(e);
    m' := TickOf(m, decode, hf, Store(op, rs1, rs2, imm), e);
  }

  lemma WritableWrites(ss: seq<Section>, a: u32, v: u32, step: u64)
    requires Ordered(ss) && Writable(ss, a)
    ensures WriteMem(ss, a, v, step).Ok? && ReadMem(ss, a).Ok?
  {
  }

  lemma TwoMore(m: State, m2: State, m3: State, m4: State, decode: Decoder, hf: Hasher)
    requires Valid(m) && m.step + 4 < LAST_STEP_INIT && Ticks(m, decode, hf, 2) == Some(m2)
    requires Tick(m2, decode, hf).Stepped? && Tick(m2, decode, hf).state == m3 && Valid(m3) && m3.step == m2.step + 1
    requires Tick(m3, decode, hf).Stepped? && Tick(m3, decode, hf).state == m4 && Valid(m4) && m4.step == m3.step + 1
    ensures Ticks(m, decode, hf, 4) == Some(m4)
  {
    hide Tick;
    TicksCompose(m, decode, hf, 2, 2);
    assert Ticks(m4, decode, hf, 0) == Some(m4);
    assert Ticks(m3, decode, hf, 1) == Some(m4);
  }

  // ---------------------------------------------------------------- stores refine byte memory

  /** The byte at an address, if its word is mapped. */
  function ByteAt(ss: seq<Section>, a: u32): Option<byte>
    requires Ordered(ss)
  {
    match ReadMem(ss, a)
    case Ok(w) => Some(ByteOf(w, a % 4))
    case Err(_) => None
  }

  lemma ByteOfToWord(b: Bytes)
    ensures ByteOf(ToWord(b), 0) == b.b0 && ByteOf(ToWord(b), 1) == b.b1
            && ByteOf(ToWord(b), 2) == b.b2 && ByteOf(ToWord(b), 3) == b.b3
  {
    BytesOfWord(b.b0, b.b1, b.b2, b.b3);
  }

  /** Writing a spliced word changes exactly the spliced bytes. */
  lemma SplicedMemory(ss: seq<Section>, ss': seq<Section>, target: u32, x: u32, v: u32, from: int, count: int, first: int, step: u64, b: u32)
    requires Ordered(ss) && ReadMem(ss, target) == Ok(x)
    requires WriteMem(ss, target, ToWord(Spliced(x, v, from, count, first)), step) == Ok(ss')
    ensures Ordered(ss')
    ensures ByteAt(ss', b) == if SameWord(target, b) && from <= b % 4 < from + count
                              then Some(ByteOf(v, first + b % 4 - from)) else ByteAt(ss, b)
  {
    hide Ordered, ReadMem, WriteMem, FindSection, Word, Byte0, Byte1, Byte2, Byte3, LastStepOf;
    var word := ToWord(Spliced(x, v, from, count, first));
    WriteMemExact(ss, target, word, step, b);
    ByteOfToWord(Spliced(x, v, from, count, first));
    if SameWord(target, b) {
      ReadsItsWord(ss, target, b);
    }
  }

  lemma WritableWord(ss: seq<Section>, a: u32, b: u32)
    requires Ordered(ss) && Writable(ss, a) && SameWord(a, b)
    ensures Writable(ss, b) && ReadMem(ss, b).Ok?
  {
    ReadsItsWord(ss, a, b);
  }

  lemma StillWritable(ss: seq<Section>, ss': seq<Section>, target: u32, v: u32, step: u64, a: u32)
    requires Ordered(ss) && WriteMem(ss, target, v, step) == Ok(ss') && Writable(ss, a)
    ensures Ordered(ss') && Writable(ss', a)
  {
    hide Locate, Ordered;
    WriteMemKeepsShape(ss, target, v, step);
    WriteMemExact(ss, target, v, step, a);
    var k := FindSection(ss, a).value;
    assert SameShape(ss[k], ss'[k]);
  }

  /** The memory a store must leave: the low bytes of `v` from `a` on, all else unchanged. */
  ghost predicate StoresBytes(ss: seq<Section>, ss': seq<Section>, a: u32, width: nat, v: u32)
    requires Ordered(ss) && Ordered(ss')
  {
    forall b: u32 :: ByteAt(ss', b) == if a <= b < a + width then Some(ByteOf(v, b - a)) else ByteAt(ss, b)
  }

  /** A store whose bytes lie in one word. */
  lemma StoreInOneWord(m: State, decode: Decoder, hf: Hasher, op: StoreOp, rs1: Reg, rs2: Reg, imm: u32) returns (m': State)
    requires Valid(m) && Fetches(m, decode, Store(op, rs1, rs2, imm)) && m.step + 4 < LAST_STEP_INIT && m.pc.micro == 0
    requires var a := Wrap(m.regs[rs1] + imm); StoreReads(op, a % 4) == 1 && Writable(m.sections, a)
    ensures Ticks(m, decode, hf, 4) == Some(m') && SameRegisters(m, m') && m'.halt == m.halt && m'.pc == NextAddress(m.pc)
    ensures StoresBytes(m.sections, m'.sections, Wrap(m.regs[rs1] + imm), StoreWidth(op), m.regs[rs2])
  {
    hide Ticks, Ordered, ReadMem, WriteMem, FindSection, Fetches, Word, StoredWord, Wrap, Writable, LastStepOf;
    var a := Wrap(m.regs[rs1] + imm);
    var al := a % 4;
    var target := a - al;
    WritableWord(m.sections, a, target);
    var x := ReadMem(m.sections, target).value;
    var mask := MaskRound1(op, al).value;
    m' := StoreRound(m, decode, hf, op, rs1, rs2, imm, mask, target, x);
    StoreRound1(op, al, x, m.regs[rs2]);
    forall b: u32
      ensures ByteAt(m'.sections, b) == if a <= b < a + StoreWidth(op) then Some(ByteOf(m.regs[rs2], b - a)) else ByteAt(m.sections, b)
    {
      SplicedMemory(m.sections, m'.sections, target, x, m.regs[rs2], al, StoreWidth(op), 0, m.step + 4, b);
      WordPosition(a, b);
    }
  }

  lemma WordPosition(a: u32, b: u32)
    ensures SameWord(a - a % 4, b) <==> a - a % 4 <= b < a - a % 4 + 4
    ensures SameWord(a - a % 4, b) ==> b == a - a % 4 + b % 4
  {
  }

  /** A store that crosses into the next word. */
  lemma StoreInTwoWords(m: State, decode: Decoder, hf: Hasher, op: StoreOp, rs1: Reg, rs2: Reg, imm: u32) returns (m': State)
    requires Valid(m) && Fetches(m, decode, Store(op, rs1, rs2, imm)) && m.step + 8 < LAST_STEP_INIT && m.pc.micro == 0
    requires var a := Wrap(m.regs[rs1] + imm);
             && StoreReads(op, a % 4) == 2 && a - a % 4 + 4 < 0x1_0000_0000
             && Writable(m.sections, a) && Writable(m.sections, a - a % 4 + 4)
    ensures Ticks(m, decode, hf, 8) == Some(m') && SameRegisters(m, m') && m'.halt == m.halt && m'.pc == NextAddress(m.pc)
    ensures StoresBytes(m.sections, m'.sections, Wrap(m.regs[rs1] + imm), StoreWidth(op), m.regs[rs2])
  {
    hide Ticks, Ordered, ReadMem, WriteMem, FindSection, Fetches, Word, StoredWord, Writable, LastStepOf, ByteAt, StoresBytes,
         Spliced;
    var a := Wrap(m.regs[rs1] + imm);
    var al := a % 4;
    var w1, w2 := a - al, a - al + 4;
    var v := m.regs[rs2];
    WritableWord(m.sections, a, w1);
    WritableWord(m.sections, w2, w2);
    var x, y := ReadMem(m.sections, w1).value, ReadMem(m.sections, w2).value;
    var mask1, mask2 := MaskRound1(op, al).value, MaskRound2(op, al).value;
    var m1 := StoreRound(m, decode, hf, op, rs1, rs2, imm, mask1, w1, x);
    StoreRound1(op, al, x, v);
    StillWritable(m.sections, m1.sections, w1, StoredWord(mask1, x, v), m.step + 4, w2);
    WriteMemExact(m.sections, w1, StoredWord(mask1, x, v), m.step + 4, w2);
    assert !SameWord(w1, w2);
    m' := StoreRound(m1, decode, hf, op, rs1, rs2, imm, mask2, w2, y);
    StoreRound2(op, al, y, v);
    TicksCompose(m, decode, hf, 4, 4);
    SplicedTwice(m.sections, m1.sections, m'.sections, a, StoreWidth(op), x, y, v, m.step + 4, m1.step + 4);
  }

  /** Splicing the low bytes into one word and the others into the next. */
  lemma SplicedTwice(ss: seq<Section>, ss1: seq<Section>, ss2: seq<Section>, a: u32, width: nat, x: u32, y: u32, v: u32,
                     step1: u64, step2: u64)
    requires Ordered(ss) && Ordered(ss1) && a - a % 4 + 4 < 0x1_0000_0000 && 4 < a % 4 + width <= 8 && width <= 4
    requires ReadMem(ss, a - a % 4) == Ok(x) && ReadMem(ss1, a - a % 4 + 4) == Ok(y)
    requires WriteMem(ss, a - a % 4, ToWord(Spliced(x, v, a % 4, width, 0)), step1) == Ok(ss1)
    requires WriteMem(ss1, a - a % 4 + 4, ToWord(Spliced(y, v, 0, a % 4 + width - 4, 4 - a % 4)), step2) == Ok(ss2)
    ensures Ordered(ss2) && StoresBytes(ss, ss2, a, width, v)
  {
    hide Ordered, ReadMem, WriteMem, ByteAt, ByteOf, Spliced;
    var al := a % 4;
    var w1, w2 := a - al, a - al + 4;
    SplicedMemory(ss1, ss2, w2, y, v, 0, al + width - 4, 4 - al, step2, w2);
    forall b: u32
      ensures ByteAt(ss2, b) == if a <= b < a + width then Some(ByteOf(v, b - a)) else ByteAt(ss, b)
    {
      SplicedMemory(ss, ss1, w1, x, v, al, width, 0, step1, b);
      SplicedMemory(ss1, ss2, w2, y, v, 0, al + width - 4, 4 - al, step2, b);
      WordPosition(a, b);
      WordPosition(w2, b);
    }
  }

  /** A store of an aligned word is a single step. */
  lemma StoreAlignedWord(m: State, decode: Decoder, hf: Hasher, rs1: Reg, rs2: Reg, imm: u32) returns (m': State)
    requires Valid(m) && Fetches(m, decode, Store(Sw, rs1, rs2, imm)) && m.step + 1 < LAST_STEP_INIT && m.pc.micro == 0
    requires var a := Wrap(m.regs[rs1] + imm); a % 4 == 0 && Writable(m.sections, a)
    ensures Ticks(m, decode, hf, 1) == Some(m') && SameRegisters(m, m') && m'.halt == m.halt && m'.pc == NextAddress(m.pc)
    ensures StoresBytes(m.sections, m'.sections, Wrap(m.regs[rs1] + imm), 4, m.regs[rs2])
  {
    hide Ordered, ReadMem, WriteMem, FindSection, Fetches, Word, Wrap, LastStepOf, Tick, Writable;
    var a, v := Wrap(m.regs[rs1] + imm), m.regs[rs2];
    WritableWrites(m.sections, a, v, 0);
    WritableWrites(m.sections, a, v, m.step + 1);
    var e := Effect(AtReg(rs1), AtReg(rs2), ToMem(a, v), NextAddress(m.pc));
    assert InstructionOutcome(m.(step := m.step + 1), Store(Sw, rs1, rs2, imm)) == Does(e);
    m' := TickOf(m, decode, hf, Store(Sw, rs1, rs2, imm), e);
    assert Ticks(m', decode, hf, 0) == Some(m');
    forall b: u32
      ensures ByteAt(m'.sections, b) == if a <= b < a + 4 then Some(ByteOf(v, b - a)) else ByteAt(m.sections, b)
    {
      WriteMemExact(m.sections, a, v, m.step + 1, b);
      WordPosition(a, b);
      if SameWord(a, b) {
        ReadsItsWord(m.sections, a, b);
      }
    }
  }

  /** The micro-steps of a store: one for an aligned word, four inside a word, eight across two. */
  function StoreSteps(width: nat, alignment: nat): (n: nat)
    ensures n <= 8
  {
    if width == 4 && alignment == 0 then 1 else if alignment + width <= 4 then 4 else 8
  }

  /** Stores refine byte-addressed memory: for every width, alignment and register contents,
      when the touched bytes are mapped, writable and do not wrap around, the micro-steps take
      1, 4 or 8 steps, put the low bytes of rs2 little-endian at the address and change no
      other byte and no register but the auxiliary ones. */
  lemma StoreRefinesBytes(m: State, decode: Decoder, hf: Hasher, op: StoreOp, rs1: Reg, rs2: Reg, imm: u32)
    returns (n: nat, m': State)
    requires Valid(m) && Fetches(m, decode, Store(op, rs1, rs2, imm)) && m.step + 8 < LAST_STEP_INIT && m.pc.micro == 0
    requires var a := Wrap(m.regs[rs1] + imm);
             && a + StoreWidth(op) <= 0x1_0000_0000
             && forall b: u32 :: a <= b < a + StoreWidth(op) ==> Writable(m.sections, b)
    ensures n == StoreSteps(StoreWidth(op), Wrap(m.regs[rs1] + imm) % 4)
    ensures Ticks(m, decode, hf, n) == Some(m') && SameRegisters(m, m') && m'.halt == m.halt && m'.pc == NextAddress(m.pc)
    ensures StoresBytes(m.sections, m'.sections, Wrap(m.regs[rs1] + imm), StoreWidth(op), m.regs[rs2])
  {
    hide Ticks, Ordered, FindSection, Fetches, Writable, Wrap, StoresBytes;
    var a := Wrap(m.regs[rs1] + imm);
    if StoreReads(op, a % 4) == 0 {
      n := 1;
      m' := StoreAlignedWord(m, decode, hf, rs1, rs2, imm);
    } else if StoreReads(op, a % 4) == 1 {
      n := 4;
      m' := StoreInOneWord(m, decode, hf, op, rs1, rs2, imm);
    } else {
      n := 8;
      assert Writable(m.sections, a - a % 4 + 4);
      m' := StoreInTwoWords(m, decode, hf, op, rs1, rs2, imm);
    }
  }
}
