/** Loads against byte-addressed memory: the extended value of the addressed bytes, whatever
    the alignment. */
module LoadMemory {
  import opened Bits
  import opened WordBits
  import opened Options
  import opened Trace
  import opened SectionMemory
  import opened Machine
  import opened Runs
  import opened ByteMemory

  /** The little-endian value of the bytes, sign- or zero-extended to a word. */
  function Loaded(op: LoadOp, b: Bytes): u32
  {
    match op
    case Lb => Wrap(if b.b0 >= 128 then b.b0 - 256 else b.b0)
    case Lbu => b.b0
    case Lh => Wrap(if b.b1 >= 128 then b.b0 + 256 * b.b1 - 65536 else b.b0 + 256 * b.b1)
    case Lhu => b.b0 + 256 * b.b1
    case Lw => b.b0 + 256 * b.b1 + 65536 * b.b2 + 16777216 * b.b3
  }

  lemma SignExtendedByte(b: byte)
    ensures SignExtension(Lb, Word(b, 0, 0, 0)) == Wrap(if b >= 128 then b - 256 else b)
  {
    hide And, Or;
    TopBitOfByte(b);
    OrDisjointBytes(0, 255, 255, 255, b, 0, 0, 0);
    assert Word(0, 255, 255, 255) == 0xFFFF_FF00;
  }

  lemma TopBitOfHalf(b0: byte, b1: byte)
    ensures And(Word(b0, b1, 0, 0), 0x8000) == if b1 >= 128 then 0x8000 else 0
  {
    hide And;
    assert Word(0, 128, 0, 0) == 0x8000;
    TopBitOfByte(b1);
    AndFull(b0);
    AndCommutes(b0, 0);
    AndFull(0);
    AndBytes(b0, b1, 0, 0, 0, 128, 0, 0);
  }

  lemma HalfWords(b0: byte, b1: byte)
    ensures b1 < 128 ==> Word(b0, b1, 0, 0) == Wrap(b0 + 256 * b1)
    ensures b1 >= 128 ==> Word(b0, b1, 255, 255) == Wrap(b0 + 256 * b1 - 65536)
    ensures Word(0, 0, 255, 255) == 0xFFFF_0000
  {
    assert b1 >= 128 ==> Word(b0, b1, 255, 255) == 0x1_0000_0000 + (b0 + 256 * b1 - 65536);
  }

  lemma SignExtendedHalf(b0: byte, b1: byte)
    ensures SignExtension(Lh, Word(b0, b1, 0, 0)) == if b1 >= 128 then Word(b0, b1, 255, 255) else Word(b0, b1, 0, 0)
  {
    hide And, Or, Word;
    TopBitOfHalf(b0, b1);
    HalfWords(b0, b1);
    OrDisjointBytes(0, 0, 255, 255, b0, b1, 0, 0);
  }

  /** What one micro-step of a load puts into its register from the memory word `x`. */
  function LoadedPart(op: LoadOp, mask: LoadMask, x: u32): u32
  {
    SignExtension(op, MoveBytes(And(mask.take, x), mask.move))
  }

  function LoadFlags1(op: LoadOp, alignment: nat): Flags
  {
    var width := LoadWidth(op);
    Flags(alignment <= 0 < alignment + width, alignment <= 1 < alignment + width,
          alignment <= 2 < alignment + width, alignment <= 3 < alignment + width)
  }

  function LoadFlags2(op: LoadOp, alignment: nat): Flags
  {
    var over := alignment + LoadWidth(op) - 4;
    Flags(0 < over, 1 < over, 2 < over, 3 < over)
  }

  lemma LoadMasks1AreFlags(op: LoadOp, alignment: nat)
    requires LoadMaskRound1(op, alignment).Some?
    ensures LoadMaskRound1(op, alignment).value == LoadMask(FlagMask(LoadFlags1(op, alignment)), -(alignment as int))
    ensures alignment < 4
  {
    hide MaskOf;
    MaskConstants();
  }

  lemma LoadMasks2AreFlags(op: LoadOp, alignment: nat)
    requires LoadMaskRound2(op, alignment).Some?
    ensures LoadMaskRound2(op, alignment).value == LoadMask(FlagMask(LoadFlags2(op, alignment)), 4 - alignment)
    ensures 1 <= alignment < 4
  {
    hide MaskOf;
    MaskConstants();
  }

  lemma MovedPart1(op: LoadOp, alignment: nat, x: u32)
    requires LoadMaskRound1(op, alignment).Some?
    ensures var mask := LoadMaskRound1(op, alignment).value;
            MoveBytes(And(mask.take, x), mask.move) == ToWord(Moved(LoadFlags1(op, alignment), BytesOf(x), -(alignment as int)))
  {
    hide And, MoveBytes, Moved, FlagMask, LoadMaskRound1, LoadFlags1, Byte0, Byte1, Byte2, Byte3, Word;
    LoadMasks1AreFlags(op, alignment);
    WordOfBytes(x);
    TakenBytes(LoadFlags1(op, alignment), BytesOf(x), -(alignment as int));
  }

  lemma MovedPart2(op: LoadOp, alignment: nat, y: u32)
    requires LoadMaskRound2(op, alignment).Some?
    ensures var mask := LoadMaskRound2(op, alignment).value;
            MoveBytes(And(mask.take, y), mask.move) == ToWord(Moved(LoadFlags2(op, alignment), BytesOf(y), 4 - alignment))
  {
    hide And, MoveBytes, Moved, FlagMask, LoadMaskRound2, LoadFlags2, Byte0, Byte1, Byte2, Byte3, Word;
    LoadMasks2AreFlags(op, alignment);
    WordOfBytes(y);
    TakenBytes(LoadFlags2(op, alignment), BytesOf(y), 4 - alignment);
  }

  /** The bytes from `alignment` on of two consecutive words. */
  function Window(x: u32, y: u32, alignment: nat): Bytes
    requires alignment < 4
  {
    if alignment == 0 then Bytes(Byte0(x), Byte1(x), Byte2(x), Byte3(x))
    else if alignment == 1 then Bytes(Byte1(x), Byte2(x), Byte3(x), Byte0(y))
    else if alignment == 2 then Bytes(Byte2(x), Byte3(x), Byte0(y), Byte1(y))
    else Bytes(Byte3(x), Byte0(y), Byte1(y), Byte2(y))
  }

  lemma LoadInOneWord(op: LoadOp, alignment: nat, x: u32, y: u32)
    requires alignment < 4 && LoadReads(op, alignment) == 1
    ensures LoadMaskRound1(op, alignment).Some?
    ensures LoadedPart(op, LoadMaskRound1(op, alignment).value, x) == Loaded(op, Window(x, y, alignment))
  {
    hide And, Or, Or32, MoveBytes, Word, SignExtension, Byte0, Byte1, Byte2, Byte3;
    MovedPart1(op, alignment, x);
    var b := Window(x, y, alignment);
    match op {
      case Lb => SignExtendedByte(b.b0);
      case Lh => SignExtendedHalf(b.b0, b.b1); HalfWords(b.b0, b.b1);
      case _ => UnsignedIsPlain(op, b);
    }
  }

  lemma UnsignedIsPlain(op: LoadOp, b: Bytes)
    requires op == Lbu || op == Lhu || op == Lw
    ensures forall v: u32 :: SignExtension(op, v) == v
    ensures Word(b.b0, 0, 0, 0) == b.b0 && Word(b.b0, b.b1, 0, 0) == b.b0 + 256 * b.b1
    ensures Word(b.b0, b.b1, b.b2, b.b3) == b.b0 + 256 * b.b1 + 65536 * b.b2 + 16777216 * b.b3
  {
  }

  lemma LoadInTwoWords(op: LoadOp, alignment: nat, x: u32, y: u32)
    requires alignment < 4 && LoadReads(op, alignment) == 2
    ensures LoadMaskRound1(op, alignment).Some? && LoadMaskRound2(op, alignment).Some?
    ensures Or32(LoadedPart(op, LoadMaskRound1(op, alignment).value, x), LoadedPart(op, LoadMaskRound2(op, alignment).value, y))
            == Loaded(op, Window(x, y, alignment))
  {
    hide And, Or, MoveBytes, Word, SignExtension, Byte0, Byte1, Byte2, Byte3;
    MovedPart1(op, alignment, x);
    MovedPart2(op, alignment, y);
    match op {
      case Lw => WordParts(alignment, x, y);
      case _ => HalfParts(op, x, y);
    }
  }

  lemma WordParts(alignment: nat, x: u32, y: u32)
    requires 1 <= alignment < 4
    ensures Or(SignExtension(Lw, ToWord(Moved(LoadFlags1(Lw, alignment), BytesOf(x), -(alignment as int)))),
               SignExtension(Lw, ToWord(Moved(LoadFlags2(Lw, alignment), BytesOf(y), 4 - alignment))))
            == Loaded(Lw, Window(x, y, alignment))
  {
    hide Or, Word, Byte0, Byte1, Byte2, Byte3;
    UnsignedIsPlain(Lw, Window(x, y, alignment));
    if alignment == 1 {
      OrDisjointBytes(Byte1(x), Byte2(x), Byte3(x), 0, 0, 0, 0, Byte0(y));
    } else if alignment == 2 {
      OrDisjointBytes(Byte2(x), Byte3(x), 0, 0, 0, 0, Byte0(y), Byte1(y));
    } else {
      OrDisjointBytes(Byte3(x), 0, 0, 0, 0, Byte0(y), Byte1(y), Byte2(y));
    }
  }

  lemma HalfParts(op: LoadOp, x: u32, y: u32)
    requires op == Lh || op == Lhu
    ensures Or(SignExtension(op, ToWord(Moved(LoadFlags1(op, 3), BytesOf(x), -3))),
               SignExtension(op, ToWord(Moved(LoadFlags2(op, 3), BytesOf(y), 1))))
            == Loaded(op, Window(x, y, 3))
  {
    hide Or, Word, Byte0, Byte1, Byte2, Byte3, SignExtension;
    var lo, hi := Byte3(x), Byte0(y);
    assert Moved(LoadFlags1(op, 3), BytesOf(x), -3) == Bytes(lo, 0, 0, 0);
    assert Moved(LoadFlags2(op, 3), BytesOf(y), 1) == Bytes(0, hi, 0, 0);
    if op == Lhu {
      UnsignedIsPlain(op, Bytes(lo, hi, 0, 0));
      OrDisjointBytes(lo, 0, 0, 0, 0, hi, 0, 0);
    } else {
      SignExtendedHalf(lo, 0);
      SignExtendedHalf(0, hi);
      HalfWords(lo, hi);
      OrDisjointBytes(lo, 0, 0, 0, 0, hi, if hi >= 128 then 255 else 0, if hi >= 128 then 255 else 0);
    }
  }

  // ---------------------------------------------------------------- loads refine byte memory

  /** The bytes from the address on are mapped, none past the end of the address space. */
  ghost predicate BytesMapped(ss: seq<Section>, a: u32, width: nat)
    requires Ordered(ss)
  {
    a + width <= 0x1_0000_0000 && forall b: u32 :: a <= b < a + width ==> ByteAt(ss, b).Some?
  }

  /** The bytes at `a` and after it, as many as the load takes. */
  ghost function BytesFrom(ss: seq<Section>, a: u32, width: nat): Bytes
    requires Ordered(ss) && width <= 4 && BytesMapped(ss, a, width)
  {
    Bytes(if width > 0 then ByteAt(ss, a).value else 0, if width > 1 then ByteAt(ss, a + 1).value else 0,
          if width > 2 then ByteAt(ss, a + 2).value else 0, if width > 3 then ByteAt(ss, a + 3).value else 0)
  }

  lemma ByteInWord(ss: seq<Section>, a: u32, i: nat, x: u32)
    requires Ordered(ss) && a % 4 == 0 && i < 4 && a + i < 0x1_0000_0000
    requires ReadMem(ss, a) == Ok(x)
    ensures ByteAt(ss, a + i) == Some(ByteOf(x, i))
  {
    ReadsItsWord(ss, a, a + i);
  }

  lemma WordOfByte(ss: seq<Section>, b: u32)
    requires Ordered(ss) && ByteAt(ss, b).Some?
    ensures ReadMem(ss, b - b % 4).Ok?
  {
    ReadsItsWord(ss, b, b - b % 4);
  }

  /** The window of the two words that a load reads holds the addressed bytes. */
  lemma WindowIsBytes(ss: seq<Section>, op: LoadOp, a: u32, x: u32, y: u32)
    requires Ordered(ss) && BytesMapped(ss, a, LoadWidth(op))
    requires ReadMem(ss, a - a % 4) == Ok(x)
    requires LoadReads(op, a % 4) == 2 ==> a - a % 4 + 4 < 0x1_0000_0000 && ReadMem(ss, a - a % 4 + 4) == Ok(y)
    ensures Loaded(op, Window(x, y, a % 4)) == Loaded(op, BytesFrom(ss, a, LoadWidth(op)))
  {
    hide Ordered, ReadMem, ByteOf, Wrap, ByteAt;
    var width := LoadWidth(op);
    WindowByte(ss, a, 0, width, x, y);
    if width > 1 { WindowByte(ss, a, 1, width, x, y); }
    if width > 2 {
      WindowByte(ss, a, 2, width, x, y);
      WindowByte(ss, a, 3, width, x, y);
    }
    WindowBytes(x, y, a % 4);
  }

  lemma WindowByte(ss: seq<Section>, a: u32, k: nat, width: nat, x: u32, y: u32)
    requires Ordered(ss) && k < width <= 4 && a + width <= 0x1_0000_0000
    requires ReadMem(ss, a - a % 4) == Ok(x)
    requires a % 4 + k >= 4 ==> a - a % 4 + 4 < 0x1_0000_0000 && ReadMem(ss, a - a % 4 + 4) == Ok(y)
    ensures ByteAt(ss, a + k) == Some(if a % 4 + k < 4 then ByteOf(x, a % 4 + k) else ByteOf(y, a % 4 + k - 4))
  {
    hide Ordered, ReadMem, ByteOf, ByteAt;
    if a % 4 + k < 4 {
      ByteInWord(ss, a - a % 4, a % 4 + k, x);
    } else {
      ByteInWord(ss, a - a % 4 + 4, a % 4 + k - 4, y);
    }
  }

  lemma WindowBytes(x: u32, y: u32, al: nat)
    requires al < 4
    ensures Window(x, y, al) == Bytes(ByteOf(x, al), if al < 3 then ByteOf(x, al + 1) else ByteOf(y, 0),
                                      if al < 2 then ByteOf(x, al + 2) else ByteOf(y, al - 2),
                                      if al < 1 then ByteOf(x, al + 3) else ByteOf(y, al - 1))
  {
  }

  /** The registers after a load. */
  ghost predicate LoadsInto(m: State, m': State, rd: Reg, value: u32)
  {
    && |m.regs| == |m'.regs| == REGISTERS
    && m'.regs[rd] == value
    && forall i: Reg :: i != rd ==> m'.regs[i] == m.regs[i]
  }

  lemma LoadOneStep(m: State, decode: Decoder, hf: Hasher, op: LoadOp, rd: Reg, rs1: Reg, imm: u32, x: u32) returns (m': State)
    requires Valid(m) && Fetches(m, decode, Load(op, rd, rs1, imm)) && m.step + 1 < LAST_STEP_INIT && m.pc.micro == 0 && rd != 0
    requires var a := Wrap(m.regs[rs1] + imm);
             && LoadReads(op, a % 4) == 1 && ReadMem(m.sections, a - a % 4) == Ok(x)
             && LoadMaskRound1(op, a % 4).Some?
    ensures Ticks(m, decode, hf, 1) == Some(m') && m'.sections == m.sections && m'.halt == m.halt && m'.pc == NextAddress(m.pc)
    ensures LoadsInto(m, m', rd, LoadedPart(op, LoadMaskRound1(op, Wrap(m.regs[rs1] + imm) % 4).value, x))
  {
    hide And, MoveBytes, SignExtension, Ordered, ReadMem, FindSection, Tick, Wrap, Fetches, LoadMaskRound1, LoadMaskRound2;
    var a := Wrap(m.regs[rs1] + imm);
    var value := LoadedPart(op, LoadMaskRound1(op, a % 4).value, x);
    var e := Effect(AtReg(rs1), AtMem(a - a % 4), ToReg(rd, value), NextAddress(m.pc));
    assert InstructionOutcome(m.(step := m.step + 1), Load(op, rd, rs1, imm)) == Does(e);
    m' := TickOf(m, decode, hf, Load(op, rd, rs1, imm), e);
    assert Ticks(m', decode, hf, 0) == Some(m');
  }

  lemma LoadFourSteps(m: State, decode: Decoder, hf: Hasher, op: LoadOp, rd: Reg, rs1: Reg, imm: u32,
                      mask1: LoadMask, mask2: LoadMask, x: u32, y: u32) returns (m': State)
    requires Valid(m) && Fetches(m, decode, Load(op, rd, rs1, imm)) && m.step + 4 < LAST_STEP_INIT && m.pc.micro == 0 && rd != 0
    requires var a := Wrap(m.regs[rs1] + imm);
             && LoadReads(op, a % 4) == 2 && ReadMem(m.sections, a - a % 4) == Ok(x)
             && ReadMem(m.sections, Wrap(a - a % 4 + 4)) == Ok(y)
             && LoadMaskRound1(op, a % 4) == Some(mask1) && LoadMaskRound2(op, a % 4) == Some(mask2)
    ensures Ticks(m, decode, hf, 4) == Some(m') && m'.sections == m.sections && m'.halt == m.halt && m'.pc == NextAddress(m.pc)
    ensures LoadsInto(m, m', rd, Or32(LoadedPart(op, mask1, x), LoadedPart(op, mask2, y)))
  {
    hide And, Or32, MoveBytes, SignExtension, Ordered, ReadMem, FindSection, Tick, Ticks, Wrap, Fetches, LoadMaskRound1, LoadMaskRound2;
    var i := Load(op, rd, rs1, imm);
    var m2 := LoadFillsAux(m, decode, hf, op, rd, rs1, imm, mask1, mask2, x, y);
    var word := Or32(LoadedPart(op, mask1, x), LoadedPart(op, mask2, y));
    var e2 := Effect(AtReg(AUX1), AtReg(AUX2), ToReg(AUX1, word), NextMicro(m2.pc));
    assert InstructionOutcome(m2.(step := m2.step + 1), i) == Does(e2);
    var m3 := TickOf(m2, decode, hf, i, e2);
    m' := LoadDelivers(m3, decode, hf, op, rd, rs1, imm);
    TwoMore(m, m2, m3, m', decode, hf);
  }

  lemma LoadFillsAux(m: State, decode: Decoder, hf: Hasher, op: LoadOp, rd: Reg, rs1: Reg, imm: u32,
                     mask1: LoadMask, mask2: LoadMask, x: u32, y: u32) returns (m': State)
    requires Valid(m) && Fetches(m, decode, Load(op, rd, rs1, imm)) && m.step + 4 < LAST_STEP_INIT && m.pc.micro == 0 && rd != 0
    requires var a := Wrap(m.regs[rs1] + imm);
             && LoadReads(op, a % 4) == 2 && ReadMem(m.sections, a - a % 4) == Ok(x)
             && ReadMem(m.sections, Wrap(a - a % 4 + 4)) == Ok(y)
             && LoadMaskRound1(op, a % 4) == Some(mask1) && LoadMaskRound2(op, a % 4) == Some(mask2)
    ensures Ticks(m, decode, hf, 2) == Some(m') && Fetches(m', decode, Load(op, rd, rs1, imm))
    ensures m'.pc == ProgramCounter(m.pc.address, 2) && m'.sections == m.sections && SameRegisters(m, m') && m'.halt == m.halt
    ensures m'.regs[AUX1] == LoadedPart(op, mask1, x) && m'.regs[AUX2] == LoadedPart(op, mask2, y)
  {
    hide And, MoveBytes, SignExtension, Ordered, ReadMem, FindSection, Tick, Ticks, Wrap, Fetches, LoadMaskRound1, LoadMaskRound2;
    var a: int := Wrap(m.regs[rs1] + imm);
    var v0, v1 := LoadedPart(op, mask1, x), LoadedPart(op, mask2, y);
    var e0 := Effect(AtReg(rs1), AtMem(a - a % 4), ToReg(AUX1, v0), NextMicro(m.pc));
    var e1 := Effect(AtReg(rs1), AtMem(Wrap(a - a % 4 + 4)), ToReg(AUX2, v1), NextMicro(NextMicro(m.pc)));
    assert InstructionOutcome(m.(step := m.step + 1), Load(op, rd, rs1, imm)) == Does(e0);
    m' := FillAux(m, decode, hf, Load(op, rd, rs1, imm), e0, e1, v0, v1);
  }

  lemma LoadDelivers(m: State, decode: Decoder, hf: Hasher, op: LoadOp, rd: Reg, rs1: Reg, imm: u32) returns (m': State)
    requires Valid(m) && Fetches(m, decode, Load(op, rd, rs1, imm)) && m.step + 1 < LAST_STEP_INIT && m.pc.micro == 3 && rd != 0
    ensures Tick(m, decode, hf).Stepped? && m' == Tick(m, decode, hf).state && Valid(m') && m'.step == m.step + 1
    ensures m'.sections == m.sections && m'.halt == m.halt && m'.pc == NextAddress(m.pc)
    ensures LoadsInto(m, m', rd, m.regs[AUX1])
  {
    hide Ordered, ReadMem, FindSection, Tick, Fetches, LoadMaskRound1, LoadMaskRound2;
    var e := Effect(AtReg(AUX1), Nowhere, ToReg(rd, m.regs[AUX1]), NextAddress(m.pc));
    assert InstructionOutcome(m.(step := m.step + 1), Load(op, rd, rs1, imm)) == Does(e);
    m' := TickOf(m, decode, hf, Load(op, rd, rs1, imm), e);
  }

  /** The micro-steps of a load: one inside a word, four across two. */
  function LoadSteps(width: nat, alignment: nat): (n: nat)
    ensures n <= 4
  {
    if alignment + width <= 4 then 1 else 4
  }

  lemma StepsAreReads(op: LoadOp, alignment: nat)
    requires alignment < 4
    ensures LoadSteps(LoadWidth(op), alignment) == if LoadReads(op, alignment) == 1 then 1 else 4
  {
  }

  lemma ReadsOneOrTwo(op: LoadOp, alignment: nat)
    requires alignment < 4
    ensures LoadReads(op, alignment) == 1 || LoadReads(op, alignment) == 2
  {
  }

  lemma LoadAlignedBytes(m: State, decode: Decoder, hf: Hasher, op: LoadOp, rd: Reg, rs1: Reg, imm: u32) returns (m': State)
    requires Valid(m) && Fetches(m, decode, Load(op, rd, rs1, imm)) && m.step + 4 < LAST_STEP_INIT && m.pc.micro == 0 && rd != 0
    requires var a := Wrap(m.regs[rs1] + imm);
             && LoadReads(op, a % 4) == 1 && BytesMapped(m.sections, a, LoadWidth(op))
    ensures Ticks(m, decode, hf, 1) == Some(m') && m'.sections == m.sections && m'.halt == m.halt && m'.pc == NextAddress(m.pc)
    ensures LoadsInto(m, m', rd, Loaded(op, BytesFrom(m.sections, Wrap(m.regs[rs1] + imm), LoadWidth(op))))
  {
    hide Ticks, Ordered, FindSection, Fetches, LoadsInto, LoadedPart, Loaded, Window, ByteAt;
    var a := Wrap(m.regs[rs1] + imm);
    var al := a % 4;
    WordOfByte(m.sections, a);
    var x := ReadMem(m.sections, a - al).value;
    LoadInOneWord(op, al, x, 0);
    WindowIsBytes(m.sections, op, a, x, 0);
    m' := LoadOneStep(m, decode, hf, op, rd, rs1, imm, x);
  }

  /** A load reads a second word exactly if its bytes cross into it. */
  lemma ReadsCrossing(op: LoadOp, alignment: nat)
    requires alignment < 4
    ensures LoadReads(op, alignment) == 2 <==> alignment + LoadWidth(op) > 4
  {
  }

  lemma SecondWord(ss: seq<Section>, a: u32, width: nat) returns (y: u32)
    requires Ordered(ss) && BytesMapped(ss, a, width) && a % 4 + width > 4
    ensures a - a % 4 + 4 < 0x1_0000_0000 && Wrap(a - a % 4 + 4) == a - a % 4 + 4
    ensures ReadMem(ss, a - a % 4 + 4) == Ok(y)
  {
    hide Ordered, ByteAt, ReadMem;
    var b: u32 := a - a % 4 + 4;
    assert ByteAt(ss, b).Some?;
    WordOfByte(ss, b);
    y := ReadMem(ss, b).value;
  }

  lemma LoadSplitBytes(m: State, decode: Decoder, hf: Hasher, op: LoadOp, rd: Reg, rs1: Reg, imm: u32) returns (m': State)
    requires Valid(m) && Fetches(m, decode, Load(op, rd, rs1, imm)) && m.step + 4 < LAST_STEP_INIT && m.pc.micro == 0 && rd != 0
    requires var a := Wrap(m.regs[rs1] + imm);
             LoadReads(op, a % 4) == 2 && BytesMapped(m.sections, a, LoadWidth(op))
    ensures Ticks(m, decode, hf, 4) == Some(m') && m'.sections == m.sections && m'.halt == m.halt && m'.pc == NextAddress(m.pc)
    ensures LoadsInto(m, m', rd, Loaded(op, BytesFrom(m.sections, Wrap(m.regs[rs1] + imm), LoadWidth(op))))
  {
    hide Ticks, Ordered, FindSection, ReadMem, Fetches, LoadsInto, LoadedPart, Loaded, Window, ByteAt, Wrap, LoadReads, LoadMaskRound1,
         LoadMaskRound2, Or32;
    var a := Wrap(m.regs[rs1] + imm);
    var al := a % 4;
    WordOfByte(m.sections, a);
    var x := ReadMem(m.sections, a - al).value;
    ReadsCrossing(op, al);
    var y := SecondWord(m.sections, a, LoadWidth(op));
    LoadInTwoWords(op, al, x, y);
    WindowIsBytes(m.sections, op, a, x, y);
    m' := LoadFourSteps(m, decode, hf, op, rd, rs1, imm, LoadMaskRound1(op, al).value, LoadMaskRound2(op, al).value, x, y);
  }

  /** Loads refine byte-addressed memory: for every width, alignment and memory contents, when
      the addressed bytes are mapped and do not wrap around, the micro-steps take 1 or 4 steps,
      put their extended value in rd and change no memory and no other register but the
      auxiliary ones. */
  lemma LoadRefinesBytes(m: State, decode: Decoder, hf: Hasher, op: LoadOp, rd: Reg, rs1: Reg, imm: u32) returns (n: nat, m': State)
    requires Valid(m) && Fetches(m, decode, Load(op, rd, rs1, imm)) && m.step + 4 < LAST_STEP_INIT && m.pc.micro == 0 && rd != 0
    requires var a := Wrap(m.regs[rs1] + imm);
             && BytesMapped(m.sections, a, LoadWidth(op))
    ensures n == LoadSteps(LoadWidth(op), Wrap(m.regs[rs1] + imm) % 4)
    ensures Ticks(m, decode, hf, n) == Some(m') && m'.sections == m.sections && m'.halt == m.halt && m'.pc == NextAddress(m.pc)
    ensures LoadsInto(m, m', rd, Loaded(op, BytesFrom(m.sections, Wrap(m.regs[rs1] + imm), LoadWidth(op))))
  {
    hide Ticks, Fetches, LoadsInto, Loaded, LoadSteps, LoadReads, BytesMapped;
    StepsAreReads(op, Wrap(m.regs[rs1] + imm) % 4);
    ReadsOneOrTwo(op, Wrap(m.regs[rs1] + imm) % 4);
    if LoadReads(op, Wrap(m.regs[rs1] + imm) % 4) == 1 {
      n := 1;
      m' := LoadAlignedBytes(m, decode, hf, op, rd, rs1, imm);
    } else {
      n := 4;
      m' := LoadSplitBytes(m, decode, hf, op, rd, rs1, imm);
    }
  }

  /** A load into x0 is a no-op of one step, at any address. */
  lemma LoadIntoZero(m: State, decode: Decoder, hf: Hasher, op: LoadOp, rs1: Reg, imm: u32) returns (m': State)
    requires Valid(m) && Fetches(m, decode, Load(op, 0, rs1, imm)) && m.step + 1 < LAST_STEP_INIT
    ensures Ticks(m, decode, hf, 1) == Some(m')
    ensures m'.sections == m.sections && m'.regs == m.regs && m'.halt == m.halt && m'.pc == NextAddress(m.pc)
  {
    hide Ordered, ReadMem, FindSection, Tick, Fetches;
    m' := TickOf(m, decode, hf, Load(op, 0, rs1, imm), Effect(Nowhere, Nowhere, NoWrite, NextAddress(m.pc)));
    assert Ticks(m', decode, hf, 0) == Some(m');
  }
}
