/** The challenge scripts on digits: each succeeds exactly when the verifier wins. */
module ChallengeScripts {
  import opened Bits
  import opened Trace
  import opened SectionIndex
  import opened Nibbles
  import opened NibbleArithmetic
  import S = Shifts
  import A = Alignment
  import opened HashScripts
  import opened Challenges

  /** Whether no listed word starts at the address, by two comparisons a range. */
  method AddressNotInSections(address: seq<nibble>, ranges: Ranges) returns (outside: bool)
    requires |address| == 8 && Buildable(ranges)
    ensures Value(address) < 0x1_0000_0000 && (outside <==> OutsideRanges(Value(address), ranges))
  {
    hide Value, NibblesOf, SignedValue;
    WordIsBelow(address);
    outside := true;
    for i := 0 to |ranges|
      invariant outside <==> forall j :: 0 <= j < i ==> Value(address) < ranges[j].0 || ranges[j].1 as int - 3 < Value(address)
    {
      var range := ranges[i];
      assert range in ranges;
      WordOfNibbles(range.0);
      WordOfNibbles(range.1 - 3);
      var before := IsLowerThan(address, NibblesOf(range.0, 8), true);
      var after := IsLowerThan(NibblesOf(range.1 - 3, 8), address, true);
      outside := outside && (before || after);
    }
  }

  /** A word is aligned if the low two bits of its last digit are zero. */
  method IsAligned(address: seq<nibble>) returns (aligned: bool)
    requires |address| == 8
    ensures aligned <==> Value(address) % 4 == 0
  {
    var lowerHalf: seq<nibble> := seq(16, i requires 0 <= i => i % 4);
    aligned := Lookup(lowerHalf, address[7]) == 0;
  }

  /** One access of a committed witness byte, through the half-digit tables. */
  method WitnessEquals(accessDigits: seq<nibble>, digit: nat, upper: bool, expected: Access) returns (equal: bool)
    requires |accessDigits| == 2 && digit < 2
    ensures equal <==> (if upper then accessDigits[digit] / 4 else accessDigits[digit] % 4) == AccessCode(expected)
  {
    var half: seq<nibble> := if upper then seq(16, i requires 0 <= i < 16 => i / 4) else seq(16, i requires 0 <= i => i % 4);
    equal := Lookup(half, accessDigits[digit]) == AccessCode(expected);
  }

  /** The three two-bit fields of a witness byte. */
  lemma WitnessDigits(w: MemoryWitness)
    ensures var ns := NibblesOf(WitnessByte(w), 2);
            ns[0] % 4 == AccessCode(w.read1) && ns[1] / 4 == AccessCode(w.read2) && ns[1] % 4 == AccessCode(w.write)
  {
    var b := WitnessByte(w);
    assert NibblesOf(b, 2) == NibblesOf(b / 16, 1) + [b % 16];
    assert NibblesOf(b / 16, 1) == [b / 16 % 16];
  }

  lemma CodesDiffer(a: Access, b: Access)
    ensures AccessCode(a) == AccessCode(b) <==> a == b
  {
  }

  method IsInvalidRead(address: u32, accessDigits: seq<nibble>, digit: nat, upper: bool, ghost access: Access,
                       readWrite: Ranges, readOnly: Ranges, registers: Ranges) returns (invalid: bool)
    requires |accessDigits| == 2 && digit < 2
    requires (if upper then accessDigits[digit] / 4 else accessDigits[digit] % 4) == AccessCode(access)
    requires Buildable(readWrite) && Buildable(readOnly) && Buildable(registers)
    ensures invalid <==> InvalidRead(address, access, readWrite, readOnly, registers)
  {
    hide Value, NibblesOf, Buildable, OutsideRanges, AccessCode;
    var ns := NibblesOf(address, 8);
    WordOfNibbles(address);
    CodesDiffer(access, Memory);
    CodesDiffer(access, Register);
    var isMemory := WitnessEquals(accessDigits, digit, upper, Memory);
    var notWritable := AddressNotInSections(ns, readWrite);
    var notConstant := AddressNotInSections(ns, readOnly);
    var isRegister := WitnessEquals(accessDigits, digit, upper, Register);
    var notRegister := AddressNotInSections(ns, registers);
    var aligned := IsAligned(ns);
    invalid := (isMemory && (notWritable && notConstant)) || ((isRegister && notRegister) || !aligned);
  }

  method IsInvalidWrite(address: u32, accessDigits: seq<nibble>, ghost access: Access, readWrite: Ranges, registers: Ranges)
    returns (invalid: bool)
    requires |accessDigits| == 2 && accessDigits[1] % 4 == AccessCode(access)
    requires Buildable(readWrite) && Buildable(registers)
    ensures invalid <==> InvalidWrite(address, access, readWrite, registers)
  {
    hide Value, NibblesOf, Buildable, OutsideRanges, AccessCode;
    var ns := NibblesOf(address, 8);
    WordOfNibbles(address);
    CodesDiffer(access, Memory);
    CodesDiffer(access, Register);
    var isMemory := WitnessEquals(accessDigits, 1, false, Memory);
    var notWritable := AddressNotInSections(ns, readWrite);
    var isRegister := WitnessEquals(accessDigits, 1, false, Register);
    var notRegister := AddressNotInSections(ns, registers);
    var aligned := IsAligned(ns);
    invalid := (isMemory && notWritable) || ((isRegister && notRegister) || !aligned);
  }

  method IsInvalidPc(address: u32, code: Ranges) returns (invalid: bool)
    requires Buildable(code)
    ensures invalid <==> InvalidPc(address, code)
  {
    hide Value, NibblesOf, Buildable, OutsideRanges;
    var ns := NibblesOf(address, 8);
    WordOfNibbles(address);
    var notCode := AddressNotInSections(ns, code);
    var aligned := IsAligned(ns);
    invalid := notCode || !aligned;
  }

  method AddressesSectionsChallenge(c: ChallengeType, ghost hf: Hasher) returns (wins: bool)
    requires c.AddressesSections?
    requires Buildable(c.readWrite) && Buildable(c.readOnly) && Buildable(c.registers) && Buildable(c.code)
    ensures wins <==> Wins(hf, c)
  {
    hide NibblesOf, Buildable, InvalidRead, InvalidWrite, InvalidPc, AccessCode;
    var accessDigits := NibblesOf(WitnessByte(c.memWitness), 2);
    WitnessDigits(c.memWitness);
    var read1 := IsInvalidRead(c.read1Address, accessDigits, 0, false, c.memWitness.read1, c.readWrite, c.readOnly, c.registers);
    var read2 := IsInvalidRead(c.read2Address, accessDigits, 1, true, c.memWitness.read2, c.readWrite, c.readOnly, c.registers);
    var write := IsInvalidWrite(c.writeAddress, accessDigits, c.memWitness.write, c.readWrite, c.registers);
    var pc := IsInvalidPc(c.pcAddress, c.code);
    wins := read1 || (read2 || (write || pc));
  }

  /** The digits of a table index as a number. */
  method NibblesToNumber(ns: seq<nibble>) returns (n: nat)
    ensures n == Value(ns)
  {
    n := 0;
    for i := 0 to |ns|
      invariant n == Value(ns[..i])
    {
      S.ShlStart(n);
      S.ShlOfFour(n);
      ghost var start := n;
      for j := 0 to 4
        invariant n == Shl(start, j)
      {
        S.ShlStep(start, j);
        n := n + n;
      }
      assert ns[..i + 1][..i] == ns[..i];
      n := n + ns[i];
    }
    assert ns[..|ns|] == ns;
  }

  /** Find the program counter's word in the chunk and compare it. */
  method OpcodeChallenge(pc: u32, opcode: u32, chunkBase: u32, opcodes: seq<u32>) returns (wins: bool)
    requires chunkBase + 4 * |opcodes| < 0x1_0000_0000
    ensures wins <==> chunkBase <= pc < chunkBase + 4 * |opcodes| && opcodes[(pc - chunkBase) / 4] != opcode
  {
    hide Value, NibblesOf, SignedValue, S.Shifted, Shl, Pow2, Scaled;
    var last: u32 := chunkBase + 4 * |opcodes|;
    var pcDigits, start, end := NibblesOf(pc, 8), NibblesOf(chunkBase, 8), NibblesOf(last, 8);
    WordOfNibbles(pc);
    WordOfNibbles(chunkBase);
    WordOfNibbles(last);
    var atStart := IsEqualTo(start, pcDigits);
    var afterStart := IsLowerThan(start, pcDigits, true);
    var beforeEnd := IsLowerThan(pcDigits, end, true);
    if !((atStart || afterStart) && beforeEnd) { return false; }
    var offset := NibbleArithmetic.Sub(pcDigits, start);
    var indexDigits := S.ShiftNumber(2, offset, true, false);
    var index := NibblesToNumber(indexDigits);
    QuarterOf(pc - chunkBase);
    var found := A.Peek(opcodes, index);
    WordOfNibbles(opcodes[index]);
    WordOfNibbles(opcode);
    wins := found != NibblesOf(opcode, 8);
  }

  lemma QuarterOf(x: u32)
    ensures S.Shifted(x, 2, true, false) == x / 4
  {
    assert Pow2(1) == 2;
    assert Pow2(2) == 4;
  }

  /** Run the script of a challenge; one that cannot be built does not succeed. */
  method ExecuteChallenge(hf: Hasher, c: ChallengeType) returns (wins: bool)
    requires c.Opcode? ==> c.chunkBase + 4 * |c.opcodes| < 0x1_0000_0000
    ensures wins <==> Wins(hf, c)
  {
    hide NibblesOf, InvalidRead, InvalidWrite, InvalidPc;
    match c {
      case TraceHash(previous, step, next) => wins := TraceHashChallenge(hf, previous, step, next);
      case TraceHashZero(step, next) => wins := TraceHashChallenge(hf, InitialHash(hf), step, next);
      case EntryPoint(readPc, stepNumber, entryPoint) => wins := EntryPointChallenge(readPc.pc, stepNumber, entryPoint);
      case PcChallenge(prePre, preStep, previous, readPc) =>
        wins := ProgramCounterChallenge(hf, prePre, preStep, previous, readPc.pc);
      case Opcode(readPc, _, base, opcodes) => wins := OpcodeChallenge(readPc.pc.address, readPc.opcode, base, opcodes);
      case InputData(read1, read2, address, value) => wins := ValueChallenge(read1, read2, address, value);
      case RomData(read1, read2, address, value) => wins := ValueChallenge(read1, read2, address, value);
      case AddressesSections(_, _, _, _, _, readWrite, readOnly, registers, code) =>
        if Buildable(readWrite) && Buildable(readOnly) && Buildable(registers) && Buildable(code) {
          wins := AddressesSectionsChallenge(c, hf);
        } else {
          wins := false;
        }
      case NoChallenge => wins := false;
    }
  }

  /** The common body of the input and constant-data scripts. */
  method ValueChallenge(read1: TraceRead, read2: TraceRead, address: u32, value: u32) returns (wins: bool)
    ensures wins <==> address != 0 && (Misread(read1, address, value) || Misread(read2, address, value))
  {
    hide Value, NibblesOf;
    if address == 0 { return false; }
    LongDigits(read1.lastStep, LAST_STEP_INIT);
    LongDigits(read2.lastStep, LAST_STEP_INIT);
    var init := NibblesOf(LAST_STEP_INIT, 16);
    var second := NibblesOf(read2.lastStep, 16) == init
                  && (NibblesOf(read2.value, 8) != NibblesOf(value, 8) && NibblesOf(read2.address, 8) == NibblesOf(address, 8));
    var first := NibblesOf(read1.lastStep, 16) == init
                 && (NibblesOf(read1.value, 8) != NibblesOf(value, 8) && NibblesOf(read1.address, 8) == NibblesOf(address, 8));
    WordOfNibbles(read1.value);
    WordOfNibbles(read1.address);
    WordOfNibbles(read2.value);
    WordOfNibbles(read2.address);
    WordOfNibbles(value);
    WordOfNibbles(address);
    wins := first || second;
  }
}
