/** The verifier's final challenge: how it is chosen, when its script wins, and why the chosen
    one always does. */
module Challenges {
  import opened Bits
  import opened Options
  import opened Trace
  import opened SectionMemory
  import opened SectionIndex
  import opened Machine
  import opened Runs
  import opened ByteMemory
  import opened Programs
  import opened Loader
  import opened Execution
  import opened Checkpoints

  const CODE_CHUNK_SIZE: nat := 500

  datatype ChallengeType =
    | TraceHash(previousHash: Hash, step: TraceStep, nextHash: Hash)
    | TraceHashZero(step: TraceStep, nextHash: Hash)
    | EntryPoint(readPc: TraceReadPC, stepNumber: u64, entryPoint: u32)
    | PcChallenge(prePreHash: Hash, preStep: TraceStep, previousHash: Hash, readPc: TraceReadPC)
    | Opcode(readPc: TraceReadPC, chunkIndex: nat, chunkBase: nat, opcodes: seq<u32>)
    | InputData(read1: TraceRead, read2: TraceRead, address: u32, value: u32)
    | RomData(read1: TraceRead, read2: TraceRead, address: u32, value: u32)
    | AddressesSections(read1Address: u32, read2Address: u32, writeAddress: u32, memWitness: MemoryWitness, pcAddress: u32,
                        readWrite: Ranges, readOnly: Ranges, registers: Ranges, code: Ranges)
    | NoChallenge

  // ---------------------------------------------------------------- winning

  /** No word of the ranges starts at the address. */
  predicate OutsideRanges(address: u32, ranges: Ranges)
  {
    forall r :: r in ranges ==> address < r.0 || r.1 as int - 3 < address
  }

  predicate InvalidRead(address: u32, access: Access, readWrite: Ranges, readOnly: Ranges, registers: Ranges)
  {
    || (access == Memory && OutsideRanges(address, readWrite) && OutsideRanges(address, readOnly))
    || (access == Register && OutsideRanges(address, registers))
    || address % 4 != 0
  }

  predicate InvalidWrite(address: u32, access: Access, readWrite: Ranges, registers: Ranges)
  {
    || (access == Memory && OutsideRanges(address, readWrite))
    || (access == Register && OutsideRanges(address, registers))
    || address % 4 != 0
  }

  predicate InvalidPc(address: u32, code: Ranges)
  {
    OutsideRanges(address, code) || address % 4 != 0
  }

  /** A script over a range table exists only if the table has a range, each of a word or more. */
  predicate Buildable(ranges: Ranges)
  {
    |ranges| > 0 && forall r :: r in ranges ==> r.0 + 3 <= r.1 as int
  }

  /** A read of a word nobody wrote, with another value. */
  predicate Misread(r: TraceRead, address: u32, value: u32)
  {
    r.lastStep == LAST_STEP_INIT && r.address == address && r.value != value
  }

  /** The verifier wins: the script of the challenge succeeds. */
  predicate Wins(hf: Hasher, c: ChallengeType)
  {
    match c
    case TraceHash(previous, step, next) => hf(previous + ToBytes(step)) != next
    case TraceHashZero(step, next) => hf(InitialHash(hf) + ToBytes(step)) != next
    case EntryPoint(readPc, stepNumber, entryPoint) => stepNumber == 1 && readPc.pc != ProgramCounter(entryPoint, 0)
    case PcChallenge(prePre, preStep, previous, readPc) =>
      readPc.pc != preStep.writePc && hf(prePre + ToBytes(preStep)) == previous
    case Opcode(readPc, _, base, opcodes) =>
      var pc := readPc.pc.address;
      base <= pc < base + 4 * |opcodes| && opcodes[(pc - base) / 4] != readPc.opcode
    case InputData(read1, read2, address, value) =>
      address != 0 && (Misread(read1, address, value) || Misread(read2, address, value))
    case RomData(read1, read2, address, value) =>
      address != 0 && (Misread(read1, address, value) || Misread(read2, address, value))
    case AddressesSections(read1, read2, write, access, pc, readWrite, readOnly, registers, code) =>
      && Buildable(readWrite) && Buildable(readOnly) && Buildable(registers) && Buildable(code)
      && (InvalidRead(read1, access.read1, readWrite, readOnly, registers)
          || InvalidRead(read2, access.read2, readWrite, readOnly, registers)
          || InvalidWrite(write, access.write, readWrite, registers)
          || InvalidPc(pc, code))
    case NoChallenge => false
  }

  // ---------------------------------------------------------------- choosing

  datatype Choice = Chosen(challenge: ChallengeType) | Breaks

  /** The challenge the verifier picks, from the two committed hashes, the prover's final trace
      and its own execution around the isolated step. `Breaks` is an error or an abort. */
  ghost function ChooseChallenge(m: State, hf: Hasher, isInput: u32 -> bool, step: nat,
                                 stepHash: Hash, nextHash: Hash, trace: TraceRWStep, execution: seq<Entry>): Choice
    requires Ordered(m.sections) && |execution| == if step > 0 then 3 else 2
  {
    if !ValidateStepHash(hf, stepHash, trace.traceStep, nextHash) then
      Chosen(if trace.stepNumber == 1 then TraceHashZero(trace.traceStep, nextHash)
             else TraceHash(stepHash, trace.traceStep, nextHash))
    else
      var mine := execution[|execution| - 1].0;
      if !ValidAddresses(m.tables, trace) then Chosen(AddressesOf(m.tables, trace))
      else if trace.readPc.pc != mine.readPc.pc then
        Chosen(if trace.stepNumber == 1 then EntryPoint(trace.readPc, trace.stepNumber, m.pc.address)
               else PcChallenge(execution[0].1, execution[1].0.traceStep, stepHash, trace.readPc))
      else if trace.readPc.opcode != mine.readPc.opcode then
        ChooseOpcode(m.sections, trace.readPc)
      else
        ChooseData(m.sections, isInput, trace, mine)
  }

  predicate ValidAddresses(t: Tables, trace: TraceRWStep)
  {
    && ValidAccess(t, trace.memWitness.read1, trace.read1.address, true)
    && ValidAccess(t, trace.memWitness.read2, trace.read2.address, true)
    && ValidAccess(t, trace.memWitness.write, trace.traceStep.write1.address, false)
    && InRanges(trace.readPc.pc.address, t.code)
  }

  function AddressesOf(t: Tables, trace: TraceRWStep): ChallengeType
  {
    AddressesSections(trace.read1.address, trace.read2.address, trace.traceStep.write1.address, trace.memWitness,
                      trace.readPc.pc.address, t.readWrite, t.readOnly, t.registers, t.code)
  }

  ghost function ChooseOpcode(ss: seq<Section>, readPc: TraceReadPC): Choice
    requires Ordered(ss)
  {
    var pc := readPc.pc.address;
    var info := ChunkInfoOf(ss, pc, CODE_CHUNK_SIZE);
    var section := FindSection(ss, pc);
    if info.None? || section.Err? then Breaks
    else
      var data := ss[section.value].data;
      var end := if info.value.start + CODE_CHUNK_SIZE < |data| then info.value.start + CODE_CHUNK_SIZE else |data|;
      if info.value.start > end then Breaks
      else Chosen(Opcode(readPc, info.value.index, info.value.baseAddress, data[info.value.start..end]))
  }

  /** The data conflict the verifier takes up: a never-written word of another value, the first
      read before the second. */
  predicate FirstConflicts(trace: TraceRWStep, mine: TraceRWStep)
  {
    trace.read1.value != mine.read1.value && trace.read1.lastStep == LAST_STEP_INIT
  }

  predicate SecondConflicts(trace: TraceRWStep, mine: TraceRWStep)
  {
    trace.read2.value != mine.read2.value && trace.read2.lastStep == LAST_STEP_INIT
  }

  ghost function ChooseData(ss: seq<Section>, isInput: u32 -> bool, trace: TraceRWStep, mine: TraceRWStep): Choice
    requires Ordered(ss)
  {
    if !FirstConflicts(trace, mine) && !SecondConflicts(trace, mine) then Chosen(NoChallenge)
    else
      var address := if FirstConflicts(trace, mine) then trace.read1.address else trace.read2.address;
      match FindSection(ss, address)
      case Err(_) => Breaks
      case Ok(i) =>
        var value := ReadMem(ss, address).value;
        if isInput(address) then Chosen(InputData(trace.read1, trace.read2, address, value))
        else if !ss[i].isWrite then Chosen(RomData(trace.read1, trace.read2, address, value))
        else Chosen(NoChallenge)
  }

  // ---------------------------------------------------------------- the verifier's own execution

  /** The state after `k` turns. */
  ghost function StateAt(m: State, decode: Decoder, hf: Hasher, limit: nat, k: nat): State
    requires Valid(m) && m.step + k < LAST_STEP_INIT
  {
    if k > 0 && TurnAfter(m, decode, hf, limit, k).Turn? then TurnAfter(m, decode, hf, limit, k).state else m
  }

  /** The run from the start executes step `k + 1`, without an error. */
  ghost predicate Executes(m: State, decode: Decoder, hf: Hasher, limit: nat, k: nat)
  {
    && Valid(m) && m.step == 0 && k + 1 < LAST_STEP_INIT
    && TurnAfter(m, decode, hf, limit, k + 1).Turn?
    && Valid(StateAt(m, decode, hf, limit, k)) && StateAt(m, decode, hf, limit, k).step == k
    && Tick(StateAt(m, decode, hf, limit, k), decode, hf).Stepped?
  }

  lemma ExecutedTurn(m: State, decode: Decoder, hf: Hasher, limit: nat, k: nat)
    requires Valid(m) && m.step == 0 && k + 1 < LAST_STEP_INIT && TurnAfter(m, decode, hf, limit, k + 1).Turn?
    ensures Valid(StateAt(m, decode, hf, limit, k)) && StateAt(m, decode, hf, limit, k).step == k
    ensures TurnAfter(m, decode, hf, limit, k + 1) == TurnOf(StateAt(m, decode, hf, limit, k), decode, hf, limit)
    ensures k > 0 ==> TurnAfter(m, decode, hf, limit, k).Turn? && TurnAfter(m, decode, hf, limit, k).stop.None?
  {
    hide TurnOf, Valid;
    if k > 0 { EarlierTurns(m, decode, hf, limit, k, k + 1); }
  }

  /** All steps before an executed one were executed. */
  lemma ExecutedBefore(m: State, decode: Decoder, hf: Hasher, limit: nat, j: nat, k: nat)
    requires Executes(m, decode, hf, limit, k) && j < k
    ensures Executes(m, decode, hf, limit, j)
  {
    hide TurnAfter, Valid, Tick, StateAt;
    EarlierTurns(m, decode, hf, limit, j + 1, k + 1);
    ExecutedTurn(m, decode, hf, limit, j);
    NotStopped(StateAt(m, decode, hf, limit, j), decode, hf, limit);
  }

  lemma NotStopped(m: State, decode: Decoder, hf: Hasher, limit: nat)
    requires Valid(m) && m.step + 1 < LAST_STEP_INIT
    ensures TurnOf(m, decode, hf, limit).Turn? && TurnOf(m, decode, hf, limit).stop.None? ==> Tick(m, decode, hf).Stepped?
    ensures Tick(m, decode, hf).Stepped? ==>
              var t := TurnOf(m, decode, hf, limit);
              t.Turn? && t.trace == Tick(m, decode, hf).trace && t.state == Tick(m, decode, hf).state
  {
    hide Tick, Valid;
  }

  /** What the run collects at an executed step, and how it continues the step before. */
  lemma ExecutedEntry(m: State, decode: Decoder, hf: Hasher, limit: nat, k: nat)
    requires Executes(m, decode, hf, limit, k)
    ensures var s := StateAt(m, decode, hf, limit, k);
            var t := EntryAt(m, decode, hf, limit, k + 1).0;
            && t == Tick(s, decode, hf).trace && StateAt(m, decode, hf, limit, k + 1) == Tick(s, decode, hf).state
            && t.readPc.pc == s.pc && StateAt(m, decode, hf, limit, k + 1).pc == t.traceStep.writePc
            && HashAt(m, decode, hf, limit, k) == s.hash
            && HashAt(m, decode, hf, limit, k + 1) == ComputeStepHash(hf, s.hash, t.traceStep)
  {
    hide TurnAfter, TurnOf, Tick, Valid;
    var s := StateAt(m, decode, hf, limit, k);
    ExecutedTurn(m, decode, hf, limit, k);
    NotStopped(s, decode, hf, limit);
    assert Tick(s, decode, hf).Stepped?;
    TickFacts(s, decode, hf);
  }

  lemma TickFacts(m: State, decode: Decoder, hf: Hasher)
    requires Valid(m) && m.step + 1 < LAST_STEP_INIT && Tick(m, decode, hf).Stepped?
    ensures var m', t := Tick(m, decode, hf).state, Tick(m, decode, hf).trace;
            && t.readPc.pc == m.pc && m'.pc == t.traceStep.writePc
            && m'.hash == ComputeStepHash(hf, m.hash, t.traceStep)
  {
    hide Tick, Valid;
    TickChangesOnlyItsTrace(m, decode, hf);
  }

  /** Words outside writable sections keep their initial value. */
  ghost predicate InRom(m: State, a: u32)
    requires Valid(m)
  {
    FindSection(m.sections, a).Ok? && !m.sections[FindSection(m.sections, a).value].isWrite
  }

  lemma RomStays(m: State, decode: Decoder, hf: Hasher, a: u32)
    requires Valid(m) && m.step + 1 < LAST_STEP_INIT && Tick(m, decode, hf).Stepped? && InRom(m, a)
    ensures var m' := Tick(m, decode, hf).state;
            Valid(m') && InRom(m', a) && ReadMem(m'.sections, a) == ReadMem(m.sections, a)
  {
    hide InstructionOutcome, Ordered, ReadMem, WriteMem, ReadAt, Tick;
    var m1, opcode, e := EffectOfTick(m, decode, hf);
    CommitKeepsPlaces(m1, e);
    if e.write.ToMem? {
      WriteOk(m.sections, e.write.address, e.write.value, m1.step);
      WritesMissReadOnly(m.sections, e.write.address, e.write.value, m1.step, a);
    }
  }

  lemma {:induction false} RomIsConstant(m: State, decode: Decoder, hf: Hasher, limit: nat, k: nat, a: u32)
    requires Executes(m, decode, hf, limit, k) && InRom(m, a)
    ensures var s := StateAt(m, decode, hf, limit, k);
            Valid(s) && InRom(s, a) && ReadMem(s.sections, a) == ReadMem(m.sections, a)
  {
    hide TurnAfter, Valid, Tick, InRom, ReadMem;
    if k > 0 {
      ExecutedBefore(m, decode, hf, limit, k - 1, k);
      RomIsConstant(m, decode, hf, limit, k - 1, a);
      RomStays(StateAt(m, decode, hf, limit, k - 1), decode, hf, a);
      ExecutedEntry(m, decode, hf, limit, k - 1);
    }
  }

  // ---------------------------------------------------------------- each choice wins

  /** No range table is empty. */
  predicate Populated(t: Tables)
  {
    t.readWrite != [] && t.readOnly != [] && t.registers != [] && t.code != []
  }

  /** The verifier's execution around step `k`: the hash before it, its record, and the record
      of the step after it. */
  ghost predicate Around(m: State, decode: Decoder, hf: Hasher, limit: nat, k: nat, execution: seq<Entry>)
    requires Valid(m)
  {
    && |execution| == (if k > 0 then 3 else 2)
    && execution[|execution| - 1] == EntryAt(m, decode, hf, limit, k + 1)
    && (k > 0 ==> execution[0].1 == HashAt(m, decode, hf, limit, k - 1) && execution[1] == EntryAt(m, decode, hf, limit, k))
  }

  lemma NotInRanges(address: u32, ranges: Ranges)
    requires !InRanges(address, ranges)
    ensures OutsideRanges(address, ranges) || address % 4 != 0
  {
  }

  lemma {:induction false} TableIsBuildable(ss: seq<Section>, n: nat, t: Table)
    requires Ordered(ss) && n <= |ss| && RangesOf(ss, n, t) != []
    ensures Buildable(RangesOf(ss, n, t))
  {
    if n > 0 {
      ValidSection(ss, n - 1);
      if RangesOf(ss, n - 1, t) != [] { TableIsBuildable(ss, n - 1, t); }
    }
  }

  lemma TablesAreBuildable(ss: seq<Section>)
    requires Ordered(ss) && Populated(TablesOf(ss))
    ensures var t := TablesOf(ss);
            Buildable(t.readWrite) && Buildable(t.readOnly) && Buildable(t.registers) && Buildable(t.code)
  {
    hide RangesOf, Ordered, Buildable;
    TableIsBuildable(ss, |ss|, ReadWriteTable);
    TableIsBuildable(ss, |ss|, ReadOnlyTable);
    TableIsBuildable(ss, |ss|, RegisterTable);
    TableIsBuildable(ss, |ss|, CodeTable);
  }

  /** An address the tables reject is an invalid address of the script. */
  lemma InvalidAddressesWin(m: State, hf: Hasher, trace: TraceRWStep)
    requires Loaded(m, hf) && Populated(m.tables) && !ValidAddresses(m.tables, trace)
    ensures Wins(hf, AddressesOf(m.tables, trace))
  {
    hide TablesOf, InRanges, OutsideRanges, Ordered, Buildable;
    var t := m.tables;
    TablesAreBuildable(m.sections);
    InvalidMem(t, trace.memWitness.read1, trace.read1.address);
    InvalidMem(t, trace.memWitness.read2, trace.read2.address);
    InvalidMem(t, trace.memWitness.write, trace.traceStep.write1.address);
    if !InRanges(trace.readPc.pc.address, t.code) { NotInRanges(trace.readPc.pc.address, t.code); }
  }

  lemma InvalidMem(t: Tables, access: Access, address: u32)
    ensures !ValidAccess(t, access, address, true) ==> InvalidRead(address, access, t.readWrite, t.readOnly, t.registers)
    ensures !ValidAccess(t, access, address, false) ==> InvalidWrite(address, access, t.readWrite, t.registers)
  {
    hide InRanges, OutsideRanges;
    if !InRanges(address, t.readWrite) { NotInRanges(address, t.readWrite); }
    if !InRanges(address, t.readOnly) { NotInRanges(address, t.readOnly); }
    if !InRanges(address, t.registers) { NotInRanges(address, t.registers); }
  }

  /** The run from the start comes to step `k + 1`, whatever becomes of it. */
  ghost predicate Reaches(m: State, decode: Decoder, hf: Hasher, limit: nat, k: nat)
  {
    && Valid(m) && m.step == 0 && k < LAST_STEP_INIT
    && (k > 0 ==> Executes(m, decode, hf, limit, k - 1))
  }

  /** The challenge of a program counter wins exactly when the counter is not that of the state
      the step starts in: it is tested against the entry point in the first step, and against
      the agreed hash in any other. */
  lemma PcChallengeDecides(m: State, decode: Decoder, hf: Hasher, limit: nat, k: nat, trace: TraceRWStep, execution: seq<Entry>)
    requires Loaded(m, hf) && Reaches(m, decode, hf, limit, k)
    requires Around(m, decode, hf, limit, k, execution) && trace.stepNumber == k + 1
    ensures var wrong := trace.readPc.pc != StateAt(m, decode, hf, limit, k).pc;
            && (k == 0 ==> (wrong <==> Wins(hf, EntryPoint(trace.readPc, trace.stepNumber, m.pc.address))))
            && (k > 0 ==> (wrong <==> Wins(hf, PcChallenge(execution[0].1, execution[1].0.traceStep,
                                                           HashAt(m, decode, hf, limit, k), trace.readPc))))
  {
    hide HashAt, EntryAt, Tick, TurnAfter, Valid, TablesOf;
    if k > 0 {
      ExecutedEntry(m, decode, hf, limit, k - 1);
      HashOfState(m, decode, hf, limit, k);
    }
  }

  lemma HashOfState(m: State, decode: Decoder, hf: Hasher, limit: nat, k: nat)
    requires Reaches(m, decode, hf, limit, k) && k > 0
    ensures HashAt(m, decode, hf, limit, k)
            == ComputeStepHash(hf, HashAt(m, decode, hf, limit, k - 1), EntryAt(m, decode, hf, limit, k).0.traceStep)
  {
    hide HashAt, EntryAt, Tick, TurnAfter, Valid, StateAt;
    ExecutedEntry(m, decode, hf, limit, k - 1);
  }

  lemma ChunkHolds(s: Section, pc: u32)
    requires s.Valid() && s.Holds(pc) && pc % 4 == 0
    ensures var instr := (pc - s.start) / 4;
            var info := ChunkOf(s, 0, instr, CODE_CHUNK_SIZE);
            var end := if info.start + CODE_CHUNK_SIZE < |s.data| then info.start + CODE_CHUNK_SIZE else |s.data|;
            && info.start <= instr < end && info.baseAddress == s.start + 4 * info.start
            && info.baseAddress <= pc < info.baseAddress + 4 * (end - info.start)
            && info.start + (pc - info.baseAddress) / 4 == instr
  {
    var instr := (pc - s.start) / 4;
    assert pc == s.start + 4 * instr;
  }

  /** The chosen chunk of code holds the program counter's word. */
  lemma ChunkOfCode(ss: seq<Section>, readPc: TraceReadPC)
    requires Ordered(ss) && InRanges(readPc.pc.address, RangesOf(ss, |ss|, CodeTable))
    ensures var c := ChooseOpcode(ss, readPc);
            && c.Chosen? && c.challenge.Opcode? && c.challenge.readPc == readPc
            && var pc, base, opcodes := readPc.pc.address, c.challenge.chunkBase, c.challenge.opcodes;
               && base <= pc < base + 4 * |opcodes| && ReadMem(ss, pc) == Ok(opcodes[(pc - base) / 4])
               && FindSection(ss, pc).Ok? && !ss[FindSection(ss, pc).value].isWrite
  {
    hide RangesOf, Ordered, Locate, ChunksBefore, ChunkStart;
    var pc := readPc.pc.address;
    TableLocates(ss, CodeTable, pc);
    var i := Locate(ss, pc).value;
    ValidSection(ss, i);
    AlignedInRange(ss[i], pc);
    ChunkHolds(ss[i], pc);
  }

  /** A wrong opcode at the right program counter contradicts the code. */
  lemma WrongOpcodeLoses(m: State, decode: Decoder, hf: Hasher, limit: nat, k: nat, trace: TraceRWStep)
    requires Loaded(m, hf) && Executes(m, decode, hf, limit, k)
    requires var mine := EntryAt(m, decode, hf, limit, k + 1).0;
             trace.readPc.pc == mine.readPc.pc && trace.readPc.opcode != mine.readPc.opcode
    requires InRanges(trace.readPc.pc.address, m.tables.code)
    ensures var c := ChooseOpcode(m.sections, trace.readPc); c.Chosen? && c.challenge.Opcode? && Wins(hf, c.challenge)
  {
    hide HashAt, EntryAt, Tick, TurnAfter, RangesOf, ChooseOpcode, StateAt, Ordered, ReadMem, FindSection, InRanges;
    var s := StateAt(m, decode, hf, limit, k);
    ExecutedEntry(m, decode, hf, limit, k);
    ChunkOfCode(m.sections, trace.readPc);
    RomIsConstant(m, decode, hf, limit, k, s.pc.address);
    OpcodeOfTick(s, decode, hf);
  }

  lemma OpcodeOfTick(m: State, decode: Decoder, hf: Hasher)
    requires Valid(m) && m.step + 1 < LAST_STEP_INIT && Tick(m, decode, hf).Stepped?
    ensures ReadMem(m.sections, m.pc.address) == Ok(Tick(m, decode, hf).trace.readPc.opcode)
    ensures decode(Tick(m, decode, hf).trace.readPc.opcode).Some?
  {
    hide Tick, Valid, ReadMem, InstructionOutcome;
    var m1, opcode, e := EffectOfTick(m, decode, hf);
  }

  /** The verifier itself reads the word at `address` of memory, as its first or second read. */
  predicate ReadsItself(mine: TraceRWStep, first: bool, address: u32)
  {
    if first then mine.memWitness.read1 == Memory && mine.read1.address == address
    else mine.memWitness.read2 == Memory && mine.read2.address == address
  }

  function OwnRead(mine: TraceRWStep, first: bool): TraceRead
  {
    if first then mine.read1 else mine.read2
  }

  lemma OwnReadIsMemory(m: State, decode: Decoder, hf: Hasher, first: bool, address: u32)
    requires Valid(m) && m.step + 1 < LAST_STEP_INIT && Tick(m, decode, hf).Stepped?
    requires ReadsItself(Tick(m, decode, hf).trace, first, address)
    ensures address % 4 == 0 && FindSection(m.sections, address).Ok?
    ensures ReadMem(m.sections, address) == Ok(OwnRead(Tick(m, decode, hf).trace, first).value)
    ensures LastStepOf(m.sections, address) == OwnRead(Tick(m, decode, hf).trace, first).lastStep
  {
    hide Tick, Ordered, InstructionOutcome, ReadMem, LastStepOf;
    var m1, opcode, e := EffectOfTick(m, decode, hf);
    ReadableIsFound(m, address);
  }

  /** A word that carries the initial marker still has its loaded value. */
  lemma {:induction false} UnwrittenIsInitial(m: State, decode: Decoder, hf: Hasher, limit: nat, k: nat, a: u32)
    requires Executes(m, decode, hf, limit, k) && a % 4 == 0 && ReadMem(m.sections, a).Ok?
    ensures var s := StateAt(m, decode, hf, limit, k);
            && Valid(s) && ReadMem(s.sections, a).Ok? && FindSection(s.sections, a).Ok?
            && (LastStepOf(s.sections, a) == LAST_STEP_INIT ==> ReadMem(s.sections, a) == ReadMem(m.sections, a))
  {
    hide TurnAfter, Valid, Tick, ReadMem, LastStepOf;
    if k == 0 {
      ReadableIsFound(m, a);
    } else {
      ExecutedBefore(m, decode, hf, limit, k - 1, k);
      UnwrittenIsInitial(m, decode, hf, limit, k - 1, a);
      ExecutedEntry(m, decode, hf, limit, k - 1);
      UnwrittenStays(StateAt(m, decode, hf, limit, k - 1), decode, hf, a);
    }
  }

  lemma UnwrittenStays(m: State, decode: Decoder, hf: Hasher, a: u32)
    requires Valid(m) && m.step + 1 < LAST_STEP_INIT && Tick(m, decode, hf).Stepped?
    requires a % 4 == 0 && ReadMem(m.sections, a).Ok? && FindSection(m.sections, a).Ok?
    ensures var m' := Tick(m, decode, hf).state;
            && Valid(m') && ReadMem(m'.sections, a).Ok? && FindSection(m'.sections, a).Ok?
            && (LastStepOf(m'.sections, a) == LAST_STEP_INIT ==>
                  LastStepOf(m.sections, a) == LAST_STEP_INIT && ReadMem(m'.sections, a) == ReadMem(m.sections, a))
  {
    hide Tick, ReadMem, LastStepOf, FindSection, Ordered;
    TickChangesOnlyItsTrace(m, decode, hf);
  }

  /** The conflict is at a non-zero address that the verifier itself reads in this step, and about
      a word that still has its loaded value: a constant outside the input, or an input word that
      carries the initial marker. */
  ghost predicate ContradictsLoaded(ss: seq<Section>, isInput: u32 -> bool, trace: TraceRWStep, mine: TraceRWStep)
    requires Ordered(ss)
  {
    var first := trace.read1.value != mine.read1.value && trace.read1.lastStep == LAST_STEP_INIT;
    var second := trace.read2.value != mine.read2.value && trace.read2.lastStep == LAST_STEP_INIT;
    && (first || second)
    && var address := if first then trace.read1.address else trace.read2.address;
       && address != 0 && ReadsItself(mine, first, address) && FindSection(ss, address).Ok?
       && if isInput(address) then OwnRead(mine, first).lastStep == LAST_STEP_INIT
          else !ss[FindSection(ss, address).value].isWrite
  }

  /** A wrong value for such a word contradicts the loaded program: the challenge of input or of
      constants, as the word is one or the other, wins. */
  lemma WrongDataLoses(m: State, decode: Decoder, hf: Hasher, limit: nat, k: nat, trace: TraceRWStep, isInput: u32 -> bool)
    requires Loaded(m, hf) && Executes(m, decode, hf, limit, k)
    requires ContradictsLoaded(m.sections, isInput, trace, EntryAt(m, decode, hf, limit, k + 1).0)
    ensures var c := ChooseData(m.sections, isInput, trace, EntryAt(m, decode, hf, limit, k + 1).0);
            var first := FirstConflicts(trace, EntryAt(m, decode, hf, limit, k + 1).0);
            && c.Chosen? && Wins(hf, c.challenge)
            && if isInput(if first then trace.read1.address else trace.read2.address) then c.challenge.InputData?
               else c.challenge.RomData?
  {
    hide HashAt, EntryAt, Tick, TurnAfter, TablesOf, StateAt, Ordered, ReadMem, FindSection, LastStepOf;
    var mine := EntryAt(m, decode, hf, limit, k + 1).0;
    var first := FirstConflicts(trace, mine);
    var address := if first then trace.read1.address else trace.read2.address;
    ExecutedEntry(m, decode, hf, limit, k);
    OwnReadIsMemory(StateAt(m, decode, hf, limit, k), decode, hf, first, address);
    FoundIsReadable(m.sections, address);
    if isInput(address) {
      UnwrittenIsInitial(m, decode, hf, limit, k, address);
    } else {
      RomIsConstant(m, decode, hf, limit, k, address);
    }
  }

  lemma FoundIsReadable(ss: seq<Section>, a: u32)
    requires Ordered(ss) && FindSection(ss, a).Ok?
    ensures ReadMem(ss, a).Ok?
  {
  }

  /** The challenge an honest verifier picks wins, unless the prover's record agrees with the
      verifier's in hash, addresses, program counter and opcode, and differs at most in what was
      read. The verifier knows the agreed hash of step `k`, it executed step `k + 1` itself, and
      the prover's trace claims to be that step. */
  lemma ChosenChallengeWins(m: State, decode: Decoder, hf: Hasher, limit: nat, isInput: u32 -> bool, k: nat,
                            stepHash: Hash, nextHash: Hash, trace: TraceRWStep, execution: seq<Entry>)
    requires Loaded(m, hf) && Populated(m.tables)
    requires Executes(m, decode, hf, limit, k) && Around(m, decode, hf, limit, k, execution)
    requires stepHash == HashAt(m, decode, hf, limit, k) && trace.stepNumber == k + 1
    ensures Ordered(m.sections)
    ensures var mine := execution[|execution| - 1].0;
            var c := ChooseChallenge(m, hf, isInput, k, stepHash, nextHash, trace, execution);
            || (c.Chosen? && Wins(hf, c.challenge))
            || (&& ValidateStepHash(hf, stepHash, trace.traceStep, nextHash) && ValidAddresses(m.tables, trace)
                && trace.readPc == mine.readPc && !ContradictsLoaded(m.sections, isInput, trace, mine)
                && (c != Chosen(NoChallenge) ==> FirstConflicts(trace, mine) || SecondConflicts(trace, mine)))
  {
    hide EntryAt, HashAt, Executes, Valid, TablesOf, ValidAddresses, ChooseOpcode, ReadMem, FindSection, Ordered, Loaded,
         StateAt, ContradictsLoaded;
    LoadedIsOrdered(m, hf);
    HashAtStart(m, decode, hf, limit);
    ExecutesReaches(m, decode, hf, limit, k);
    var mine := execution[|execution| - 1].0;
    if ValidateStepHash(hf, stepHash, trace.traceStep, nextHash) {
      if !ValidAddresses(m.tables, trace) {
        InvalidAddressesWin(m, hf, trace);
      } else if trace.readPc.pc != mine.readPc.pc {
        PcChallengeDecides(m, decode, hf, limit, k, trace, execution);
      } else if trace.readPc.opcode != mine.readPc.opcode {
        PcIsCode(m.tables, trace);
        WrongOpcodeLoses(m, decode, hf, limit, k, trace);
      } else if ContradictsLoaded(m.sections, isInput, trace, mine) {
        WrongDataLoses(m, decode, hf, limit, k, trace, isInput);
      }
    }
  }

  lemma PcIsCode(t: Tables, trace: TraceRWStep)
    requires ValidAddresses(t, trace)
    ensures InRanges(trace.readPc.pc.address, t.code)
  {
  }

  lemma ExecutesReaches(m: State, decode: Decoder, hf: Hasher, limit: nat, k: nat)
    requires Executes(m, decode, hf, limit, k)
    ensures Reaches(m, decode, hf, limit, k)
    ensures EntryAt(m, decode, hf, limit, k + 1).0.readPc.pc == StateAt(m, decode, hf, limit, k).pc
  {
    hide EntryAt, HashAt, TurnAfter, Valid, Tick, StateAt;
    ExecutedEntry(m, decode, hf, limit, k);
    if k > 0 { ExecutedBefore(m, decode, hf, limit, k - 1, k); }
  }

  // ---------------------------------------------------------------- a step that fails

  /** The verifier's own step `k + 1` is an error. */
  ghost predicate FailsAt(m: State, decode: Decoder, hf: Hasher, limit: nat, k: nat)
  {
    && Reaches(m, decode, hf, limit, k) && k + 1 < LAST_STEP_INIT
    && (k > 0 ==> TurnAfter(m, decode, hf, limit, k).Turn? && TurnAfter(m, decode, hf, limit, k).stop.None?)
    && Valid(StateAt(m, decode, hf, limit, k)) && StateAt(m, decode, hf, limit, k).step == k
    && Tick(StateAt(m, decode, hf, limit, k), decode, hf).Failed?
  }

  /** The record of a failed step is its number alone, and its hash that of an empty step. */
  lemma FailedEntry(m: State, decode: Decoder, hf: Hasher, limit: nat, k: nat)
    requires FailsAt(m, decode, hf, limit, k)
    ensures EntryAt(m, decode, hf, limit, k + 1)
            == (FromStep(k + 1), ComputeStepHash(hf, StateAt(m, decode, hf, limit, k).hash, EMPTY_STEP))
    ensures ToBytes(EMPTY_STEP) == seq(13, _ => 0)
  {
    hide Tick, Valid;
    var s := StateAt(m, decode, hf, limit, k);
    FailedTurn(s, decode, hf, limit);
    assert TurnAfter(m, decode, hf, limit, k + 1) == TurnOf(s, decode, hf, limit);
  }

  lemma FailedTurn(m: State, decode: Decoder, hf: Hasher, limit: nat)
    requires Valid(m) && m.step + 1 < LAST_STEP_INIT && Tick(m, decode, hf).Failed?
    ensures var t := TurnOf(m, decode, hf, limit);
            t.Turn? && t.trace == FromStep(m.step + 1) && t.state.hash == ComputeStepHash(hf, m.hash, EMPTY_STEP)
  {
    hide InstructionOutcome, ReadMem, Ordered, Commit, TraceOf;
  }

  /** The verifier's challenge about data against a step that failed, whose own record reports
      zeros: the first never-written value that is not zero is taken up, and the challenge wins
      if its word is a constant or an input word at a non-zero address whose loaded value one of
      the two reads, never-written, misreports. */
  ghost predicate FailedDataWins(ss: seq<Section>, isInput: u32 -> bool, trace: TraceRWStep)
    requires Ordered(ss)
  {
    var first := trace.read1.value != 0 && trace.read1.lastStep == LAST_STEP_INIT;
    var second := trace.read2.value != 0 && trace.read2.lastStep == LAST_STEP_INIT;
    var address := if first then trace.read1.address else trace.read2.address;
    && (first || second) && address != 0 && FindSection(ss, address).Ok?
    && (isInput(address) || !ss[FindSection(ss, address).value].isWrite)
    && var value := ReadMem(ss, address).value;
       Misread(trace.read1, address, value) || Misread(trace.read2, address, value)
  }

  /** What the verifier's challenge tests against a step that failed: the prover's hash, its
      addresses, and its program counter; or, if that is the empty one of the failed step's own
      record, the opcode at address zero, and then the data. */
  ghost predicate FailedStepWins(m: State, decode: Decoder, hf: Hasher, limit: nat, isInput: u32 -> bool, k: nat,
                                 stepHash: Hash, nextHash: Hash, trace: TraceRWStep)
    requires Ordered(m.sections) && FailsAt(m, decode, hf, limit, k)
  {
    || !ValidateStepHash(hf, stepHash, trace.traceStep, nextHash)
    || !ValidAddresses(m.tables, trace)
    || if trace.readPc.pc != ProgramCounter(0, 0) then trace.readPc.pc != StateAt(m, decode, hf, limit, k).pc
       else if trace.readPc.opcode != 0 then ReadMem(m.sections, 0) != Ok(trace.readPc.opcode)
       else FailedDataWins(m.sections, isInput, trace)
  }

  lemma DataChallengeDecides(ss: seq<Section>, hf: Hasher, isInput: u32 -> bool, trace: TraceRWStep, mine: TraceRWStep)
    requires Ordered(ss) && mine.read1 == NO_READ && mine.read2 == NO_READ
    ensures var c := ChooseData(ss, isInput, trace, mine);
            c.Chosen? && Wins(hf, c.challenge) <==> FailedDataWins(ss, isInput, trace)
  {
    hide Ordered, ReadMem, FindSection;
  }

  lemma OpcodeChallengeDecides(m: State, hf: Hasher, trace: TraceRWStep)
    requires Loaded(m, hf) && Ordered(m.sections) && ValidAddresses(m.tables, trace)
    ensures var c := ChooseOpcode(m.sections, trace.readPc);
            c.Chosen? && Wins(hf, c.challenge) <==> ReadMem(m.sections, trace.readPc.pc.address) != Ok(trace.readPc.opcode)
  {
    hide Ordered, ReadMem, FindSection, ChooseOpcode, RangesOf, InRanges, Fresh;
    PcIsCode(m.tables, trace);
    ChunkOfCode(m.sections, trace.readPc);
  }

  /** A failed step's record names no program counter, so the verifier challenges the prover's
      even if it is the true one. Its challenge wins exactly when the hash, an address or the
      program counter is wrong; nothing else is tested, unless the prover names the empty
      program counter too. */
  lemma FailedStepChallenge(m: State, decode: Decoder, hf: Hasher, limit: nat, isInput: u32 -> bool, k: nat,
                            stepHash: Hash, nextHash: Hash, trace: TraceRWStep, execution: seq<Entry>)
    requires Loaded(m, hf) && Populated(m.tables)
    requires FailsAt(m, decode, hf, limit, k) && Around(m, decode, hf, limit, k, execution)
    requires stepHash == HashAt(m, decode, hf, limit, k) && trace.stepNumber == k + 1
    ensures Ordered(m.sections)
    ensures var c := ChooseChallenge(m, hf, isInput, k, stepHash, nextHash, trace, execution);
            && (c.Chosen? && Wins(hf, c.challenge)
                <==> FailedStepWins(m, decode, hf, limit, isInput, k, stepHash, nextHash, trace))
            && (trace.readPc.pc != ProgramCounter(0, 0) && ValidateStepHash(hf, stepHash, trace.traceStep, nextHash)
                && ValidAddresses(m.tables, trace) ==>
                  c.Chosen? && if k == 0 then c.challenge.EntryPoint? else c.challenge.PcChallenge?)
  {
    hide EntryAt, HashAt, FailsAt, Valid, TablesOf, ValidAddresses, Ordered, Loaded, StateAt, ChooseOpcode, ChooseData, ReadMem,
         FindSection, FailedDataWins;
    LoadedIsOrdered(m, hf);
    HashAtStart(m, decode, hf, limit);
    FailedEntry(m, decode, hf, limit, k);
    FailsReaches(m, decode, hf, limit, k);
    if ValidateStepHash(hf, stepHash, trace.traceStep, nextHash) {
      if !ValidAddresses(m.tables, trace) {
        InvalidAddressesWin(m, hf, trace);
      } else if trace.readPc.pc != ProgramCounter(0, 0) {
        PcChallengeDecides(m, decode, hf, limit, k, trace, execution);
      } else if trace.readPc.opcode != 0 {
        OpcodeChallengeDecides(m, hf, trace);
      } else {
        DataChallengeDecides(m.sections, hf, isInput, trace, FromStep(k + 1));
      }
    }
  }

  /** A program whose first instruction is not implemented. */
  function FaultyCode(): Section
  {
    Section([0x3020_0073], [LAST_STEP_INIT], 0x1000, 4, true, false, true, false)
  }

  function SomeData(): Section
  {
    Section([0], [LAST_STEP_INIT], 0x2000, 4, false, true, true, false)
  }

  ghost function FaultyProgram(hf: Hasher): State
  {
    var ss := [FaultyCode(), SomeData(), RegistersSection()];
    Starting(ss, 0x1000, hf).(tables := TablesOf(ss))
  }

  lemma FaultyProgramIsLoaded(hf: Hasher)
    ensures var m := FaultyProgram(hf);
            && IsLoaded(m, 0x1000, [FaultyCode(), SomeData()], hf)
            && Populated(m.tables) && m.tables.code == [(0x1000, 0x1003)]
            && ReadMem(m.sections, 0x1000) == Ok(0x3020_0073)
  {
    hide RangesOf, Locate, CellAt, HoldsImage, Ordered;
    var m, ss := FaultyProgram(hf), [FaultyCode(), SomeData(), RegistersSection()];
    FaultyIsOrdered(ss);
    assert IsRegisterFile(ss[2], m.base);
    OrderedHoldsImage(ss, [RegistersSection()] + [FaultyCode(), SomeData()]);
    FaultyTables(ss);
    LocateUnique(ss, 0x1000, 0);
    UnwrittenSections(ss);
  }

  lemma FaultyIsOrdered(ss: seq<Section>)
    requires ss == [FaultyCode(), SomeData(), RegistersSection()]
    ensures Ordered(ss) && forall i :: 0 <= i < |ss| ==> ss[i].Valid() && Unwritten(ss[i])
  {
    assert ss[0].Valid() && ss[1].Valid() && ss[2].Valid();
  }

  lemma UnwrittenSections(ss: seq<Section>)
    requires Ordered(ss) && forall i :: 0 <= i < |ss| ==> Unwritten(ss[i])
    ensures forall a: u32 :: ReadMem(ss, a).Ok? ==> FindSection(ss, a).Ok? && LastStepOf(ss, a) == LAST_STEP_INIT
  {
    hide Ordered, CellAt, Locate;
    forall a: u32 | ReadMem(ss, a).Ok? ensures FindSection(ss, a).Ok? && LastStepOf(ss, a) == LAST_STEP_INIT {
      LastStepOfCell(ss, a);
      UnwrittenReads(ss, a);
    }
  }

  lemma FaultyTables(ss: seq<Section>)
    requires ss == [FaultyCode(), SomeData(), RegistersSection()]
    ensures RangesOf(ss, |ss|, ReadWriteTable) == [(0x2000, 0x2003)]
    ensures RangesOf(ss, |ss|, ReadOnlyTable) == RangesOf(ss, |ss|, CodeTable) == [(0x1000, 0x1003)]
    ensures |RangesOf(ss, |ss|, RegisterTable)| == 1
  {
    forall t: Table ensures RangesOf(ss, 3, t) == RangesOf(ss, 2, t) + if Lists(t, ss[2]) then [ss[2].Range()] else [] {}
    forall t: Table ensures RangesOf(ss, 2, t) == RangesOf(ss, 1, t) + if Lists(t, ss[1]) then [ss[1].Range()] else [] {}
    forall t: Table ensures RangesOf(ss, 1, t) == if Lists(t, ss[0]) then [ss[0].Range()] else [] {}
  }

  /** A record of the failing step as if it had done nothing and gone on. */
  const MADE_UP: TraceRWStep :=
    TraceRWStep(1, NO_READ, NO_READ, TraceReadPC(ProgramCounter(0x1000, 0), 0x3020_0073),
                TraceStep(NO_WRITE, ProgramCounter(0x1004, 0)), None, NO_WITNESS)

  lemma FaultyProgramFails(decode: Decoder, hf: Hasher, limit: nat)
    requires decode(0x3020_0073) == Some(NotImplemented)
    ensures FailsAt(FaultyProgram(hf), decode, hf, limit, 0)
  {
    hide ReadMem, TablesOf, Ordered, Fresh, FaultyCode, SomeData, RegistersSection;
    FaultyProgramIsLoaded(hf);
    LoadedIsOrdered(FaultyProgram(hf), hf);
  }

  lemma MadeUpIsPlausible(t: Tables)
    requires t.code == [(0x1000, 0x1003)]
    ensures ValidAddresses(t, MADE_UP)
  {
    assert (0x1000, 0x1003) in t.code;
  }

  /** The chosen challenge can lose: against a made-up record of a step that fails, in a program
      as loaded. */
  lemma FailedStepCanLose(decode: Decoder, hf: Hasher, limit: nat, isInput: u32 -> bool)
    returns (m: State, nextHash: Hash, execution: seq<Entry>)
    requires decode(0x3020_0073) == Some(NotImplemented)
    ensures Loaded(m, hf) && Populated(m.tables) && FailsAt(m, decode, hf, limit, 0) && Ordered(m.sections)
    ensures Around(m, decode, hf, limit, 0, execution) && nextHash == ComputeStepHash(hf, m.hash, MADE_UP.traceStep)
    ensures var c := ChooseChallenge(m, hf, isInput, 0, m.hash, nextHash, MADE_UP, execution);
            c.Chosen? && c.challenge.EntryPoint? && !Wins(hf, c.challenge)
  {
    hide ReadMem, TablesOf, Ordered, EntryAt, HashAt, Fresh, FaultyCode, SomeData, RegistersSection, FailsAt, Valid,
         ValidAddresses, ToBytes, TurnAfter, ChooseChallenge, Wins;
    m := FaultyProgram(hf);
    FaultyProgramIsLoaded(hf);
    LoadedIsOrdered(m, hf);
    FaultyProgramFails(decode, hf, limit);
    MadeUpIsPlausible(m.tables);
    nextHash := ComputeStepHash(hf, m.hash, MADE_UP.traceStep);
    execution := [(FromStep(0), m.hash), EntryAt(m, decode, hf, limit, 1)];
    HashAtStart(m, decode, hf, limit);
    FailedEntry(m, decode, hf, limit, 0);
    FailedStepChallenge(m, decode, hf, limit, isInput, 0, m.hash, nextHash, MADE_UP, execution);
  }

  lemma FailsReaches(m: State, decode: Decoder, hf: Hasher, limit: nat, k: nat)
    requires FailsAt(m, decode, hf, limit, k)
    ensures Reaches(m, decode, hf, limit, k)
  {
  }

  lemma LoadedIsOrdered(m: State, hf: Hasher)
    requires Loaded(m, hf)
    ensures Valid(m) && m.step == 0 && Ordered(m.sections) && m.hash == InitialHash(hf)
  {
  }

  lemma HashAtStart(m: State, decode: Decoder, hf: Hasher, limit: nat)
    requires Valid(m) && m.step == 0
    ensures HashAt(m, decode, hf, limit, 0) == m.hash
  {
    hide Valid, TurnAfter;
  }
}
