/** The other side of a dispute: a prover that reveals the record of its own execution loses no
    challenge, whatever true facts of program and execution the verifier brings forward. */
module HonestProver {
  import opened Bits
  import opened NArySearch
  import opened StepMapping
  import opened Trace
  import opened SectionMemory
  import opened SectionIndex
  import opened Machine
  import opened Runs
  import opened MicroStates
  import opened RomCommitments
  import opened Programs
  import opened Loader
  import opened Execution
  import opened Checkpoints
  import opened Dispute
  import opened MemoryScripts
  import opened ScriptAgreement
  import opened CodeChunks
  import opened Challenges
  import opened DisputeOutcome

  // ---------------------------------------------------------------- valid addresses lose no challenge

  /** The script of the address challenge and the range tables agree on every access that is
      marked as used; of an unused one the script only asks for alignment. */
  lemma ScriptMeetsTables(address: u32, access: Access, t: Tables)
    ensures access != Unused ==>
              (InvalidRead(address, access, t.readWrite, t.readOnly, t.registers) <==> !ValidAccess(t, access, address, true))
    ensures access != Unused ==>
              (InvalidWrite(address, access, t.readWrite, t.registers) <==> !ValidAccess(t, access, address, false))
    ensures access == Unused ==> (InvalidRead(address, access, t.readWrite, t.readOnly, t.registers) <==> address % 4 != 0)
    ensures access == Unused ==> (InvalidWrite(address, access, t.readWrite, t.registers) <==> address % 4 != 0)
    ensures InvalidPc(address, t.code) <==> !InRanges(address, t.code)
  {
  }

  /** A script over a table without a word cannot be built, so its challenge does not win. */
  lemma EmptyTablesHaveNoScript(hf: Hasher, c: ChallengeType)
    requires c.AddressesSections? && Wins(hf, c)
    ensures c.readWrite != [] && c.readOnly != [] && c.registers != [] && c.code != []
    ensures forall r :: r in c.readWrite + c.readOnly + c.registers + c.code ==> r.1 - r.0 >= 3
  {
    hide InvalidRead, InvalidWrite, InvalidPc;
  }

  /** The accesses of a record are valid by the tables, and unused ones have an aligned address. */
  predicate ValidReadsAndWrite(t: Tables, trace: TraceRWStep)
  {
    && ValidAccess(t, trace.memWitness.read1, trace.read1.address, true)
    && ValidAccess(t, trace.memWitness.read2, trace.read2.address, true)
    && ValidAccess(t, trace.memWitness.write, trace.traceStep.write1.address, false)
    && trace.read1.address % 4 == 0 && trace.read2.address % 4 == 0 && trace.traceStep.write1.address % 4 == 0
  }

  /** An access is possible in memory: a word that can be read, or written; a register; or nothing. */
  ghost predicate Accessible(ss: seq<Section>, access: Access, a: u32, writes: bool)
    requires Ordered(ss)
  {
    match access
    case Unused => true
    case Register => a % 4 == 0 && CellAt(ss, a) == RegisterFile
    case Memory => a % 4 == 0 && if writes then WriteMem(ss, a, 0, 0).Ok? else ReadMem(ss, a).Ok?
  }

  /** Every access that a record marks as used is possible, and its program counter is an aligned
      word of code. */
  ghost predicate AllAccessible(ss: seq<Section>, trace: TraceRWStep)
    requires Ordered(ss)
  {
    var pc := trace.readPc.pc.address;
    && Accessible(ss, trace.memWitness.read1, trace.read1.address, false)
    && Accessible(ss, trace.memWitness.read2, trace.read2.address, false)
    && Accessible(ss, trace.memWitness.write, trace.traceStep.write1.address, true)
    && pc % 4 == 0 && CellAt(ss, pc).Mapped? && CellAt(ss, pc).isCode
  }

  /** An address outside four-byte steps, in an access that is marked as unused. */
  predicate StrayAddress(trace: TraceRWStep)
  {
    || (trace.memWitness.read1 == Unused && trace.read1.address % 4 != 0)
    || (trace.memWitness.read2 == Unused && trace.read2.address % 4 != 0)
    || (trace.memWitness.write == Unused && trace.traceStep.write1.address % 4 != 0)
  }

  lemma AccessIsListed(ss: seq<Section>, access: Access, a: u32)
    requires Ordered(ss)
    ensures ValidAccess(TablesOf(ss), access, a, true) <==> Accessible(ss, access, a, false)
    ensures ValidAccess(TablesOf(ss), access, a, false) <==> Accessible(ss, access, a, true)
  {
    hide Ordered, RangesOf, Locate, CellAt;
    if a % 4 == 0 { TablesAgreeWithMemory(ss, a, 0, 0); }
  }

  lemma CodeIsListed(ss: seq<Section>, a: u32)
    requires Ordered(ss)
    ensures InRanges(a, TablesOf(ss).code) <==> a % 4 == 0 && CellAt(ss, a).Mapped? && CellAt(ss, a).isCode
  {
    hide Ordered, RangesOf, Locate;
    if a % 4 == 0 { TablesAgreeWithMemory(ss, a, 0, 0); }
  }

  /** The verifier accepts the addresses of a record exactly if all its accesses are possible, and
      the address script succeeds exactly if one is not, or an unused access has a stray address. */
  lemma AddressesAreDecided(m: State, hf: Hasher, trace: TraceRWStep)
    requires Loaded(m, hf) && Ordered(m.sections) && Populated(m.tables)
    ensures ValidAddresses(m.tables, trace) <==> AllAccessible(m.sections, trace)
    ensures Wins(hf, AddressesOf(m.tables, trace)) <==> !AllAccessible(m.sections, trace) || StrayAddress(trace)
  {
    hide Ordered, TablesOf, InRanges, InvalidRead, InvalidWrite, InvalidPc, ValidAccess, Accessible, Buildable, CellAt, Fresh;
    TablesAreBuildable(m.sections);
    AccessIsListed(m.sections, trace.memWitness.read1, trace.read1.address);
    AccessIsListed(m.sections, trace.memWitness.read2, trace.read2.address);
    AccessIsListed(m.sections, trace.memWitness.write, trace.traceStep.write1.address);
    CodeIsListed(m.sections, trace.readPc.pc.address);
    ScriptMeetsTables(trace.read1.address, trace.memWitness.read1, m.tables);
    ScriptMeetsTables(trace.read2.address, trace.memWitness.read2, m.tables);
    ScriptMeetsTables(trace.traceStep.write1.address, trace.memWitness.write, m.tables);
    ScriptMeetsTables(trace.readPc.pc.address, Memory, m.tables);
    UnusedIsAccessible(m.sections, trace);
  }

  lemma UnusedIsAccessible(ss: seq<Section>, trace: TraceRWStep)
    requires Ordered(ss)
    ensures trace.memWitness.read1 == Unused ==> Accessible(ss, Unused, trace.read1.address, false)
    ensures trace.memWitness.read2 == Unused ==> Accessible(ss, Unused, trace.read2.address, false)
    ensures trace.memWitness.write == Unused ==> Accessible(ss, Unused, trace.traceStep.write1.address, true)
  {
  }

  lemma ValidRecordLosesOnlyCode(t: Tables, hf: Hasher, trace: TraceRWStep)
    requires ValidReadsAndWrite(t, trace)
    requires Buildable(t.readWrite) && Buildable(t.readOnly) && Buildable(t.registers) && Buildable(t.code)
    ensures Wins(hf, AddressesOf(t, trace)) <==> !InRanges(trace.readPc.pc.address, t.code)
    ensures ValidAddresses(t, trace) <==> InRanges(trace.readPc.pc.address, t.code)
  {
    hide InRanges, InvalidRead, InvalidWrite, InvalidPc, ValidAccess;
    ScriptMeetsTables(trace.read1.address, trace.memWitness.read1, t);
    ScriptMeetsTables(trace.read2.address, trace.memWitness.read2, t);
    ScriptMeetsTables(trace.traceStep.write1.address, trace.memWitness.write, t);
    ScriptMeetsTables(trace.readPc.pc.address, Memory, t);
  }

  /** What the loaded program says about a place that a later state reads or writes. */
  lemma PlaceIsListed(m: State, s: State, l: Location)
    requires Valid(m) && Valid(s) && SamePlaces(m, s) && Readable(s, l)
    ensures var r := ReadAt(s, l);
            r.address % 4 == 0 && ValidAccess(TablesOf(m.sections), AccessOfRead(l), r.address, true)
  {
    hide Ordered, Locate, TablesOf, FindSection, LastStepOf;
    match l {
      case Nowhere =>
      case AtReg(i) => RegisterIsListed(m, s, i);
      case AtMem(a) =>
        ReadableIsFound(s, a);
        FoundIsReadable(m.sections, a);
        TablesAgreeWithMemory(m.sections, a, 0, 0);
    }
  }

  lemma RegisterIsListed(m: State, s: State, i: RegIndex)
    requires Valid(m) && Valid(s) && SamePlaces(m, s)
    ensures RegisterAddress(s, i) % 4 == 0 && ValidAccess(TablesOf(m.sections), Register, RegisterAddress(s, i), true)
    ensures ValidAccess(TablesOf(m.sections), Register, RegisterAddress(s, i), false)
  {
    hide TablesOf, Ordered, Locate;
    var a := RegisterAddress(s, i);
    var k :| 0 <= k < |m.sections| && IsRegisterFile(m.sections[k], m.base);
    LocateUnique(m.sections, a, k);
    TablesAgreeWithMemory(m.sections, a, 0, 0);
  }

  lemma WriteIsListed(m: State, s: State, w: Write)
    requires Valid(m) && Valid(s) && SamePlaces(m, s)
    requires match w
             case ToMem(a, v) => a % 4 == 0 && WriteMem(s.sections, a, v, 0).Ok? && (InRom(m, a) ==> InRom(s, a))
             case _ => true
    ensures var t := WriteOf(s, w);
            t.address % 4 == 0 && ValidAccess(TablesOf(m.sections), AccessOfWrite(w), t.address, false)
  {
    hide TablesOf, Ordered, Locate;
    match w {
      case NoWrite =>
      case ToReg(i, v) => RegisterIsListed(m, s, i);
      case ToMem(a, v) =>
        WritableAgain(m.sections, s.sections, a, v);
        TablesAgreeWithMemory(m.sections, a, v, 0);
    }
  }

  lemma WritableAgain(ss: seq<Section>, ss': seq<Section>, a: u32, v: u32)
    requires Ordered(ss) && Ordered(ss') && FindSection(ss, a) == FindSection(ss', a) && WriteMem(ss', a, v, 0).Ok?
    requires !ss[FindSection(ss, a).value].isWrite ==> !ss'[FindSection(ss', a).value].isWrite
    ensures WriteMem(ss, a, v, 0).Ok?
  {
    hide Locate;
    ValidSection(ss, FindSection(ss, a).value);
  }

  // ---------------------------------------------------------------- the record of an executed step

  lemma {:induction false} PlacesStay(m: State, decode: Decoder, hf: Hasher, limit: nat, k: nat)
    requires Executes(m, decode, hf, limit, k)
    ensures Valid(StateAt(m, decode, hf, limit, k)) && SamePlaces(m, StateAt(m, decode, hf, limit, k))
  {
    hide TurnAfter, Valid, Tick, FindSection;
    if k > 0 {
      ExecutedBefore(m, decode, hf, limit, k - 1, k);
      PlacesStay(m, decode, hf, limit, k - 1);
      ExecutedEntry(m, decode, hf, limit, k - 1);
      TickChangesOnlyItsTrace(StateAt(m, decode, hf, limit, k - 1), decode, hf);
    }
  }

  lemma SamePlacesCounted(m: State, s: State, s': State)
    requires Valid(m) && SamePlaces(m, s) && s' == s.(step := s'.step) && Valid(s')
    ensures SamePlaces(m, s')
  {
  }

  /** The verifier's tables list every access of an executed step. */
  lemma OwnAccessesAreListed(m: State, decode: Decoder, hf: Hasher, limit: nat, k: nat)
    requires Loaded(m, hf) && Executes(m, decode, hf, limit, k)
    ensures ValidReadsAndWrite(m.tables, EntryAt(m, decode, hf, limit, k + 1).0)
  {
    hide TurnAfter, Valid, Tick, StateAt, EntryAt, HashAt, TablesOf, ReadMem, WriteMem, FindSection, InstructionOutcome, Commit,
         SamePlaces, ValidAccess, InRom, Fresh;
    LoadedIsOrdered(m, hf);
    var s := StateAt(m, decode, hf, limit, k);
    ExecutedEntry(m, decode, hf, limit, k);
    PlacesStay(m, decode, hf, limit, k);
    var s1, opcode, e := EffectOfTick(s, decode, hf);
    SamePlacesCounted(m, s, s1);
    PlaceIsListed(m, s1, e.read1);
    PlaceIsListed(m, s1, e.read2);
    if e.write.ToMem? && InRom(m, e.write.address) {
      RomIsConstant(m, decode, hf, limit, k, e.write.address);
      SameRom(s, s1, e.write.address);
    }
    WriteIsListed(m, s1, e.write);
  }

  lemma SameRom(s: State, s': State, a: u32)
    requires Valid(s) && Valid(s') && s'.sections == s.sections && InRom(s, a)
    ensures InRom(s', a)
  {
  }

  /** The script of an honest address challenge succeeds exactly if the program counter has left
      the code. */
  lemma HonestAddressesLoseOnlyOutsideCode(m: State, decode: Decoder, hf: Hasher, limit: nat, k: nat)
    requires Loaded(m, hf) && Populated(m.tables) && Executes(m, decode, hf, limit, k)
    ensures var own := EntryAt(m, decode, hf, limit, k + 1).0;
            && (Wins(hf, AddressesOf(m.tables, own)) <==> !InRanges(own.readPc.pc.address, m.tables.code))
            && (ValidAddresses(m.tables, own) <==> InRanges(own.readPc.pc.address, m.tables.code))
  {
    hide EntryAt, Executes, Valid, TablesOf, Wins, ValidAddresses, ValidReadsAndWrite, InRanges, Ordered, Buildable, RangesOf;
    LoadedIsOrdered(m, hf);
    TablesAreBuildable(m.sections);
    OwnAccessesAreListed(m, decode, hf, limit, k);
    ValidRecordLosesOnlyCode(m.tables, hf, EntryAt(m, decode, hf, limit, k + 1).0);
  }

  /** A read that carries the initial marker reports the loaded value, if it is of memory. */
  lemma UnwrittenReadIsLoaded(m: State, decode: Decoder, hf: Hasher, limit: nat, k: nat, first: bool)
    requires Loaded(m, hf) && Executes(m, decode, hf, limit, k)
    ensures Ordered(m.sections)
    ensures var own := OwnRead(EntryAt(m, decode, hf, limit, k + 1).0, first);
            own.lastStep == LAST_STEP_INIT && ReadMem(m.sections, own.address).Ok? ==>
              ReadMem(m.sections, own.address) == Ok(own.value)
  {
    hide TurnAfter, Valid, Tick, StateAt, EntryAt, HashAt, ReadMem, FindSection, LastStepOf, InstructionOutcome, Commit,
         Fresh, TablesOf;
    LoadedIsOrdered(m, hf);
    var s := StateAt(m, decode, hf, limit, k);
    var own := OwnRead(EntryAt(m, decode, hf, limit, k + 1).0, first);
    ExecutedEntry(m, decode, hf, limit, k);
    if own.lastStep == LAST_STEP_INIT && ReadMem(m.sections, own.address).Ok? {
      PlacesStay(m, decode, hf, limit, k);
      var s1, opcode, e := EffectOfTick(s, decode, hf);
      match if first then e.read1 else e.read2 {
        case Nowhere =>
        case AtReg(i) =>
          ReadableIsFound(m, own.address);
          RegistersApart(m, i, own.address);
        case AtMem(a) =>
          OwnReadIsMemory(s, decode, hf, first, a);
          UnwrittenIsInitial(m, decode, hf, limit, k, a);
      }
    }
  }

  // ---------------------------------------------------------------- no challenge wins

  /** The challenge is about this record of step `k + 1` and these hashes around it, and what it
      says of the program is true. The step and the hash before that a challenge of the program
      counter brings forward are anyone's. */
  ghost predicate Genuine(m: State, k: nat, stepHash: Hash, nextHash: Hash, trace: TraceRWStep, c: ChallengeType)
    requires Ordered(m.sections)
  {
    match c
    case TraceHash(previous, step, next) => previous == stepHash && step == trace.traceStep && next == nextHash
    case TraceHashZero(step, next) => k == 0 && step == trace.traceStep && next == nextHash
    case EntryPoint(readPc, stepNumber, entryPoint) =>
      readPc == trace.readPc && stepNumber == k + 1 && entryPoint == m.pc.address
    case PcChallenge(_, _, previous, readPc) => readPc == trace.readPc && previous == stepHash
    case Opcode(readPc, _, base, opcodes) => readPc == trace.readPc && HoldsWords(m.sections, base, opcodes)
    case InputData(read1, read2, address, value) =>
      read1 == trace.read1 && read2 == trace.read2 && ReadMem(m.sections, address) == Ok(value)
    case RomData(read1, read2, address, value) =>
      read1 == trace.read1 && read2 == trace.read2 && ReadMem(m.sections, address) == Ok(value)
    case AddressesSections(_, _, _, _, _, _, _, _, _) => c == AddressesOf(m.tables, trace)
    case NoChallenge => true
  }

  /** A challenge of the prover's own record of an executed step, and of its own hashes. */
  ghost predicate GenuineForOwn(m: State, decode: Decoder, hf: Hasher, limit: nat, k: nat, c: ChallengeType)
    requires Valid(m) && Ordered(m.sections)
  {
    Genuine(m, k, HashAt(m, decode, hf, limit, k), HashAt(m, decode, hf, limit, k + 1),
            EntryAt(m, decode, hf, limit, k + 1).0, c)
  }

  /** The loaded program holds these words from the address on. */
  ghost predicate HoldsWords(ss: seq<Section>, base: nat, words: seq<u32>)
    requires Ordered(ss)
  {
    base % 4 == 0 && base + 4 * |words| <= 0x1_0000_0000
    && forall j :: 0 <= j < |words| ==> ReadMem(ss, base + 4 * j) == Ok(words[j])
  }

  /** The sequences have the same last thirteen bytes, and the same bytes before. */
  lemma SameTail(x: seq<byte>, s: TraceStep, y: seq<byte>, t: TraceStep)
    requires x + ToBytes(s) == y + ToBytes(t)
    ensures s == t
  {
    hide ToBytes;
    var all := x + ToBytes(s);
    assert |x| == |y|;
    assert all[|x|..] == ToBytes(s) && all[|y|..] == ToBytes(t);
    ToBytesInjective(s, t);
  }

  /** What was hashed to the hash of step `k`. */
  ghost function HashedAt(m: State, decode: Decoder, hf: Hasher, limit: nat, k: nat): seq<byte>
    requires Valid(m)
  {
    if k == 0 then [0xff] else HashAt(m, decode, hf, limit, k - 1) + ToBytes(EntryAt(m, decode, hf, limit, k).0.traceStep)
  }

  /** The challenge brings forward another input of the hash function with the hash of step `k`. */
  ghost predicate CollidesAt(m: State, decode: Decoder, hf: Hasher, limit: nat, k: nat, c: ChallengeType)
    requires Valid(m)
  {
    && c.PcChallenge? && c.prePreHash + ToBytes(c.preStep) != HashedAt(m, decode, hf, limit, k)
    && hf(c.prePreHash + ToBytes(c.preStep)) == hf(HashedAt(m, decode, hf, limit, k))
  }

  /** A challenge of the true program counter wins only with another input of the hash function
      that has the same hash. */
  lemma TruePcLosesByCollision(m: State, decode: Decoder, hf: Hasher, limit: nat, k: nat, c: ChallengeType)
    requires Loaded(m, hf) && Executes(m, decode, hf, limit, k) && c.PcChallenge? && Ordered(m.sections)
    requires GenuineForOwn(m, decode, hf, limit, k, c) && Wins(hf, c)
    ensures CollidesAt(m, decode, hf, limit, k, c)
  {
    hide TurnAfter, Valid, Tick, StateAt, EntryAt, HashAt, ToBytes, Ordered;
    LoadedIsOrdered(m, hf);
    HashAtStart(m, decode, hf, limit);
    ExecutedEntry(m, decode, hf, limit, k);
    if k > 0 {
      ExecutedBefore(m, decode, hf, limit, k - 1, k);
      ExecutedEntry(m, decode, hf, limit, k - 1);
      if c.prePreHash + ToBytes(c.preStep) == HashedAt(m, decode, hf, limit, k) {
        SameTail(c.prePreHash, c.preStep, HashAt(m, decode, hf, limit, k - 1), EntryAt(m, decode, hf, limit, k).0.traceStep);
      }
    }
  }

  /** The opcode of an executed step in code is the loaded word at its program counter. */
  lemma OwnOpcodeIsLoaded(m: State, decode: Decoder, hf: Hasher, limit: nat, k: nat)
    requires Loaded(m, hf) && Executes(m, decode, hf, limit, k) && Ordered(m.sections)
    requires InRanges(EntryAt(m, decode, hf, limit, k + 1).0.readPc.pc.address, m.tables.code)
    ensures var readPc := EntryAt(m, decode, hf, limit, k + 1).0.readPc;
            readPc.pc.address % 4 == 0 && ReadMem(m.sections, readPc.pc.address) == Ok(readPc.opcode)
  {
    hide TurnAfter, Valid, Tick, StateAt, EntryAt, HashAt, ReadMem, FindSection, RangesOf, Ordered, Fresh, ChooseOpcode;
    LoadedIsOrdered(m, hf);
    var s := StateAt(m, decode, hf, limit, k);
    ExecutedEntry(m, decode, hf, limit, k);
    ChunkOfCode(m.sections, EntryAt(m, decode, hf, limit, k + 1).0.readPc);
    RomIsConstant(m, decode, hf, limit, k, s.pc.address);
    OpcodeOfTick(s, decode, hf);
  }

  lemma HeldWord(ss: seq<Section>, base: nat, words: seq<u32>, pc: u32, opcode: u32)
    requires Ordered(ss) && HoldsWords(ss, base, words) && pc % 4 == 0 && ReadMem(ss, pc) == Ok(opcode)
    requires base <= pc < base + 4 * |words|
    ensures words[(pc - base) / 4] == opcode
  {
    hide ReadMem, Ordered;
    assert base + 4 * ((pc - base) / 4) == pc;
  }

  lemma TrueOpcodeIsSafe(m: State, decode: Decoder, hf: Hasher, limit: nat, k: nat, c: ChallengeType)
    requires Loaded(m, hf) && Executes(m, decode, hf, limit, k) && c.Opcode? && Ordered(m.sections)
    requires InRanges(EntryAt(m, decode, hf, limit, k + 1).0.readPc.pc.address, m.tables.code)
    requires GenuineForOwn(m, decode, hf, limit, k, c)
    ensures !Wins(hf, c)
  {
    hide Executes, Valid, EntryAt, ReadMem, InRanges, Ordered, Loaded, HoldsWords, Wins, HashAt;
    LoadedIsOrdered(m, hf);
    OwnOpcodeIsLoaded(m, decode, hf, limit, k);
    RightOpcodeIsSafe(m.sections, hf, c);
  }

  lemma RightOpcodeIsSafe(ss: seq<Section>, hf: Hasher, c: ChallengeType)
    requires Ordered(ss) && c.Opcode? && HoldsWords(ss, c.chunkBase, c.opcodes)
    requires c.readPc.pc.address % 4 == 0 && ReadMem(ss, c.readPc.pc.address) == Ok(c.readPc.opcode)
    ensures !Wins(hf, c)
  {
    hide ReadMem, Ordered, HoldsWords;
    if Wins(hf, c) { HeldWord(ss, c.chunkBase, c.opcodes, c.readPc.pc.address, c.readPc.opcode); }
  }

  lemma TrueHashIsSafe(m: State, decode: Decoder, hf: Hasher, limit: nat, k: nat, c: ChallengeType)
    requires Loaded(m, hf) && Executes(m, decode, hf, limit, k) && Ordered(m.sections)
    requires c.TraceHash? || c.TraceHashZero? || c.EntryPoint?
    requires GenuineForOwn(m, decode, hf, limit, k, c)
    ensures !Wins(hf, c)
  {
    hide TurnAfter, Valid, Tick, EntryAt, HashAt, ToBytes, Ordered, TablesOf;
    LoadedIsOrdered(m, hf);
    HashAtStart(m, decode, hf, limit);
    ExecutedEntry(m, decode, hf, limit, k);
  }

  lemma TrueDataIsSafe(m: State, decode: Decoder, hf: Hasher, limit: nat, k: nat, c: ChallengeType)
    requires Loaded(m, hf) && Executes(m, decode, hf, limit, k) && Ordered(m.sections)
    requires (c.InputData? || c.RomData?) && GenuineForOwn(m, decode, hf, limit, k, c)
    ensures !Wins(hf, c)
  {
    hide Executes, Valid, EntryAt, ReadMem, Ordered, Loaded;
    UnwrittenReadIsLoaded(m, decode, hf, limit, k, true);
    UnwrittenReadIsLoaded(m, decode, hf, limit, k, false);
  }

  /** No challenge of a step that the prover has executed, in code, wins against its own record:
      true hashes, addresses, program counters, opcodes and loaded values all agree with it, and a
      made-up step before it needs a collision of the hash function. */
  lemma HonestRecordIsSafe(m: State, decode: Decoder, hf: Hasher, limit: nat, k: nat, c: ChallengeType)
    requires Loaded(m, hf) && Executes(m, decode, hf, limit, k) && Ordered(m.sections) && Populated(m.tables)
    requires InRanges(EntryAt(m, decode, hf, limit, k + 1).0.readPc.pc.address, m.tables.code)
    requires GenuineForOwn(m, decode, hf, limit, k, c)
    ensures Wins(hf, c) ==> CollidesAt(m, decode, hf, limit, k, c)
  {
    hide EntryAt, HashAt, Executes, Valid, TablesOf, Wins, GenuineForOwn, InRanges, Ordered, HashedAt, Loaded, ToBytes;
    LoadedIsOrdered(m, hf);
    match c {
      case TraceHash(_, _, _) => TrueHashIsSafe(m, decode, hf, limit, k, c);
      case TraceHashZero(_, _) => TrueHashIsSafe(m, decode, hf, limit, k, c);
      case EntryPoint(_, _, _) => TrueHashIsSafe(m, decode, hf, limit, k, c);
      case PcChallenge(_, _, _, _) => if Wins(hf, c) { TruePcLosesByCollision(m, decode, hf, limit, k, c); }
      case Opcode(_, _, _, _) => TrueOpcodeIsSafe(m, decode, hf, limit, k, c);
      case InputData(_, _, _, _) => TrueDataIsSafe(m, decode, hf, limit, k, c);
      case RomData(_, _, _, _) => TrueDataIsSafe(m, decode, hf, limit, k, c);
      case AddressesSections(_, _, _, _, _, _, _, _, _) =>
        TrueAddresses(m, decode, hf, limit, k, c);
        HonestAddressesLoseOnlyOutsideCode(m, decode, hf, limit, k);
      case NoChallenge => NothingWins(hf);
    }
  }

  lemma TrueAddresses(m: State, decode: Decoder, hf: Hasher, limit: nat, k: nat, c: ChallengeType)
    requires Valid(m) && Ordered(m.sections) && GenuineForOwn(m, decode, hf, limit, k, c) && c.AddressesSections?
    ensures c == AddressesOf(m.tables, EntryAt(m, decode, hf, limit, k + 1).0)
  {
  }

  lemma NothingWins(hf: Hasher)
    ensures !Wins(hf, NoChallenge)
  {
  }

  /** Nor does the verifier choose any. */
  lemma HonestRecordIsNotChallenged(m: State, decode: Decoder, hf: Hasher, limit: nat, isInput: u32 -> bool, k: nat,
                                     execution: seq<Entry>)
    requires Loaded(m, hf) && Populated(m.tables) && Ordered(m.sections)
    requires Executes(m, decode, hf, limit, k) && Around(m, decode, hf, limit, k, execution)
    requires InRanges(EntryAt(m, decode, hf, limit, k + 1).0.readPc.pc.address, m.tables.code)
    ensures ChooseChallenge(m, hf, isInput, k, HashAt(m, decode, hf, limit, k), HashAt(m, decode, hf, limit, k + 1),
                            EntryAt(m, decode, hf, limit, k + 1).0, execution) == Chosen(NoChallenge)
  {
    hide EntryAt, HashAt, Executes, Valid, TablesOf, Wins, InRanges, Ordered, ValidAddresses, ToBytes, Loaded;
    ExecutedHash(m, decode, hf, limit, k);
    HonestAddressesLoseOnlyOutsideCode(m, decode, hf, limit, k);
  }

  // ---------------------------------------------------------------- the verifier's choice is genuine

  /** The chunk that an opcode challenge brings forward is a piece of one section of code. */
  lemma ChunkIsPiece(ss: seq<Section>, readPc: TraceReadPC) returns (i: nat, start: nat, end: nat)
    requires Ordered(ss) && InRanges(readPc.pc.address, RangesOf(ss, |ss|, CodeTable))
    ensures i < |ss| && ss[i].Valid() && !ss[i].registers
    ensures start < end == if start + 500 < |ss[i].data| then start + 500 else |ss[i].data|
    ensures var c := ChooseOpcode(ss, readPc);
            && c.Chosen? && c.challenge.Opcode? && c.challenge.readPc == readPc
            && c.challenge.chunkBase == ss[i].start + 4 * start && c.challenge.opcodes == ss[i].data[start..end]
            && ChunkInfoOf(ss, readPc.pc.address, CODE_CHUNK_SIZE).Some?
            && c.challenge.chunkIndex == ChunkInfoOf(ss, readPc.pc.address, CODE_CHUNK_SIZE).value.index
            && c.challenge.chunkBase == ChunkInfoOf(ss, readPc.pc.address, CODE_CHUNK_SIZE).value.baseAddress
  {
    hide Locate, RangesOf, ChunksBefore, Ordered, ChunkStart;
    var pc := readPc.pc.address;
    TableLocates(ss, CodeTable, pc);
    i := Locate(ss, pc).value;
    ValidSection(ss, i);
    AlignedInRange(ss[i], pc);
    ChunkHolds(ss[i], pc);
    start := ChunkStart((pc - ss[i].start) / 4, CODE_CHUNK_SIZE);
    end := if start + CODE_CHUNK_SIZE < |ss[i].data| then start + CODE_CHUNK_SIZE else |ss[i].data|;
  }

  /** The number that an opcode challenge gives names its chunk: two code addresses have the same
      number exactly if the challenge brings forward the same words at the same address. */
  lemma NumberNamesChunk(ss: seq<Section>, p: TraceReadPC, q: TraceReadPC)
    requires Ordered(ss) && InRanges(p.pc.address, RangesOf(ss, |ss|, CodeTable))
    requires InRanges(q.pc.address, RangesOf(ss, |ss|, CodeTable))
    ensures ChooseOpcode(ss, p).Chosen? && ChooseOpcode(ss, p).challenge.Opcode?
    ensures ChooseOpcode(ss, q).Chosen? && ChooseOpcode(ss, q).challenge.Opcode?
    ensures var c, c' := ChooseOpcode(ss, p).challenge, ChooseOpcode(ss, q).challenge;
            && (c.chunkIndex == c'.chunkIndex <==> c.chunkBase == c'.chunkBase && c.opcodes == c'.opcodes)
            && (p.pc.address <= q.pc.address ==> c.chunkIndex <= c'.chunkIndex)
            && c.chunkIndex < ChunksBefore(ss, |ss|, CODE_CHUNK_SIZE)
  {
    hide Locate, RangesOf, InRanges, ChunksBefore, Ordered, ChunkStart, ChooseOpcode, ChunkInfoOf;
    var i, start, end := ChunkIsPiece(ss, p);
    var i', start', end' := ChunkIsPiece(ss, q);
    ChunkNumbersName(ss, p.pc.address, q.pc.address, CODE_CHUNK_SIZE);
    ChunkNumbersAreDense(ss, CODE_CHUNK_SIZE, ChooseOpcode(ss, p).challenge.chunkIndex);
    ChunkOfAligned(ss, p.pc.address);
    if ss[i].start + 4 * start == ss[i'].start + 4 * start' {
      HoldersAgree(ss, ss[i].start + 4 * start, i, i');
    }
  }

  lemma ChunkOfAligned(ss: seq<Section>, a: u32)
    requires Ordered(ss) && InRanges(a, RangesOf(ss, |ss|, CodeTable))
    ensures a % 4 == 0
  {
  }

  lemma PieceHoldsWords(ss: seq<Section>, i: nat, start: nat, end: nat)
    requires Ordered(ss) && i < |ss| && !ss[i].registers && start < end <= |ss[i].data|
    ensures HoldsWords(ss, ss[i].start + 4 * start, ss[i].data[start..end])
  {
    hide Locate, ReadMem, Ordered;
    ValidSection(ss, i);
    forall j | 0 <= j < end - start
      ensures ss[i].start + 4 * start + 4 * j < 0x1_0000_0000
      ensures ReadMem(ss, ss[i].start + 4 * start + 4 * j) == Ok(ss[i].data[start..end][j])
    {
      SectionWord(ss, i, start + j);
    }
  }

  lemma ChunkIsGenuine(ss: seq<Section>, readPc: TraceReadPC)
    requires Ordered(ss) && InRanges(readPc.pc.address, RangesOf(ss, |ss|, CodeTable))
    ensures var c := ChooseOpcode(ss, readPc);
            && c.Chosen? && c.challenge.Opcode? && c.challenge.readPc == readPc
            && HoldsWords(ss, c.challenge.chunkBase, c.challenge.opcodes) && 0 < |c.challenge.opcodes| <= 500
  {
    hide Ordered, RangesOf, InRanges, ChooseOpcode, HoldsWords;
    var i, start, end := ChunkIsPiece(ss, readPc);
    PieceHoldsWords(ss, i, start, end);
  }

  /** A challenge of constants is about a word outside the input that no step can write, so it has
      this value in every state of the execution; one of input is about a word of the input. Both
      are about the read in which the records first conflict. */
  lemma DataChallengeFits(m: State, decode: Decoder, hf: Hasher, limit: nat, isInput: u32 -> bool, k: nat,
                          trace: TraceRWStep, mine: TraceRWStep)
    requires Loaded(m, hf) && Ordered(m.sections) && ChooseData(m.sections, isInput, trace, mine).Chosen?
    ensures var c := ChooseData(m.sections, isInput, trace, mine).challenge;
            && (c.InputData? || c.RomData? || c.NoChallenge?)
            && (c.RomData? || c.InputData? ==>
                  && c.read1 == trace.read1 && c.read2 == trace.read2 && ReadMem(m.sections, c.address) == Ok(c.value)
                  && if FirstConflicts(trace, mine) then c.address == trace.read1.address
                     else SecondConflicts(trace, mine) && c.address == trace.read2.address)
            && (c.InputData? ==> isInput(c.address))
            && (c.RomData? ==>
                  && !isInput(c.address)
                  && (Executes(m, decode, hf, limit, k) ==>
                        var s := StateAt(m, decode, hf, limit, k);
                        && Valid(s) && ReadMem(s.sections, c.address) == Ok(c.value)
                        && forall v: u32 :: WriteMem(s.sections, c.address, v, 0).Err?))
  {
    hide TurnAfter, Tick, StateAt, FindSection, Valid, ReadMem, WriteMem, Fresh, TablesOf, Ordered, InRom;
    LoadedIsOrdered(m, hf);
    var c := ChooseData(m.sections, isInput, trace, mine).challenge;
    if c.RomData? || c.InputData? { FoundIsReadable(m.sections, c.address); }
    if c.RomData? && Executes(m, decode, hf, limit, k) {
      UnwritableIsRom(m, c.address);
      RomIsConstant(m, decode, hf, limit, k, c.address);
      RomIsUnwritable(StateAt(m, decode, hf, limit, k), c.address);
    }
  }

  lemma ValidPcHasChunk(m: State, hf: Hasher, trace: TraceRWStep)
    requires Loaded(m, hf) && Ordered(m.sections) && ValidAddresses(m.tables, trace)
    ensures var c := ChooseOpcode(m.sections, trace.readPc);
            c.Chosen? && c.challenge.Opcode? && c.challenge.readPc == trace.readPc
            && HoldsWords(m.sections, c.challenge.chunkBase, c.challenge.opcodes)
  {
    hide Ordered, RangesOf, InRanges, ChooseOpcode, HoldsWords, Fresh;
    PcIsCode(m.tables, trace);
    ChunkIsGenuine(m.sections, trace.readPc);
  }

  lemma UnwritableIsRom(m: State, a: u32)
    requires Valid(m) && FindSection(m.sections, a).Ok? && !m.sections[FindSection(m.sections, a).value].isWrite
    ensures InRom(m, a)
  {
  }

  lemma RomIsUnwritable(s: State, a: u32)
    requires Valid(s) && InRom(s, a)
    ensures forall v: u32 :: WriteMem(s.sections, a, v, 0).Err?
  {
    hide Locate;
  }

  /** Whatever record the prover reveals of a step that the verifier executed, the challenge the
      verifier chooses is genuine, and of the kind for the first step exactly in the first step. It
      chooses none only if hash, addresses, program counter and opcode are right. */
  lemma ChosenIsGenuine(m: State, decode: Decoder, hf: Hasher, limit: nat, isInput: u32 -> bool, k: nat,
                        stepHash: Hash, nextHash: Hash, trace: TraceRWStep, execution: seq<Entry>)
    requires Loaded(m, hf) && Ordered(m.sections) && trace.stepNumber == k + 1
    requires Executes(m, decode, hf, limit, k) && Around(m, decode, hf, limit, k, execution)
    ensures var c := ChooseChallenge(m, hf, isInput, k, stepHash, nextHash, trace, execution);
            c.Chosen? ==>
              && Genuine(m, k, stepHash, nextHash, trace, c.challenge)
              && (c.challenge.TraceHashZero? || c.challenge.EntryPoint? ==> k == 0)
              && (c.challenge.TraceHash? || c.challenge.PcChallenge? ==> k > 0)
              && (c.challenge.NoChallenge? ==>
                    && ValidateStepHash(hf, stepHash, trace.traceStep, nextHash) && ValidAddresses(m.tables, trace)
                    && trace.readPc == execution[|execution| - 1].0.readPc)
  {
    hide Executes, EntryAt, Valid, ReadMem, Ordered, ValidAddresses, ChooseOpcode, ChooseData, HoldsWords, Loaded;
    var mine := execution[|execution| - 1].0;
    if ValidAddresses(m.tables, trace) { ValidPcHasChunk(m, hf, trace); }
    if ChooseData(m.sections, isInput, trace, mine).Chosen? {
      DataChallengeFits(m, decode, hf, limit, isInput, k, trace, mine);
    }
  }

  // ---------------------------------------------------------------- the whole dispute

  /** What an honest prover has committed for a step, whatever the verifier decided in the rounds,
      is the hash of its execution. */
  lemma HonestCommitments(d: NArySearchDefinition, h: nat -> Hash, last: nat, prover: RoundHashes, s: Search,
                          mapping: map<nat, (nat, nat)>, step: nat)
    requires d.Valid() && AreDigits(d, s.decisions) && IsMapping(d, s.decisions, mapping) && Honest(d, h, last, prover)
    requires |s.proverRounds| == |s.decisions|
    requires forall i :: 0 <= i < |s.decisions| ==> s.proverRounds[i] == prover(i + 1, BaseAfter(d, s.decisions, i))
    requires step in mapping && step <= last
    ensures 1 <= mapping[step].0 <= |s.proverRounds| && mapping[step].1 < |s.proverRounds[mapping[step].0 - 1]|
    ensures s.proverRounds[mapping[step].0 - 1][mapping[step].1] == h(step)
  {
    hide BaseAfter, NArySearchDefinition.Valid, NArySearchDefinition.Weight;
    var (round, n) := mapping[step];
    assert Speaks(d, s.decisions, step, round, n);
    var base := BaseAfter(d, s.decisions, round - 1);
    RequiredAfterBase(d, base, round, n);
    assert HonestList(d, h, last, round, base, prover(round, base));
  }

  /** The two hashes an honest prover has committed for the isolated step and its successor. */
  lemma HonestPair(d: NArySearchDefinition, h: nat -> Hash, last: nat, prover: RoundHashes, s: Search,
                   mapping: map<nat, (nat, nat)>, initial: Hash)
    returns (stepHash: Hash, nextHash: Hash)
    requires d.Valid() && AreDigits(d, s.decisions) && |s.decisions| == d.TotalRounds() && IsMapping(d, s.decisions, mapping)
    requires Honest(d, h, last, prover) && |s.proverRounds| == |s.decisions| && h(0) == initial
    requires forall i :: 0 <= i < |s.decisions| ==> s.proverRounds[i] == prover(i + 1, BaseAfter(d, s.decisions, i))
    requires var k := BaseAfter(d, s.decisions, d.TotalRounds()); k + 1 <= last && k + 1 < d.maxSteps
    ensures var k := BaseAfter(d, s.decisions, d.TotalRounds());
            && Committed(s, mapping, initial, k, stepHash) && stepHash == h(k)
            && Committed(s, mapping, initial, k + 1, nextHash) && nextHash == h(k + 1)
  {
    hide BaseAfter, NArySearchDefinition.Valid, NArySearchDefinition.Weight, RequiredStep, Honest;
    var total := d.TotalRounds();
    var k := BaseAfter(d, s.decisions, total);
    d.WeightEnds();
    var r1, n1 := BaseIsSpokenFor(d, s.decisions, total);
    var r2, n2 := SegmentEndIsSpokenFor(d, s.decisions, total);
    assert mapping[k + 1] == (r2, n2);
    HonestCommitments(d, h, last, prover, s, mapping, k + 1);
    nextHash := h(k + 1);
    stepHash := initial;
    if k > 0 {
      assert mapping[k] == (r1, n1);
      HonestCommitments(d, h, last, prover, s, mapping, k);
      stepHash := h(k);
    }
  }

  /** A prover that answers with the hashes of its execution and reveals its record of the isolated
      step is safe, whatever the verifier decides in the rounds, if it executed the step in code:
      of the challenges about that record, its committed hashes and the loaded program none wins,
      a collision of the hash function apart; and the step's script accepts it exactly if the
      operands stay inside the tables and it is none of the refused steps. */
  lemma HonestProverIsSafe(m: State, decode: Decoder, hf: Hasher, limit: nat, h: nat -> Hash, d: NArySearchDefinition,
                           last: nat, prover: RoundHashes, s: Search, mapping: map<nat, (nat, nat)>)
    returns (stepHash: Hash, nextHash: Hash)
    requires Loaded(m, hf) && Populated(m.tables) && m.base % 256 == 0
    requires forall n: nat :: h(n) == HashAt(m, decode, hf, limit, n)
    requires d.Valid() && AreDigits(d, s.decisions) && |s.decisions| == d.TotalRounds() && IsMapping(d, s.decisions, mapping)
    requires Honest(d, h, last, prover) && |s.proverRounds| == |s.decisions|
    requires forall i :: 0 <= i < |s.decisions| ==> s.proverRounds[i] == prover(i + 1, BaseAfter(d, s.decisions, i))
    requires var k := BaseAfter(d, s.decisions, d.TotalRounds());
             && k + 1 <= last && k + 1 < d.maxSteps && Executes(m, decode, hf, limit, k)
             && InRanges(EntryAt(m, decode, hf, limit, k + 1).0.readPc.pc.address, m.tables.code)
    ensures Ordered(m.sections)
    ensures var k := BaseAfter(d, s.decisions, d.TotalRounds());
            var own := EntryAt(m, decode, hf, limit, k + 1).0;
            && Committed(s, mapping, InitialHash(hf), k, stepHash) && Committed(s, mapping, InitialHash(hf), k + 1, nextHash)
            && (forall c :: Genuine(m, k, stepHash, nextHash, own, c) && Wins(hf, c) ==> CollidesAt(m, decode, hf, limit, k, c))
            && (StaysInCode(m, decode, hf, limit, k) ==>
                  var i, state := InstructionAt(m, decode, hf, limit, k), StateAt(m, decode, hf, limit, k);
                  && i.Some? && Valid(state)
                  && (Accepts(i.value, own, m.base) <==> OperandsFit(state, i.value) && !Refused(state, i.value)))
  {
    hide EntryAt, HashAt, Executes, TablesOf, Wins, Genuine, InRanges, Ordered, HashedAt, ToBytes, BaseAfter, Honest, IsMapping,
         NArySearchDefinition.Valid, Committed, StateAt, Fetched, Accepts, OperandsFit, Refused, Valid, Fresh,
         RangesOf, StaysInCode;
    LoadedIsOrdered(m, hf);
    HashAtStart(m, decode, hf, limit);
    var k := BaseAfter(d, s.decisions, d.TotalRounds());
    stepHash, nextHash := HonestPair(d, h, last, prover, s, mapping, InitialHash(hf));
    forall c | Genuine(m, k, stepHash, nextHash, EntryAt(m, decode, hf, limit, k + 1).0, c) && Wins(hf, c)
      ensures CollidesAt(m, decode, hf, limit, k, c)
    {
      HonestRecordIsSafe(m, decode, hf, limit, k, c);
    }
    if StaysInCode(m, decode, hf, limit, k) {
      PlacesStay(m, decode, hf, limit, k);
      ExecutesReaches(m, decode, hf, limit, k);
      ListedPcIsFetched(m, decode, hf, limit, k);
      OwnStepIsAccepted(m, decode, hf, limit, k);
    }
  }
}
