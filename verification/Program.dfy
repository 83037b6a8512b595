/** The loaded program as the emulator holds it: a register file and a section list that its
    methods update in place. */
module Programs {
  import opened Bits
  import opened Options
  import opened Trace
  import opened SectionMemory
  import opened SectionIndex
  import opened Machine

  class Registers {
    var value: array<u32>
    var lastStep: array<u64>
    const baseAddress: u32

    ghost predicate Valid()
      reads this
    {
      && value.Length == lastStep.Length == REGISTERS
      && baseAddress + 4 * REGISTERS < 0x1_0000_0000
    }

    constructor (base: u32, spBaseAddress: u32)
      requires base + 4 * REGISTERS < 0x1_0000_0000
      ensures Valid() && fresh(value) && fresh(lastStep) && baseAddress == base
      ensures value[..] == seq(REGISTERS, _ => 0)[2 := spBaseAddress]
      ensures forall i :: 0 <= i < REGISTERS ==> lastStep[i] == LAST_STEP_INIT
    {
      baseAddress := base;
      value := new u32[REGISTERS](_ => 0);
      lastStep := new u64[REGISTERS](_ => LAST_STEP_INIT);
      new;
      value[2] := spBaseAddress;
    }

    /** A register file as it was saved. */
    constructor Restore(base: u32, values: seq<u32>, lastSteps: seq<u64>)
      requires base + 4 * REGISTERS < 0x1_0000_0000 && |values| == |lastSteps| == REGISTERS
      ensures Valid() && fresh(value) && fresh(lastStep) && baseAddress == base
      ensures value[..] == values && lastStep[..] == lastSteps
    {
      baseAddress := base;
      value := new u32[REGISTERS](i requires 0 <= i < |values| => values[i]);
      lastStep := new u64[REGISTERS](i requires 0 <= i < |lastSteps| => lastSteps[i]);
    }

    function Get(idx: RegIndex): u32
      requires Valid()
      reads this, value
    {
      value[idx]
    }

    function GetRegisterAddress(idx: RegIndex): u32
      requires Valid()
      reads this
    {
      baseAddress + 4 * idx
    }

    /** Writing x0 aborts, so no caller may. */
    method Set(idx: RegIndex, v: u32, step: u64)
      requires Valid() && idx != REGISTER_ZERO
      modifies value, lastStep
      ensures value[..] == old(value[..])[idx := v]
      ensures lastStep[..] == old(lastStep[..])[idx := step]
    {
      value[idx] := v;
      lastStep[idx] := step;
    }

    function ToTraceRead(idx: RegIndex): TraceRead
      requires Valid()
      reads this, value, lastStep
    {
      TraceRead(GetRegisterAddress(idx), value[idx], lastStep[idx])
    }

    function ToTraceWrite(idx: RegIndex): TraceWrite
      requires Valid()
      reads this, value
    {
      TraceWrite(GetRegisterAddress(idx), value[idx])
    }
  }

  class Program {
    var sections: seq<Section>
    const registers: Registers
    var pc: ProgramCounter
    var step: nat
    var hash: Hash
    var halt: bool
    var readWriteSections: Ranges
    var readOnlySections: Ranges
    var registerSections: Ranges
    var codeSections: Ranges

    constructor (entryPoint: u32, registersBaseAddress: u32, spBaseAddress: u32, hf: Hasher)
      requires registersBaseAddress + 4 * REGISTERS < 0x1_0000_0000
      ensures Shaped() && sections == [] && step == 0 && !halt
      ensures pc == ProgramCounter(entryPoint, 0) && hash == InitialHash(hf)
      ensures fresh(registers) && fresh(registers.value) && fresh(registers.lastStep)
      ensures registers.baseAddress == registersBaseAddress
      ensures registers.value[..] == seq(REGISTERS, _ => 0)[2 := spBaseAddress]
      ensures forall i :: 0 <= i < REGISTERS ==> registers.lastStep[i] == LAST_STEP_INIT
      ensures RangeTables() == NO_TABLES
    {
      sections := [];
      registers := new Registers(registersBaseAddress, spBaseAddress);
      pc := ProgramCounter(entryPoint, 0);
      step, hash, halt := 0, InitialHash(hf), false;
      readWriteSections, readOnlySections, registerSections, codeSections := [], [], [], [];
    }

    /** A program as it was saved. */
    constructor Restore(m: State)
      requires Machine.Valid(m)
      ensures Valid() && Model() == m
      ensures fresh(registers) && fresh(registers.value) && fresh(registers.lastStep)
    {
      sections, pc, step, hash, halt := m.sections, m.pc, m.step, m.hash, m.halt;
      registers := new Registers.Restore(m.base, m.regs, m.regStep);
      readWriteSections, readOnlySections := m.tables.readWrite, m.tables.readOnly;
      registerSections, codeSections := m.tables.registers, m.tables.code;
    }

    method Serialize() returns (m: State)
      requires Shaped()
      ensures m == Model()
    {
      m := State(sections, registers.value[..], registers.lastStep[..], registers.baseAddress, pc, step, hash, halt, RangeTables());
    }

    /** Register arrays of the right size. */
    ghost predicate Shaped()
      reads this, registers
    {
      registers.Valid()
    }

    function RangeTables(): Tables
      reads this`readWriteSections, this`readOnlySections, this`registerSections, this`codeSections
    {
      Tables(readWriteSections, readOnlySections, registerSections, codeSections)
    }

    /** The program as a value. */
    ghost function Model(): State
      reads this, registers, registers.value, registers.lastStep
    {
      State(sections, registers.value[..], registers.lastStep[..], registers.baseAddress, pc, step, hash, halt, RangeTables())
    }

    ghost predicate Valid()
      reads this, registers, registers.value, registers.lastStep
    {
      Shaped() && Machine.Valid(Model())
    }

    // -------------------------------------------------------------- building the section list

    /** Insert a section where a binary search on the start addresses puts it. */
    method AddSection(section: Section)
      requires SortedByStart(sections)
      modifies this`sections
      ensures exists pos :: 0 <= pos <= |old(sections)| && sections == old(sections)[..pos] + [section] + old(sections)[pos..]
      ensures SortedByStart(sections)
    {
      var low, high := 0, |sections|;
      while low < high
        invariant 0 <= low <= high <= |sections|
        invariant forall i :: 0 <= i < low ==> sections[i].start <= section.start
        invariant forall i :: high <= i < |sections| ==> section.start <= sections[i].start
      {
        var mid := (low + high) / 2;
        if sections[mid].start < section.start {
          low := mid + 1;
        } else if sections[mid].start > section.start {
          high := mid;
        } else {
          low, high := mid, mid;
        }
      }
      InsertSorted(sections, section, low);
      sections := sections[..low] + [section] + sections[low..];
    }

    /** Merging adjacent compatible sections keeps every word of the list. */
    method MergeSections()
      requires AllValid(sections)
      modifies this`sections
      ensures MergeOf(old(sections), sections)
      ensures FullyMerged(sections)
    {
      hide AllValid, MergeOf, FullyMerged, Section.IsMergeCompatible;
      var all := sections;
      var merged: seq<Section> := [];
      assert merged + all[0..] == all;
      MergesItself(all);
      for i := 0 to |all|
        invariant |merged| <= i && (i > 0 ==> |merged| > 0)
        invariant MergeOf(all, merged + all[i..])
        invariant FullyMerged(merged)
      {
        var section := all[i];
        if |merged| > 0 && merged[|merged| - 1].IsMergeCompatible(section) {
          MergeLast(all, merged, i);
          merged := merged[..|merged| - 1] + [merged[|merged| - 1].Merge(section)];
        } else {
          MergeNone(all, merged, i);
          merged := merged + [section];
        }
      }
      assert merged + all[|all|..] == merged;
      sections := merged;
    }

    /** The four range tables, one entry a section. */
    method GenerateSectionsDefinitions()
      modifies this`readWriteSections, this`readOnlySections, this`registerSections, this`codeSections
      ensures registerSections == old(registerSections) + RangesOf(sections, |sections|, RegisterTable)
      ensures readWriteSections == old(readWriteSections) + RangesOf(sections, |sections|, ReadWriteTable)
      ensures readOnlySections == old(readOnlySections) + RangesOf(sections, |sections|, ReadOnlyTable)
      ensures codeSections == old(codeSections) + RangesOf(sections, |sections|, CodeTable)
      ensures old(RangeTables()) == NO_TABLES ==> RangeTables() == TablesOf(sections)
    {
      for i := 0 to |sections|
        invariant registerSections == old(registerSections) + RangesOf(sections, i, RegisterTable)
        invariant readWriteSections == old(readWriteSections) + RangesOf(sections, i, ReadWriteTable)
        invariant readOnlySections == old(readOnlySections) + RangesOf(sections, i, ReadOnlyTable)
        invariant codeSections == old(codeSections) + RangesOf(sections, i, CodeTable)
      {
        hide Section.Range;
        var range := sections[i].Range();
        if sections[i].registers {
          registerSections := registerSections + [range];
        } else if sections[i].isWrite {
          readWriteSections := readWriteSections + [range];
        } else if sections[i].isCode {
          codeSections := codeSections + [range];
          readOnlySections := readOnlySections + [range];
        } else {
          readOnlySections := readOnlySections + [range];
        }
      }
    }

    /** Whether no two sections overlap. */
    method SanityCheck() returns (ok: bool)
      ensures ok <==> forall i, j :: 0 <= i < j < |sections| ==> !Overlap(sections[i], sections[j])
    {
      for i := 0 to |sections|
        invariant forall k, j :: 0 <= k < i && k < j < |sections| ==> !Overlap(sections[k], sections[j])
      {
        for j := i + 1 to |sections|
          invariant forall k :: i < k < j ==> !Overlap(sections[i], sections[k])
        {
          if Overlap(sections[i], sections[j]) {
            return false;
          }
        }
      }
      ok := true;
    }

    // -------------------------------------------------------------- memory

    /** Binary search: the section that holds the address, or none. */
    method FindSectionIdx(address: u32) returns (r: Option<nat>)
      requires Ordered(sections)
      ensures r == Locate(sections, address)
    {
      var low, high := 0, |sections|;
      while low < high
        invariant 0 <= low <= high <= |sections|
        invariant forall i :: 0 <= i < low ==> sections[i].start + sections[i].size <= address
        invariant forall i :: high <= i < |sections| ==> address < sections[i].start
      {
        var mid := (low + high) / 2;
        if address < sections[mid].start {
          high := mid;
        } else if address >= sections[mid].start + sections[mid].size {
          low := mid + 1;
        } else {
          LocateUnique(sections, address, mid);
          return Some(mid);
        }
      }
      r := None;
    }

    method FindSection(address: u32) returns (r: Result<nat>)
      requires Ordered(sections)
      ensures r == SectionMemory.FindSection(sections, address)
    {
      var idx := FindSectionIdx(address);
      if idx.None? { return Err(SectionNotFound); }
      if sections[idx.value].registers { return Err(RegistersSectionFail); }
      r := Ok(idx.value);
    }

    method ReadMem(address: u32) returns (r: Result<u32>)
      requires Ordered(sections)
      ensures r == SectionMemory.ReadMem(sections, address)
    {
      var section := FindSection(address);
      match section {
        case Err(e) => r := Err(e);
        case Ok(i) => r := Ok(sections[i].data[(address - sections[i].start) / 4]);
      }
    }

    /** The step that last wrote a mapped word; an unmapped address aborts. */
    method GetLastStep(address: u32) returns (s: u64)
      requires Ordered(sections) && SectionMemory.FindSection(sections, address).Ok?
      ensures s == LastStepOf(sections, address)
    {
      var section := FindSection(address);
      var i := section.value;
      s := sections[i].lastStep[(address - sections[i].start) / 4];
    }

    method WriteMem(address: u32, v: u32) returns (r: Result<()>)
      requires Ordered(sections) && step < LAST_STEP_INIT
      modifies this`sections
      ensures match SectionMemory.WriteMem(old(sections), address, v, step)
              case Ok(ss) => r == Ok(()) && sections == ss
              case Err(e) => r == Err(e) && sections == old(sections)
    {
      var section := FindSection(address);
      match section {
        case Err(e) => r := Err(e);
        case Ok(i) =>
          if !sections[i].isWrite || sections[i].isCode {
            return Err(WriteToReadOnlySection);
          }
          var k := (address - sections[i].start) / 4;
          sections := sections[i := sections[i].(data := sections[i].data[k := v], lastStep := sections[i].lastStep[k := step])];
          r := Ok(());
      }
    }

    /** Whether a trace may access the address, by the range tables. */
    predicate IsValidMem(access: Access, address: u32, validIfReadOnly: bool)
      reads this`readWriteSections, this`readOnlySections, this`registerSections, this`codeSections
    {
      ValidAccess(RangeTables(), access, address, validIfReadOnly)
    }

    /** The chunk of code around an address; `None` is the abort on an address outside code. */
    method GetChunkInfo(address: u32, chunkSize: nat) returns (r: Option<ChunkInfo>)
      requires Ordered(sections) && chunkSize > 0
      ensures r == ChunkInfoOf(sections, address, chunkSize)
    {
      hide Locate, ChunksIn, Ordered;
      var chunkIndex := 0;
      for i := 0 to |sections|
        invariant chunkIndex == ChunksBefore(sections, i, chunkSize)
        invariant forall k :: 0 <= k < i ==> sections[k].Valid() && !(sections[k].isCode && sections[k].Contains(address))
      {
        var section := sections[i];
        ValidSection(sections, i);
        if section.isCode {
          if section.Contains(address) {
            var offset := address - section.start;
            var instrIndex := offset / 4;
            LocateUnique(sections, address, i);
            return Some(ChunkOf(section, chunkIndex, instrIndex, chunkSize));
          }
          chunkIndex := chunkIndex + ChunksIn(section.size / 4, chunkSize);
        }
      }
      r := None;
    }
  }

  lemma InsertSorted(ss: seq<Section>, s: Section, pos: nat)
    requires SortedByStart(ss) && pos <= |ss|
    requires forall i :: 0 <= i < pos ==> ss[i].start <= s.start
    requires forall i :: pos <= i < |ss| ==> s.start <= ss[i].start
    ensures SortedByStart(ss[..pos] + [s] + ss[pos..])
  {
    hide Section.Valid;
    var ss' := ss[..pos] + [s] + ss[pos..];
    forall i, j | 0 <= i < j < |ss'| ensures ss'[i].start <= ss'[j].start {
      assert i != pos ==> ss'[i] == ss[if i < pos then i else i - 1];
      assert j != pos ==> ss'[j] == ss[if j < pos then j else j - 1];
    }
  }

  lemma MergesItself(all: seq<Section>)
    requires AllValid(all)
    ensures MergeOf(all, all) && FullyMerged([])
  {
  }

  /** Keeping the next section as it is. */
  lemma MergeNone(all: seq<Section>, merged: seq<Section>, i: nat)
    requires AllValid(all) && i < |all| && MergeOf(all, merged + all[i..])
    requires |merged| > 0 ==> !merged[|merged| - 1].IsMergeCompatible(all[i])
    requires FullyMerged(merged)
    ensures var joined := merged + [all[i]];
            MergeOf(all, joined + all[i + 1..]) && FullyMerged(joined)
  {
    hide AllValid, MergeOf;
    assert merged + all[i..] == merged + [all[i]] + all[i + 1..];
  }

  /** Merging the next section into the last merged one. */
  lemma MergeLast(all: seq<Section>, merged: seq<Section>, i: nat)
    requires AllValid(all) && i < |all| && |merged| > 0 && MergeOf(all, merged + all[i..])
    requires merged[|merged| - 1].IsMergeCompatible(all[i])
    requires FullyMerged(merged)
    ensures merged[|merged| - 1].Valid() && all[i].Valid()
    ensures var joined := merged[..|merged| - 1] + [merged[|merged| - 1].Merge(all[i])];
            MergeOf(all, joined + all[i + 1..]) && FullyMerged(joined)
  {
    hide AllValid, MergeOf;
    var last, section := merged[|merged| - 1], all[i];
    var pre, post := merged[..|merged| - 1], all[i + 1..];
    assert merged + all[i..] == pre + [last, section] + post;
    MergeStep(all, pre, last, section, post);
    var joined := pre + [last.Merge(section)];
    assert joined + post == pre + [last.Merge(section)] + post;
    forall k | 0 <= k < |joined| - 1 && joined[k].start + joined[k].size == joined[k + 1].start
      ensures FlagsDiffer(joined[k], joined[k + 1])
    {
      assert merged[k].start + merged[k].size == merged[k + 1].start;
    }
  }

  /** A chunk of code: its number among all chunks, its first address and its first word
      within the section. */
  datatype ChunkInfo = ChunkInfo(index: nat, baseAddress: nat, start: nat)

  function ChunksIn(instructions: nat, chunkSize: nat): nat
    requires chunkSize > 0
  {
    instructions / chunkSize + if instructions % chunkSize != 0 then 1 else 0
  }

  function ChunkStart(instruction: nat, chunkSize: nat): (s: nat)
    requires chunkSize > 0
    ensures s <= instruction < s + chunkSize
  {
    instruction - instruction % chunkSize
  }

  function ChunkOf(section: Section, before: nat, instruction: nat, chunkSize: nat): ChunkInfo
    requires chunkSize > 0
  {
    var start := ChunkStart(instruction, chunkSize);
    ChunkInfo(before + instruction / chunkSize, section.start + start * 4, start)
  }

  /** How many chunks the code sections before number `n` take. */
  ghost function ChunksBefore(ss: seq<Section>, n: nat, chunkSize: nat): nat
    requires n <= |ss| && chunkSize > 0
  {
    if n == 0 then 0
    else ChunksBefore(ss, n - 1, chunkSize) + if ss[n - 1].isCode then ChunksIn(ss[n - 1].size / 4, chunkSize) else 0
  }

  ghost function ChunkInfoOf(ss: seq<Section>, address: u32, chunkSize: nat): Option<ChunkInfo>
    requires Ordered(ss) && chunkSize > 0
  {
    match Locate(ss, address)
    case None => None
    case Some(i) =>
      if ss[i].isCode && ss[i].Contains(address) then
        Some(ChunkOf(ss[i], ChunksBefore(ss, i, chunkSize), (address - ss[i].start) / 4, chunkSize))
      else None
  }
}
