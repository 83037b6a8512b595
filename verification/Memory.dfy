/** Sections of a loaded program as an index into word memory. */
module SectionMemory {
  import opened Bits
  import opened Options
  import opened Trace

  datatype ExecutionResult =
    | Halt(code: u32, step: u64)
    | LimitStepReached(step: u64)
    | SectionNotFound
    | RegistersSectionFail
    | InstructionNotImplemented
    | WriteToReadOnlySection

  datatype Result<+T> = Ok(value: T) | Err(error: ExecutionResult)

  datatype Section = Section(
    data: seq<u32>, lastStep: seq<u64>, start: u32, size: u32,
    isCode: bool, isWrite: bool, initialized: bool, registers: bool)
  {
    /** Word-aligned, word-sized, with one cell a word, ending inside the address space. */
    predicate Valid()
    {
      && start % 4 == 0 && size % 4 == 0 && size > 0
      && start + size < 0x1_0000_0000
      && |data| == |lastStep| == size / 4
      && !(isCode && isWrite)
    }

    predicate Holds(address: u32)
    {
      start <= address < start + size
    }

    /** Whether the whole word at `address` lies in the section. */
    predicate Contains(address: u32)
      requires Valid()
    {
      var (first, last) := Range();
      address >= first && address <= last - 3
    }

    /** The first and the last address. */
    function Range(): (u32, u32)
    {
      (start, (start + size - 1) % 0x1_0000_0000)
    }

    function CellIndex(address: u32): (i: nat)
      requires Valid() && Holds(address)
      ensures i < |data|
    {
      (address - start) / 4
    }

    predicate IsMergeCompatible(other: Section)
    {
      && isCode == other.isCode && isWrite == other.isWrite
      && initialized == other.initialized && registers == other.registers
      && start + size == other.start
    }

    function Merge(other: Section): Section
      requires Valid() && other.Valid() && IsMergeCompatible(other)
    {
      this.(data := data + other.data, lastStep := lastStep + other.lastStep, size := size + other.size)
    }
  }

  ghost predicate AllValid(ss: seq<Section>)
  {
    forall i :: 0 <= i < |ss| ==> ss[i].Valid()
  }

  /** Valid sections in address order, none overlapping another. */
  ghost predicate Ordered(ss: seq<Section>)
  {
    && AllValid(ss)
    && (forall i, j :: 0 <= i < j < |ss| ==> ss[i].start + ss[i].size <= ss[j].start)
  }

  /** The section that holds an address, by looking at each in turn. */
  function Locate(ss: seq<Section>, address: u32, i: nat := 0): (r: Option<nat>)
    requires i <= |ss|
    ensures r.Some? ==> i <= r.value < |ss| && ss[r.value].Holds(address)
    ensures r.None? ==> forall j :: i <= j < |ss| ==> !ss[j].Holds(address)
    decreases |ss| - i
  {
    if i == |ss| then None
    else if ss[i].Holds(address) then Some(i)
    else Locate(ss, address, i + 1)
  }

  lemma HoldersAgree(ss: seq<Section>, address: u32, i: nat, j: nat)
    requires Ordered(ss) && i < |ss| && j < |ss| && ss[i].Holds(address) && ss[j].Holds(address)
    ensures i == j
  {
  }

  lemma LocateUnique(ss: seq<Section>, address: u32, i: nat)
    requires Ordered(ss) && i < |ss| && ss[i].Holds(address)
    ensures Locate(ss, address) == Some(i)
  {
    HoldersAgree(ss, address, i, Locate(ss, address).value);
  }

  function FindSection(ss: seq<Section>, address: u32): (r: Result<nat>)
    ensures r.Ok? ==> r.value < |ss| && ss[r.value].Holds(address) && !ss[r.value].registers
  {
    match Locate(ss, address)
    case None => Err(SectionNotFound)
    case Some(i) => if ss[i].registers then Err(RegistersSectionFail) else Ok(i)
  }

  function ReadMem(ss: seq<Section>, address: u32): Result<u32>
    requires Ordered(ss)
  {
    match FindSection(ss, address)
    case Err(e) => Err(e)
    case Ok(i) => Ok(ss[i].data[ss[i].CellIndex(address)])
  }

  function LastStepOf(ss: seq<Section>, address: u32): u64
    requires Ordered(ss) && FindSection(ss, address).Ok?
  {
    var i := FindSection(ss, address).value;
    ss[i].lastStep[ss[i].CellIndex(address)]
  }

  function WriteMem(ss: seq<Section>, address: u32, value: u32, step: u64): (r: Result<seq<Section>>)
    requires Ordered(ss)
  {
    match FindSection(ss, address)
    case Err(e) => Err(e)
    case Ok(i) =>
      if !ss[i].isWrite || ss[i].isCode then Err(WriteToReadOnlySection)
      else
        var k := ss[i].CellIndex(address);
        Ok(ss[i := ss[i].(data := ss[i].data[k := value], lastStep := ss[i].lastStep[k := step])])
  }

  /** Two addresses name the same word of memory. */
  predicate SameWord(a: u32, b: u32)
  {
    a / 4 == b / 4
  }

  lemma SameCell(s: Section, a: u32, b: u32)
    requires s.Valid() && s.Holds(a)
    ensures SameWord(a, b) ==> s.Holds(b)
    ensures s.Holds(b) ==> (SameWord(a, b) <==> s.CellIndex(a) == s.CellIndex(b))
  {
  }

  ghost predicate SameShape(s: Section, t: Section)
  {
    s.start == t.start && s.size == t.size && s.isCode == t.isCode && s.isWrite == t.isWrite
    && s.initialized == t.initialized && s.registers == t.registers
  }

  /** Sections that differ in contents only locate every address alike. */
  lemma {:induction false} SameShapeLocates(ss: seq<Section>, ss': seq<Section>, address: u32, i: nat)
    requires |ss| == |ss'| && i <= |ss|
    requires forall j :: 0 <= j < |ss| ==> SameShape(ss[j], ss'[j])
    ensures Locate(ss, address, i) == Locate(ss', address, i)
    decreases |ss| - i
  {
    if i < |ss| {
      assert SameShape(ss[i], ss'[i]);
      SameShapeLocates(ss, ss', address, i + 1);
    }
  }

  lemma WriteMemKeepsShape(ss: seq<Section>, address: u32, value: u32, step: u64)
    requires Ordered(ss) && WriteMem(ss, address, value, step).Ok?
    ensures var ss' := WriteMem(ss, address, value, step).value;
            && Ordered(ss') && |ss'| == |ss|
            && (forall j :: 0 <= j < |ss| ==> SameShape(ss[j], ss'[j]))
            && (forall a :: Locate(ss', a) == Locate(ss, a))
  {
    var ss' := WriteMem(ss, address, value, step).value;
    var i := FindSection(ss, address).value;
    assert forall j :: 0 <= j < |ss| && j != i ==> ss'[j] == ss[j];
    forall a ensures Locate(ss', a) == Locate(ss, a) {
      SameShapeLocates(ss, ss', a, 0);
    }
  }

  /** A write changes the word it names and its time stamp, and nothing else: sections keep
      their shape, every other word its value, and every access succeeds or fails as before. */
  lemma WriteMemExact(ss: seq<Section>, address: u32, value: u32, step: u64, other: u32)
    requires Ordered(ss) && WriteMem(ss, address, value, step).Ok?
    ensures var ss' := WriteMem(ss, address, value, step).value;
            && Ordered(ss') && FindSection(ss', other) == FindSection(ss, other)
            && (ReadMem(ss, other).Ok? ==>
                  && ReadMem(ss', other) == (if SameWord(address, other) then Ok(value) else ReadMem(ss, other))
                  && LastStepOf(ss', other) == if SameWord(address, other) then step else LastStepOf(ss, other))
            && (ReadMem(ss, other).Err? ==> ReadMem(ss', other) == ReadMem(ss, other))
            && (WriteMem(ss', other, value, step).Ok? <==> WriteMem(ss, other, value, step).Ok?)
  {
    hide Locate, Ordered;
    WriteMemKeepsShape(ss, address, value, step);
    var ss' := WriteMem(ss, address, value, step).value;
    var i := FindSection(ss, address).value;
    ValidSection(ss, i);
    if FindSection(ss, other).Ok? {
      var j := FindSection(ss, other).value;
      ValidSection(ss, j);
      ValidSection(ss', j);
      if j == i {
        SameCell(ss[i], address, other);
      } else if SameWord(address, other) {
        SameCell(ss[i], address, other);
        HoldersAgree(ss, other, i, j);
      }
    }
  }

  lemma ValidSection(ss: seq<Section>, i: nat)
    requires Ordered(ss) && i < |ss|
    ensures ss[i].Valid()
  {
  }

  /** Aligned or not, an address reads the word it lies in. */
  lemma ReadsItsWord(ss: seq<Section>, a: u32, b: u32)
    requires Ordered(ss) && SameWord(a, b)
    ensures FindSection(ss, a) == FindSection(ss, b) && ReadMem(ss, a) == ReadMem(ss, b)
  {
    match Locate(ss, a) {
      case Some(i) =>
        SameCell(ss[i], a, b);
        LocateUnique(ss, b, i);
      case None =>
        match Locate(ss, b) {
          case Some(j) => SameCell(ss[j], b, a);
          case None =>
        }
    }
  }
}
