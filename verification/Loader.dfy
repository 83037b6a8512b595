/** Loading a program: the register file and the sections of the image become an ordered,
    merged section list with its range tables, or are refused for overlapping. */
module Loader {
  import opened Bits
  import opened Options
  import opened Trace
  import opened SectionMemory
  import opened SectionIndex
  import opened Machine
  import opened Runs
  import opened Programs

  const REGISTERS_BASE_ADDRESS: u32 := 0xF000_0000
  const STACK_BASE_ADDRESS: u32 := 0xE000_0000
  const STACK_SIZE: u32 := 0x80_0000

  /** A program as loaded. */
  ghost predicate Loaded(m: State, hf: Hasher)
  {
    Fresh(m) && m.pc.micro == 0 && !m.halt && m.hash == InitialHash(hf) && m.tables == TablesOf(m.sections)
  }

  function RegistersSection(): Section
  {
    Section(seq(REGISTERS, _ => 0), seq(REGISTERS, _ => LAST_STEP_INIT), REGISTERS_BASE_ADDRESS, 4 * REGISTERS,
            false, true, false, true)
  }

  /** A section of the image: well-formed, ordinary memory, written by no step. */
  ghost predicate FromImage(s: Section)
  {
    s.Valid() && !s.registers && Unwritten(s)
  }

  ghost predicate Unwritten(s: Section)
  {
    forall k :: 0 <= k < |s.lastStep| ==> s.lastStep[k] == LAST_STEP_INIT
  }

  /** No two sections overlap. */
  ghost predicate Apart(ss: seq<Section>)
  {
    forall i, j :: 0 <= i < j < |ss| ==> !Overlap(ss[i], ss[j])
  }

  ghost predicate ApartFrom(s: Section, ss: seq<Section>)
  {
    forall i :: 0 <= i < |ss| ==> !Overlap(ss[i], s)
  }

  lemma ApartWith(pre: seq<Section>, s: Section, post: seq<Section>)
    ensures Apart(pre + [s] + post) <==> Apart(pre + post) && ApartFrom(s, pre + post)
  {
    var ss, others := pre + [s] + post, pre + post;
    if Apart(ss) {
      forall i, j | 0 <= i < j < |others| ensures !Overlap(others[i], others[j]) {
        var i', j' := if i < |pre| then i else i + 1, if j < |pre| then j else j + 1;
        assert ss[i'] == others[i] && ss[j'] == others[j];
      }
      forall i | 0 <= i < |others| ensures !Overlap(others[i], s) {
        var i' := if i < |pre| then i else i + 1;
        assert ss[i'] == others[i] && ss[|pre|] == s;
      }
    }
    if Apart(others) && ApartFrom(s, others) {
      forall i, j | 0 <= i < j < |ss| ensures !Overlap(ss[i], ss[j]) {
        if i != |pre| { assert ss[i] == others[if i < |pre| then i else i - 1]; }
        if j != |pre| { assert ss[j] == others[if j < |pre| then j else j - 1]; }
      }
    }
  }

  lemma ApartFromMembers(s: Section, ss: seq<Section>, ts: seq<Section>)
    requires forall t :: t in ss <==> t in ts
    ensures ApartFrom(s, ss) <==> ApartFrom(s, ts)
  {
    hide Overlap;
    assert ApartFrom(s, ss) <==> forall t :: t in ss ==> !Overlap(t, s);
    assert ApartFrom(s, ts) <==> forall t :: t in ts ==> !Overlap(t, s);
  }

  /** The sections inserted so far, in address order, are those given so far. */
  ghost predicate Collects(sections: seq<Section>, given: seq<Section>)
  {
    && SortedByStart(sections) && RegisterFiles(sections) == [RegistersSection()]
    && (forall s :: s in sections <==> s in given)
    && (Apart(sections) <==> Apart(given))
  }

  lemma CollectsNext(sections: seq<Section>, given: seq<Section>, s: Section, pre: seq<Section>, post: seq<Section>)
    requires Collects(sections, given) && !s.registers && sections == pre + post
    requires SortedByStart(pre + [s] + post)
    ensures Collects(pre + [s] + post, given + [s])
  {
    hide SortedByStart, Apart, ApartFrom, RegisterFiles;
    ApartWith(pre, s, post);
    ApartWith(given, s, []);
    assert given + [s] + [] == given + [s] && given + [] == given;
    ApartFromMembers(s, sections, given);
    RegisterFilesJoin(pre, post);
    RegisterFilesOfTwo(s, s);
    RegisterFilesJoin(pre, [s]);
    RegisterFilesJoin(pre + [s], post);
  }

  /** A program loaded from an image: memory holds every section of it, unwritten, and nothing
      else but the register file. */
  ghost predicate IsLoaded(m: State, entryPoint: u32, image: seq<Section>, hf: Hasher)
  {
    && Loaded(m, hf) && m.base == REGISTERS_BASE_ADDRESS && m.pc == ProgramCounter(entryPoint, 0)
    && m.regs == seq(REGISTERS, _ => 0)[2 := STACK_BASE_ADDRESS + STACK_SIZE]
    && HoldsImage(m.sections, [RegistersSection()] + image)
    && (forall s :: s in m.sections && s.registers ==> s == RegistersSection())
  }

  ghost predicate HoldsImage(ss: seq<Section>, image: seq<Section>)
  {
    && Ordered(ss)
    && (forall s, a: u32 :: s in image && s.Valid() && s.Holds(a) ==> CellAt(ss, a) == CellFrom(s, a))
    && (forall a: u32 :: (forall s :: s in image ==> !s.Holds(a)) ==> CellAt(ss, a) == Unmapped)
  }

  lemma NothingSorted()
    ensures SortedByStart([])
  {
  }

  lemma NotRegisters(s: Section)
    requires FromImage(s)
    ensures !s.registers
  {
  }

  lemma CollectedIsSorted(sections: seq<Section>, given: seq<Section>)
    requires Collects(sections, given)
    ensures SortedByStart(sections)
  {
  }

  lemma FirstCollected(sections: seq<Section>)
    requires sections == [RegistersSection()]
    ensures Collects(sections, [RegistersSection()])
  {
    RegisterFilesOfTwo(RegistersSection(), RegistersSection());
  }

  lemma CollectedIsValid(sections: seq<Section>, image: seq<Section>)
    requires forall s :: s in image ==> FromImage(s)
    requires Collects(sections, [RegistersSection()] + image)
    ensures AllValid(sections) && forall i :: 0 <= i < |sections| ==> Unwritten(sections[i])
  {
    hide SortedByStart, Apart, RegisterFiles;
    forall i | 0 <= i < |sections|
      ensures sections[i].Valid() && Unwritten(sections[i])
    {
      assert sections[i] in [RegistersSection()] + image;
    }
  }

  lemma OrderedIsApart(ss: seq<Section>)
    requires AllValid(ss) && SortedByStart(ss)
    ensures Ordered(ss) <==> Apart(ss)
  {
    if Apart(ss) { SortedWithoutOverlapIsOrdered(ss); }
  }

  /** Merging keeps the verdict of the overlap test. */
  lemma MergedIsApart(collected: seq<Section>, ss: seq<Section>, image: seq<Section>)
    requires AllValid(collected) && Collects(collected, [RegistersSection()] + image) && MergeOf(collected, ss)
    ensures Apart(ss) <==> Apart([RegistersSection()] + image)
    ensures Apart(ss) ==> Ordered(ss) && Ordered(collected)
  {
    hide Ordered, Apart, SortedByStart, Listing, CellAt, RegisterFiles;
    OrderedIsApart(ss);
    OrderedIsApart(collected);
  }

  lemma OrderedHoldsImage(ss: seq<Section>, image: seq<Section>)
    requires Ordered(ss) && forall s :: s in ss <==> s in image
    ensures HoldsImage(ss, image)
  {
    hide Ordered, CellAt, CellFrom;
    forall s, a: u32 | s in image && s.Valid() && s.Holds(a)
      ensures CellAt(ss, a) == CellFrom(s, a)
    {
      var i :| 0 <= i < |ss| && ss[i] == s;
      CellOf(ss, a, i);
    }
    forall a: u32 | forall s :: s in image ==> !s.Holds(a)
      ensures CellAt(ss, a) == Unmapped
    {
      NoCell(ss, a);
    }
  }

  lemma UnwrittenReads(ss: seq<Section>, a: u32)
    requires Ordered(ss) && (forall i :: 0 <= i < |ss| ==> Unwritten(ss[i]))
    ensures CellAt(ss, a).Mapped? ==> CellAt(ss, a).lastStep == LAST_STEP_INIT
  {
  }

  lemma LastStepOfCell(ss: seq<Section>, a: u32)
    requires Ordered(ss) && ReadMem(ss, a).Ok?
    ensures CellAt(ss, a).Mapped? && LastStepOf(ss, a) == CellAt(ss, a).lastStep
  {
  }

  lemma MergedIsLoaded(m: State, collected: seq<Section>, image: seq<Section>, entryPoint: u32, hf: Hasher)
    requires forall i :: 0 <= i < |collected| ==> Unwritten(collected[i])
    requires AllValid(collected) && Collects(collected, [RegistersSection()] + image) && MergeOf(collected, m.sections)
    requires Ordered(m.sections) && Ordered(collected)
    requires m == Starting(m.sections, entryPoint, hf).(tables := TablesOf(m.sections))
    ensures Machine.Valid(m) && IsLoaded(m, entryPoint, image, hf)
  {
    hide Ordered, CellAt, CellFrom, Listing, SortedByStart, Apart, AllValid, Unwritten, TablesOf, ReadMem, LastStepOf;
    OrderedHoldsImage(collected, [RegistersSection()] + image);
    RegisterFileIsListed(m.sections, RegistersSection());
    var i :| 0 <= i < |m.sections| && m.sections[i] == RegistersSection();
    assert IsRegisterFile(m.sections[i], m.base);
    forall s | s in m.sections && s.registers ensures s == RegistersSection() { RegisterFileIsListed(m.sections, s); }
    forall a: u32 | ReadMem(m.sections, a).Ok?
      ensures FindSection(m.sections, a).Ok? && LastStepOf(m.sections, a) == LAST_STEP_INIT
    {
      ReadableIsFound(m, a);
      LastStepOfCell(m.sections, a);
      UnwrittenReads(collected, a);
    }
  }

  /** The state of a program that has its sections and nothing else yet. */
  function Starting(ss: seq<Section>, entryPoint: u32, hf: Hasher): State
  {
    State(ss, seq(REGISTERS, _ => 0)[2 := STACK_BASE_ADDRESS + STACK_SIZE], seq(REGISTERS, _ => LAST_STEP_INIT),
          REGISTERS_BASE_ADDRESS, ProgramCounter(entryPoint, 0), 0, InitialHash(hf), false, NO_TABLES)
  }

  /** A new program with the register file. */
  method NewProgram(entryPoint: u32, hf: Hasher) returns (program: Program)
    ensures fresh(program) && fresh(program.registers) && fresh(program.registers.value) && fresh(program.registers.lastStep)
    ensures program.Shaped() && program.Model() == Starting([RegistersSection()], entryPoint, hf)
  {
    program := new Program(entryPoint, REGISTERS_BASE_ADDRESS, STACK_BASE_ADDRESS + STACK_SIZE, hf);
    NothingSorted();
    program.AddSection(RegistersSection());
    assert program.registers.lastStep[..] == seq(REGISTERS, _ => LAST_STEP_INIT);
  }

  /** Insert the sections of the image one by one. */
  method AddImage(program: Program, image: seq<Section>)
    requires (forall s :: s in image ==> FromImage(s)) && program.sections == [RegistersSection()]
    modifies program`sections
    ensures Collects(program.sections, [RegistersSection()] + image)
  {
    hide SortedByStart, Apart, FromImage, Collects, RegistersSection;
    FirstCollected(program.sections);
    assert [RegistersSection()] + image[..0] == [RegistersSection()];
    for i := 0 to |image|
      invariant Collects(program.sections, [RegistersSection()] + image[..i])
    {
      ghost var before := program.sections;
      CollectedIsSorted(before, [RegistersSection()] + image[..i]);
      program.AddSection(image[i]);
      ghost var pos :| 0 <= pos <= |before| && program.sections == before[..pos] + [image[i]] + before[pos..];
      NotRegisters(image[i]);
      CollectsNext(before, [RegistersSection()] + image[..i], image[i], before[..pos], before[pos..]);
      assert [RegistersSection()] + image[..i + 1] == [RegistersSection()] + image[..i] + [image[i]];
    }
    assert image[..|image|] == image;
  }

  /** Load an image. It is refused exactly when two of its sections overlap each other or the
      register file; otherwise memory holds the image, and nothing else but the registers. */
  method LoadSections(entryPoint: u32, image: seq<Section>, hf: Hasher) returns (r: Option<Program>)
    requires forall s :: s in image ==> FromImage(s)
    ensures r.Some? <==> Apart([RegistersSection()] + image)
    ensures r.Some? ==> fresh(r.value) && fresh(r.value.registers) && fresh(r.value.registers.value) && fresh(r.value.registers.lastStep)
    ensures r.Some? ==> r.value.Valid() && IsLoaded(r.value.Model(), entryPoint, image, hf)
  {
    hide SortedByStart, MergeOf, Overlap, AllValid, FromImage, Collects, TablesOf, IsLoaded, Machine.Valid, RegistersSection;
    var program := NewProgram(entryPoint, hf);
    AddImage(program, image);
    ghost var collected := program.sections;
    CollectedIsValid(collected, image);
    program.MergeSections();
    program.GenerateSectionsDefinitions();
    var ok := program.SanityCheck();
    MergedIsApart(collected, program.sections, image);
    if !ok { return None; }
    MergedIsLoaded(program.Model(), collected, image, entryPoint, hf);
    r := Some(program);
  }
}
