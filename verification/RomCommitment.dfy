/** The ROM commitment: every micro-step of every code word, the constants, and the ranges that
    start as zero. */
module RomCommitments {
  import opened Bits
  import opened Options
  import opened Trace
  import opened SectionMemory
  import opened Machine
  import opened Runs
  import opened MicroStates

  datatype Code = Code(address: u32, micro: nat, opcode: u32)
  datatype RomCommitment = RomCommitment(entrypoint: u32, code: seq<Code>, constants: seq<(u32, u32)>,
                                         zeroInitialized: seq<(u32, u32)>)

  function MicroEntries(address: u32, opcode: u32, n: nat): seq<Code>
  {
    if n == 0 then [] else MicroEntries(address, opcode, n - 1) + [Code(address, n - 1, opcode)]
  }

  predicate Decodes(s: Section, decode: Decoder)
  {
    forall k :: 0 <= k < |s.data| ==> decode(s.data[k]).Some?
  }

  function SectionEntries(s: Section, decode: Decoder, n: nat): seq<Code>
    requires s.Valid() && Decodes(s, decode) && n <= |s.data|
  {
    if n == 0 then []
    else SectionEntries(s, decode, n - 1)
         + MicroEntries(s.start + 4 * (n - 1), s.data[n - 1], RequiredMicros(decode(s.data[n - 1]).value))
  }

  ghost predicate CodeDecodes(ss: seq<Section>, decode: Decoder)
  {
    forall i :: 0 <= i < |ss| && ss[i].isCode ==> !ss[i].registers && Decodes(ss[i], decode)
  }

  ghost function CodeEntries(ss: seq<Section>, decode: Decoder, n: nat): seq<Code>
    requires Ordered(ss) && CodeDecodes(ss, decode) && n <= |ss|
  {
    if n == 0 then []
    else CodeEntries(ss, decode, n - 1) + if ss[n - 1].isCode then SectionEntries(ss[n - 1], decode, |ss[n - 1].data|) else []
  }

  function ConstantEntries(s: Section, n: nat): seq<(u32, u32)>
    requires s.Valid() && n <= |s.data|
  {
    if n == 0 then [] else ConstantEntries(s, n - 1) + [(s.start + 4 * (n - 1), s.data[n - 1])]
  }

  ghost function AllConstants(ss: seq<Section>, n: nat): seq<(u32, u32)>
    requires Ordered(ss) && n <= |ss|
  {
    if n == 0 then []
    else AllConstants(ss, n - 1)
         + if !ss[n - 1].isCode && ss[n - 1].initialized then ConstantEntries(ss[n - 1], |ss[n - 1].data|) else []
  }

  ghost function AllZeroRanges(ss: seq<Section>, n: nat): seq<(u32, u32)>
    requires n <= |ss|
  {
    if n == 0 then []
    else AllZeroRanges(ss, n - 1)
         + if !ss[n - 1].isCode && !ss[n - 1].initialized then [(ss[n - 1].start, ss[n - 1].size)] else []
  }

  /** The register file is not among the initialized sections. */
  ghost predicate RegistersStartAsZero(ss: seq<Section>)
  {
    forall i :: 0 <= i < |ss| && ss[i].registers ==> !ss[i].initialized && !ss[i].isCode
  }

  /** A word of a section is what a read at its address returns. */
  lemma WordOfSection(ss: seq<Section>, i: nat, k: nat)
    requires Ordered(ss) && i < |ss| && k < |ss[i].data|
    ensures ss[i].start + 4 * k < 0x1_0000_0000
    ensures Locate(ss, ss[i].start + 4 * k) == Some(i)
    ensures !ss[i].registers ==> ReadMem(ss, ss[i].start + 4 * k) == Ok(ss[i].data[k])
  {
    var a: u32 := ss[i].start + 4 * k;
    assert ss[i].Holds(a);
    LocateUnique(ss, a, i);
    assert ss[i].CellIndex(a) == k;
  }

  lemma RegistersUnreadable(ss: seq<Section>, i: nat, a: u32)
    requires Ordered(ss) && Locate(ss, a) == Some(i)
    ensures ss[i].registers ==> ReadMem(ss, a).Err?
  {
  }

  /** Reading a word of a section fails exactly in the register file. */
  lemma SectionWord(ss: seq<Section>, i: nat, k: nat)
    requires Ordered(ss) && i < |ss| && k < |ss[i].data|
    ensures ss[i].start + 4 * k < 0x1_0000_0000
    ensures ReadMem(ss, ss[i].start + 4 * k).Ok? <==> !ss[i].registers
    ensures !ss[i].registers ==> ReadMem(ss, ss[i].start + 4 * k).value == ss[i].data[k]
  {
    hide Ordered, Locate, ReadMem;
    WordOfSection(ss, i, k);
    RegistersUnreadable(ss, i, ss[i].start + 4 * k);
  }

  /** `None` stands for an abort on a code word that does not decode, or a failed read. */
  method GenerateRomCommitment(ss: seq<Section>, entrypoint: u32, decode: Decoder) returns (r: Option<RomCommitment>)
    requires Ordered(ss)
    ensures r.Some? <==> CodeDecodes(ss, decode) && RegistersStartAsZero(ss)
    ensures r.Some? ==> r.value == RomCommitment(entrypoint, CodeEntries(ss, decode, |ss|), AllConstants(ss, |ss|), AllZeroRanges(ss, |ss|))
  {
    hide Ordered, Decodes, SectionEntries, ConstantEntries;
    var code, constants, zero := [], [], [];
    ghost var good := CodeDecodes(ss, decode);
    for i := 0 to |ss|
      invariant forall j :: 0 <= j < i && ss[j].isCode ==> !ss[j].registers && Decodes(ss[j], decode)
      invariant good ==> code == CodeEntries(ss, decode, i)
    {
      if ss[i].isCode {
        var entries := SectionCode(ss, i, decode);
        if entries.None? { return None; }
        code := code + entries.value;
      }
    }
    for i := 0 to |ss|
      invariant constants == AllConstants(ss, i)
      invariant forall j :: 0 <= j < i && ss[j].registers ==> !ss[j].initialized
    {
      if !ss[i].isCode && ss[i].initialized {
        var entries := SectionConstants(ss, i);
        if entries.None? { return None; }
        constants := constants + entries.value;
      }
    }
    for i := 0 to |ss|
      invariant zero == AllZeroRanges(ss, i)
    {
      if !ss[i].isCode && !ss[i].initialized {
        zero := zero + [(ss[i].start, ss[i].size)];
      }
    }
    r := Some(RomCommitment(entrypoint, code, constants, zero));
  }

  method SectionConstants(ss: seq<Section>, i: nat) returns (r: Option<seq<(u32, u32)>>)
    requires Ordered(ss) && i < |ss|
    ensures r.Some? <==> !ss[i].registers
    ensures r.Some? ==> r.value == ConstantEntries(ss[i], |ss[i].data|)
  {
    hide Locate, ReadMem, FindSection;
    var entries := [];
    for k := 0 to ss[i].size / 4
      invariant k > 0 ==> !ss[i].registers
      invariant entries == ConstantEntries(ss[i], k)
    {
      SectionWord(ss, i, k);
      var position := ss[i].start + k * 4;
      var data := ReadMem(ss, position);
      if data.Err? { return None; }
      entries := entries + [(position, data.value)];
    }
    r := Some(entries);
  }

  lemma DecodesEach(s: Section, decode: Decoder)
    ensures Decodes(s, decode) <==> forall k :: 0 <= k < |s.data| ==> decode(s.data[k]).Some?
  {
  }

  lemma NoEntries(s: Section, decode: Decoder)
    requires s.Valid()
    ensures Decodes(s, decode) ==> SectionEntries(s, decode, 0) == []
  {
  }

  lemma SectionEntriesNext(s: Section, decode: Decoder, k: nat)
    requires s.Valid() && Decodes(s, decode) && k < |s.data|
    ensures decode(s.data[k]).Some?
    ensures SectionEntries(s, decode, k + 1)
            == SectionEntries(s, decode, k) + MicroEntries(s.start + 4 * k, s.data[k], RequiredMicros(decode(s.data[k]).value))
  {
  }

  method SectionCode(ss: seq<Section>, i: nat, decode: Decoder) returns (r: Option<seq<Code>>)
    requires Ordered(ss) && i < |ss|
    ensures r.Some? <==> !ss[i].registers && Decodes(ss[i], decode)
    ensures r.Some? ==> r.value == SectionEntries(ss[i], decode, |ss[i].data|)
  {
    ValidSection(ss, i);
    hide Locate, ReadMem, FindSection, RequiredMicros, Ordered, MicroEntries, SectionEntries, Decodes;
    var code := [];
    DecodesEach(ss[i], decode);
    NoEntries(ss[i], decode);
    for k := 0 to ss[i].size / 4
      invariant forall j :: 0 <= j < k ==> decode(ss[i].data[j]).Some?
      invariant k > 0 ==> !ss[i].registers
      invariant Decodes(ss[i], decode) ==> code == SectionEntries(ss[i], decode, k)
    {
      var entries := DecodeWord(ss, i, k, decode);
      if entries.None? { return None; }
      if Decodes(ss[i], decode) { SectionEntriesNext(ss[i], decode, k); }
      code := code + entries.value;
    }
    r := Some(code);
  }

  /** The entries of one code word; `None` if it cannot be read or does not decode. */
  method DecodeWord(ss: seq<Section>, i: nat, k: nat, decode: Decoder) returns (r: Option<seq<Code>>)
    requires Ordered(ss) && i < |ss| && k < |ss[i].data|
    ensures r.Some? <==> !ss[i].registers && decode(ss[i].data[k]).Some?
    ensures r.Some? ==>
              && ss[i].start + 4 * k < 0x1_0000_0000
              && r.value == MicroEntries(ss[i].start + 4 * k, ss[i].data[k], RequiredMicros(decode(ss[i].data[k]).value))
  {
    hide Locate, ReadMem, FindSection, RequiredMicros, Ordered, MicroEntries;
    SectionWord(ss, i, k);
    var position := ss[i].start + k * 4;
    var data := ReadMem(ss, position);
    if data.Err? { return None; }
    var instruction := decode(data.value);
    if instruction.None? { return None; }
    var entries := WordCode(position, data.value, RequiredMicros(instruction.value));
    r := Some(entries);
  }

  method WordCode(position: u32, opcode: u32, micros: nat) returns (entries: seq<Code>)
    ensures entries == MicroEntries(position, opcode, micros)
  {
    entries := [];
    for micro := 0 to micros
      invariant entries == MicroEntries(position, opcode, micro)
    {
      entries := entries + [Code(position, micro, opcode)];
    }
  }

  lemma {:induction false} MicroEntriesHold(address: u32, opcode: u32, n: nat, c: Code)
    ensures c in MicroEntries(address, opcode, n) <==> c.address == address && c.opcode == opcode && c.micro < n
  {
    if n > 0 {
      MicroEntriesHold(address, opcode, n - 1, c);
    }
  }

  lemma {:induction false} SectionEntriesHold(s: Section, decode: Decoder, n: nat, c: Code)
    requires s.Valid() && Decodes(s, decode) && n <= |s.data|
    ensures c in SectionEntries(s, decode, n)
            <==> c.address % 4 == 0 && s.start <= c.address < s.start + 4 * n
                 && c.opcode == s.data[(c.address - s.start) / 4] && c.micro < RequiredMicros(decode(c.opcode).value)
  {
    if n > 0 {
      SectionEntriesHold(s, decode, n - 1, c);
      var a := s.start + 4 * (n - 1);
      MicroEntriesHold(a, s.data[n - 1], RequiredMicros(decode(s.data[n - 1]).value), c);
      assert c.address == a ==> (c.address - s.start) / 4 == n - 1;
      assert c.address % 4 == 0 && a <= c.address < a + 4 ==> c.address == a;
    }
  }

  lemma {:induction false} CodeEntriesHold(ss: seq<Section>, decode: Decoder, n: nat, c: Code)
    requires Ordered(ss) && CodeDecodes(ss, decode) && n <= |ss|
    ensures c in CodeEntries(ss, decode, n)
            <==> exists i :: 0 <= i < n && ss[i].isCode && c in SectionEntries(ss[i], decode, |ss[i].data|)
  {
    hide SectionEntries, Ordered, Decodes;
    if n > 0 {
      CodeEntriesHold(ss, decode, n - 1, c);
    }
  }

  ghost predicate IsCommittable(ss: seq<Section>, decode: Decoder, c: Code)
    requires Ordered(ss)
  {
    && c.address % 4 == 0 && FindSection(ss, c.address).Ok? && ss[FindSection(ss, c.address).value].isCode
    && ReadMem(ss, c.address) == Ok(c.opcode) && decode(c.opcode).Some?
    && c.micro < RequiredMicros(decode(c.opcode).value)
  }

  lemma CommittedInSection(ss: seq<Section>, decode: Decoder, c: Code, i: nat)
    requires Ordered(ss) && CodeDecodes(ss, decode) && i < |ss| && ss[i].isCode && ss[i].Holds(c.address)
    ensures IsCommittable(ss, decode, c) <==> c in SectionEntries(ss[i], decode, |ss[i].data|)
  {
    hide RequiredMicros, Locate;
    SectionEntriesHold(ss[i], decode, |ss[i].data|, c);
    LocateUnique(ss, c.address, i);
  }

  /** The commitment lists a micro-step exactly when its word is code and its number is below
      what the decoded instruction needs. */
  lemma CommittedExactly(ss: seq<Section>, decode: Decoder, c: Code)
    requires Ordered(ss) && CodeDecodes(ss, decode)
    ensures c in CodeEntries(ss, decode, |ss|) <==> IsCommittable(ss, decode, c)
  {
    hide RequiredMicros, Locate, ReadMem;
    CodeEntriesHold(ss, decode, |ss|, c);
    if c in CodeEntries(ss, decode, |ss|) {
      var i :| 0 <= i < |ss| && ss[i].isCode && c in SectionEntries(ss[i], decode, |ss[i].data|);
      SectionEntriesHold(ss[i], decode, |ss[i].data|, c);
      CommittedInSection(ss, decode, c, i);
    } else if IsCommittable(ss, decode, c) {
      CommittedInSection(ss, decode, c, FindSection(ss, c.address).value);
    }
  }

  /** Every step of a run that stays in code executes a committed micro-step. */
  lemma ExecutedIsCommitted(ms: seq<State>, ts: seq<TraceRWStep>, decode: Decoder, hf: Hasher, n: nat)
    requires IsRun(ms, ts, decode, hf) && n < |ts| && ms[0].pc.micro == 0
    requires forall k :: 0 <= k < |ms| ==> Valid(ms[k]) && Fetched(ms[k], decode).Some?
    requires CodeDecodes(ms[0].sections, decode)
    ensures Code(ts[n].readPc.pc.address, ts[n].readPc.pc.micro, ts[n].readPc.opcode)
            in CodeEntries(ms[0].sections, decode, |ms[0].sections|)
  {
    hide Tick, InstructionOutcome, MicroOk, Fresh, ReadMem, Ordered, CodeEntries;
    RunStep(ms, ts, decode, hf, n);
    RunsStayExecuting(ms, ts, decode, hf, n);
    var m1, opcode, e := EffectOfTick(ms[n], decode, hf);
    CodeIsConstant(ms, ts, decode, hf, n, ms[n].pc.address);
    CommittedExactly(ms[0].sections, decode, Code(ms[n].pc.address, ms[n].pc.micro, opcode));
  }
}
