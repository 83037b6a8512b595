/** The data part of the ROM commitment, and that code, constants and zero ranges together commit
    every word of memory once. */
module CommittedData {
  import opened Bits
  import opened Trace
  import opened SectionMemory
  import opened SectionIndex
  import opened Machine
  import opened MicroStates
  import opened Loader
  import opened RomCommitments

  // ---------------------------------------------------------------- constants

  lemma {:induction false} ConstantEntriesHold(s: Section, n: nat, a: u32, v: u32)
    requires s.Valid() && n <= |s.data|
    ensures (a, v) in ConstantEntries(s, n)
            <==> a % 4 == 0 && s.start <= a < s.start + 4 * n && v == s.data[(a - s.start) / 4]
  {
    if n > 0 {
      ConstantEntriesHold(s, n - 1, a, v);
      var last := s.start + 4 * (n - 1);
      assert a == last ==> (a - s.start) / 4 == n - 1;
      assert a % 4 == 0 && last <= a < last + 4 ==> a == last;
    }
  }

  lemma {:induction false} AllConstantsHold(ss: seq<Section>, n: nat, p: (u32, u32))
    requires Ordered(ss) && n <= |ss|
    ensures p in AllConstants(ss, n)
            <==> exists i :: 0 <= i < n && !ss[i].isCode && ss[i].initialized && p in ConstantEntries(ss[i], |ss[i].data|)
  {
    hide ConstantEntries, Ordered;
    if n > 0 { AllConstantsHold(ss, n - 1, p); }
  }

  lemma OrderedIsValid(ss: seq<Section>)
    requires Ordered(ss)
    ensures AllValid(ss)
  {
  }

  /** The constants are the aligned words of initialized memory that is no code, with their
      values. */
  lemma ConstantsExactly(ss: seq<Section>, a: u32, v: u32)
    requires Ordered(ss) && RegistersStartAsZero(ss)
    ensures (a, v) in AllConstants(ss, |ss|)
            <==> a % 4 == 0 && CellAt(ss, a).Mapped? && !CellAt(ss, a).isCode && CellAt(ss, a).initialized
                 && ReadMem(ss, a) == Ok(v)
  {
    hide Ordered, Locate, ConstantEntries, AllConstants;
    OrderedIsValid(ss);
    AllConstantsHold(ss, |ss|, (a, v));
    if (a, v) in AllConstants(ss, |ss|) {
      var i :| 0 <= i < |ss| && !ss[i].isCode && ss[i].initialized && (a, v) in ConstantEntries(ss[i], |ss[i].data|);
      ValidSection(ss, i);
      ConstantEntriesHold(ss[i], |ss[i].data|, a, v);
      LocateUnique(ss, a, i);
    }
    if Locate(ss, a).Some? {
      var i := Locate(ss, a).value;
      ValidSection(ss, i);
      ConstantEntriesHold(ss[i], |ss[i].data|, a, v);
    }
  }

  // ---------------------------------------------------------------- zero ranges

  ghost predicate InZeroRange(zero: seq<(u32, u32)>, a: u32)
  {
    exists r :: r in zero && r.0 <= a && a as int - r.0 < r.1
  }

  lemma {:induction false} ZeroRangesHold(ss: seq<Section>, n: nat, r: (u32, u32))
    requires n <= |ss|
    ensures r in AllZeroRanges(ss, n)
            <==> exists i :: 0 <= i < n && !ss[i].isCode && !ss[i].initialized && r == (ss[i].start, ss[i].size)
  {
    if n > 0 { ZeroRangesHold(ss, n - 1, r); }
  }

  /** The zero ranges are the sections that are neither code nor initialized, whole: their words
      and those of the register file are in one of them, and no other. */
  lemma ZeroRangesExactly(ss: seq<Section>, a: u32)
    requires Ordered(ss) && RegistersStartAsZero(ss)
    ensures InZeroRange(AllZeroRanges(ss, |ss|), a)
            <==> CellAt(ss, a) == RegisterFile
                 || (CellAt(ss, a).Mapped? && !CellAt(ss, a).isCode && !CellAt(ss, a).initialized)
  {
    hide Ordered, Locate, AllZeroRanges;
    var zero := AllZeroRanges(ss, |ss|);
    if InZeroRange(zero, a) {
      var r :| r in zero && r.0 <= a && a as int - r.0 < r.1;
      ZeroRangesHold(ss, |ss|, r);
      var i :| 0 <= i < |ss| && !ss[i].isCode && !ss[i].initialized && r == (ss[i].start, ss[i].size);
      LocateUnique(ss, a, i);
    }
    if Locate(ss, a).Some? {
      var i := Locate(ss, a).value;
      ZeroRangesHold(ss, |ss|, (ss[i].start, ss[i].size));
    }
  }

  /** A program as loaded: 32 registers and two auxiliary ones in a file of 136 bytes, where two
      digits name each, all zero but the stack pointer. */
  lemma LoadedRegisters(m: State, entryPoint: u32, image: seq<Section>, hf: Hasher)
    requires IsLoaded(m, entryPoint, image, hf)
    ensures RegistersStartAsZero(m.sections) && m.base % 256 == 0
    ensures forall s :: s in m.sections && s.registers ==> s.start == m.base == 0xF000_0000 && s.size == 136
    ensures |m.regs| == 34 && forall i :: 0 <= i < 34 ==> m.regs[i] == if i == 2 then 0xE080_0000 else 0
    ensures |m.regStep| == 34 && forall i :: 0 <= i < 34 ==> m.regStep[i] == 0xFFFF_FFFF_FFFF_FFFF
    ensures m.pc == ProgramCounter(entryPoint, 0) && m.step == 0 && !m.halt && m.hash == hf([0xff])
  {
    assert forall i :: 0 <= i < |m.sections| ==> m.sections[i] in m.sections;
  }

  // ---------------------------------------------------------------- everything, once

  ghost predicate InCodePart(code: seq<Code>, a: u32)
  {
    exists c :: c in code && c.address == a
  }

  ghost predicate InConstants(constants: seq<(u32, u32)>, a: u32)
  {
    exists v: u32 :: (a, v) in constants
  }

  lemma CodePartExactly(ss: seq<Section>, decode: Decoder, a: u32)
    requires Ordered(ss) && CodeDecodes(ss, decode)
    ensures InCodePart(CodeEntries(ss, decode, |ss|), a) <==> a % 4 == 0 && CellAt(ss, a).Mapped? && CellAt(ss, a).isCode
  {
    hide Ordered, Locate, CodeEntries, RequiredMicros;
    var code := CodeEntries(ss, decode, |ss|);
    if c :| c in code && c.address == a { CommittedExactly(ss, decode, c); }
    if a % 4 == 0 && CellAt(ss, a).Mapped? && CellAt(ss, a).isCode {
      var i := Locate(ss, a).value;
      ValidSection(ss, i);
      var c := Code(a, 0, ReadMem(ss, a).value);
      SomeMicro(decode(c.opcode).value);
      CommittedExactly(ss, decode, c);
    }
  }

  lemma SomeMicro(i: Instruction)
    ensures RequiredMicros(i) >= 1
  {
  }

  /** Every word of memory is committed in exactly one of the three parts, and no other address
      in any. */
  lemma CommittedOnce(ss: seq<Section>, decode: Decoder, a: u32)
    requires Ordered(ss) && CodeDecodes(ss, decode) && RegistersStartAsZero(ss) && a % 4 == 0
    ensures var code := InCodePart(CodeEntries(ss, decode, |ss|), a);
            var constant := InConstants(AllConstants(ss, |ss|), a);
            var zero := InZeroRange(AllZeroRanges(ss, |ss|), a);
            && (code || constant || zero <==> CellAt(ss, a) != Unmapped)
            && !(code && constant) && !(code && zero) && !(constant && zero)
  {
    hide Ordered, Locate, CodeEntries, AllConstants, AllZeroRanges, CodeDecodes;
    CodePartExactly(ss, decode, a);
    ZeroRangesExactly(ss, a);
    var constants := AllConstants(ss, |ss|);
    if v: u32 :| (a, v) in constants { ConstantsExactly(ss, a, v); }
    MappedReads(ss, a);
    if CellAt(ss, a).Mapped? { ConstantsExactly(ss, a, CellAt(ss, a).value); }
  }

  lemma MappedReads(ss: seq<Section>, a: u32)
    requires Ordered(ss)
    ensures CellAt(ss, a).Mapped? ==> ReadMem(ss, a) == Ok(CellAt(ss, a).value)
  {
  }

  // ---------------------------------------------------------------- in order

  ghost predicate Ascending(ps: seq<(u32, u32)>)
  {
    forall i, j :: 0 <= i < j < |ps| ==> ps[i].0 < ps[j].0
  }

  lemma AscendingJoin(xs: seq<(u32, u32)>, ys: seq<(u32, u32)>, bound: int)
    requires Ascending(xs) && Ascending(ys)
    requires forall x :: x in xs ==> x.0 < bound
    requires forall y :: y in ys ==> bound <= y.0
    ensures Ascending(xs + ys)
  {
    var all := xs + ys;
    forall i, j | 0 <= i < j < |all| ensures all[i].0 < all[j].0 {
      if i < |xs| <= j { assert xs[i] in xs && ys[j - |xs|] in ys; }
    }
  }

  lemma {:induction false} ConstantEntriesAscend(s: Section, n: nat)
    requires s.Valid() && n <= |s.data|
    ensures Ascending(ConstantEntries(s, n))
    ensures forall p :: p in ConstantEntries(s, n) ==> s.start <= p.0 < s.start + 4 * n
  {
    if n > 0 {
      ConstantEntriesAscend(s, n - 1);
      AscendingJoin(ConstantEntries(s, n - 1), [(s.start + 4 * (n - 1), s.data[n - 1])], s.start + 4 * (n - 1));
    }
  }

  /** Constants are listed in address order, each once. */
  lemma {:induction false} ConstantsAscend(ss: seq<Section>, n: nat)
    requires Ordered(ss) && n <= |ss|
    ensures Ascending(AllConstants(ss, n))
    ensures forall p, j :: p in AllConstants(ss, n) && n <= j < |ss| ==> p.0 < ss[j].start
  {
    hide ConstantEntries;
    if n > 0 {
      ConstantsAscend(ss, n - 1);
      ConstantEntriesAscend(ss[n - 1], |ss[n - 1].data|);
      AscendingJoin(AllConstants(ss, n - 1), ConstantEntries(ss[n - 1], |ss[n - 1].data|), ss[n - 1].start);
    }
  }

  /** So are the zero ranges. */
  lemma {:induction false} ZeroRangesAscend(ss: seq<Section>, n: nat)
    requires Ordered(ss) && n <= |ss|
    ensures Ascending(AllZeroRanges(ss, n))
    ensures forall r, j :: r in AllZeroRanges(ss, n) && n <= j < |ss| ==> r.0 < ss[j].start
  {
    if n > 0 {
      ZeroRangesAscend(ss, n - 1);
      AscendingJoin(AllZeroRanges(ss, n - 1), [(ss[n - 1].start, ss[n - 1].size)], ss[n - 1].start);
    }
  }

  predicate Before(c: Code, d: Code)
  {
    c.address < d.address || (c.address == d.address && c.micro < d.micro)
  }

  ghost predicate InCodeOrder(cs: seq<Code>)
  {
    forall i, j :: 0 <= i < j < |cs| ==> Before(cs[i], cs[j])
  }

  lemma CodeOrderJoin(xs: seq<Code>, ys: seq<Code>)
    requires InCodeOrder(xs) && InCodeOrder(ys) && forall x, y :: x in xs && y in ys ==> Before(x, y)
    ensures InCodeOrder(xs + ys)
  {
    var all := xs + ys;
    forall i, j | 0 <= i < j < |all| ensures Before(all[i], all[j]) {
      if i < |xs| <= j { assert xs[i] in xs && ys[j - |xs|] in ys; }
    }
  }

  lemma {:induction false} MicrosInOrder(address: u32, opcode: u32, n: nat)
    ensures InCodeOrder(MicroEntries(address, opcode, n))
    ensures forall c :: c in MicroEntries(address, opcode, n) ==> c.address == address && c.micro < n
  {
    if n > 0 {
      MicrosInOrder(address, opcode, n - 1);
      CodeOrderJoin(MicroEntries(address, opcode, n - 1), [Code(address, n - 1, opcode)]);
    }
  }

  lemma {:induction false} SectionInOrder(s: Section, decode: Decoder, n: nat)
    requires s.Valid() && Decodes(s, decode) && n <= |s.data|
    ensures InCodeOrder(SectionEntries(s, decode, n))
    ensures forall c :: c in SectionEntries(s, decode, n) ==> s.start <= c.address < s.start + 4 * n
  {
    hide RequiredMicros, MicroEntries;
    if n > 0 {
      SectionInOrder(s, decode, n - 1);
      var a, micros := s.start + 4 * (n - 1), RequiredMicros(decode(s.data[n - 1]).value);
      MicrosInOrder(a, s.data[n - 1], micros);
      CodeOrderJoin(SectionEntries(s, decode, n - 1), MicroEntries(a, s.data[n - 1], micros));
    }
  }

  /** Code is listed in address order, the micro-steps of a word in their order, each once. */
  lemma {:induction false} CodeInOrder(ss: seq<Section>, decode: Decoder, n: nat)
    requires Ordered(ss) && CodeDecodes(ss, decode) && n <= |ss|
    ensures InCodeOrder(CodeEntries(ss, decode, n))
    ensures forall c, j :: c in CodeEntries(ss, decode, n) && n <= j < |ss| ==> c.address < ss[j].start
  {
    hide SectionEntries, Decodes;
    if n > 0 {
      CodeInOrder(ss, decode, n - 1);
      if ss[n - 1].isCode {
        SectionInOrder(ss[n - 1], decode, |ss[n - 1].data|);
        CodeOrderJoin(CodeEntries(ss, decode, n - 1), SectionEntries(ss[n - 1], decode, |ss[n - 1].data|));
      }
    }
  }
}
