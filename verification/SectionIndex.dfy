/** The section list as an index: merging, insertion, range tables and code chunks agree with
    word memory. */
module SectionIndex {
  import opened Bits
  import opened Trace
  import opened SectionMemory

  /** What an access at an address meets. */
  datatype Cell =
    | Unmapped
    | RegisterFile
    | Mapped(value: u32, lastStep: u64, isCode: bool, isWrite: bool, initialized: bool)

  ghost function CellAt(ss: seq<Section>, a: u32): Cell
    requires Ordered(ss)
  {
    match Locate(ss, a)
    case None => Unmapped
    case Some(i) => CellFrom(ss[i], a)
  }

  ghost function CellFrom(s: Section, a: u32): Cell
    requires s.Valid() && s.Holds(a)
  {
    CellNumber(s, s.CellIndex(a))
  }

  /** Cell `i` of a section. */
  ghost function CellNumber(s: Section, i: nat): Cell
    requires i < |s.data| == |s.lastStep|
  {
    if s.registers then RegisterFile else Mapped(s.data[i], s.lastStep[i], s.isCode, s.isWrite, s.initialized)
  }

  lemma CellOf(ss: seq<Section>, a: u32, i: nat)
    requires Ordered(ss) && i < |ss| && ss[i].Holds(a)
    ensures ss[i].Valid() && CellAt(ss, a) == CellFrom(ss[i], a)
  {
    LocateUnique(ss, a, i);
  }

  /** A cell says what can be done at its address, and what is there. */
  lemma CellMeans(ss: seq<Section>, a: u32, v: u32, step: u64)
    requires Ordered(ss)
    ensures var c := CellAt(ss, a);
            && (c.Mapped? <==> ReadMem(ss, a).Ok?) && (c == RegisterFile <==> ReadMem(ss, a) == Err(RegistersSectionFail))
            && (c.Mapped? ==> ReadMem(ss, a) == Ok(c.value) && LastStepOf(ss, a) == c.lastStep)
            && (c.Mapped? ==> (c.isWrite <==> WriteMem(ss, a, v, step).Ok?) && !(c.isCode && c.isWrite))
            && (c.Mapped? && !c.isWrite ==> WriteMem(ss, a, v, step) == Err(WriteToReadOnlySection))
            && (c == Unmapped ==> ReadMem(ss, a) == Err(SectionNotFound))
  {
    hide Ordered;
    if Locate(ss, a).Some? { ValidSection(ss, Locate(ss, a).value); }
  }

  /** The whole word at an address lies in a section exactly if all its bytes do. */
  lemma WholeWord(s: Section, a: u32)
    requires s.Valid()
    ensures s.Contains(a) <==> s.Holds(a) && a + 3 < 0x1_0000_0000 && s.Holds(a + 3)
  {
  }

  lemma NoCell(ss: seq<Section>, a: u32)
    requires Ordered(ss) && forall i :: 0 <= i < |ss| ==> !ss[i].Holds(a)
    ensures CellAt(ss, a) == Unmapped
  {
  }

  lemma MergedIsValid(x: Section, y: Section)
    requires x.Valid() && y.Valid() && x.IsMergeCompatible(y)
    ensures x.Merge(y).Valid()
  {
  }

  lemma MergedCell(x: Section, y: Section, a: u32)
    requires x.Valid() && y.Valid() && x.IsMergeCompatible(y) && x.Merge(y).Valid()
    ensures x.Merge(y).Holds(a) <==> x.Holds(a) || y.Holds(a)
    ensures x.Holds(a) ==> x.Merge(y).data[x.Merge(y).CellIndex(a)] == x.data[x.CellIndex(a)]
                           && x.Merge(y).lastStep[x.Merge(y).CellIndex(a)] == x.lastStep[x.CellIndex(a)]
    ensures y.Holds(a) ==> x.Merge(y).data[x.Merge(y).CellIndex(a)] == y.data[y.CellIndex(a)]
                           && x.Merge(y).lastStep[x.Merge(y).CellIndex(a)] == y.lastStep[y.CellIndex(a)]
  {
    if y.Holds(a) {
      assert (a - x.start) / 4 == x.size / 4 + (a - y.start) / 4;
    }
  }

  lemma OrderedSplit(pre: seq<Section>, mid: seq<Section>, post: seq<Section>)
    requires Ordered(pre + mid + post)
    ensures Ordered(pre) && Ordered(mid) && Ordered(post)
    ensures forall i, j :: 0 <= i < |pre| && 0 <= j < |mid| ==> pre[i].start + pre[i].size <= mid[j].start
    ensures forall i, j :: 0 <= i < |mid| && 0 <= j < |post| ==> mid[i].start + mid[i].size <= post[j].start
    ensures forall i, j :: 0 <= i < |pre| && 0 <= j < |post| ==> pre[i].start + pre[i].size <= post[j].start
  {
    hide Section.Valid;
    var all := pre + mid + post;
    assert forall i :: 0 <= i < |pre| ==> all[i] == pre[i];
    assert forall j :: 0 <= j < |mid| ==> all[|pre| + j] == mid[j];
    assert forall j :: 0 <= j < |post| ==> all[|pre| + |mid| + j] == post[j];
  }

  lemma OrderedJoin(pre: seq<Section>, mid: seq<Section>, post: seq<Section>)
    requires Ordered(pre) && Ordered(mid) && Ordered(post)
    requires forall i, j :: 0 <= i < |pre| && 0 <= j < |mid| ==> pre[i].start + pre[i].size <= mid[j].start
    requires forall i, j :: 0 <= i < |mid| && 0 <= j < |post| ==> mid[i].start + mid[i].size <= post[j].start
    requires forall i, j :: 0 <= i < |pre| && 0 <= j < |post| ==> pre[i].start + pre[i].size <= post[j].start
    ensures Ordered(pre + mid + post)
  {
  }

  /** Merging two adjacent compatible sections keeps a list ordered, and makes none ordered
      that was not. */
  lemma MergeKeepsOrder(pre: seq<Section>, x: Section, y: Section, post: seq<Section>)
    requires x.Valid() && y.Valid() && x.IsMergeCompatible(y)
    ensures Ordered(pre + [x.Merge(y)] + post) <==> Ordered(pre + [x, y] + post)
  {
    MergedIsValid(x, y);
    if Ordered(pre + [x, y] + post) {
      OrderedSplit(pre, [x, y], post);
      assert [x, y][0] == x && [x, y][1] == y;
      OrderedJoin(pre, [x.Merge(y)], post);
    }
    if Ordered(pre + [x.Merge(y)] + post) {
      OrderedSplit(pre, [x.Merge(y)], post);
      assert [x.Merge(y)][0] == x.Merge(y);
      OrderedJoin(pre, [x, y], post);
    }
  }

  /** Merging two adjacent compatible sections changes no cell. */
  lemma MergeKeepsCells(pre: seq<Section>, x: Section, y: Section, post: seq<Section>, a: u32)
    requires Ordered(pre + [x, y] + post) && x.IsMergeCompatible(y) && x.Valid() && y.Valid()
    requires Ordered(pre + [x.Merge(y)] + post)
    ensures CellAt(pre + [x.Merge(y)] + post, a) == CellAt(pre + [x, y] + post, a)
  {
    hide Ordered, Locate, CellAt;
    var ss, ss' := pre + [x, y] + post, pre + [x.Merge(y)] + post;
    ValidSection(ss', |pre|);
    MergedCell(x, y, a);
    if i :| 0 <= i < |pre| && pre[i].Holds(a) {
      CellOf(ss, a, i);
      CellOf(ss', a, i);
    } else if x.Holds(a) {
      CellOf(ss, a, |pre|);
      CellOf(ss', a, |pre|);
    } else if y.Holds(a) {
      CellOf(ss, a, |pre| + 1);
      CellOf(ss', a, |pre|);
    } else if j :| 0 <= j < |post| && post[j].Holds(a) {
      CellOf(ss, a, |pre| + 2 + j);
      CellOf(ss', a, |pre| + 1 + j);
    } else {
      NoCell(ss, a);
      NoCell(ss', a);
    }
  }

  /** The words of a section with their addresses. */
  ghost function Words(s: Section): seq<(int, Cell)>
    requires |s.data| == |s.lastStep|
  {
    seq(|s.data|, i requires 0 <= i < |s.data| => (s.start + 4 * i, CellNumber(s, i)))
  }

  /** The words of a list of sections, one section after another. */
  ghost function Listing(ss: seq<Section>): seq<(int, Cell)>
    requires AllValid(ss)
  {
    if ss == [] then [] else Listing(ss[..|ss| - 1]) + Words(ss[|ss| - 1])
  }

  lemma {:induction false} ListingJoins(ss: seq<Section>, more: seq<Section>)
    requires AllValid(ss) && AllValid(more)
    ensures AllValid(ss + more) && Listing(ss + more) == Listing(ss) + Listing(more)
  {
    hide Section.Valid, Words;
    var all := ss + more;
    if more == [] {
      assert all == ss;
    } else {
      var n := |more| - 1;
      ListingJoins(ss, more[..n]);
      assert all[..|all| - 1] == ss + more[..n] && all[|all| - 1] == more[n];
      ListingStep(all);
      ListingStep(more);
    }
  }

  lemma ListingStep(ss: seq<Section>)
    requires AllValid(ss) && ss != []
    ensures AllValid(ss[..|ss| - 1]) && ss[|ss| - 1].Valid()
    ensures Listing(ss) == Listing(ss[..|ss| - 1]) + Words(ss[|ss| - 1])
  {
    hide Section.Valid, Words;
  }

  lemma ListingOfTwo(x: Section, y: Section)
    requires x.Valid() && y.Valid()
    ensures AllValid([x]) && AllValid([x, y]) && Listing([x]) == Words(x) && Listing([x, y]) == Words(x) + Words(y)
  {
    assert [x][..0] == [] && [x, y][..1] == [x];
  }

  /** Merging two adjacent compatible sections keeps the listing, in any list. */
  lemma MergeKeepsListing(pre: seq<Section>, x: Section, y: Section, post: seq<Section>)
    requires AllValid(pre) && x.Valid() && y.Valid() && AllValid(post) && x.IsMergeCompatible(y)
    ensures AllValid(pre + [x, y] + post) && AllValid(pre + [x.Merge(y)] + post)
    ensures Listing(pre + [x.Merge(y)] + post) == Listing(pre + [x, y] + post)
  {
    hide Listing, AllValid;
    MergedIsValid(x, y);
    ListingOfTwo(x, y);
    ListingOfTwo(x.Merge(y), y);
    MergedWords(x, y);
    ListingJoins(pre, [x, y]);
    ListingJoins(pre + [x, y], post);
    ListingJoins(pre, [x.Merge(y)]);
    ListingJoins(pre + [x.Merge(y)], post);
  }

  lemma MergedWords(x: Section, y: Section)
    requires x.Valid() && y.Valid() && x.IsMergeCompatible(y)
    ensures |x.Merge(y).data| == |x.Merge(y).lastStep| && Words(x.Merge(y)) == Words(x) + Words(y)
  {
    assert y.start == x.start + 4 * |x.data|;
  }

  /** The register files of a list. */
  ghost function RegisterFiles(ss: seq<Section>): seq<Section>
  {
    if ss == [] then [] else RegisterFiles(ss[..|ss| - 1]) + if ss[|ss| - 1].registers then [ss[|ss| - 1]] else []
  }

  lemma {:induction false} RegisterFilesJoin(ss: seq<Section>, more: seq<Section>)
    ensures RegisterFiles(ss + more) == RegisterFiles(ss) + RegisterFiles(more)
  {
    if more == [] {
      assert ss + more == ss;
    } else {
      var n := |more| - 1;
      RegisterFilesJoin(ss, more[..n]);
      assert (ss + more)[..|ss + more| - 1] == ss + more[..n];
    }
  }

  lemma RegisterFilesOfTwo(x: Section, y: Section)
    ensures RegisterFiles([x]) == if x.registers then [x] else []
    ensures RegisterFiles([x, y]) == RegisterFiles([x]) + RegisterFiles([y])
  {
    assert [x][..0] == [] && [y][..0] == [] && [x, y][..1] == [x];
  }

  /** A list with one register file keeps it. */
  lemma MergeKeepsRegisters(pre: seq<Section>, x: Section, y: Section, post: seq<Section>)
    requires x.Valid() && y.Valid() && x.IsMergeCompatible(y) && |RegisterFiles(pre + [x, y] + post)| <= 1
    ensures RegisterFiles(pre + [x.Merge(y)] + post) == RegisterFiles(pre + [x, y] + post)
  {
    hide RegisterFiles;
    RegisterFilesOfTwo(x, y);
    RegisterFilesOfTwo(y, y);
    RegisterFilesOfTwo(x.Merge(y), y);
    RegisterFilesJoin(pre, [x, y]);
    RegisterFilesJoin(pre + [x, y], post);
    RegisterFilesJoin(pre, [x.Merge(y)]);
    RegisterFilesJoin(pre + [x.Merge(y)], post);
  }

  lemma {:induction false} RegisterFileIsListed(ss: seq<Section>, s: Section)
    ensures s in RegisterFiles(ss) <==> s in ss && s.registers
  {
    if ss != [] {
      RegisterFileIsListed(ss[..|ss| - 1], s);
      assert ss == ss[..|ss| - 1] + [ss[|ss| - 1]];
    }
  }

  // ---------------------------------------------------------------- merging a whole list

  /** What merging leaves of a list: every word where and as it was, in the same order; an
      ordered list, and its cells; start order; a single register file. */
  ghost predicate MergeOf(all: seq<Section>, ss: seq<Section>)
    requires AllValid(all)
  {
    && AllValid(ss) && |ss| <= |all| && Listing(ss) == Listing(all)
    && (Ordered(ss) <==> Ordered(all))
    && (Ordered(all) ==> forall a :: CellAt(ss, a) == CellAt(all, a))
    && (SortedByStart(all) ==> SortedByStart(ss))
    && (|RegisterFiles(all)| <= 1 ==> RegisterFiles(ss) == RegisterFiles(all))
  }

  /** Neighbours that touch differ in what may be done with them: one is code, writable,
      initialized or the register file, and the other is not. */
  ghost predicate FullyMerged(ss: seq<Section>)
  {
    forall i :: 0 <= i < |ss| - 1 && ss[i].start + ss[i].size == ss[i + 1].start ==> FlagsDiffer(ss[i], ss[i + 1])
  }

  predicate FlagsDiffer(s: Section, t: Section)
  {
    s.isCode != t.isCode || s.isWrite != t.isWrite || s.initialized != t.initialized || s.registers != t.registers
  }

  lemma MergeStep(all: seq<Section>, pre: seq<Section>, x: Section, y: Section, post: seq<Section>)
    requires AllValid(all) && MergeOf(all, pre + [x, y] + post) && x.IsMergeCompatible(y)
    ensures x.Valid() && y.Valid() && MergeOf(all, pre + [x.Merge(y)] + post)
  {
    hide CellAt, Listing, RegisterFiles, Ordered, SortedByStart;
    var ss := pre + [x, y] + post;
    assert ss[|pre|] == x && ss[|pre| + 1] == y;
    var ss' := pre + [x.Merge(y)] + post;
    forall i | 0 <= i < |pre| ensures pre[i].Valid() { assert ss[i] == pre[i]; }
    forall i | 0 <= i < |post| ensures post[i].Valid() { assert ss[|pre| + 2 + i] == post[i]; }
    MergeKeepsListing(pre, x, y, post);
    MergeKeepsOrder(pre, x, y, post);
    if Ordered(all) {
      forall a ensures CellAt(ss', a) == CellAt(all, a) {
        MergeKeepsCells(pre, x, y, post, a);
      }
    }
    MergeKeepsStarts(pre, x, y, post);
    if |RegisterFiles(all)| <= 1 { MergeKeepsRegisters(pre, x, y, post); }
  }

  lemma MergeKeepsStarts(pre: seq<Section>, x: Section, y: Section, post: seq<Section>)
    requires x.Valid() && y.Valid() && x.IsMergeCompatible(y)
    ensures SortedByStart(pre + [x, y] + post) ==> SortedByStart(pre + [x.Merge(y)] + post)
  {
    var ss, ss' := pre + [x, y] + post, pre + [x.Merge(y)] + post;
    assert forall i :: 0 <= i < |ss'| ==> ss'[i].start == ss[if i <= |pre| then i else i + 1].start;
  }

  ghost predicate SortedByStart(ss: seq<Section>)
  {
    forall i, j :: 0 <= i < j < |ss| ==> ss[i].start <= ss[j].start
  }

  /** Sections that overlap no other, in start order, are ordered. */
  lemma SortedWithoutOverlapIsOrdered(ss: seq<Section>)
    requires SortedByStart(ss)
    requires forall i :: 0 <= i < |ss| ==> ss[i].Valid()
    requires forall i, j :: 0 <= i < j < |ss| ==> !Overlap(ss[i], ss[j])
    ensures Ordered(ss)
  {
    forall i, j | 0 <= i < j < |ss|
      ensures ss[i].start + ss[i].size <= ss[j].start
    {
      assert !Overlap(ss[i], ss[j]);
    }
  }

  predicate Overlap(s: Section, t: Section)
  {
    s.start < t.start + t.size && s.start + s.size > t.start
  }

  // ---------------------------------------------------------------- range tables

  type Ranges = seq<(u32, u32)>

  predicate InRanges(address: u32, ranges: Ranges)
  {
    && (exists r :: r in ranges && r.0 <= address && address <= r.1 as int - 3)
    && address % 4 == 0
  }

  /** The four tables and the sections each lists. */
  datatype Table = RegisterTable | ReadWriteTable | ReadOnlyTable | CodeTable

  predicate Lists(t: Table, s: Section)
  {
    match t
    case RegisterTable => s.registers
    case ReadWriteTable => !s.registers && s.isWrite
    case ReadOnlyTable => !s.registers && !s.isWrite
    case CodeTable => !s.registers && !s.isWrite && s.isCode
  }

  /** The range tables of a program. */
  datatype Tables = Tables(readWrite: Ranges, readOnly: Ranges, registers: Ranges, code: Ranges)

  const NO_TABLES := Tables([], [], [], [])

  /** Whether a trace may access the address, by the range tables. */
  predicate ValidAccess(t: Tables, access: Access, address: u32, validIfReadOnly: bool)
  {
    match access
    case Unused => true
    case Register => InRanges(address, t.registers)
    case Memory =>
      if validIfReadOnly then InRanges(address, t.readOnly) || InRanges(address, t.readWrite)
      else InRanges(address, t.readWrite)
  }

  /** A table of the first `n` sections. */
  ghost function RangesOf(ss: seq<Section>, n: nat, t: Table): Ranges
    requires n <= |ss|
  {
    if n == 0 then []
    else RangesOf(ss, n - 1, t) + if Lists(t, ss[n - 1]) then [ss[n - 1].Range()] else []
  }

  ghost function TablesOf(ss: seq<Section>): Tables
  {
    Tables(RangesOf(ss, |ss|, ReadWriteTable), RangesOf(ss, |ss|, ReadOnlyTable),
           RangesOf(ss, |ss|, RegisterTable), RangesOf(ss, |ss|, CodeTable))
  }

  lemma AlignedInRange(s: Section, a: u32)
    requires s.Valid() && a % 4 == 0
    ensures s.Holds(a) <==> s.Range().0 <= a && a <= s.Range().1 as int - 3
  {
  }

  lemma InMoreRanges(a: u32, rs: Ranges, r: (u32, u32))
    requires a % 4 == 0
    ensures InRanges(a, rs + [r]) <==> InRanges(a, rs) || (r.0 <= a && a <= r.1 as int - 3)
  {
    assert r in rs + [r];
    assert forall q :: q in rs ==> q in rs + [r];
  }

  lemma {:induction false} InTable(ss: seq<Section>, n: nat, t: Table, a: u32)
    requires Ordered(ss) && n <= |ss| && a % 4 == 0
    ensures InRanges(a, RangesOf(ss, n, t)) <==> exists i :: 0 <= i < n && Lists(t, ss[i]) && ss[i].Holds(a)
  {
    if n > 0 {
      InTable(ss, n - 1, t, a);
      AlignedInRange(ss[n - 1], a);
      InMoreRanges(a, RangesOf(ss, n - 1, t), ss[n - 1].Range());
    }
  }

  /** A table holds an aligned address exactly when the section at that address is listed. */
  lemma TableLocates(ss: seq<Section>, t: Table, a: u32)
    requires Ordered(ss) && a % 4 == 0
    ensures InRanges(a, RangesOf(ss, |ss|, t)) <==> Locate(ss, a).Some? && Lists(t, ss[Locate(ss, a).value])
  {
    hide Locate, Ordered, Lists;
    InTable(ss, |ss|, t, a);
    if InRanges(a, RangesOf(ss, |ss|, t)) {
      var i :| 0 <= i < |ss| && Lists(t, ss[i]) && ss[i].Holds(a);
      LocateUnique(ss, a, i);
    }
  }

  /** The tables agree with memory: of the aligned addresses, a read is valid exactly for those
      that can be read, a write exactly for those that can be written, a register access exactly
      in the register file, and the code table holds exactly code. */
  lemma TablesAgreeWithMemory(ss: seq<Section>, a: u32, v: u32, step: u64)
    requires Ordered(ss) && a % 4 == 0
    ensures var t := TablesOf(ss);
            && (ValidAccess(t, Memory, a, true) <==> ReadMem(ss, a).Ok?)
            && (ValidAccess(t, Memory, a, false) <==> WriteMem(ss, a, v, step).Ok?)
            && (ValidAccess(t, Register, a, true) <==> CellAt(ss, a) == RegisterFile)
            && (InRanges(a, t.code) <==> FindSection(ss, a).Ok? && ss[FindSection(ss, a).value].isCode)
  {
    hide Locate, Ordered, RangesOf, InRanges;
    TableLocates(ss, ReadOnlyTable, a);
    TableLocates(ss, ReadWriteTable, a);
    TableLocates(ss, RegisterTable, a);
    TableLocates(ss, CodeTable, a);
    if Locate(ss, a).Some? {
      ValidSection(ss, Locate(ss, a).value);
    }
  }
}
