/** The numbering of code chunks: all code, in address order, is cut into chunks numbered from
    zero without a gap, and a number names one chunk. */
module CodeChunks {
  import opened Bits
  import opened Options
  import opened SectionMemory
  import opened Programs

  /** Rounding up counts the last, shorter chunk. */
  lemma ChunkOfInstruction(n: nat, size: nat, k: nat)
    requires size > 0 && k < n
    ensures 0 <= k / size < ChunksIn(n, size)
  {
    QuotientTimes(n, size);
    QuotientTimes(k, size);
    MulSub(k / size, n / size, size);
    MulCommutes(size, k / size);
    MulCommutes(size, n / size);
    MulGrows(k / size - n / size, size);
  }

  lemma InstructionOfChunk(n: nat, size: nat, c: nat)
    requires size > 0 && c < ChunksIn(n, size)
    ensures c * size < n && c * size / size == c
  {
    QuotientTimes(n, size);
    MulCommutes(size, n / size);
    DivModUnique(c * size, size, c, 0);
    MulSub(n / size, c, size);
    MulGrows(n / size - c, size);
  }

  lemma ChunkStartOf(k: nat, size: nat)
    requires size > 0
    ensures ChunkStart(k, size) == k / size * size
  {
    QuotientTimes(k, size);
    MulCommutes(size, k / size);
  }

  /** Two instructions of a section share a chunk exactly if they share its first instruction. */
  lemma SameStart(k: nat, l: nat, size: nat)
    requires size > 0
    ensures k / size == l / size <==> ChunkStart(k, size) == ChunkStart(l, size)
    ensures k <= l ==> k / size <= l / size
  {
    ChunkStartOf(k, size);
    ChunkStartOf(l, size);
    QuotientTimes(k, size);
    QuotientTimes(l, size);
    MulSub(k / size, l / size, size);
    MulGrows(k / size - l / size, size);
  }

  lemma {:induction false} ChunksGrow(ss: seq<Section>, i: nat, j: nat, size: nat)
    requires i <= j <= |ss| && size > 0
    ensures ChunksBefore(ss, i, size) <= ChunksBefore(ss, j, size)
  {
    hide ChunksIn;
    if i < j { ChunksGrow(ss, i, j - 1, size); }
  }

  /** The section of a code address, and its chunk's number. */
  lemma ChunkAt(ss: seq<Section>, a: u32, size: nat) returns (i: nat, k: nat)
    requires Ordered(ss) && size > 0 && ChunkInfoOf(ss, a, size).Some?
    ensures i < |ss| && ss[i].Valid() && ss[i].isCode && ss[i].Holds(a) && k == (a - ss[i].start) / 4 < ss[i].size / 4
    ensures ChunkInfoOf(ss, a, size) == Some(ChunkOf(ss[i], ChunksBefore(ss, i, size), k, size))
    ensures var index := ChunkInfoOf(ss, a, size).value.index;
            ChunksBefore(ss, i, size) <= index < ChunksBefore(ss, i + 1, size)
  {
    hide Locate, ChunksIn;
    i := Locate(ss, a).value;
    ValidSection(ss, i);
    k := (a - ss[i].start) / 4;
    ChunkOfInstruction(ss[i].size / 4, size, k);
  }

  /** Chunks of different sections are numbered in address order. */
  lemma LaterSection(ss: seq<Section>, a: u32, b: u32, size: nat, i: nat, j: nat)
    requires Ordered(ss) && size > 0 && i < j < |ss| && ss[i].Holds(a) && ss[j].Holds(b)
    requires ChunkInfoOf(ss, a, size).Some? && ChunkInfoOf(ss, b, size).Some?
    ensures a < b
    ensures var x, y := ChunkInfoOf(ss, a, size).value, ChunkInfoOf(ss, b, size).value;
            x.index < y.index && x.baseAddress < y.baseAddress
  {
    hide ChunksBefore, ChunkInfoOf, ChunksIn;
    var i', k := ChunkAt(ss, a, size);
    var j', l := ChunkAt(ss, b, size);
    HoldersAgree(ss, a, i, i');
    HoldersAgree(ss, b, j, j');
    ChunksGrow(ss, i + 1, j, size);
  }

  /** Two code addresses are in chunks of the same number exactly if these have the same first
      address; and a later address has no smaller number. */
  lemma ChunkNumbersName(ss: seq<Section>, a: u32, b: u32, size: nat)
    requires Ordered(ss) && size > 0 && ChunkInfoOf(ss, a, size).Some? && ChunkInfoOf(ss, b, size).Some?
    ensures var x, y := ChunkInfoOf(ss, a, size).value, ChunkInfoOf(ss, b, size).value;
            && (x.index == y.index <==> x.baseAddress == y.baseAddress)
            && x.baseAddress <= a < x.baseAddress + 4 * size
            && (a <= b ==> x.index <= y.index && x.baseAddress <= y.baseAddress)
  {
    hide ChunksBefore, ChunkInfoOf, ChunksIn, ChunkStart, Ordered;
    var i, k := ChunkAt(ss, a, size);
    var j, l := ChunkAt(ss, b, size);
    if i < j {
      LaterSection(ss, a, b, size, i, j);
    } else if j < i {
      LaterSection(ss, b, a, size, j, i);
    } else {
      SameStart(k, l, size);
      SameStart(l, k, size);
      ChunkStartOf(k, size);
      ChunkStartOf(l, size);
      StartsGrow(k, l, size);
    }
  }

  lemma StartsGrow(k: nat, l: nat, size: nat)
    requires size > 0
    ensures k <= l ==> k / size * size <= l / size * size
  {
    if k <= l {
      SameStart(k, l, size);
      MulSub(l / size, k / size, size);
    }
  }

  /** The numbers of all code chunks are those below their count: each code address has such a
      number, and each such number belongs to a code address. */
  lemma ChunkNumbersAreDense(ss: seq<Section>, size: nat, c: nat)
    requires Ordered(ss) && size > 0
    ensures c < ChunksBefore(ss, |ss|, size)
            <==> exists a: u32 :: a % 4 == 0 && ChunkInfoOf(ss, a, size).Some? && ChunkInfoOf(ss, a, size).value.index == c
  {
    hide ChunkInfoOf, ChunksIn, Ordered;
    if c < ChunksBefore(ss, |ss|, size) {
      var a := AddressOfChunk(ss, |ss|, size, c);
    }
    if a: u32 :| a % 4 == 0 && ChunkInfoOf(ss, a, size).Some? && ChunkInfoOf(ss, a, size).value.index == c {
      var i, k := ChunkAt(ss, a, size);
      ChunksGrow(ss, i + 1, |ss|, size);
    }
  }

  lemma AddressInSection(ss: seq<Section>, i: nat, size: nat, c: nat) returns (a: u32)
    requires Ordered(ss) && size > 0 && i < |ss|
    requires ss[i].isCode && ChunksBefore(ss, i, size) <= c < ChunksBefore(ss, i, size) + ChunksIn(ss[i].size / 4, size)
    ensures a % 4 == 0 && ChunkInfoOf(ss, a, size).Some? && ChunkInfoOf(ss, a, size).value.index == c
  {
    hide ChunksIn, Ordered, ChunksBefore, ChunkInfoOf;
    ValidSection(ss, i);
    var k := (c - ChunksBefore(ss, i, size)) * size;
    InstructionOfChunk(ss[i].size / 4, size, c - ChunksBefore(ss, i, size));
    a := AddressOfInstruction(ss, i, size, k);
  }

  lemma AddressOfInstruction(ss: seq<Section>, i: nat, size: nat, k: nat) returns (a: u32)
    requires Ordered(ss) && size > 0 && i < |ss| && ss[i].isCode && k < ss[i].size / 4
    ensures a % 4 == 0 && ChunkInfoOf(ss, a, size).Some?
    ensures ChunkInfoOf(ss, a, size).value.index == ChunksBefore(ss, i, size) + k / size
  {
    hide Locate, ChunksIn, ChunkStart, Ordered, ChunksBefore;
    ValidSection(ss, i);
    a := ss[i].start + 4 * k;
    assert ss[i].Holds(a) && (a - ss[i].start) / 4 == k;
    LocateUnique(ss, a, i);
  }

  lemma {:induction false} AddressOfChunk(ss: seq<Section>, n: nat, size: nat, c: nat) returns (a: u32)
    requires Ordered(ss) && size > 0 && n <= |ss| && c < ChunksBefore(ss, n, size)
    ensures a % 4 == 0 && ChunkInfoOf(ss, a, size).Some? && ChunkInfoOf(ss, a, size).value.index == c
  {
    hide ChunkInfoOf, ChunksIn, Ordered;
    if c < ChunksBefore(ss, n - 1, size) {
      a := AddressOfChunk(ss, n - 1, size, c);
    } else {
      a := AddressInSection(ss, n - 1, size, c);
    }
  }
}
