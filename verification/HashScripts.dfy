/** Hash inputs and hashes as base-16 digits: the challenge scripts that hash a step again, and
    the ones that compare program counters. */
module HashScripts {
  import opened Bits
  import opened Trace
  import opened Nibbles
  import opened ByteMemory
  import A = Alignment

  /** The digits of a byte string, as a script pushes it from hexadecimal. */
  function DigitsOf(bs: seq<byte>): (ns: seq<nibble>)
    ensures |ns| == 2 * |bs|
  {
    if bs == [] then [] else DigitsOf(bs[..|bs| - 1]) + [bs[|bs| - 1] / 16, bs[|bs| - 1] % 16]
  }

  /** The bytes a hash script makes of an even number of digits. */
  function BytesOf(ns: seq<nibble>): (bs: seq<byte>)
    requires |ns| % 2 == 0
    ensures 2 * |bs| == |ns|
  {
    if ns == [] then [] else BytesOf(ns[..|ns| - 2]) + [16 * (ns[|ns| - 2] as int) + ns[|ns| - 1]]
  }

  lemma {:induction false} BytesOfDigits(bs: seq<byte>)
    ensures BytesOf(DigitsOf(bs)) == bs
  {
    if bs != [] {
      var init, last := bs[..|bs| - 1], bs[|bs| - 1];
      BytesOfDigits(init);
      var ns := DigitsOf(bs);
      assert ns[..|ns| - 2] == DigitsOf(init);
      assert bs == init + [last];
    }
  }

  lemma DigitsAreInjective(a: seq<byte>, b: seq<byte>)
    ensures DigitsOf(a) == DigitsOf(b) <==> a == b
  {
    BytesOfDigits(a);
    BytesOfDigits(b);
  }

  lemma {:induction false} DigitsJoin(a: seq<byte>, b: seq<byte>)
    ensures DigitsOf(a + b) == DigitsOf(a) + DigitsOf(b)
  {
    if b == [] {
      assert a + b == a;
    } else {
      var n := |b| - 1;
      DigitsJoin(a, b[..n]);
      assert (a + b)[..|a + b| - 1] == a + b[..n];
    }
  }

  lemma MicroDigits(m: byte)
    ensures NibblesOf(m, 2) == DigitsOf([m]) == [m / 16, m % 16]
  {
    A.BytePeels(m, 0, 0);
    assert [m][..0] == [];
  }

  lemma DigitsOfFour(b3: byte, b2: byte, b1: byte, b0: byte)
    ensures DigitsOf([b3, b2, b1, b0]) == DigitsOf([b3]) + DigitsOf([b2]) + DigitsOf([b1]) + DigitsOf([b0])
  {
    hide DigitsOf;
    DigitsJoin([b3], [b2]);
    DigitsJoin([b3, b2], [b1]);
    DigitsJoin([b3, b2, b1], [b0]);
    assert [b3] + [b2] == [b3, b2] && [b3, b2] + [b1] == [b3, b2, b1] && [b3, b2, b1] + [b0] == [b3, b2, b1, b0];
  }

  lemma WordDigits(w: u32)
    ensures NibblesOf(w, 8) == DigitsOf(BigEndian(w))
  {
    hide NibblesOf, DigitsOf, Byte0, Byte1, Byte2, Byte3, Word;
    var b := Bytes(Byte0(w), Byte1(w), Byte2(w), Byte3(w));
    WordOfBytes(w);
    A.NibblesOfBytes(b);
    DigitsOfFour(b.b3, b.b2, b.b1, b.b0);
    MicroDigits(b.b3);
    MicroDigits(b.b2);
    MicroDigits(b.b1);
    MicroDigits(b.b0);
  }

  /** The written half of a step on the stack is the digits of its bytes. */
  lemma StepDigits(s: TraceStep)
    ensures NibblesOf(s.write1.address, 8) + NibblesOf(s.write1.value, 8) + NibblesOf(s.writePc.address, 8)
            + NibblesOf(s.writePc.micro, 2)
            == DigitsOf(ToBytes(s))
  {
    hide NibblesOf, DigitsOf, BigEndian;
    WordDigits(s.write1.address);
    WordDigits(s.write1.value);
    WordDigits(s.writePc.address);
    MicroDigits(s.writePc.micro);
    var a, b, c := BigEndian(s.write1.address), BigEndian(s.write1.value), BigEndian(s.writePc.address);
    DigitsJoin(a, b);
    DigitsJoin(a + b, c);
    DigitsJoin(a + b + c, [s.writePc.micro]);
  }

  /** Hash the digits of a previous hash and of a step's written half. */
  method HashStep(hf: Hasher, previous: Hash, step: TraceStep) returns (digits: seq<nibble>)
    ensures digits == DigitsOf(ComputeStepHash(hf, previous, step))
  {
    hide NibblesOf, DigitsOf, BytesOf, ToBytes;
    var message := DigitsOf(previous)
      + (NibblesOf(step.write1.address, 8) + NibblesOf(step.write1.value, 8) + NibblesOf(step.writePc.address, 8)
         + NibblesOf(step.writePc.micro, 2));
    StepDigits(step);
    DigitsJoin(previous, ToBytes(step));
    BytesOfDigits(previous + ToBytes(step));
    digits := DigitsOf(hf(BytesOf(message)));
  }

  method TraceHashChallenge(hf: Hasher, previous: Hash, step: TraceStep, next: Hash) returns (wins: bool)
    ensures wins <==> !ValidateStepHash(hf, previous, step, next)
  {
    hide DigitsOf, ToBytes;
    var result := HashStep(hf, previous, step);
    DigitsAreInjective(ComputeStepHash(hf, previous, step), next);
    wins := result != DigitsOf(next);
  }

  /** A program counter on the stack: eight digits of address and two of micro-step. */
  function PcDigits(pc: ProgramCounter): seq<nibble>
  {
    NibblesOf(pc.address, 8) + NibblesOf(pc.micro, 2)
  }

  lemma PcDigitsAreInjective(p: ProgramCounter, q: ProgramCounter)
    ensures PcDigits(p) == PcDigits(q) <==> p == q
  {
    hide NibblesOf, DigitsOf, BigEndian;
    WordDigits(p.address);
    WordDigits(q.address);
    MicroDigits(p.micro);
    MicroDigits(q.micro);
    DigitsAreInjective(BigEndian(p.address), BigEndian(q.address));
    DigitsAreInjective([p.micro], [q.micro]);
    if PcDigits(p) == PcDigits(q) {
      assert NibblesOf(p.address, 8) == PcDigits(p)[..8] == PcDigits(q)[..8] == NibblesOf(q.address, 8);
      assert NibblesOf(p.micro, 2) == PcDigits(p)[8..] == PcDigits(q)[8..] == NibblesOf(q.micro, 2);
      BigEndianInjective(p.address, q.address);
      assert [p.micro][0] == [q.micro][0];
    }
  }

  lemma LongDigits(x: u64, y: u64)
    ensures NibblesOf(x, 16) == NibblesOf(y, 16) <==> x == y
  {
    hide NibblesOf;
    ScaledOf16(1);
    ValueOfNibbles(x, 16);
    ValueOfNibbles(y, 16);
  }

  method EntryPointChallenge(pc: ProgramCounter, step: u64, entryPoint: u32) returns (wins: bool)
    ensures wins <==> step == 1 && pc != ProgramCounter(entryPoint, 0)
  {
    hide NibblesOf, PcDigits;
    LongDigits(step, 1);
    PcDigitsAreInjective(pc, ProgramCounter(entryPoint, 0));
    wins := NibblesOf(step, 16) == NibblesOf(1, 16) && PcDigits(pc) != PcDigits(ProgramCounter(entryPoint, 0));
  }

  method ProgramCounterChallenge(hf: Hasher, prePre: Hash, preStep: TraceStep, previous: Hash, pc: ProgramCounter)
    returns (wins: bool)
    ensures wins <==> pc != preStep.writePc && ValidateStepHash(hf, prePre, preStep, previous)
  {
    hide DigitsOf, ToBytes, PcDigits;
    PcDigitsAreInjective(pc, preStep.writePc);
    if PcDigits(pc) == PcDigits(preStep.writePc) { return false; }
    var result := HashStep(hf, prePre, preStep);
    DigitsAreInjective(ComputeStepHash(hf, prePre, preStep), previous);
    wins := result == DigitsOf(previous);
  }
}
