/** Trace records, their byte form and the hash chain over the written part of each step. */
module Trace {
  import opened Bits
  import opened Options

  type u64 = x: int | 0 <= x < 0x1_0000_0000_0000_0000
  type Hash = seq<byte>

  const LAST_STEP_INIT: u64 := 0xFFFF_FFFF_FFFF_FFFF

  datatype ProgramCounter = ProgramCounter(address: u32, micro: byte)
  datatype TraceRead = TraceRead(address: u32, value: u32, lastStep: u64)
  datatype TraceReadPC = TraceReadPC(pc: ProgramCounter, opcode: u32)
  datatype TraceWrite = TraceWrite(address: u32, value: u32)
  datatype TraceStep = TraceStep(write1: TraceWrite, writePc: ProgramCounter)

  datatype Access = Register | Memory | Unused
  datatype MemoryWitness = MemoryWitness(read1: Access, read2: Access, write: Access)

  /** `hint` is the quotient or remainder that the source calls the step's witness. */
  datatype TraceRWStep = TraceRWStep(
    stepNumber: u64, read1: TraceRead, read2: TraceRead, readPc: TraceReadPC,
    traceStep: TraceStep, hint: Option<u32>, memWitness: MemoryWitness)

  const NO_READ := TraceRead(0, 0, 0)
  const NO_WRITE := TraceWrite(0, 0)
  const NO_WITNESS := MemoryWitness(Unused, Unused, Unused)

  function AccessCode(a: Access): byte
  {
    match a
    case Register => 0
    case Memory => 1
    case Unused => 2
  }

  /** The byte the prover commits for a witness: two bits per access. */
  function WitnessByte(w: MemoryWitness): byte
  {
    16 * AccessCode(w.read1) + 4 * AccessCode(w.read2) + AccessCode(w.write)
  }

  function BigEndian(w: u32): (b: seq<byte>)
    ensures |b| == 4
  {
    [Byte3(w), Byte2(w), Byte1(w), Byte0(w)]
  }

  function ToBytes(s: TraceStep): (b: seq<byte>)
    ensures |b| == 13
  {
    BigEndian(s.write1.address) + BigEndian(s.write1.value)
    + BigEndian(s.writePc.address) + [s.writePc.micro]
  }

  lemma BigEndianInjective(v: u32, w: u32)
    requires BigEndian(v) == BigEndian(w)
    ensures v == w
  {
    WordOfBytes(v);
    WordOfBytes(w);
    var a, b := BigEndian(v), BigEndian(w);
    assert a[0] == b[0] && a[1] == b[1] && a[2] == b[2] && a[3] == b[3];
  }

  lemma ToBytesInjective(s: TraceStep, t: TraceStep)
    requires ToBytes(s) == ToBytes(t)
    ensures s == t
  {
    var a, b := ToBytes(s), ToBytes(t);
    assert a[..4] == BigEndian(s.write1.address) && a[4..8] == BigEndian(s.write1.value)
           && a[8..12] == BigEndian(s.writePc.address) && a[12] == s.writePc.micro;
    assert b[..4] == BigEndian(t.write1.address) && b[4..8] == BigEndian(t.write1.value)
           && b[8..12] == BigEndian(t.writePc.address) && b[12] == t.writePc.micro;
    BigEndianInjective(s.write1.address, t.write1.address);
    BigEndianInjective(s.write1.value, t.write1.value);
    BigEndianInjective(s.writePc.address, t.writePc.address);
  }

  /** The hash function is a parameter: nothing but its determinism is assumed. */
  type Hasher = seq<byte> -> Hash

  function InitialHash(hf: Hasher): Hash
  {
    hf([0xff])
  }

  function ComputeStepHash(hf: Hasher, previous: Hash, step: TraceStep): Hash
  {
    hf(previous + ToBytes(step))
  }

  predicate ValidateStepHash(hf: Hasher, hash: Hash, step: TraceStep, nextHash: Hash)
  {
    hf(hash + ToBytes(step)) == nextHash
  }

  function ChainHash(hf: Hasher, steps: seq<TraceStep>): Hash
  {
    if steps == [] then InitialHash(hf)
    else ComputeStepHash(hf, ChainHash(hf, steps[..|steps| - 1]), steps[|steps| - 1])
  }

  /** What is hashed at step `i + 1` of a chain. */
  function ChainInput(hf: Hasher, steps: seq<TraceStep>, i: nat): seq<byte>
    requires i < |steps|
  {
    ChainHash(hf, steps[..i]) + ToBytes(steps[i])
  }

  /** Binding: two runs of the same length with the same final hash wrote the same traces, or
      they exhibit a collision of the hash function at some step. */
  lemma {:induction false} ChainBinds(hf: Hasher, a: seq<TraceStep>, b: seq<TraceStep>) returns (i: nat)
    requires |a| == |b| && ChainHash(hf, a) == ChainHash(hf, b)
    ensures a == b || (i < |a| && ChainInput(hf, a, i) != ChainInput(hf, b, i)
                       && hf(ChainInput(hf, a, i)) == hf(ChainInput(hf, b, i)))
  {
    i := 0;
    if a != [] {
      var n := |a| - 1;
      var x, y := ChainInput(hf, a, n), ChainInput(hf, b, n);
      if x != y {
        i := n;
      } else {
        var p, q := ChainHash(hf, a[..n]), ChainHash(hf, b[..n]);
        assert p == x[..|x| - 13] && q == y[..|y| - 13];
        assert ToBytes(a[n]) == x[|x| - 13..] && ToBytes(b[n]) == y[|y| - 13..];
        ToBytesInjective(a[n], b[n]);
        i := ChainBinds(hf, a[..n], b[..n]);
        if a[..n] == b[..n] {
          assert a == a[..n] + [a[n]] && b == b[..n] + [b[n]];
        } else {
          assert a[..n][..i] == a[..i] && b[..n][..i] == b[..i];
        }
      }
    }
  }
}
