/** Words as the scripts hold them: sequences of base-16 digits, most significant first, and
    the lookup tables that stand in for arithmetic. */
module Nibbles {
  import opened Bits

  type nibble = x: int | 0 <= x < 16

  /** The number a sequence of base-16 digits stands for; the digits may be too large. */
  function Value(ns: seq<nat>): nat
  {
    if ns == [] then 0 else 16 * Value(ns[..|ns| - 1]) + ns[|ns| - 1]
  }

  /** A digit moved up `k` places. */
  function Scaled(d: int, k: nat): int
  {
    if k == 0 then d else 16 * Scaled(d, k - 1)
  }

  /** The digits of a number, as a script pushes a constant. */
  function NibblesOf(v: nat, n: nat): (ns: seq<nibble>)
    ensures |ns| == n
  {
    if n == 0 then [] else NibblesOf(v / 16, n - 1) + [v % 16]
  }

  /** The value of the `i` lowest digits. */
  function Low(ns: seq<nat>, i: nat): nat
    requires i <= |ns|
  {
    Value(ns[|ns| - i..])
  }

  // ---------------------------------------------------------------- places

  lemma {:induction false} ScaledAdds(a: int, b: int, k: nat)
    ensures Scaled(a + b, k) == Scaled(a, k) + Scaled(b, k)
  {
    if k != 0 { ScaledAdds(a, b, k - 1); }
  }

  lemma {:induction false} ScaledUp(a: int, k: nat)
    ensures Scaled(16 * a, k) == Scaled(a, k + 1)
  {
    if k != 0 { ScaledUp(a, k - 1); }
  }

  lemma {:induction false} ScaledGrows(a: int, b: int, k: nat)
    ensures a <= b ==> Scaled(a, k) <= Scaled(b, k)
    ensures a < b ==> Scaled(a, k) < Scaled(b, k)
    ensures Scaled(0, k) == 0 && Scaled(1, k) >= 1
  {
    if k != 0 { ScaledGrows(a, b, k - 1); }
  }

  lemma ScaledOf4(d: int)
    ensures Scaled(d, 4) == 65536 * d
  {
    assert Scaled(d, 1) == 16 * d;
    assert Scaled(d, 2) == 256 * d;
    assert Scaled(d, 3) == 16 * Scaled(d, 2);
  }

  lemma {:induction false} ScaledTwice(d: int, k: nat, m: nat)
    ensures Scaled(Scaled(d, k), m) == Scaled(d, k + m)
  {
    if m != 0 { ScaledTwice(d, k, m - 1); }
  }

  lemma ScaledOf7(d: int)
    ensures Scaled(d, 7) == 0x1000_0000 * d
  {
    ScaledOf4(d);
    assert Scaled(d, 5) == 16 * Scaled(d, 4);
    assert Scaled(d, 6) == 16 * Scaled(d, 5);
  }

  lemma ScaledOf8(d: int)
    ensures Scaled(d, 8) == 0x1_0000_0000 * d
  {
    hide Scaled;
    ScaledOf4(d);
    ScaledOf4(65536 * d);
    ScaledTwice(d, 4, 4);
  }

  lemma ScaledOf16(d: int)
    ensures Scaled(d, 16) == 0x1_0000_0000_0000_0000 * d
  {
    hide Scaled;
    ScaledOf8(d);
    ScaledOf8(0x1_0000_0000 * d);
    ScaledTwice(d, 8, 8);
  }

  // ---------------------------------------------------------------- values

  lemma {:induction false} ValueOfConcat(a: seq<nat>, b: seq<nat>)
    ensures Value(a + b) == Scaled(Value(a), |b|) + Value(b)
  {
    if b == [] {
      assert a + b == a;
    } else {
      var front := b[..|b| - 1];
      ValueOfConcat(a, front);
      assert (a + b)[..|a + b| - 1] == a + front;
    }
  }

  lemma ValueOfOne(d: nat)
    ensures Value([d]) == d
  {
    assert [d][..0] == [];
  }

  lemma ValueOfPrepend(d: nat, ns: seq<nat>)
    ensures Value([d] + ns) == Scaled(d, |ns|) + Value(ns)
  {
    ValueOfConcat([d], ns);
    ValueOfOne(d);
  }

  lemma LowStep(ns: seq<nat>, i: nat)
    requires i < |ns|
    ensures Low(ns, i + 1) == Scaled(ns[|ns| - 1 - i], i) + Low(ns, i)
  {
    var d := ns[|ns| - 1 - i];
    assert ns[|ns| - (i + 1)..] == [d] + ns[|ns| - i..];
    ValueOfPrepend(d, ns[|ns| - i..]);
  }

  lemma LowEnds(ns: seq<nat>)
    ensures Low(ns, 0) == 0 && Low(ns, |ns|) == Value(ns)
  {
    assert ns[|ns|..] == [] && ns[0..] == ns;
  }

  lemma {:induction false} ValueIsBelow(ns: seq<nibble>)
    ensures Value(ns) < Scaled(1, |ns|)
  {
    if ns != [] { ValueIsBelow(ns[..|ns| - 1]); }
  }

  lemma WordIsBelow(ns: seq<nibble>)
    requires |ns| == 8
    ensures Value(ns) < 0x1_0000_0000
  {
    ValueIsBelow(ns);
    ScaledOf8(1);
  }

  /** Equally long digit sequences of the same value are the same. */
  lemma {:induction false} ValueIsInjective(a: seq<nibble>, b: seq<nibble>)
    requires |a| == |b|
    ensures Value(a) == Value(b) <==> a == b
  {
    if a != [] {
      var n := |a| - 1;
      ValueIsInjective(a[..n], b[..n]);
      assert a == a[..n] + [a[n]] && b == b[..n] + [b[n]];
    }
  }

  lemma {:induction false} ValueOfNibbles(v: nat, n: nat)
    requires v < Scaled(1, n)
    ensures Value(NibblesOf(v, n)) == v
  {
    if n != 0 {
      ValueOfNibbles(v / 16, n - 1);
      assert NibblesOf(v, n)[..n - 1] == NibblesOf(v / 16, n - 1);
    }
  }

  lemma WordOfNibbles(v: u32)
    ensures Value(NibblesOf(v, 8)) == v
  {
    ScaledOf8(1);
    ValueOfNibbles(v, 8);
  }

  lemma NibblesOfWord(ns: seq<nibble>)
    requires |ns| == 8
    ensures NibblesOf(Value(ns), 8) == ns
  {
    WordIsBelow(ns);
    WordOfNibbles(Value(ns));
    ValueIsInjective(NibblesOf(Value(ns), 8), ns);
  }

  /** The first digit of a word holds its sign. */
  lemma TopNibble(ns: seq<nibble>)
    requires |ns| == 8
    ensures ns[0] > 7 <==> Value(ns) >= 0x8000_0000
    ensures Value(ns) < 0x1_0000_0000
  {
    WordIsBelow(ns);
    assert ns == [ns[0]] + ns[1..];
    ValueOfPrepend(ns[0], ns[1..]);
    ValueIsBelow(ns[1..]);
    ScaledOf7(1);
    ScaledOf7(ns[0]);
  }

  // ---------------------------------------------------------------- tables

  /** A table lookup leaves the table if the index is too large. */
  function Lookup<T>(table: seq<T>, index: nat): T
    requires index < |table|
  {
    table[index]
  }

  function ModuloTable(max: nat): (t: seq<nibble>)
    ensures |t| == max && forall i :: 0 <= i < max ==> t[i] == i % 16
  {
    seq(max, i requires 0 <= i => i % 16)
  }

  function QuotientTable(max: nat): (t: seq<nat>)
    ensures |t| == max && forall i :: 0 <= i < max ==> t[i] == i / 16
  {
    seq(max, i requires 0 <= i => i / 16)
  }
}
