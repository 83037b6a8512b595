/** Multiplication of words by diagonals of digit products, small tables and one carry pass. */
module Multiplication {
  import opened Bits
  import opened Nibbles
  import opened NibbleArithmetic

  // ---------------------------------------------------------------- two-digit tables

  datatype LogicOperation = LogicAnd | LogicOr | LogicXor | MulMod | MulQuotient

  function Entry(op: LogicOperation, i: nibble, n: nibble): nat
  {
    match op
    case LogicAnd => And(i, n)
    case LogicOr => Or(i, n)
    case LogicXor => Xor(i, n)
    case MulMod => i * n % 16
    case MulQuotient => i * n / 16
  }

  /** Row `n` of a triangular table, from column `i` on. */
  function Row(op: LogicOperation, n: nibble, i: nat): (r: seq<nat>)
    requires i <= 16
    ensures |r| == 16 - i
    decreases 16 - i
  {
    if i == 16 then [] else [Entry(op, i, n)] + Row(op, n, i + 1)
  }

  /** The rows of a triangular table from `n` on: row n holds the columns i >= n only. */
  function Rows(op: LogicOperation, n: nat): (r: seq<nat>)
    requires n <= 16
    decreases 16 - n
  {
    if n == 16 then [] else Row(op, n, n) + Rows(op, n + 1)
  }

  /** How many entries the rows before `n` have. */
  function RowStart(n: nat): (k: nat)
    requires n <= 16
    ensures k >= n
  {
    if n == 0 then 0 else RowStart(n - 1) + 17 - n
  }

  function HalfOffset(n: nat): nat
    requires n < 16
  {
    RowStart(n) - n
  }

  /** The stacked table: rows from the last to the first, each from its end to its start. */
  method LogicTable(op: LogicOperation) returns (table: seq<nat>)
    ensures table == Rows(op, 0)
  {
    hide Entry, Rows, Row;
    table := [];
    NoRows(op);
    for n: int := 16 downto 0
      invariant table == Rows(op, n)
    {
      ghost var rest := table;
      EmptyRow(op, n);
      for i: int := 16 downto n
        invariant table == Row(op, n, i) + rest
      {
        RowGrows(op, n, i);
        table := [Entry(op, i, n)] + table;
      }
      RowsGrow(op, n);
    }
  }

  lemma NoRows(op: LogicOperation)
    ensures Rows(op, 16) == []
  {
  }

  lemma RowsGrow(op: LogicOperation, n: nat)
    requires n < 16
    ensures Rows(op, n) == Row(op, n, n) + Rows(op, n + 1)
  {
    hide Entry, Row;
  }

  lemma EmptyRow(op: LogicOperation, n: nibble)
    ensures Row(op, n, 16) == []
  {
  }

  lemma RowGrows(op: LogicOperation, n: nibble, i: nat)
    requires i < 16
    ensures Row(op, n, i) == [Entry(op, i, n)] + Row(op, n, i + 1)
  {
    hide Entry;
  }

  method HalfLookup() returns (table: seq<nat>)
    ensures |table| == 16 && forall n :: 0 <= n < 16 ==> table[n] == HalfOffset(n)
  {
    var prev: int := 0;
    table := [0];
    for i := 1 to 16
      invariant |table| == i && prev == HalfOffset(i - 1)
      invariant forall n :: 0 <= n < i ==> table[n] == HalfOffset(n)
    {
      prev := 16 + prev - i;
      table := table + [prev];
    }
  }

  lemma {:induction false} RowAt(op: LogicOperation, n: nibble, i: nat, j: nat)
    requires i <= j < 16
    ensures Row(op, n, i)[j - i] == Entry(op, j, n)
    decreases j - i
  {
    if i < j { RowAt(op, n, i + 1, j); }
  }

  lemma RowsSplit(op: LogicOperation, m: nat)
    requires m < 16
    ensures Rows(op, m) == Row(op, m, m) + Rows(op, m + 1) && RowStart(m + 1) == RowStart(m) + 16 - m
  {
    hide Entry, Row;
  }

  /** The half-table index of a sorted pair of digits finds its entry. */
  lemma {:induction false} RowsAt(op: LogicOperation, m: nat, n: nat, i: nat)
    requires m <= n <= i < 16
    ensures var k: int := RowStart(n) - RowStart(m) + i - n;
            0 <= k < |Rows(op, m)| && Rows(op, m)[k] == Entry(op, i, n)
    decreases n - m
  {
    hide Entry, Row, Rows, RowStart;
    RowsSplit(op, m);
    if m == n {
      RowAt(op, n, n, i);
    } else {
      RowsAt(op, m + 1, n, i);
    }
  }

  /** A digit product's low and high digit, through the half tables. */
  method LookupProduct(lookup: seq<nat>, mulMod: seq<nat>, mulQuotient: seq<nat>, x: nibble, y: nibble)
    returns (low: nat, high: nat)
    requires |lookup| == 16 && forall n :: 0 <= n < 16 ==> lookup[n] == HalfOffset(n)
    requires mulMod == Rows(MulMod, 0) && mulQuotient == Rows(MulQuotient, 0)
    ensures low == x * y % 16 && high == x * y / 16
  {
    hide Rows;
    var most, least := if x < y then y else x, if x < y then x else y;
    RowsAt(MulMod, 0, least, most);
    RowsAt(MulQuotient, 0, least, most);
    var index := Lookup(lookup, least) + most;
    low := Lookup(mulMod, index);
    high := Lookup(mulQuotient, index);
  }

  // ---------------------------------------------------------------- diagonals

  function At(a: seq<nibble>, j: int): nibble
  {
    if 0 <= j < |a| then a[j] else 0
  }

  /** The part of diagonal `k` that digits `b[i..]` contribute: low digits of the products,
      high digits, and the products themselves. */
  function ModFrom(a: seq<nibble>, b: seq<nibble>, k: nat, i: nat): nat
    requires |b| == 8 && i <= 8
    decreases 8 - i
  {
    if i == 8 then 0 else At(a, k - i) * b[i] % 16 + ModFrom(a, b, k, i + 1)
  }

  function QuotientFrom(a: seq<nibble>, b: seq<nibble>, k: nat, i: nat): nat
    requires |b| == 8 && i <= 8
    decreases 8 - i
  {
    if i == 8 then 0 else At(a, k - i) * b[i] / 16 + QuotientFrom(a, b, k, i + 1)
  }

  function DiagonalFrom(a: seq<nibble>, b: seq<nibble>, k: nat, i: nat): nat
    requires |b| == 8 && i <= 8
    decreases 8 - i
  {
    if i == 8 then 0 else At(a, k - i) * b[i] + DiagonalFrom(a, b, k, i + 1)
  }

  lemma {:induction false} DiagonalSplits(a: seq<nibble>, b: seq<nibble>, k: nat, i: nat)
    requires |b| == 8 && i <= 8
    ensures DiagonalFrom(a, b, k, i) == ModFrom(a, b, k, i) + 16 * QuotientFrom(a, b, k, i)
    decreases 8 - i
  {
    if i < 8 { DiagonalSplits(a, b, k, i + 1); }
  }

  /** The column sums: each column collects the low digits of its diagonal and the high digits
      of the diagonal below. */
  function Columns(a: seq<nibble>, b: seq<nibble>): (c: seq<nat>)
    requires |a| == 8 && |b| == 8
    ensures |c| == 16
  {
    seq(16, p requires 0 <= p < 16 => Column(a, b, p))
  }

  function Column(a: seq<nibble>, b: seq<nibble>, p: nat): nat
    requires |a| == 8 && |b| == 8 && p < 16
  {
    (if p == 0 then 0 else ModFrom(a, b, p - 1, 0)) + (if p == 15 then 0 else QuotientFrom(a, b, p, 0))
  }

  /** Digits outside the word add nothing to a diagonal. */
  lemma ZeroTerm(a: seq<nibble>, b: seq<nibble>, k: nat, i: nat)
    requires |b| == 8 && i < 8 && At(a, k - i) == 0
    ensures ModFrom(a, b, k, i) == ModFrom(a, b, k, i + 1)
    ensures QuotientFrom(a, b, k, i) == QuotientFrom(a, b, k, i + 1)
  {
  }

  lemma {:induction false} NothingAbove(a: seq<nibble>, b: seq<nibble>, k: nat, i: nat)
    requires |b| == 8 && k < i <= 8
    ensures ModFrom(a, b, k, i) == 0 && QuotientFrom(a, b, k, i) == 0
    decreases 8 - i
  {
    if i < 8 {
      NothingAbove(a, b, k, i + 1);
      ZeroTerm(a, b, k, i);
    }
  }

  lemma {:induction false} NothingBelow(a: seq<nibble>, b: seq<nibble>, k: nat, i: nat)
    requires |a| == 8 && |b| == 8 && i <= 8 && (i == 0 || k - i >= 7)
    ensures ModFrom(a, b, k, 0) == ModFrom(a, b, k, i) && QuotientFrom(a, b, k, 0) == QuotientFrom(a, b, k, i)
  {
    hide ModFrom, QuotientFrom;
    if i > 0 {
      NothingBelow(a, b, k, i - 1);
      ZeroTerm(a, b, k, i - 1);
    }
  }

  lemma DiagonalStep(a: seq<nibble>, b: seq<nibble>, k: nat, i: nat)
    requires |a| == 8 && |b| == 8 && i < 8 && 0 <= k - i < 8
    ensures ModFrom(a, b, k, i) == a[k - i] * b[i] % 16 + ModFrom(a, b, k, i + 1)
    ensures QuotientFrom(a, b, k, i) == a[k - i] * b[i] / 16 + QuotientFrom(a, b, k, i + 1)
  {
  }

  method DiagonalColumns(a: seq<nibble>, b: seq<nibble>) returns (columns: seq<nat>)
    requires |a| == 8 && |b| == 8
    ensures columns == Columns(a, b)
  {
    hide ModFrom, QuotientFrom, Rows, HalfOffset;
    var lookup := HalfLookup();
    var mulMod := LogicTable(MulMod);
    var mulQuotient := LogicTable(MulQuotient);
    var highs: nat := 0;
    columns := [];
    for k: int := 15 downto 0
      invariant |columns| == 15 - k
      invariant highs == if k == 15 then 0 else QuotientFrom(a, b, k, 0)
      invariant forall p :: 0 <= p < |columns| ==> columns[p] == Column(a, b, k + 1 + p)
    {
      var start := if k < 8 then k else 7;
      var end := if k >= 8 then k - 7 else 0;
      var lows: nat := highs;
      highs := 0;
      NothingOutside(a, b, k);
      for i: int := start + 1 downto end
        invariant lows == ModFrom(a, b, k, i) + (if k == 14 then 0 else QuotientFrom(a, b, k + 1, 0))
        invariant highs == QuotientFrom(a, b, k, i)
      {
        DiagonalStep(a, b, k, i);
        var low, high := LookupProduct(lookup, mulMod, mulQuotient, a[k - i], b[i]);
        lows := lows + low;
        highs := highs + high;
      }
      columns := [lows] + columns;
    }
    columns := [highs] + columns;
  }

  lemma NothingOutside(a: seq<nibble>, b: seq<nibble>, k: nat)
    requires |a| == 8 && |b| == 8 && k <= 14
    ensures k < 8 ==> ModFrom(a, b, k, k + 1) == 0 && QuotientFrom(a, b, k, k + 1) == 0
    ensures k >= 8 ==> ModFrom(a, b, k, 8) == 0 && QuotientFrom(a, b, k, 8) == 0
    ensures k >= 8 ==> ModFrom(a, b, k, k - 7) == ModFrom(a, b, k, 0)
                       && QuotientFrom(a, b, k, k - 7) == QuotientFrom(a, b, k, 0)
  {
    if k < 8 { NothingAbove(a, b, k, k + 1); } else { NothingBelow(a, b, k, k - 7); }
  }

  // ---------------------------------------------------------------- the columns make the product

  /** The first `n` diagonals as one number. */
  function DiagonalsBefore(a: seq<nibble>, b: seq<nibble>, i: nat, n: nat): nat
    requires |b| == 8 && i <= 8
  {
    if n == 0 then 0 else 16 * DiagonalsBefore(a, b, i, n - 1) + DiagonalFrom(a, b, n - 1, i)
  }

  /** The digits of `a`, entering at place `i`, as one number. */
  function EnteringBefore(a: seq<nibble>, i: nat, n: nat): nat
  {
    if n == 0 then 0 else 16 * EnteringBefore(a, i, n - 1) + At(a, n - 1 - i)
  }

  lemma {:induction false} EnteringIsValue(a: seq<nibble>, i: nat, n: nat)
    requires |a| == 8
    ensures n <= i ==> EnteringBefore(a, i, n) == 0
    ensures i <= n <= i + 8 ==> EnteringBefore(a, i, n) == Value(a[..n - i])
    ensures n >= i + 8 ==> EnteringBefore(a, i, n) == Scaled(Value(a), n - i - 8)
  {
    if n > 0 {
      EnteringIsValue(a, i, n - 1);
      if i < n <= i + 8 {
        assert a[..n - i][..n - i - 1] == a[..n - i - 1];
      }
    }
    assert a[..8] == a;
  }

  lemma DigitTimes(d: int, x: int, y: int)
    ensures d * (16 * x + y) == 16 * (d * x) + d * y
  {
  }

  lemma DiagonalsStep(a: seq<nibble>, b: seq<nibble>, i: nat, n: nat)
    requires |b| == 8 && i < 8 && n > 0
    ensures DiagonalsBefore(a, b, i, n) == 16 * DiagonalsBefore(a, b, i, n - 1) + DiagonalFrom(a, b, n - 1, i)
    ensures DiagonalFrom(a, b, n - 1, i) == b[i] * At(a, n - 1 - i) + DiagonalFrom(a, b, n - 1, i + 1)
    ensures DiagonalsBefore(a, b, i + 1, n)
            == 16 * DiagonalsBefore(a, b, i + 1, n - 1) + DiagonalFrom(a, b, n - 1, i + 1)
    ensures EnteringBefore(a, i, n) == 16 * EnteringBefore(a, i, n - 1) + At(a, n - 1 - i)
  {
    MulCommutes(At(a, n - 1 - i), b[i]);
  }

  /** One digit of `b` contributes its multiple of `a`. */
  lemma {:induction false} DigitContributes(a: seq<nibble>, b: seq<nibble>, i: nat, n: nat)
    requires |b| == 8 && i < 8
    ensures DiagonalsBefore(a, b, i, n) == b[i] * EnteringBefore(a, i, n) + DiagonalsBefore(a, b, i + 1, n)
  {
    if n > 0 {
      hide DiagonalsBefore, DiagonalFrom, EnteringBefore;
      DiagonalsStep(a, b, i, n);
      DigitContributes(a, b, i, n - 1);
      DigitTimes(b[i], EnteringBefore(a, i, n - 1), At(a, n - 1 - i));
    }
  }

  lemma {:induction false} NoDigitsLeft(a: seq<nibble>, b: seq<nibble>, n: nat)
    requires |b| == 8
    ensures DiagonalsBefore(a, b, 8, n) == 0
  {
    if n > 0 { NoDigitsLeft(a, b, n - 1); }
  }

  lemma {:induction false} ScaledTimes(d: int, v: int, k: nat)
    ensures d * Scaled(v, k) == Scaled(d, k) * v
  {
    if k != 0 {
      ScaledTimes(d, v, k - 1);
      MulSixteen(d, Scaled(v, k - 1));
      MulAssoc(16, Scaled(d, k - 1), v);
    }
  }

  lemma MulDistributes(x: int, y: int, v: int)
    ensures (x + y) * v == x * v + y * v
  {
  }

  /** All diagonals together are the product. */
  lemma {:induction false} DiagonalsMultiply(a: seq<nibble>, b: seq<nibble>, i: nat)
    requires |a| == 8 && |b| == 8 && i <= 8
    ensures DiagonalsBefore(a, b, i, 15) == Value(b[i..]) * Value(a)
    decreases 8 - i
  {
    hide Value, Scaled, DiagonalsBefore, EnteringBefore;
    if i == 8 {
      NoDigitsLeft(a, b, 15);
      LowEnds(b);
      assert b[8..] == [];
    } else {
      DiagonalsMultiply(a, b, i + 1);
      DigitContributes(a, b, i, 15);
      EnteringIsValue(a, i, 15);
      ScaledTimes(b[i], Value(a), 7 - i);
      assert b[i..] == [b[i]] + b[i + 1..];
      ValueOfPrepend(b[i], b[i + 1..]);
      MulDistributes(Scaled(b[i], 7 - i), Value(b[i + 1..]), Value(a));
    }
  }

  lemma {:induction false} ColumnsBefore(a: seq<nibble>, b: seq<nibble>, p: nat)
    requires |a| == 8 && |b| == 8 && p <= 14
    ensures Value(Columns(a, b)[..p + 1]) == DiagonalsBefore(a, b, 0, p) + QuotientFrom(a, b, p, 0)
  {
    hide ModFrom, QuotientFrom, DiagonalFrom;
    var c := Columns(a, b);
    assert c[..p + 1][..p] == c[..p];
    if p > 0 {
      ColumnsBefore(a, b, p - 1);
      DiagonalSplits(a, b, p - 1, 0);
    }
  }

  /** The column sums reassemble to the product, for all words. */
  lemma ColumnsMultiply(a: seq<nibble>, b: seq<nibble>)
    requires |a| == 8 && |b| == 8
    ensures Value(Columns(a, b)) == Value(a) * Value(b)
  {
    hide ModFrom, QuotientFrom, DiagonalFrom;
    var c := Columns(a, b);
    ColumnsBefore(a, b, 14);
    DiagonalSplits(a, b, 14, 0);
    assert c[..15] == c[..|c| - 1];
    DiagonalsMultiply(a, b, 0);
    assert b[0..] == b;
    MulCommutes(Value(a), Value(b));
  }

  // ---------------------------------------------------------------- the carry pass

  function CarryInto(columns: seq<nat>, i: nat): nat
    requires i <= |columns|
  {
    if i == 0 then 0 else (columns[|columns| - i] + CarryInto(columns, i - 1)) / 16
  }

  /** Every column with its carry is an index of the 128-entry tables. */
  predicate ColumnsFit(columns: seq<nat>)
  {
    forall i :: 0 <= i < |columns| ==> columns[|columns| - 1 - i] + CarryInto(columns, i) < 128
  }

  lemma CarryColumn(columns: seq<nat>, i: nat, carry: nat, out: seq<nat>)
    requires i < |columns| && |out| == i
    requires Value(out) + Scaled(carry, i) == Low(columns, i)
    ensures var t := columns[|columns| - 1 - i] + carry;
            Value([t % 16] + out) + Scaled(t / 16, i + 1) == Low(columns, i + 1)
  {
    hide Value, Scaled, Low;
    var x := columns[|columns| - 1 - i];
    LowStep(columns, i);
    ValueOfPrepend((x + carry) % 16, out);
    ColumnSplits(x + carry, i);
    ScaledAdds(x, carry, i);
  }

  method CarryPass(columns: seq<nat>) returns (digits: seq<nibble>)
    requires |columns| == 16 && ColumnsFit(columns)
    requires columns[15] < 16 && Value(columns) < Scaled(1, 16)
    ensures |digits| == 16 && Value(digits) == Value(columns)
  {
    hide Value, Scaled, Low, CarryInto;
    ghost var top: nat := 0;
    var carry: nat := 0;
    digits := [columns[15]];
    FirstColumn(columns);
    for i := 1 to 16
      invariant |digits| == i
      invariant top == CarryInto(columns, i) && (i < 16 ==> carry == top)
      invariant Value(digits) + Scaled(top, i) == Low(columns, i)
    {
      var column := columns[15 - i] + carry;
      CarryColumn(columns, i, carry, digits);
      NextCarry(columns, i);
      digits := [Lookup(ModuloTable(128), column)] + digits;
      top := column / 16;
      if i < 15 { carry := Lookup(QuotientTable(128), column); }
    }
    LowEnds(columns);
    ScaledOf16(top);
    ScaledOf16(1);
  }

  lemma FirstColumn(columns: seq<nat>)
    requires |columns| == 16 && columns[15] < 16
    ensures CarryInto(columns, 0) == 0 && CarryInto(columns, 1) == 0
    ensures Value([columns[15]]) + Scaled(0, 1) == Low(columns, 1)
  {
    assert columns[15..] == [columns[15]];
  }

  lemma NextCarry(columns: seq<nat>, i: nat)
    requires i < |columns|
    ensures CarryInto(columns, i + 1) == (columns[|columns| - 1 - i] + CarryInto(columns, i)) / 16
  {
  }

  lemma LastDiagonal(a: seq<nibble>, b: seq<nibble>)
    requires |a| == 8 && |b| == 8
    ensures Columns(a, b)[15] < 16
  {
    NothingBelow(a, b, 14, 7);
    assert ModFrom(a, b, 14, 8) == 0;
  }

  lemma ProductBound(x: nat, y: nat, c: nat)
    requires x < c && y < c
    ensures x * y < c * c
  {
    MulSub(c, x, y);
    if y > 0 { MulGrows(c - x, y); } else { assert (c - x) * 0 == 0; }
    MulSub(c, y, c);
    MulGrows(c - y, c);
    MulCommutes(c, y);
  }

  lemma ProductIsBelow(x: nat, y: nat)
    requires x < 0x1_0000_0000 && y < 0x1_0000_0000
    ensures x * y < 0x1_0000_0000_0000_0000
  {
    ProductBound(x, y, 0x1_0000_0000);
  }

  /** The part of the product a script asks for. */
  datatype Part = LowPart | HighPart | FullProduct

  function PartOf(product: nat, part: Part): nat
  {
    match part
    case LowPart => product % 0x1_0000_0000
    case HighPart => product / 0x1_0000_0000
    case FullProduct => product
  }

  method Multiply(a: seq<nibble>, b: seq<nibble>, part: Part) returns (result: seq<nibble>)
    requires |a| == 8 && |b| == 8 && ColumnsFit(Columns(a, b))
    ensures |result| == if part == FullProduct then 16 else 8
    ensures Value(result) == PartOf(Value(a) * Value(b), part)
  {
    hide Value, Scaled, Columns, CarryInto;
    var columns := DiagonalColumns(a, b);
    ColumnsMultiply(a, b);
    LastDiagonal(a, b);
    WordIsBelow(a);
    WordIsBelow(b);
    ProductIsBelow(Value(a), Value(b));
    ScaledOf16(1);
    var digits := CarryPass(columns);
    Halves(digits);
    result := match part
      case LowPart => digits[8..]
      case HighPart => digits[..8]
      case FullProduct => digits;
  }

  lemma Halves(digits: seq<nibble>)
    requires |digits| == 16
    ensures Value(digits[8..]) == Value(digits) % 0x1_0000_0000 && Value(digits[..8]) == Value(digits) / 0x1_0000_0000
  {
    hide Value, Scaled;
    var high, low := digits[..8], digits[8..];
    assert digits == high + low;
    ValueOfConcat(high, low);
    ScaledOf8(Value(high));
    WordIsBelow(low);
    DivModUnique(Value(digits), 0x1_0000_0000, Value(high), Value(low));
  }

  // ---------------------------------------------------------------- when the tables suffice

  lemma ProductOfNibbles(x: nibble, y: nibble)
    ensures x * y % 16 <= 15 && x * y / 16 <= 14 && (x == 0 || y == 0 ==> x * y == 0)
  {
    assert x * y <= 15 * y;
  }

  function Clamp4(n: int): nat
  {
    if n < 0 then 0 else if n > 4 then 4 else n
  }

  lemma {:induction false} FewDigitsOfFirst(a: seq<nibble>, b: seq<nibble>, k: nat, i: nat)
    requires |a| == 8 && |b| == 8 && i <= 8
    requires forall j :: 0 <= j < 4 ==> a[j] == 0
    ensures ModFrom(a, b, k, i) <= 15 * Clamp4(k - 3 - i) && QuotientFrom(a, b, k, i) <= 14 * Clamp4(k - 3 - i)
    decreases 8 - i
  {
    if i < 8 {
      FewDigitsOfFirst(a, b, k, i + 1);
      ProductOfNibbles(At(a, k - i), b[i]);
    }
  }

  lemma {:induction false} FewDigitsOfSecond(a: seq<nibble>, b: seq<nibble>, k: nat, i: nat)
    requires |a| == 8 && |b| == 8 && i <= 8
    requires forall j :: 0 <= j < 4 ==> b[j] == 0
    ensures ModFrom(a, b, k, i) <= 15 * Clamp4(8 - i) && QuotientFrom(a, b, k, i) <= 14 * Clamp4(8 - i)
    decreases 8 - i
  {
    if i < 8 {
      FewDigitsOfSecond(a, b, k, i + 1);
      ProductOfNibbles(At(a, k - i), b[i]);
    }
  }

  lemma {:induction false} ZeroDigits(ns: seq<nibble>)
    requires Value(ns) == 0
    ensures forall j :: 0 <= j < |ns| ==> ns[j] == 0
  {
    if ns != [] {
      ZeroDigits(ns[..|ns| - 1]);
      forall j | 0 <= j < |ns| ensures ns[j] == 0 {
        assert j < |ns| - 1 ==> ns[..|ns| - 1][j] == ns[j];
      }
    }
  }

  lemma SmallHasFewDigits(ns: seq<nibble>)
    requires |ns| == 8 && Value(ns) < 65536
    ensures forall j :: 0 <= j < 4 ==> ns[j] == 0
  {
    hide Value, Scaled;
    assert ns == ns[..4] + ns[4..];
    ValueOfConcat(ns[..4], ns[4..]);
    ScaledOf4(Value(ns[..4]));
    ZeroDigits(ns[..4]);
    assert forall j :: 0 <= j < 4 ==> ns[j] == ns[..4][j];
  }

  lemma BothLarge(x: nat, y: nat, c: nat)
    ensures x >= c && y >= c ==> x * y >= c * c
  {
    MulSub(x, c, y);
    assert x >= c ==> (x - c) * y >= 0;
    MulSub(y, c, c);
    assert y >= c ==> (y - c) * c >= 0;
  }

  lemma OneIsSmall(x: nat, y: nat)
    requires x * y < 0x1_0000_0000
    ensures x < 65536 || y < 65536
  {
    BothLarge(x, y, 65536);
  }

  lemma FewDigits(a: seq<nibble>, b: seq<nibble>, k: nat)
    requires |a| == 8 && |b| == 8 && Value(a) * Value(b) < 0x1_0000_0000
    ensures ModFrom(a, b, k, 0) <= 60 && QuotientFrom(a, b, k, 0) <= 56
  {
    hide Value, ModFrom, QuotientFrom;
    OneIsSmall(Value(a), Value(b));
    if Value(a) < 65536 {
      SmallHasFewDigits(a);
      FewDigitsOfFirst(a, b, k, 0);
    } else {
      SmallHasFewDigits(b);
      FewDigitsOfSecond(a, b, k, 0);
    }
  }

  lemma {:induction false} SmallCarries(columns: seq<nat>, i: nat)
    requires i <= |columns| && forall p :: 0 <= p < |columns| ==> columns[p] <= 116
    ensures CarryInto(columns, i) <= 7
  {
    if i > 0 { SmallCarries(columns, i - 1); }
  }

  /** A product that fits a word never leaves the tables: no column with its carry exceeds 123. */
  lemma WordProductsFit(a: seq<nibble>, b: seq<nibble>)
    requires |a| == 8 && |b| == 8 && Value(a) * Value(b) < 0x1_0000_0000
    ensures ColumnsFit(Columns(a, b))
    ensures forall i :: 0 <= i < 16 ==> Columns(a, b)[15 - i] + CarryInto(Columns(a, b), i) <= 123
  {
    hide Value, ModFrom, QuotientFrom, CarryInto;
    var c := Columns(a, b);
    forall p | 0 <= p < 16 ensures c[p] <= 116 {
      if p > 0 { FewDigits(a, b, p - 1); }
      FewDigits(a, b, p);
    }
    forall i | 0 <= i < 16 ensures c[15 - i] + CarryInto(c, i) <= 123 {
      SmallCarries(c, i);
    }
  }

  lemma {:induction false} UniformDiagonals(i: nat)
    requires i <= 8
    ensures var a: seq<nibble>, b: seq<nibble> := seq(8, _ => 0xB), seq(8, _ => 0xD);
            ModFrom(a, b, 7, i) == 15 * (8 - i) && (i >= 1 ==> QuotientFrom(a, b, 8, i) == 8 * (8 - i))
    decreases 8 - i
  {
    if i < 8 { UniformDiagonals(i + 1); }
  }

  /** Some products do leave the tables: here a column alone is 176. */
  lemma LargeProductsLeaveTheTables()
    ensures var c := Columns(seq(8, _ => 0xB), seq(8, _ => 0xD)); c[8] == 176 && !ColumnsFit(c)
  {
    var a: seq<nibble>, b: seq<nibble> := seq(8, _ => 0xB), seq(8, _ => 0xD);
    UniformDiagonals(0);
    UniformDiagonals(1);
    assert QuotientFrom(a, b, 8, 0) == QuotientFrom(a, b, 8, 1);
    var c := Columns(a, b);
    assert c[8] == 176;
    assert !ColumnsFit(c) by { assert c[16 - 1 - 7] + CarryInto(c, 7) >= 128; }
  }
}
