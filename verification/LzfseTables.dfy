/** The constants of an LZFSE block, and the value tables built from them
    (`_lzfse_value_table`). */
module LzfseTables {
  import opened Bits
  import opened Prelude
  import opened FseTable

  const L_SYMBOLS: nat := 20
  const M_SYMBOLS: nat := 20
  const D_SYMBOLS: nat := 64
  const LIT_SYMBOLS: nat := 256

  // The state counts are 64, 64, 256 and 1024.
  const L_LOG: nat := 6
  const M_LOG: nat := 6
  const D_LOG: nat := 8
  const LIT_LOG: nat := 10

  const MATCHES_PER_BLOCK: nat := 10000
  const LITERALS_PER_BLOCK: nat := 40000

  const L_BITS: seq<nat> := [0, 0, 0, 0, 0, 0, 0, 0, 0, 0, 0, 0, 0, 0, 0, 0, 2, 3, 5, 8]
  const L_BASE: seq<nat> := [0, 1, 2, 3, 4, 5, 6, 7, 8, 9, 10, 11, 12, 13, 14, 15, 16, 20, 28, 60]
  const M_BITS: seq<nat> := [0, 0, 0, 0, 0, 0, 0, 0, 0, 0, 0, 0, 0, 0, 0, 0, 3, 5, 8, 11]
  const M_BASE: seq<nat> := [0, 1, 2, 3, 4, 5, 6, 7, 8, 9, 10, 11, 12, 13, 14, 15, 16, 24, 56, 312]
  const D_BITS: seq<nat> := Quarters()
  const D_BASE: seq<nat> := D_BASE_0 + D_BASE_1 + D_BASE_2 + D_BASE_3
  const D_BASE_0: seq<nat> := [0, 1, 2, 3, 4, 6, 8, 10, 12, 16, 20, 24, 28, 36, 44, 52]
  const D_BASE_1: seq<nat> := [
    60, 76, 92, 108, 124, 156, 188, 220, 252, 316, 380, 444, 508, 636, 764, 892]
  const D_BASE_2: seq<nat> := [
    1020, 1276, 1532, 1788, 2044, 2556, 3068, 3580, 4092, 5116, 6140, 7164, 8188, 10236, 12284, 14332]
  const D_BASE_3: seq<nat> := [
    16380, 20476, 24572, 28668, 32764, 40956, 49148, 57340, 65532, 81916, 98300, 114684, 131068, 163836,
    196604, 229372]

  function Quarters(): (s: seq<nat>)
    ensures |s| == 64 && forall i :: 0 <= i < 64 ==> s[i] == i / 4
  {
    seq(64, i requires 0 <= i < 64 => i / 4)
  }

  // ---- the values a symbol stands for ----

  /** Symbol `i` stands for the `2^vbits[i]` values from `vbase[i]`, each symbol's starting where
      the one before it stops, and all of them below `limit`. */
  ghost predicate Ranges(vbits: seq<nat>, vbase: seq<nat>, limit: nat)
  {
    && |vbits| == |vbase| > 0
    && vbase[0] == 0
    && (forall i :: 0 <= i < |vbase| - 1 ==> vbase[i + 1] == vbase[i] + Pow2(vbits[i]))
    && limit == vbase[|vbase| - 1] + Pow2(vbits[|vbits| - 1])
  }

  lemma LmdRanges()
    ensures Ranges(L_BITS, L_BASE, 316)
    ensures Ranges(M_BITS, M_BASE, 2360)
    ensures Ranges(D_BITS, D_BASE, 262140)
  {
    LmRanges();
    DRanges();
  }

  lemma LmRanges()
    ensures Ranges(L_BITS, L_BASE, 316)
    ensures Ranges(M_BITS, M_BASE, 2360)
  {
    Pow2Small();
  }

  lemma DRanges()
    ensures Ranges(D_BITS, D_BASE, 262140)
  {
    DRow0();
    DRow1();
    DRow2();
    DRow3();
    DBorders();
    forall i | 0 <= i < 63
      ensures D_BASE[i + 1] == D_BASE[i] + Pow2(D_BITS[i])
    {
      assert D_BITS[i] == i / 4;
      DRows(D_BASE_0, D_BASE_1, D_BASE_2, D_BASE_3, i);
    }
  }

  ghost predicate DRow(row: seq<nat>, first: nat)
  {
    |row| == 16 && forall i :: 0 <= i < 15 ==> row[i + 1] == row[i] + Pow2(first + i / 4)
  }

  lemma DRows(r0: seq<nat>, r1: seq<nat>, r2: seq<nat>, r3: seq<nat>, i: nat)
    requires DRow(r0, 0) && DRow(r1, 4) && DRow(r2, 8) && DRow(r3, 12)
    requires r1[0] == r0[15] + Pow2(3) && r2[0] == r1[15] + Pow2(7) && r3[0] == r2[15] + Pow2(11)
    requires i < 63
    ensures var d := r0 + r1 + r2 + r3; d[i + 1] == d[i] + Pow2(i / 4)
  {
    hide Pow2, DRow;
    RowLengths(r0, 0);
    RowLengths(r1, 4);
    RowLengths(r2, 8);
    RowLengths(r3, 12);
    if i % 16 < 15 {
      RowStep(if i < 16 then r0 else if i < 32 then r1 else if i < 48 then r2 else r3, i / 16 * 4, i % 16);
    }
  }

  lemma RowLengths(row: seq<nat>, first: nat)
    requires DRow(row, first)
    ensures |row| == 16
  {
  }

  lemma RowStep(row: seq<nat>, first: nat, j: nat)
    requires DRow(row, first) && j < 15
    ensures |row| == 16 && row[j + 1] == row[j] + Pow2(first + j / 4)
  {
    hide Pow2;
  }

  /** Sixteen bases whose differences, four at a time, are a power of two and its next three. */
  lemma RowIs(row: seq<nat>, first: nat, p: nat, b: nat)
    requires p == Pow2(first)
    requires row == [b, b + p, b + 2 * p, b + 3 * p, b + 4 * p, b + 6 * p, b + 8 * p, b + 10 * p,
                     b + 12 * p, b + 16 * p, b + 20 * p, b + 24 * p, b + 28 * p, b + 36 * p, b + 44 * p, b + 52 * p]
    ensures DRow(row, first)
  {
    hide Pow2;
    Pow2Next(first);
    Pow2Next(first + 1);
    Pow2Next(first + 2);
  }

  lemma DRow0()
    ensures DRow(D_BASE_0, 0)
  {
    hide Pow2;
    Pow2Small();
    RowIs(D_BASE_0, 0, 1, 0);
  }

  lemma DRow1()
    ensures DRow(D_BASE_1, 4)
  {
    hide Pow2;
    Pow2Small();
    RowIs(D_BASE_1, 4, 16, 60);
  }

  lemma DRow2()
    ensures DRow(D_BASE_2, 8)
  {
    hide Pow2;
    Pow2Small();
    RowIs(D_BASE_2, 8, 256, 1020);
  }

  lemma DRow3()
    ensures DRow(D_BASE_3, 12)
  {
    hide Pow2;
    Pow2Small();
    RowIs(D_BASE_3, 12, 4096, 16380);
  }

  lemma DBorders()
    ensures D_BASE_1[0] == D_BASE_0[15] + Pow2(3)
    ensures D_BASE_2[0] == D_BASE_1[15] + Pow2(7)
    ensures D_BASE_3[0] == D_BASE_2[15] + Pow2(11)
    ensures D_BASE[0] == 0 && 262140 == D_BASE[63] + Pow2(D_BITS[63])
  {
    Pow2Small();
  }

  /** The symbol that stands for value `v`, looked for from the last one down. */
  function SymbolOf(vbits: seq<nat>, vbase: seq<nat>, v: nat, from: nat): (sym: nat)
    requires |vbits| == |vbase| && from < |vbase| && vbase[0] == 0
    ensures sym <= from
  {
    if from == 0 || vbase[from] <= v then from else SymbolOf(vbits, vbase, v, from - 1)
  }

  lemma {:induction false} SymbolHolds(vbits: seq<nat>, vbase: seq<nat>, v: nat, from: nat, limit: nat)
    requires Ranges(vbits, vbase, limit) && from < |vbase|
    requires v < vbase[from] + Pow2(vbits[from])
    ensures var sym := SymbolOf(vbits, vbase, v, from); vbase[sym] <= v < vbase[sym] + Pow2(vbits[sym])
  {
    if !(from == 0 || vbase[from] <= v) {
      SymbolHolds(vbits, vbase, v, from - 1, limit);
    }
  }

  // ---- value tables ----

  /** A state: the bits it pulls in all, how many of them are extra, and the two bases. */
  datatype ValueCell = ValueCell(total: nat, vbits: nat, delta: nat, base: nat)

  type ValueTable = seq<Option<ValueCell>>

  function ValueCellOf(cell: Option<Cell>, vbits: seq<nat>, vbase: seq<nat>): Option<ValueCell>
    requires |vbits| == |vbase| && (cell.Some? ==> cell.value.sym < |vbits|)
  {
    match cell
    case None => None
    case Some(c) => Some(ValueCell(c.bits + vbits[c.sym], vbits[c.sym], c.delta, vbase[c.sym]))
  }

  function ValuesOf(n: nat, freqs: seq<nat>, vbits: seq<nat>, vbase: seq<nat>): (t: ValueTable)
    requires Sum(freqs) <= Pow2(n) && |freqs| == |vbits| == |vbase|
    ensures |t| == Pow2(n)
  {
    SpreadClosed(n, freqs);
    seq(Pow2(n), i requires 0 <= i < Pow2(n) => ValueCellOf(Spread(n, freqs)[i], vbits, vbase))
  }

  method ValueTableOf(n: nat, freqs: seq<nat>, vbits: seq<nat>, vbase: seq<nat>) returns (r: Result<ValueTable>)
    requires |freqs| == |vbits| == |vbase|
    ensures r == if Sum(freqs) > Pow2(n) then Raised else Ok(ValuesOf(n, freqs, vbits, vbase))
  {
    var spread := FseSpread(n, freqs);
    if spread.Raised? {
      return Raised;
    }
    SpreadClosed(n, freqs);
    var out: ValueTable := [];
    for i := 0 to |spread.value|
      invariant out == ValuesOf(n, freqs, vbits, vbase)[..i]
    {
      match spread.value[i] {
        case None => out := out + [None];
        case Some(c) =>
          assert CellFits(n, |freqs|, c);
          out := out + [Some(ValueCell(c.bits + vbits[c.sym], vbits[c.sym], c.delta, vbase[c.sym]))];
      }
    }
    assert out == ValuesOf(n, freqs, vbits, vbase);
    r := Ok(out);
  }

  /** Every cell pulls at most `n` state bits besides its extra bits, of which there are at most
      `most`, and no step leaves the table. */
  ghost predicate ValueClosed(n: nat, most: nat, table: ValueTable)
  {
    && |table| == Pow2(n)
    && forall s :: 0 <= s < |table| && table[s].Some? ==> ValueFits(n, most, table[s].value)
  }

  ghost predicate ValueFits(n: nat, most: nat, c: ValueCell)
  {
    c.vbits <= most && c.vbits <= c.total <= n + c.vbits && c.delta + Pow2(c.total - c.vbits) <= Pow2(n)
  }

  lemma ValuesClosed(n: nat, freqs: seq<nat>, vbits: seq<nat>, vbase: seq<nat>, most: nat)
    requires Sum(freqs) <= Pow2(n) && |freqs| == |vbits| == |vbase|
    requires forall i :: 0 <= i < |vbits| ==> vbits[i] <= most
    ensures ValueClosed(n, most, ValuesOf(n, freqs, vbits, vbase))
  {
    SpreadClosed(n, freqs);
    var table := ValuesOf(n, freqs, vbits, vbase);
    forall s | 0 <= s < |table| && table[s].Some?
      ensures ValueFits(n, most, table[s].value)
    {
      assert CellFits(n, |freqs|, Spread(n, freqs)[s].value);
    }
  }

  // ---- one value ----

  /** What one step of a value stream gives: the value, the next state and the bits left. */
  datatype Step = Step(value: nat, next: nat, rest: BitString)

  function Value(n: nat, most: nat, table: ValueTable, state: nat, b: BitString): (r: Result<Step>)
    requires ValueClosed(n, most, table) && state < Pow2(n) && b.Valid() && n + most <= b.len
    ensures r.Ok? ==> r.value.next < Pow2(n) && r.value.rest.Valid()
    ensures r.Ok? ==> b.len - (n + most) <= r.value.rest.len <= b.len
  {
    match table[state]
    case None => Raised
    case Some(c) =>
      assert ValueFits(n, most, c);
      PullPush(b, c.total);
      ShrBound(b.Top(c.total), c.total - c.vbits, c.vbits);
      Ok(Step(c.base + Low(b.Top(c.total), c.vbits), c.delta + Shr(b.Top(c.total), c.vbits), b.Rest(c.total)))
  }

  /** Value `v` can be coded by symbol `sym`. */
  ghost predicate Carries(n: nat, freqs: seq<nat>, vbits: seq<nat>, vbase: seq<nat>, sym: nat, v: nat)
  {
    && Sum(freqs) <= Pow2(n) && |freqs| == |vbits| == |vbase|
    && sym < |freqs| && freqs[sym] > 0 && vbase[sym] <= v < vbase[sym] + Pow2(vbits[sym])
  }

  /** The encoder step it undoes: the state before `next`, and its bits on top of `b`. */
  function PushValue(n: nat, freqs: seq<nat>, vbits: seq<nat>, vbase: seq<nat>, sym: nat, v: nat, next: nat,
                     b: BitString): (r: (nat, BitString))
    requires Carries(n, freqs, vbits, vbase, sym, v) && next < Pow2(n)
    ensures r.0 < Pow2(n)
  {
    StepRoundTrip(n, freqs, sym, next);
    var cell := CellBefore(n, freqs, sym, next);
    (StateBefore(n, freqs, sym, next),
     b.Push(Shl(next - cell.delta, vbits[sym]) + (v - vbase[sym]), cell.bits + vbits[sym]))
  }

  lemma ValueOfPushed(n: nat, most: nat, table: ValueTable, state: nat, c: ValueCell, b: BitString, step: nat,
                      extra: nat, pushed: BitString)
    requires ValueClosed(n, most, table) && state < Pow2(n) && table[state] == Some(c)
    requires b.Valid()
    requires step < Pow2(c.total - c.vbits) && extra < Pow2(c.vbits)
    requires pushed == b.Push(Shl(step, c.vbits) + extra, c.total)
    ensures pushed.Valid()
    ensures n + most <= pushed.len ==>
      Value(n, most, table, state, pushed) == Ok(Step(c.base + extra, c.delta + step, b))
  {
    hide Pow2, Shl, Shr, Low;
    ShlBound(step, extra, c.total - c.vbits, c.vbits);
    PushValid(b, Shl(step, c.vbits) + extra, c.total);
    PushPull(b, Shl(step, c.vbits) + extra, c.total);
    Join(step, extra, c.vbits);
  }

  lemma ValueRoundTrip(n: nat, most: nat, freqs: seq<nat>, vbits: seq<nat>, vbase: seq<nat>, sym: nat, v: nat,
                       next: nat, b: BitString)
    requires Carries(n, freqs, vbits, vbase, sym, v) && next < Pow2(n)
    requires forall i :: 0 <= i < |vbits| ==> vbits[i] <= most
    requires b.Valid()
    ensures var p := PushValue(n, freqs, vbits, vbase, sym, v, next, b);
      && b.len <= p.1.len <= b.len + n + most && p.1.Valid()
      && ValueClosed(n, most, ValuesOf(n, freqs, vbits, vbase))
      && (n + most <= p.1.len ==>
            Value(n, most, ValuesOf(n, freqs, vbits, vbase), p.0, p.1) == Ok(Step(v, next, b)))
  {
    hide Shl, Pow2, Shr, Low, Owned, Sum;
    ValuesClosed(n, freqs, vbits, vbase, most);
    StepRoundTrip(n, freqs, sym, next);
    var state, cell := StateBefore(n, freqs, sym, next), CellBefore(n, freqs, sym, next);
    var c := ValueCell(cell.bits + vbits[sym], vbits[sym], cell.delta, vbase[sym]);
    var table, pushed := ValuesOf(n, freqs, vbits, vbase), PushValue(n, freqs, vbits, vbase, sym, v, next, b).1;
    assert table[state] == Some(c);
    ValueOfPushed(n, most, table, state, c, b, next - c.delta, v - c.base, pushed);
  }
}
