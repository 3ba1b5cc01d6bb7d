/** Finite-state-entropy decoding tables (`_fse_spread`), and the encoder step each of them undoes. */
module FseTable {
  import opened Bits
  import opened Prelude

  /** A state: its symbol, the bits a step from it pulls, and what it adds to them. */
  datatype Cell = Cell(sym: nat, bits: nat, delta: nat)

  type Table = seq<Option<Cell>>

  // ---- the table ----

  /** How many bits the first states of a symbol of frequency `f` pull, among `Pow2(n)` states. */
  function StateBits(n: nat, f: nat): nat
    requires 0 < f <= Pow2(n)
  {
    BitLengthMono(f, Pow2(n));
    BitLengthPow2(n);
    n + 1 - BitLength(f)
  }

  /** How many of its `f` states pull that many; the others pull one bit less. */
  function LongStates(n: nat, f: nat): (j0: nat)
    requires 0 < f <= Pow2(n)
    ensures 0 < j0 <= f
  {
    LongStatesBounds(n, f);
    Shr(2 * Pow2(n), StateBits(n, f)) - f
  }

  lemma LongStatesBounds(n: nat, f: nat)
    requires 0 < f <= Pow2(n)
    ensures Shr(2 * Pow2(n), StateBits(n, f)) == Pow2(BitLength(f))
    ensures f < Pow2(BitLength(f)) <= 2 * f
  {
    hide Pow2, Shl, Shr, Low, BitLength;
    var b := BitLength(f);
    var k := StateBits(n, f);
    assert b > 0 && b + k == n + 1;
    hide StateBits;
    Pow2Next(n);
    Pow2Next(b - 1);
    BitLengthBounds(f);
    Pow2Plus(b, k);
    Join(Pow2(b), 0, k);
  }

  /** Shifted by the bits they pull, the state numbers reach exactly the end of the table. */
  lemma SpanBounds(n: nat, f: nat)
    requires 0 < f <= Pow2(n)
    ensures Shl(f, StateBits(n, f)) >= Pow2(n)
    ensures Shl(f + LongStates(n, f), StateBits(n, f)) == 2 * Pow2(n)
    ensures LongStates(n, f) < f ==> StateBits(n, f) > 0
    ensures StateBits(n, f) > 0 ==>
      Shl(f - LongStates(n, f), StateBits(n, f) - 1) == Shl(f, StateBits(n, f)) - Pow2(n)
  {
    var b, k := BitLength(f), StateBits(n, f);
    LongStatesBounds(n, f);
    BitLengthBounds(f);
    Pow2Plus(b, k);
    Pow2Plus(b - 1, k);
    assert Pow2(b - 1 + k) == Pow2(n);
    ShlMono(Pow2(b - 1), f, k);
    if k > 0 {
      var j0 := LongStates(n, f);
      assert j0 + f == Pow2(b);
      Pow2Plus(b, k - 1);
      ShlPlus(f - j0, Pow2(b), k - 1);
      ShlPlus(f, f, k - 1);
    } else {
      assert Pow2(b - 1) == Pow2(n) == f;
    }
  }

  lemma CellShift(n: nat, f: nat, j: nat)
    requires 0 < f <= Pow2(n) && j < f
    ensures Shl(f + j, StateBits(n, f)) >= Pow2(n)
    ensures j >= LongStates(n, f) ==> StateBits(n, f) > 0
  {
    SpanBounds(n, f);
    ShlMono(f, f + j, StateBits(n, f));
  }

  /** State `j` of the `f` consecutive states of a symbol. */
  function CellOf(n: nat, sym: nat, f: nat, j: nat): Cell
    requires 0 < f <= Pow2(n) && j < f
  {
    CellShift(n, f, j);
    var k, j0 := StateBits(n, f), LongStates(n, f);
    if j < j0 then
      Cell(sym, k, Shl(f + j, k) - Pow2(n))
    else
      Cell(sym, k - 1, Shl(j - j0, k - 1))
  }

  lemma {:induction false} ShlGrows(x: nat, a: nat, b: nat)
    requires a <= b
    ensures Shl(x, a) <= Shl(x, b) && (a < b ==> 2 * Shl(x, a) <= Shl(x, b))
  {
    if a < b {
      ShlGrows(x, a, b - 1);
    }
  }

  /** The cell in closed form: a symbol of frequency `f` pulls the `k` bits that bring `f` up to the state count
      or above, and its later states, which they would bring past twice that, one bit less. */
  lemma CellNumbers(n: nat, sym: nat, f: nat, j: nat, k: nat)
    requires 0 < f <= Pow2(n) && j < f && Pow2(n) <= Shl(f, k) < 2 * Pow2(n)
    ensures
      var c := CellOf(n, sym, f, j);
      && c.sym == sym
      && if Shl(f + j, k) < 2 * Pow2(n) then c.bits == k && c.delta + Pow2(n) == Shl(f + j, k)
         else c.bits + 1 == k && c.delta + Pow2(n) == Shl(f + j, k - 1)
  {
    hide Pow2, Shl, StateBits, LongStates, BitLength;
    StateBitsIs(n, f, k);
    SpanBounds(n, f);
    CellShift(n, f, j);
    var j0 := LongStates(n, f);
    if j < j0 {
      ShlMono(f + j, f + j0, k);
    } else {
      ShlMono(f + j0, f + j, k);
      ShlPlus(f + j0, j - j0, k - 1);
      Doubled(f + j0, k);
    }
  }

  lemma Doubled(x: nat, k: nat)
    requires k > 0
    ensures Shl(x, k) == 2 * Shl(x, k - 1)
  {
  }

  lemma StateBitsIs(n: nat, f: nat, k: nat)
    requires 0 < f <= Pow2(n) && Pow2(n) <= Shl(f, k) < 2 * Pow2(n)
    ensures k == StateBits(n, f)
  {
    hide Pow2, Shl, BitLength;
    var b, bits := BitLength(f), StateBits(n, f);
    LongStatesBounds(n, f);
    SpanBounds(n, f);
    ShlMono(f, Pow2(b), bits);
    Pow2Plus(b, bits);
    Pow2Next(n);
    if k < bits {
      ShlGrows(f, k, bits);
    } else if bits < k {
      ShlGrows(f, bits, k);
    }
  }

  function SymbolCells(n: nat, sym: nat, f: nat): (cells: Table)
    requires f <= Pow2(n)
    ensures |cells| == f
  {
    seq(f, j requires 0 <= j < f => Some(CellOf(n, sym, f, j)))
  }

  /** The owned states of a frequency table, symbol after symbol. */
  function Owned(n: nat, freqs: seq<nat>): (cells: Table)
    requires Sum(freqs) <= Pow2(n)
    ensures |cells| == Sum(freqs)
  {
    if freqs == [] then []
    else
      var sym := |freqs| - 1;
      Owned(n, freqs[..sym]) + SymbolCells(n, sym, freqs[sym])
  }

  function Spread(n: nat, freqs: seq<nat>): (table: Table)
    requires Sum(freqs) <= Pow2(n)
    ensures |table| == Pow2(n)
  {
    Owned(n, freqs) + seq(Pow2(n) - Sum(freqs), _ => None)
  }

  lemma OwnedStep(n: nat, freqs: seq<nat>, sym: nat)
    requires Sum(freqs) <= Pow2(n) && sym < |freqs|
    ensures Sum(freqs[..sym]) + freqs[sym] == Sum(freqs[..sym + 1]) <= Pow2(n)
    ensures Owned(n, freqs[..sym + 1]) == Owned(n, freqs[..sym]) + SymbolCells(n, sym, freqs[sym])
  {
    SumPrefix(freqs, sym);
    SumPrefix(freqs, sym + 1);
    assert freqs[..sym + 1][..sym] == freqs[..sym];
  }

  /** A symbol's `j`-th state, as the loop below works it out. */
  lemma CellWritten(n: nat, sym: nat, f: nat, j: nat)
    requires 0 < f <= Pow2(n) && j < f
    ensures BitLength(f) <= n + 1 == BitLength(Pow2(n)) && Shr(2 * Pow2(n), n + 1 - BitLength(f)) >= f
    ensures
      var k := n + 1 - BitLength(f);
      var j0 := Shr(2 * Pow2(n), k) - f;
      && Shl(f + j, k) >= Pow2(n) && (j >= j0 ==> k > 0)
      && SymbolCells(n, sym, f)[j]
         == Some(if j < j0 then Cell(sym, k, Shl(f + j, k) - Pow2(n)) else Cell(sym, k - 1, Shl(j - j0, k - 1)))
  {
    hide Pow2, Shl, Shr, BitLength;
    BitLengthPow2(n);
    LongStatesBounds(n, f);
    CellShift(n, f, j);
  }

  /** The states of one symbol, appended one by one. */
  method AppendStates(n: nat, sym: nat, f: nat, before: Table) returns (table: Table)
    requires 0 < f <= Pow2(n)
    ensures table == before + SymbolCells(n, sym, f)
  {
    hide Pow2, Shl, Shr, BitLength, SymbolCells;
    var nstates := Pow2(n);
    CellWritten(n, sym, f, 0);
    var k := BitLength(nstates) - BitLength(f);
    var j0 := Shr(2 * nstates, k) - f;
    ghost var cells := SymbolCells(n, sym, f);
    table := before;
    for j := 0 to f
      invariant table == before + cells[..j]
    {
      CellWritten(n, sym, f, j);
      var cell := if j < j0 then Cell(sym, k, Shl(f + j, k) - nstates)
                  else Cell(sym, k - 1, Shl(j - j0, k - 1));
      AppendNext(before, cells, j);
      table := table + [Some(cell)];
    }
    assert cells[..f] == cells;
  }

  method FseSpread(n: nat, freqs: seq<nat>) returns (r: Result<Table>)
    ensures r == if Sum(freqs) > Pow2(n) then Raised else Ok(Spread(n, freqs))
  {
    hide Pow2, SymbolCells;
    var nstates := Pow2(n);
    if Sum(freqs) > nstates {
      return Raised;
    }
    var table: Table := [];
    assert freqs[..0] == [];
    for sym := 0 to |freqs|
      invariant Sum(freqs[..sym]) <= nstates
      invariant table == Owned(n, freqs[..sym])
    {
      hide Owned;
      OwnedStep(n, freqs, sym);
      if freqs[sym] != 0 {
        table := AppendStates(n, sym, freqs[sym], table);
      } else {
        NoStates(n, sym, table);
      }
    }
    assert freqs[..|freqs|] == freqs;
    table := table + seq(nstates - |table|, _ => None);
    r := Ok(table);
  }

  lemma NoStates(n: nat, sym: nat, table: Table)
    ensures table + SymbolCells(n, sym, 0) == table
  {
    assert SymbolCells(n, sym, 0) == [];
  }

  // ---- the encoder step ----

  /** Which of a symbol's states steps to state `x`. */
  function StepBefore(n: nat, f: nat, x: nat): (j: nat)
    requires 0 < f <= Pow2(n) && x < Pow2(n)
    ensures j < f
  {
    SpanBounds(n, f);
    StepBeforeBounds(n, f, x);
    var k, j0 := StateBits(n, f), LongStates(n, f);
    var edge := Shl(f, k) - Pow2(n);
    if x >= edge then Shr(x - edge, k) else j0 + Shr(x, k - 1)
  }

  lemma StepBeforeBounds(n: nat, f: nat, x: nat)
    requires 0 < f <= Pow2(n) && x < Pow2(n)
    ensures Shl(f, StateBits(n, f)) >= Pow2(n)
    ensures var k, j0, edge := StateBits(n, f), LongStates(n, f), Shl(f, StateBits(n, f)) - Pow2(n);
      if x >= edge then
        Shr(x - edge, k) < j0
      else
        k > 0 && Shr(x, k - 1) < f - j0
  {
    SpanBounds(n, f);
    var k, j0 := StateBits(n, f), LongStates(n, f);
    var edge := Shl(f, k) - Pow2(n);
    if x >= edge {
      ShlPlus(f, j0, k);
      Split(x - edge, k);
      if Shr(x - edge, k) >= j0 {
        ShlMono(j0, Shr(x - edge, k), k);
      }
    } else {
      assert k > 0 by {
        if k == 0 {
          SpanBounds(n, f);
        }
      }
      Split(x, k - 1);
      if Shr(x, k - 1) >= f - j0 {
        ShlMono(f - j0, Shr(x, k - 1), k - 1);
      }
    }
  }

  lemma TilingHolds(n: nat, sym: nat, f: nat, x: nat)
    requires 0 < f <= Pow2(n) && x < Pow2(n)
    ensures var c := CellOf(n, sym, f, StepBefore(n, f, x));
      c.delta <= x < c.delta + Pow2(c.bits)
  {
    hide Pow2, Shl, Shr, Low, StateBits, LongStates;
    SpanBounds(n, f);
    StepBeforeBounds(n, f, x);
    var k, j0 := StateBits(n, f), LongStates(n, f);
    var edge := Shl(f, k) - Pow2(n);
    if x >= edge {
      Split(x - edge, k);
      ShlPlus(f, Shr(x - edge, k), k);
    } else {
      Split(x, k - 1);
    }
  }

  /** The states of one symbol tile the table: state `x` lies in the interval
      `[delta, delta + 2^bits)` of the state `StepBefore` names and of no other. */
  lemma Tiling(n: nat, sym: nat, f: nat, x: nat)
    requires 0 < f <= Pow2(n) && x < Pow2(n)
    ensures var c := CellOf(n, sym, f, StepBefore(n, f, x));
      c.delta <= x < c.delta + Pow2(c.bits)
    ensures forall j :: 0 <= j < f && j != StepBefore(n, f, x) ==>
      var c := CellOf(n, sym, f, j);
      !(c.delta <= x < c.delta + Pow2(c.bits))
  {
    hide Pow2, CellOf, StepBefore;
    TilingHolds(n, sym, f, x);
    forall j | 0 <= j < f && j != StepBefore(n, f, x)
      ensures var c := CellOf(n, sym, f, j); !(c.delta <= x < c.delta + Pow2(c.bits))
    {
      var c := CellOf(n, sym, f, j);
      if c.delta <= x < c.delta + Pow2(c.bits) {
        TilingUnique(n, sym, f, x, j);
      }
    }
  }

  lemma TilingUnique(n: nat, sym: nat, f: nat, x: nat, j: nat)
    requires 0 < f <= Pow2(n) && x < Pow2(n) && j < f
    requires var c := CellOf(n, sym, f, j); c.delta <= x < c.delta + Pow2(c.bits)
    ensures j == StepBefore(n, f, x)
  {
    hide Pow2, Shl, Shr, Low, StateBits, LongStates;
    SpanBounds(n, f);
    StepBeforeBounds(n, f, x);
    var k, j0 := StateBits(n, f), LongStates(n, f);
    var edge := Shl(f, k) - Pow2(n);
    var c := CellOf(n, sym, f, j);
    if j < j0 {
      ShlPlus(f, j, k);
      assert c.delta == edge + Shl(j, k);
      Join(j, x - c.delta, k);
    } else {
      CellShift(n, f, j);
      ShlMono(j - j0 + 1, f - j0, k - 1);
      ShlMono(j - j0, j - j0 + 1, k - 1);
      ShlPlus(j - j0, 1, k - 1);
      ShlOne(k - 1);
      Join(j - j0, x - c.delta, k - 1);
    }
  }

  /** Whatever the pulled bits say, a step lands on a state of the table. */
  lemma StepInRange(n: nat, sym: nat, f: nat, j: nat)
    requires 0 < f <= Pow2(n) && j < f
    ensures var c := CellOf(n, sym, f, j); c.delta + Pow2(c.bits) <= Pow2(n) && c.bits <= n
  {
    hide Pow2, Shl, Shr, Low, LongStates, BitLength;
    SpanBounds(n, f);
    CellShift(n, f, j);
    var k, j0 := StateBits(n, f), LongStates(n, f);
    if j < j0 {
      ShlMono(f + j, f + j + 1, k);
      ShlMono(f + j + 1, f + j0, k);
    } else {
      ShlMono(j - j0, j - j0 + 1, k - 1);
      ShlMono(j - j0 + 1, f - j0, k - 1);
      ShlMono(f, f + j0, k);
    }
  }

  /** Where a symbol's states begin. */
  function Start(freqs: seq<nat>, sym: nat): nat
    requires sym < |freqs|
  {
    Sum(freqs[..sym])
  }

  /** Each symbol owns exactly its frequency of consecutive states. */
  lemma {:induction false} SpreadAt(n: nat, freqs: seq<nat>, sym: nat, j: nat)
    requires Sum(freqs) <= Pow2(n) && sym < |freqs| && j < freqs[sym]
    ensures Start(freqs, sym) + j < Sum(freqs) && freqs[sym] <= Pow2(n)
    ensures Spread(n, freqs)[Start(freqs, sym) + j] == Some(CellOf(n, sym, freqs[sym], j))
  {
    SumPrefix(freqs, sym);
    OwnedAt(n, freqs, sym, j);
  }

  lemma {:induction false} OwnedAt(n: nat, freqs: seq<nat>, sym: nat, j: nat)
    requires Sum(freqs) <= Pow2(n) && sym < |freqs| && j < freqs[sym] <= Pow2(n)
    requires Sum(freqs[..sym]) + j < Sum(freqs)
    ensures Owned(n, freqs)[Sum(freqs[..sym]) + j] == Some(CellOf(n, sym, freqs[sym], j))
  {
    hide Pow2, CellOf;
    var last := |freqs| - 1;
    if sym < last {
      assert freqs[..last][..sym] == freqs[..sym];
      SumPrefix(freqs[..last], sym);
      OwnedAt(n, freqs[..last], sym, j);
    }
  }

  /** The other way round: an owned state belongs to a symbol of positive frequency. */
  lemma {:induction false} OwnedIs(n: nat, freqs: seq<nat>, x: nat) returns (sym: nat, j: nat)
    requires Sum(freqs) <= Pow2(n) && x < Sum(freqs)
    ensures sym < |freqs| && j < freqs[sym] <= Pow2(n) && x == Sum(freqs[..sym]) + j
    ensures Owned(n, freqs)[x] == Some(CellOf(n, sym, freqs[sym], j))
  {
    var last := |freqs| - 1;
    if x < Sum(freqs[..last]) {
      sym, j := OwnedIs(n, freqs[..last], x);
      assert freqs[..last][..sym] == freqs[..sym];
    } else {
      sym, j := last, x - Sum(freqs[..last]);
    }
  }

  /** A table with room for every state has an unowned one exactly when its frequencies fall short. */
  lemma UnownedIffShort(n: nat, freqs: seq<nat>)
    requires Sum(freqs) <= Pow2(n)
    ensures (exists x :: 0 <= x < Pow2(n) && Spread(n, freqs)[x] == None) <==> Sum(freqs) < Pow2(n)
  {
    if Sum(freqs) < Pow2(n) {
      assert Spread(n, freqs)[Sum(freqs)] == None;
    } else {
      forall x | 0 <= x < Pow2(n)
        ensures Spread(n, freqs)[x] != None
      {
        var sym, j := OwnedIs(n, freqs, x);
      }
    }
  }

  /** A table is closed: its cells pull at most `n` bits and every step stays inside it. */
  ghost predicate Closed(n: nat, symbols: nat, table: Table)
  {
    && |table| == Pow2(n)
    && forall s :: 0 <= s < |table| && table[s].Some? ==> CellFits(n, symbols, table[s].value)
  }

  ghost predicate CellFits(n: nat, symbols: nat, c: Cell)
  {
    c.sym < symbols && c.bits <= n && c.delta + Pow2(c.bits) <= Pow2(n)
  }

  lemma SpreadClosed(n: nat, freqs: seq<nat>)
    requires Sum(freqs) <= Pow2(n)
    ensures Closed(n, |freqs|, Spread(n, freqs))
  {
    var table := Spread(n, freqs);
    forall s | 0 <= s < |table| && table[s].Some?
      ensures CellFits(n, |freqs|, table[s].value)
    {
      var sym, j := OwnedIs(n, freqs, s);
      StepInRange(n, sym, freqs[sym], j);
    }
  }

  /** What an encoder does before state `next` to emit `sym`: the state it moves to, and the bits
      that lead the decoder back. */
  function StateBefore(n: nat, freqs: seq<nat>, sym: nat, next: nat): (state: nat)
    requires Sum(freqs) <= Pow2(n) && sym < |freqs| && freqs[sym] > 0 && next < Pow2(n)
    ensures state < Pow2(n)
  {
    SumPrefix(freqs, sym);
    Start(freqs, sym) + StepBefore(n, freqs[sym], next)
  }

  /** That state's cell. */
  function CellBefore(n: nat, freqs: seq<nat>, sym: nat, next: nat): (c: Cell)
    requires Sum(freqs) <= Pow2(n) && sym < |freqs| && freqs[sym] > 0 && next < Pow2(n)
  {
    SumPrefix(freqs, sym);
    CellOf(n, sym, freqs[sym], StepBefore(n, freqs[sym], next))
  }

  /** Decoding one step undoes encoding it: the table holds, at the state before, a cell of the
      symbol that steps to `next` when it pulls `next - delta`. */
  lemma StepRoundTrip(n: nat, freqs: seq<nat>, sym: nat, next: nat)
    requires Sum(freqs) <= Pow2(n) && sym < |freqs| && freqs[sym] > 0 && next < Pow2(n)
    ensures var c := CellBefore(n, freqs, sym, next);
      && Spread(n, freqs)[StateBefore(n, freqs, sym, next)] == Some(c)
      && c.sym == sym && c.bits <= n && c.delta <= next < c.delta + Pow2(c.bits)
  {
    SumPrefix(freqs, sym);
    var j := StepBefore(n, freqs[sym], next);
    SpreadAt(n, freqs, sym, j);
    Tiling(n, sym, freqs[sym], next);
    StepInRange(n, sym, freqs[sym], j);
  }
  /** The other way round: whatever a step from a state lands on, it is the state the encoder's step
      to there comes from. */
  lemma RoundTripStep(n: nat, freqs: seq<nat>, state: nat, next: nat)
    requires Sum(freqs) <= Pow2(n) && state < Pow2(n) && next < Pow2(n) && Spread(n, freqs)[state].Some?
    requires var c := Spread(n, freqs)[state].value; c.delta <= next < c.delta + Pow2(c.bits)
    ensures var c := Spread(n, freqs)[state].value;
      && c.sym < |freqs| && freqs[c.sym] > 0
      && StateBefore(n, freqs, c.sym, next) == state && CellBefore(n, freqs, c.sym, next) == c
  {
    hide Pow2, StepBefore, StateBits, LongStates, Shl;
    var sym, j := OwnedIs(n, freqs, state);
    CellShift(n, freqs[sym], j);
    SumPrefix(freqs, sym);
    TilingUnique(n, sym, freqs[sym], next, j);
  }
}
