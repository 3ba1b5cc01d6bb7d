/** The literals of an LZFSE block: four interleaved states over one stream read backwards. */
module LzfseLiterals {
  import opened Bits
  import opened Prelude
  import opened FseTable
  import opened FseBits
  import opened LzfseTables

  /** What is left of a literal stream, or what came of it. */
  datatype Literals = Literals(lits: seq<byte>, states: seq<nat>, rest: BitString)

  /** Four states, the next to step first. */
  ghost predicate InRange(states: seq<nat>)
  {
    && |states| == 4
    && states[0] < Pow2(LIT_LOG) && states[1] < Pow2(LIT_LOG)
    && states[2] < Pow2(LIT_LOG) && states[3] < Pow2(LIT_LOG)
  }

  /** One literal: its byte, the state its own state steps to, and the bits left. */
  function Literal(table: Table, state: nat, b: BitString): (r: Result<(byte, nat, BitString)>)
    requires Closed(LIT_LOG, LIT_SYMBOLS, table) && state < |table| && b.Valid() && b.len >= 10
    ensures r.Ok? ==> r.value.1 < Pow2(LIT_LOG) && r.value.2.Valid() && b.len - 10 <= r.value.2.len <= b.len
  {
    match table[state]
    case None => Raised
    case Some(c) =>
      assert CellFits(LIT_LOG, LIT_SYMBOLS, c);
      PullPush(b, c.bits);
      Ok((c.sym, c.delta + b.Top(c.bits), b.Rest(c.bits)))
  }

  /** `k` literals and then `groups` groups of four from `b`. The states take turns, so the one that
      stepped goes to the back; before a group at least 56 bits must be left. */
  function Decode(table: Table, states: seq<nat>, b: BitString, groups: nat, k: nat): (r: Result<Literals>)
    requires Closed(LIT_LOG, LIT_SYMBOLS, table) && InRange(states)
    requires b.Valid() && k < 4 && b.len >= 10 * k
    ensures r.Ok? ==> |r.value.lits| == 4 * groups + k
    decreases groups, k
  {
    if k == 0 && groups == 0 then Ok(Literals([], states, b))
    else if k == 0 && b.len < 56 then Raised
    else
      var one :- Literal(table, states[0], b);
      var queue := states[1..] + [one.1];
      var more :- if k == 0 then Decode(table, queue, one.2, groups - 1, 3)
                  else Decode(table, queue, one.2, groups, k - 1);
      Ok(more.(lits := [one.0] + more.lits))
  }

  // ---- the encoder ----

  /** Every literal has a state. */
  ghost predicate Codable(freqs: seq<nat>, lits: seq<byte>)
  {
    |freqs| == LIT_SYMBOLS && Sum(freqs) <= Pow2(LIT_LOG) && forall x :: x in lits ==> freqs[x] > 0
  }

  /** The encoder's step before state `next`: the state for `sym`, and its bits on top of `b`. */
  function PushLiteral(freqs: seq<nat>, sym: byte, next: nat, b: BitString): (r: (nat, BitString))
    requires Codable(freqs, [sym]) && next < Pow2(LIT_LOG)
    ensures r.0 < Pow2(LIT_LOG)
  {
    assert sym in [sym];
    StepRoundTrip(LIT_LOG, freqs, sym, next);
    var cell := CellBefore(LIT_LOG, freqs, sym, next);
    (StateBefore(LIT_LOG, freqs, sym, next), b.Push(next - cell.delta, cell.bits))
  }

  lemma PushLiteralRoundTrip(freqs: seq<nat>, sym: byte, next: nat, b: BitString)
    requires Codable(freqs, [sym]) && next < Pow2(LIT_LOG) && b.Valid() && b.len >= 10
    ensures var p := PushLiteral(freqs, sym, next, b);
      && Closed(LIT_LOG, LIT_SYMBOLS, Spread(LIT_LOG, freqs))
      && p.1.Valid() && b.len <= p.1.len <= b.len + 10
      && Literal(Spread(LIT_LOG, freqs), p.0, p.1) == Ok((sym, next, b))
  {
    hide Shl, Pow2, Shr, Low, Owned, Sum;
    assert sym in [sym];
    SpreadClosed(LIT_LOG, freqs);
    StepRoundTrip(LIT_LOG, freqs, sym, next);
    var cell := CellBefore(LIT_LOG, freqs, sym, next);
    PushValid(b, next - cell.delta, cell.bits);
    PushPull(b, next - cell.delta, cell.bits);
  }

  /** The states and bits that decode to `lits` and leave `final` and `rest`. */
  function Encode(freqs: seq<nat>, lits: seq<byte>, final: seq<nat>, rest: BitString): (r: (seq<nat>, BitString))
    requires Codable(freqs, lits) && InRange(final)
    ensures InRange(r.0)
    decreases |lits|
  {
    if lits == [] then (final, rest)
    else
      var e := Encode(freqs, lits[1..], final, rest);
      var p := PushLiteral(freqs, lits[0], e.0[3], e.1);
      ([p.0, e.0[0], e.0[1], e.0[2]], p.1)
  }

  lemma DecodeOne(table: Table, state: nat, after: seq<nat>, b: BitString, low: BitString, groups: nat, k: nat,
                  sym: byte, more: Literals)
    requires Closed(LIT_LOG, LIT_SYMBOLS, table) && InRange(after) && state < Pow2(LIT_LOG)
    requires b.Valid() && b.len >= 56 && low.Valid() && low.len >= 56 && k < 4 && groups + k > 0
    requires Literal(table, state, b) == Ok((sym, after[3], low))
    requires Ok(more) == if k == 0 then Decode(table, after, low, groups - 1, 3)
                         else Decode(table, after, low, groups, k - 1)
    ensures Decode(table, [state, after[0], after[1], after[2]], b, groups, k)
         == Ok(more.(lits := [sym] + more.lits))
  {
    assert [state, after[0], after[1], after[2]][1..] + [after[3]] == after;
  }

  lemma {:induction false} RoundTrip(freqs: seq<nat>, lits: seq<byte>, final: seq<nat>, rest: BitString, groups: nat,
                                     k: nat)
    requires Codable(freqs, lits) && InRange(final) && rest.Valid() && rest.len >= 56
    requires |lits| == 4 * groups + k && k < 4
    ensures var e := Encode(freqs, lits, final, rest);
      && e.1.Valid() && rest.len <= e.1.len <= rest.len + 10 * |lits|
      && Closed(LIT_LOG, LIT_SYMBOLS, Spread(LIT_LOG, freqs))
      && Decode(Spread(LIT_LOG, freqs), e.0, e.1, groups, k) == Ok(Literals(lits, final, rest))
    decreases |lits|
  {
    hide Pow2, Spread, Sum, PushLiteral, Literal;
    SpreadClosed(LIT_LOG, freqs);
    if lits != [] {
      if k == 0 {
        RoundTrip(freqs, lits[1..], final, rest, groups - 1, 3);
      } else {
        RoundTrip(freqs, lits[1..], final, rest, groups, k - 1);
      }
      var e := Encode(freqs, lits[1..], final, rest);
      PushLiteralRoundTrip(freqs, lits[0], e.0[3], e.1);
      var p := PushLiteral(freqs, lits[0], e.0[3], e.1);
      DecodeOne(Spread(LIT_LOG, freqs), p.0, e.0, p.1, e.1, groups, k, lits[0], Literals(lits[1..], final, rest));
      assert [lits[0]] + lits[1..] == lits;
    }
  }

  /** What the encoder writes, over whatever bits. */
  lemma {:induction false} EncodeValid(freqs: seq<nat>, lits: seq<byte>, final: seq<nat>, rest: BitString)
    requires Codable(freqs, lits) && InRange(final) && rest.Valid()
    ensures var e := Encode(freqs, lits, final, rest);
      e.1.Valid() && rest.len <= e.1.len <= rest.len + 10 * |lits|
    decreases |lits|
  {
    hide Pow2, Sum, CellBefore, StateBefore, BitString.Push;
    if lits != [] {
      EncodeValid(freqs, lits[1..], final, rest);
      var e := Encode(freqs, lits[1..], final, rest);
      assert lits[0] in lits;
      PushLiteralValid(freqs, lits[0], e.0[3], e.1);
    }
  }

  lemma PushLiteralValid(freqs: seq<nat>, sym: byte, next: nat, b: BitString)
    requires Codable(freqs, [sym]) && next < Pow2(LIT_LOG) && b.Valid()
    ensures var p := PushLiteral(freqs, sym, next, b);
      p.1.Valid() && b.len <= p.1.len <= b.len + 10
  {
    hide Pow2, Sum, CellBefore, StateBefore, Spread;
    assert sym in [sym];
    StepRoundTrip(LIT_LOG, freqs, sym, next);
    var cell := CellBefore(LIT_LOG, freqs, sym, next);
    PushValid(b, next - cell.delta, cell.bits);
  }

  /** Encoding undoes decoding, too: whatever decodes is what the encoder writes for its literals and
      final states over the bits left. */
  lemma {:induction false} DecodeEncode(freqs: seq<nat>, states: seq<nat>, b: BitString, groups: nat, k: nat)
    requires |freqs| == LIT_SYMBOLS && Sum(freqs) <= Pow2(LIT_LOG) && InRange(states)
    requires b.Valid() && k < 4 && b.len >= 10 * k
    ensures Closed(LIT_LOG, LIT_SYMBOLS, Spread(LIT_LOG, freqs))
    ensures var r := Decode(Spread(LIT_LOG, freqs), states, b, groups, k);
      r.Ok? ==>
        && Codable(freqs, r.value.lits) && InRange(r.value.states) && r.value.rest.Valid()
        && r.value.rest.len <= b.len
        && Encode(freqs, r.value.lits, r.value.states, r.value.rest) == (states, b)
    decreases groups, k
  {
    hide Pow2, Spread, Sum, PushLiteral, Literal;
    SpreadClosed(LIT_LOG, freqs);
    var table := Spread(LIT_LOG, freqs);
    if (k > 0 || groups > 0) && Decode(table, states, b, groups, k).Ok? {
      var (sym, next, rest) := Literal(table, states[0], b).value;
      var queue := states[1..] + [next];
      if k == 0 {
        DecodeEncode(freqs, queue, rest, groups - 1, 3);
      } else {
        DecodeEncode(freqs, queue, rest, groups, k - 1);
      }
      var more := if k == 0 then Decode(table, queue, rest, groups - 1, 3)
                  else Decode(table, queue, rest, groups, k - 1);
      EncodeOne(freqs, states, b, more.value);
    }
  }

  lemma EncodeOne(freqs: seq<nat>, states: seq<nat>, b: BitString, more: Literals)
    requires |freqs| == LIT_SYMBOLS && Sum(freqs) <= Pow2(LIT_LOG) && InRange(states) && b.Valid() && b.len >= 10
    requires Codable(freqs, more.lits) && InRange(more.states)
    requires Closed(LIT_LOG, LIT_SYMBOLS, Spread(LIT_LOG, freqs))
    requires var one := Literal(Spread(LIT_LOG, freqs), states[0], b);
      one.Ok? && Encode(freqs, more.lits, more.states, more.rest) == (states[1..] + [one.value.1], one.value.2)
    ensures var lits := [Literal(Spread(LIT_LOG, freqs), states[0], b).value.0] + more.lits;
      Codable(freqs, lits) && Encode(freqs, lits, more.states, more.rest) == (states, b)
  {
    hide Pow2, Spread, Sum, PushLiteral, Literal;
    var (sym, next, rest) := Literal(Spread(LIT_LOG, freqs), states[0], b).value;
    LiteralPushed(freqs, states[0], b);
    assert ([sym] + more.lits)[1..] == more.lits;
    assert [states[0], states[1], states[2], states[3]] == states;
  }

  lemma LiteralPushed(freqs: seq<nat>, state: nat, b: BitString)
    requires |freqs| == LIT_SYMBOLS && Sum(freqs) <= Pow2(LIT_LOG) && state < Pow2(LIT_LOG) && b.Valid() && b.len >= 10
    ensures Closed(LIT_LOG, LIT_SYMBOLS, Spread(LIT_LOG, freqs))
    ensures var one := Literal(Spread(LIT_LOG, freqs), state, b);
      one.Ok? ==>
        && Codable(freqs, [one.value.0])
        && PushLiteral(freqs, one.value.0, one.value.1, one.value.2) == (state, b)
  {
    hide Pow2, Spread, Sum, StateBefore, CellBefore, BitString.Push, BitString.Top, BitString.Rest;
    SpreadClosed(LIT_LOG, freqs);
    var table := Spread(LIT_LOG, freqs);
    if table[state].Some? {
      var c := table[state].value;
      assert CellFits(LIT_LOG, LIT_SYMBOLS, c);
      PullPush(b, c.bits);
      RoundTripStep(LIT_LOG, freqs, state, c.delta + b.Top(c.bits));
    }
  }

  /** Bits further down the buffer do not change what an encoder pushes. */
  lemma {:induction false} EncodeAbove(freqs: seq<nat>, lits: seq<byte>, final: seq<nat>, rest: BitString,
                                       low: BitString)
    requires Codable(freqs, lits) && InRange(final)
    ensures var e := Encode(freqs, lits, final, rest);
      Encode(freqs, lits, final, rest.Above(low)) == (e.0, e.1.Above(low))
    decreases |lits|
  {
    if lits != [] {
      EncodeAbove(freqs, lits[1..], final, rest, low);
      var e := Encode(freqs, lits[1..], final, rest);
      PushLiteralAbove(freqs, lits[0], e.0[3], e.1, low);
    }
  }

  lemma PushLiteralAbove(freqs: seq<nat>, sym: byte, next: nat, b: BitString, low: BitString)
    requires Codable(freqs, [sym]) && next < Pow2(LIT_LOG)
    ensures var p := PushLiteral(freqs, sym, next, b);
      PushLiteral(freqs, sym, next, b.Above(low)) == (p.0, p.1.Above(low))
  {
    hide Pow2, Sum, CellBefore, StateBefore, BitString.Push, BitString.Above;
    assert sym in [sym];
    DeltaBound(LIT_LOG, freqs, sym, next);
    var cell := CellBefore(LIT_LOG, freqs, sym, next);
    PushAbove(b, low, next - cell.delta, cell.bits);
  }

  lemma DeltaBound(n: nat, freqs: seq<nat>, sym: nat, next: nat)
    requires Sum(freqs) <= Pow2(n) && sym < |freqs| && freqs[sym] > 0 && next < Pow2(n)
    ensures CellBefore(n, freqs, sym, next).delta <= next
  {
    hide Pow2, Sum, Spread, CellBefore, StateBefore;
    StepRoundTrip(n, freqs, sym, next);
  }

  // ---- the loop ----

  /** What a decoder that has `lits` already makes of the result for the rest. */
  function After(lits: seq<byte>, r: Result<Literals>): Result<Literals>
  {
    if r.Raised? then Raised else Ok(r.value.(lits := lits + r.value.lits))
  }

  /** One literal taken off what is left to decode. */
  lemma Advance(whole: Result<Literals>, lits: seq<byte>, table: Table, s0: nat, s1: nat, s2: nat, s3: nat,
                b: BitString, groups: nat, k: nat)
    requires Closed(LIT_LOG, LIT_SYMBOLS, table) && InRange([s0, s1, s2, s3]) && b.Valid()
    requires 0 < k <= 4 && b.len >= 10 * k && (k == 4 ==> b.len >= 56)
    requires whole == After(lits, Pending(table, [s0, s1, s2, s3], b, groups, k))
    ensures var a := Literal(table, s0, b);
      && (a.Raised? ==> whole == Raised)
      && (a.Ok? ==>
            && InRange([s1, s2, s3, a.value.1])
            && whole == After(lits + [a.value.0], Decode(table, [s1, s2, s3, a.value.1], a.value.2, groups, k - 1)))
  {
    var a := Literal(table, s0, b);
    if a.Ok? {
      assert [s0, s1, s2, s3][1..] + [a.value.1] == [s1, s2, s3, a.value.1];
      var more := Decode(table, [s1, s2, s3, a.value.1], a.value.2, groups, k - 1);
      if more.Ok? {
        assert lits + ([a.value.0] + more.value.lits) == (lits + [a.value.0]) + more.value.lits;
      }
    }
  }

  /** What is to be decoded inside a group, of which four literals are left at its start. */
  function Pending(table: Table, states: seq<nat>, b: BitString, groups: nat, k: nat): Result<Literals>
    requires Closed(LIT_LOG, LIT_SYMBOLS, table) && InRange(states)
    requires b.Valid() && k <= 4 && b.len >= 10 * k
  {
    if k == 4 then Decode(table, states, b, groups + 1, 0) else Decode(table, states, b, groups, k)
  }

  /** One of the four stanzas of the loop: a table look-up and the pull written out inline. The
      test against `nb` cannot fail when ten bits are held. */
  method Stanza(table: Table, s0: nat, s1: nat, s2: nat, s3: nat, acc: nat, nb: nat,
                ghost buf: seq<byte>, ghost pos: nat, ghost whole: Result<Literals>, ghost lits: seq<byte>,
                ghost groups: nat, ghost k: nat)
    returns (r: Result<(byte, nat, nat, nat)>)
    requires Closed(LIT_LOG, LIT_SYMBOLS, table) && InRange([s0, s1, s2, s3])
    requires pos <= |buf| && acc < Pow2(nb) && 0 < k <= 4 && nb >= 10 * k && (k == 4 ==> nb >= 56)
    requires Left(buf, 0, pos, acc, nb).Valid()
    requires whole == After(lits, Pending(table, [s0, s1, s2, s3], Left(buf, 0, pos, acc, nb), groups, k))
    ensures r.Raised? ==> whole == Raised
    ensures r.Ok? ==>
      var (sym, next, acc', nb') := r.value;
      && nb - 10 <= nb' <= nb && acc' < Pow2(nb') && InRange([s1, s2, s3, next])
      && Left(buf, 0, pos, acc', nb').Valid()
      && whole == After(lits + [sym], Decode(table, [s1, s2, s3, next], Left(buf, 0, pos, acc', nb'), groups, k - 1))
  {
    Advance(whole, lits, table, s0, s1, s2, s3, Left(buf, 0, pos, acc, nb), groups, k);
    match table[s0] {
      case None => r := Raised;
      case Some(c) =>
        assert CellFits(LIT_LOG, LIT_SYMBOLS, c);
        if c.bits > nb {
          assert false;
        }
        Pulled(buf, 0, pos, acc, nb, c.bits);
        r := Ok((c.sym, c.delta + Shr(acc, nb - c.bits), Low(acc, nb - c.bits), nb - c.bits));
    }
  }

  lemma NoneLeft(table: Table, states: seq<nat>, b: BitString)
    requires Closed(LIT_LOG, LIT_SYMBOLS, table) && InRange(states) && b.Valid()
    ensures Decode(table, states, b, 0, 0) == Ok(Literals([], states, b))
  {
  }

  lemma GroupFits(table: Table, states: seq<nat>, b: BitString, groups: nat)
    requires Closed(LIT_LOG, LIT_SYMBOLS, table) && InRange(states) && b.Valid() && groups > 0
    ensures b.len < 56 ==> Decode(table, states, b, groups, 0) == Raised
  {
  }

  /** A group of four: the four stanzas, one after the other. */
  method Group(table: Table, s0: nat, s1: nat, s2: nat, s3: nat, acc0: nat, nb0: nat,
               ghost buf: seq<byte>, ghost pos: nat, ghost whole: Result<Literals>, lits: seq<byte>, ghost groups: nat)
    returns (r: Result<(seq<nat>, nat, nat, seq<byte>)>)
    requires Closed(LIT_LOG, LIT_SYMBOLS, table) && InRange([s0, s1, s2, s3])
    requires pos <= |buf| && acc0 < Pow2(nb0) && 56 <= nb0 <= 63 && Left(buf, 0, pos, acc0, nb0).Valid()
    requires whole == After(lits, Decode(table, [s0, s1, s2, s3], Left(buf, 0, pos, acc0, nb0), groups + 1, 0))
    ensures r.Raised? ==> whole == Raised
    ensures r.Ok? ==>
      var (states, acc, nb, more) := r.value;
      && InRange(states) && nb <= 63 && acc < Pow2(nb) && Left(buf, 0, pos, acc, nb).Valid()
      && whole == After(more, Decode(table, states, Left(buf, 0, pos, acc, nb), groups, 0))
  {
    hide Decode, Pow2, Closed, After, Left;
    var a := Stanza(table, s0, s1, s2, s3, acc0, nb0, buf, pos, whole, lits, groups, 4);
    if a.Raised? {
      return Raised;
    }
    var t0, acc, nb, more := a.value.1, a.value.2, a.value.3, lits + [a.value.0];
    a := Stanza(table, s1, s2, s3, t0, acc, nb, buf, pos, whole, more, groups, 3);
    if a.Raised? {
      return Raised;
    }
    var t1: nat;
    t1, acc, nb, more := a.value.1, a.value.2, a.value.3, more + [a.value.0];
    a := Stanza(table, s2, s3, t0, t1, acc, nb, buf, pos, whole, more, groups, 2);
    if a.Raised? {
      return Raised;
    }
    var t2: nat;
    t2, acc, nb, more := a.value.1, a.value.2, a.value.3, more + [a.value.0];
    a := Stanza(table, s3, t0, t1, t2, acc, nb, buf, pos, whole, more, groups, 1);
    if a.Raised? {
      return Raised;
    }
    r := Ok(([t0, t1, t2, a.value.1], a.value.2, a.value.3, more + [a.value.0]));
  }

  /** The literal loop of `_lzfse_block`: whole groups of four, however many literals the header
      asks for, from the payload that ends at `litEnd`. */
  method DecodeLoop(src: seq<byte>, litEnd: nat, litBits: int, litState: seq<nat>, nLit: nat, table: Table)
    returns (r: Result<seq<byte>>)
    requires litEnd <= |src| && Closed(LIT_LOG, LIT_SYMBOLS, table) && InRange(litState)
    ensures r == LiteralsOf(src, litEnd, litBits, litState, nLit, table)
  {
    hide Decode, Pow2, Closed;
    var bits := FseReader.Open(src, litEnd, 0, litBits);
    if bits.Raised? {
      return Raised;
    }
    var reader := bits.value;
    var acc: nat, nb: nat, bpos: nat := reader.accum, reader.nbits, reader.pos;
    var lits: seq<byte> := [];
    var s0, s1, s2, s3 := litState[0], litState[1], litState[2], litState[3];
    assert litState == [s0, s1, s2, s3];
    ghost var groups: nat := (nLit + 3) / 4;
    ghost var whole := Decode(table, litState, Stated(src, 0, litEnd, litBits), groups, 0);
    AfterNothing(whole);
    var i := 0;
    while i < nLit
      invariant i + 4 * groups == 4 * ((nLit + 3) / 4)
      invariant bpos <= |src| && nb <= 63 && acc < Pow2(nb)
      invariant InRange([s0, s1, s2, s3]) && Left(src, 0, bpos, acc, nb).Valid()
      invariant whole == After(lits, Decode(table, [s0, s1, s2, s3], Left(src, 0, bpos, acc, nb), groups, 0))
    {
      GroupFits(table, [s0, s1, s2, s3], Left(src, 0, bpos, acc, nb), groups);
      groups := groups - 1;
      var f := InlineFlush(src, 0, bpos, acc, nb);
      if f.Raised? {
        return Raised;
      }
      acc, nb, bpos := f.value.0, f.value.1, f.value.2;
      var four := Group(table, s0, s1, s2, s3, acc, nb, src, bpos, whole, lits, groups);
      if four.Raised? {
        return Raised;
      }
      s0, s1, s2, s3 := four.value.0[0], four.value.0[1], four.value.0[2], four.value.0[3];
      assert four.value.0 == [s0, s1, s2, s3];
      acc, nb, lits := four.value.1, four.value.2, four.value.3;
      i := i + 4;
    }
    NoneLeft(table, [s0, s1, s2, s3], Left(src, 0, bpos, acc, nb));
    assert groups == 0 && lits + [] == lits;
    r := Ok(lits);
  }

  lemma AfterNothing(r: Result<Literals>)
    ensures After([], r) == r
  {
    if r.Ok? {
      assert [] + r.value.lits == r.value.lits;
    }
  }

  /** The literals of a payload that ends at `litEnd`: as many groups of four as cover `nLit`. */
  function LiteralsOf(src: seq<byte>, litEnd: nat, litBits: int, litState: seq<nat>, nLit: nat, table: Table):
    Result<seq<byte>>
    requires litEnd <= |src| && Closed(LIT_LOG, LIT_SYMBOLS, table) && InRange(litState)
  {
    if !OpensAt(src, 0, litEnd, litBits) then Raised
    else
      var l :- Decode(table, litState, Stated(src, 0, litEnd, litBits), (nLit + 3) / 4, 0);
      Ok(l.lits)
  }
}
