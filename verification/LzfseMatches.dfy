/** The matches of an LZFSE block: literal count, match length and distance from three states over
    one stream, and what a list of them writes. */
module LzfseMatches {
  import opened Bits
  import opened Prelude
  import opened FseTable
  import opened FseBits
  import opened LzCopy
  import opened LzfseTables

  /** Copy `lit` literals, then `len` bytes from `dist` back; a `dist` of zero is the one before. */
  datatype Match = Match(lit: nat, len: nat, dist: nat)

  datatype States = States(l: nat, m: nat, d: nat) {
    ghost predicate InRange() { l < Pow2(L_LOG) && m < Pow2(M_LOG) && d < Pow2(D_LOG) }
  }

  datatype Tables = Tables(l: ValueTable, m: ValueTable, d: ValueTable) {
    ghost predicate Closed() { ValueClosed(L_LOG, 8, l) && ValueClosed(M_LOG, 11, m) && ValueClosed(D_LOG, 15, d) }
  }

  datatype Matches = Matches(list: seq<Match>, states: States, rest: BitString)

  /** One match. The three steps pull at most 6 + 8, 6 + 11 and 8 + 15 bits: 54 in all. */
  function Triple(tabs: Tables, st: States, b: BitString): (r: Result<(Match, States, BitString)>)
    requires tabs.Closed() && st.InRange() && b.Valid() && b.len >= 54
    ensures r.Ok? ==> r.value.1.InRange() && r.value.2.Valid() && r.value.2.len <= b.len
  {
    var l :- Value(L_LOG, 8, tabs.l, st.l, b);
    var m :- Value(M_LOG, 11, tabs.m, st.m, l.rest);
    var d :- Value(D_LOG, 15, tabs.d, st.d, m.rest);
    Ok((Match(l.value, m.value, d.value), States(l.next, m.next, d.next), d.rest))
  }

  /** `count` matches from `b`; before each, at least 56 bits must be left. */
  function Decode(tabs: Tables, st: States, b: BitString, count: nat): (r: Result<Matches>)
    requires tabs.Closed() && st.InRange() && b.Valid()
    ensures r.Ok? ==> |r.value.list| == count
    decreases count
  {
    if count == 0 then Ok(Matches([], st, b))
    else if b.len < 56 then Raised
    else
      var t :- Triple(tabs, st, b);
      var more :- Decode(tabs, t.1, t.2, count - 1);
      Ok(more.(list := [t.0] + more.list))
  }

  // ---- what matches write ----

  datatype Output = Output(used: nat, dist: int, out: seq<byte>)

  /** One match of `_lzfse_block`: a distance of zero repeats the last one (-1 before the first), the
      copy may not reach before the output nor past `cap`, and the literals must be there. */
  function Perform(m: Match, lits: seq<byte>, o: Output, cap: nat): (r: Result<Output>)
    requires o.used <= |lits|
    ensures r.Ok? ==> r.value.used == o.used + m.lit <= |lits| && o.out <= r.value.out
    ensures r.Ok? ==> |r.value.out| == |o.out| + m.lit + m.len <= cap
  {
    var dist := if m.dist != 0 then m.dist else o.dist;
    if o.used + m.lit > |lits| then Raised
    else if dist < 0 || dist > |o.out| + m.lit then Raised
    else if |o.out| + m.lit + m.len > cap then Raised
    else
      var out := o.out + lits[o.used..o.used + m.lit];
      if m.len == 0 then Ok(Output(o.used + m.lit, dist, out))
      else if dist == 0 then Raised
      else Ok(Output(o.used + m.lit, dist, CopyBytes(out, dist, m.len)))
  }

  function Execute(ms: seq<Match>, lits: seq<byte>, o: Output, cap: nat): (r: Result<Output>)
    requires o.used <= |lits|
    ensures r.Ok? ==> o.out <= r.value.out && (ms != [] ==> |r.value.out| <= cap)
    decreases |ms|
  {
    if ms == [] then Ok(o)
    else
      var next :- Perform(ms[0], lits, o, cap);
      Execute(ms[1..], lits, next, cap)
  }

  // ---- the encoder ----

  datatype Freqs = Freqs(l: seq<nat>, m: seq<nat>, d: seq<nat>) {
    ghost predicate Fits()
    {
      && |l| == L_SYMBOLS && Sum(l) <= Pow2(L_LOG)
      && |m| == M_SYMBOLS && Sum(m) <= Pow2(M_LOG)
      && |d| == D_SYMBOLS && Sum(d) <= Pow2(D_LOG)
    }

    function ToTables(): Tables
      requires Fits()
    {
      Tables(ValuesOf(L_LOG, l, L_BITS, L_BASE), ValuesOf(M_LOG, m, M_BITS, M_BASE), ValuesOf(D_LOG, d, D_BITS, D_BASE))
    }
  }

  function LSymbol(v: nat): (sym: nat) ensures sym < L_SYMBOLS { SymbolOf(L_BITS, L_BASE, v, 19) }
  function MSymbol(v: nat): (sym: nat) ensures sym < M_SYMBOLS { SymbolOf(M_BITS, M_BASE, v, 19) }
  function DSymbol(v: nat): (sym: nat) ensures sym < D_SYMBOLS { SymbolOf(D_BITS, D_BASE, v, 63) }

  /** The values are in the range the symbols cover, and their symbols have states. */
  ghost predicate Codable(freqs: Freqs, m: Match)
  {
    && freqs.Fits()
    && m.lit < 316 && freqs.l[LSymbol(m.lit)] > 0
    && m.len < 2360 && freqs.m[MSymbol(m.len)] > 0
    && m.dist < 262140 && freqs.d[DSymbol(m.dist)] > 0
  }

  lemma CodableCarries(freqs: Freqs, m: Match)
    requires Codable(freqs, m)
    ensures Carries(L_LOG, freqs.l, L_BITS, L_BASE, LSymbol(m.lit), m.lit)
    ensures Carries(M_LOG, freqs.m, M_BITS, M_BASE, MSymbol(m.len), m.len)
    ensures Carries(D_LOG, freqs.d, D_BITS, D_BASE, DSymbol(m.dist), m.dist)
  {
    LmdRanges();
    SymbolHolds(L_BITS, L_BASE, m.lit, 19, 316);
    SymbolHolds(M_BITS, M_BASE, m.len, 19, 2360);
    SymbolHolds(D_BITS, D_BASE, m.dist, 63, 262140);
  }

  lemma BitLimits()
    ensures forall i :: 0 <= i < |L_BITS| ==> L_BITS[i] <= 8
    ensures forall i :: 0 <= i < |M_BITS| ==> M_BITS[i] <= 11
    ensures forall i :: 0 <= i < |D_BITS| ==> D_BITS[i] <= 15
  {
  }

  lemma TablesClosed(freqs: Freqs)
    requires freqs.Fits()
    ensures freqs.ToTables().Closed()
  {
    hide Spread, Sum, Pow2;
    BitLimits();
    ValuesClosed(L_LOG, freqs.l, L_BITS, L_BASE, 8);
    ValuesClosed(M_LOG, freqs.m, M_BITS, M_BASE, 11);
    ValuesClosed(D_LOG, freqs.d, D_BITS, D_BASE, 15);
  }

  /** The encoder's step before the states `next`: the distance goes in first, the literal count
      last, so that the decoder meets them the other way round. */
  function PushMatch(freqs: Freqs, m: Match, next: States, b: BitString): (r: (States, BitString))
    requires Codable(freqs, m) && next.InRange()
    ensures r.0.InRange()
  {
    CodableCarries(freqs, m);
    var d := PushValue(D_LOG, freqs.d, D_BITS, D_BASE, DSymbol(m.dist), m.dist, next.d, b);
    var len := PushValue(M_LOG, freqs.m, M_BITS, M_BASE, MSymbol(m.len), m.len, next.m, d.1);
    var lit := PushValue(L_LOG, freqs.l, L_BITS, L_BASE, LSymbol(m.lit), m.lit, next.l, len.1);
    (States(lit.0, len.0, d.0), lit.1)
  }

  lemma PushMatchRoundTrip(freqs: Freqs, m: Match, next: States, b: BitString)
    requires Codable(freqs, m) && next.InRange() && b.Valid()
    ensures var p := PushMatch(freqs, m, next, b);
      && freqs.ToTables().Closed()
      && p.1.Valid() && b.len <= p.1.len <= b.len + 54
      && (p.1.len >= 56 ==> Triple(freqs.ToTables(), p.0, p.1) == Ok((m, next, b)))
  {
    hide Spread, Sum, Pow2, PushValue, Value, SymbolOf, ValuesOf;
    CodableCarries(freqs, m);
    TablesClosed(freqs);
    BitLimits();
    var d := PushValue(D_LOG, freqs.d, D_BITS, D_BASE, DSymbol(m.dist), m.dist, next.d, b);
    ValueRoundTrip(D_LOG, 15, freqs.d, D_BITS, D_BASE, DSymbol(m.dist), m.dist, next.d, b);
    var len := PushValue(M_LOG, freqs.m, M_BITS, M_BASE, MSymbol(m.len), m.len, next.m, d.1);
    ValueRoundTrip(M_LOG, 11, freqs.m, M_BITS, M_BASE, MSymbol(m.len), m.len, next.m, d.1);
    ValueRoundTrip(L_LOG, 8, freqs.l, L_BITS, L_BASE, LSymbol(m.lit), m.lit, next.l, len.1);
  }

  ghost predicate AllCodable(freqs: Freqs, ms: seq<Match>)
  {
    freqs.Fits() && forall i :: 0 <= i < |ms| ==> Codable(freqs, ms[i])
  }

  /** The states and bits that decode to `ms` and leave `final` and `rest`. */
  function Encode(freqs: Freqs, ms: seq<Match>, final: States, rest: BitString): (r: (States, BitString))
    requires AllCodable(freqs, ms) && final.InRange()
    ensures r.0.InRange()
    decreases |ms|
  {
    if ms == [] then (final, rest)
    else
      var e := Encode(freqs, ms[1..], final, rest);
      PushMatch(freqs, ms[0], e.0, e.1)
  }

  /** No flush runs out: the last match and what lies below it are at least 56 bits. */
  predicate Ample(freqs: Freqs, ms: seq<Match>, final: States, rest: BitString)
    requires AllCodable(freqs, ms) && final.InRange()
  {
    ms != [] ==> Encode(freqs, ms[|ms| - 1..], final, rest).1.len >= 56
  }

  /** Any codable matches are read back from what the encoder writes for them, unless the last of them
      runs out of bits. */
  lemma {:induction false} RoundTrip(freqs: Freqs, ms: seq<Match>, final: States, rest: BitString)
    requires AllCodable(freqs, ms) && final.InRange() && rest.Valid()
    ensures var e := Encode(freqs, ms, final, rest);
      && e.1.Valid() && rest.len <= e.1.len <= rest.len + 54 * |ms|
      && (ms != [] && Ample(freqs, ms, final, rest) ==> e.1.len >= 56)
      && freqs.ToTables().Closed()
      && Decode(freqs.ToTables(), e.0, e.1, |ms|)
         == if Ample(freqs, ms, final, rest) then Ok(Matches(ms, final, rest)) else Raised
    decreases |ms|
  {
    hide Pow2, Sum, PushMatch, Triple;
    TablesClosed(freqs);
    if ms != [] {
      RoundTrip(freqs, ms[1..], final, rest);
      var e := Encode(freqs, ms[1..], final, rest);
      PushMatchRoundTrip(freqs, ms[0], e.0, e.1);
      assert [ms[0]] + ms[1..] == ms;
      assert |ms| > 1 ==> ms[1..][|ms| - 2..] == ms[|ms| - 1..];
      assert |ms| == 1 ==> ms[|ms| - 1..] == ms;
    }
  }

  // ---- the loop ----

  /** One stanza of the loop: a look-up, the pull written out inline, and its two parts. The test
      against `nb` cannot fail when `n + most` bits are held. */
  method Stanza(n: nat, most: nat, table: ValueTable, state: nat, acc: nat, nb: nat, ghost buf: seq<byte>,
                ghost floor: nat, ghost pos: nat)
    returns (r: Result<(nat, nat, nat, nat)>)
    requires ValueClosed(n, most, table) && state < Pow2(n)
    requires floor <= pos <= |buf| && acc < Pow2(nb) && nb >= n + most
    ensures Left(buf, floor, pos, acc, nb).Valid()
    ensures r.Ok? ==> nb - (n + most) <= r.value.3 <= nb && r.value.2 < Pow2(r.value.3) && r.value.1 < Pow2(n)
    ensures Value(n, most, table, state, Left(buf, floor, pos, acc, nb)) ==
      if r.Raised? then Raised
      else Ok(Step(r.value.0, r.value.1, Left(buf, floor, pos, r.value.2, r.value.3)))
  {
    LeftValid(buf, floor, pos, acc, nb);
    match table[state] {
      case None => r := Raised;
      case Some(c) =>
        assert ValueFits(n, most, c);
        if c.total > nb {
          assert false;
        }
        Pulled(buf, floor, pos, acc, nb, c.total);
        var got := Shr(acc, nb - c.total);
        ShrBound(got, c.total - c.vbits, c.vbits);
        r := Ok((c.base + Low(got, c.vbits), c.delta + Shr(got, c.vbits), Low(acc, nb - c.total), nb - c.total));
    }
  }

  /** What a list still to be decoded will write. */
  function Resume(ms: Result<Matches>, lits: seq<byte>, o: Output, cap: nat): Result<Output>
    requires o.used <= |lits|
  {
    if ms.Raised? then Raised else Execute(ms.value.list, lits, o, cap)
  }

  lemma Advance(whole: Result<Output>, tabs: Tables, st: States, b: BitString, count: nat, lits: seq<byte>, o: Output,
                cap: nat)
    requires tabs.Closed() && st.InRange() && b.Valid() && o.used <= |lits| && count > 0
    requires whole == Resume(Decode(tabs, st, b, count), lits, o, cap)
    ensures b.len < 56 ==> whole == Raised
    ensures b.len >= 56 ==>
      var t := Triple(tabs, st, b);
      && (t.Raised? ==> whole == Raised)
      && (t.Ok? ==>
            var next := Perform(t.value.0, lits, o, cap);
            && (next.Raised? ==> whole == Raised)
            && (next.Ok? ==> whole == Resume(Decode(tabs, t.value.1, t.value.2, count - 1), lits, next.value, cap)))
  {
    hide Triple, Perform;
    if b.len >= 56 {
      var t := Triple(tabs, st, b);
      if t.Ok? {
        var more := Decode(tabs, t.value.1, t.value.2, count - 1);
        if more.Ok? {
          assert ([t.value.0] + more.value.list)[1..] == more.value.list;
        }
      }
    }
  }

  lemma NoneLeft(tabs: Tables, st: States, b: BitString, lits: seq<byte>, o: Output, cap: nat)
    requires tabs.Closed() && st.InRange() && b.Valid() && o.used <= |lits|
    ensures Resume(Decode(tabs, st, b, 0), lits, o, cap) == Ok(o)
  {
  }

  /** The output of a block's matches, from the payload `src[floor..end]`. */
  function MatchesOf(src: seq<byte>, floor: nat, end: nat, extra: int, st: States, count: nat, tabs: Tables,
                     lits: seq<byte>, out: seq<byte>, cap: nat): (r: Result<seq<byte>>)
    requires floor <= end <= |src| && tabs.Closed() && st.InRange()
    ensures r.Ok? ==> out <= r.value && (count > 0 ==> |r.value| <= cap)
  {
    if !OpensAt(src, floor, end, extra) then Raised
    else
      var o := Resume(Decode(tabs, st, Stated(src, floor, end, extra), count), lits, Output(0, -1, out), cap);
      if o.Raised? then Raised else Ok(o.value.out)
  }

  /** The match loop of `_lzfse_block`. */
  method MatchLoop(src: seq<byte>, floor: nat, end: nat, extra: int, st: States, count: nat, tabs: Tables,
                   lits: seq<byte>, out: ByteArray, cap: nat)
    returns (r: Result<()>)
    requires floor <= end <= |src| && tabs.Closed() && st.InRange()
    modifies out
    ensures old(out.data) <= out.data
    ensures MatchesOf(src, floor, end, extra, st, count, tabs, lits, old(out.data), cap)
         == if r.Ok? then Ok(out.data) else Raised
  {
    hide Decode, Execute, Pow2, Left, Stated, BitString.Valid, Tables.Closed, ValueClosed;
    var bits := FseReader.Open(src, end, floor, extra);
    if bits.Raised? {
      return Raised;
    }
    var acc: nat, nb: nat, bpos: nat := bits.value.accum, bits.value.nbits, bits.value.pos;
    var used: nat, dist := 0, -1;
    var lState, mState, dState := st.l, st.m, st.d;
    ghost var whole := Resume(Decode(tabs, st, Stated(src, floor, end, extra), count), lits,
                              Output(0, -1, out.data), cap);
    LeftValid(src, floor, bpos, acc, nb);
    for i := 0 to count
      invariant floor <= bpos <= |src| && nb <= 63 && acc < Pow2(nb) && used <= |lits|
      invariant States(lState, mState, dState).InRange() && Left(src, floor, bpos, acc, nb).Valid()
      invariant old(out.data) <= out.data
      invariant whole ==
        Resume(Decode(tabs, States(lState, mState, dState), Left(src, floor, bpos, acc, nb), count - i), lits,
               Output(used, dist, out.data), cap)
    {
      var one := MatchStep(src, floor, tabs, States(lState, mState, dState), lits, used, dist, acc, nb, bpos, out, cap,
                           whole, count - i);
      if one.Raised? {
        return Raised;
      }
      lState, mState, dState := one.value.st.l, one.value.st.m, one.value.st.d;
      used, dist, acc, nb, bpos := one.value.used, one.value.dist, one.value.acc, one.value.nb, one.value.bpos;
    }
    NoneLeft(tabs, States(lState, mState, dState), Left(src, floor, bpos, acc, nb), lits, Output(used, dist, out.data),
             cap);
    r := Ok(());
  }

  /** The loop's variables after one turn. */
  datatype Turn = Turn(st: States, used: nat, dist: int, acc: nat, nb: nat, bpos: nat)

  /** One turn of the match loop. */
  method MatchStep(src: seq<byte>, floor: nat, tabs: Tables, st: States, lits: seq<byte>, used0: nat, dist0: int,
                   acc0: nat, nb0: nat, bpos0: nat, out: ByteArray, cap: nat, ghost whole: Result<Output>,
                   ghost count: nat)
    returns (r: Result<Turn>)
    requires tabs.Closed() && st.InRange() && used0 <= |lits| && count > 0
    requires floor <= bpos0 <= |src| && nb0 <= 63 && acc0 < Pow2(nb0) && Left(src, floor, bpos0, acc0, nb0).Valid()
    requires whole == Resume(Decode(tabs, st, Left(src, floor, bpos0, acc0, nb0), count), lits,
                             Output(used0, dist0, out.data), cap)
    modifies out
    ensures old(out.data) <= out.data
    ensures r.Raised? ==> whole == Raised
    ensures r.Ok? ==> var t := r.value;
      && t.st.InRange() && t.used <= |lits|
      && floor <= t.bpos <= |src| && t.nb <= 63 && t.acc < Pow2(t.nb) && Left(src, floor, t.bpos, t.acc, t.nb).Valid()
      && whole == Resume(Decode(tabs, t.st, Left(src, floor, t.bpos, t.acc, t.nb), count - 1), lits,
                         Output(t.used, t.dist, out.data), cap)
  {
    hide Value, Decode, Execute, Pow2, Left;
    Advance(whole, tabs, st, Left(src, floor, bpos0, acc0, nb0), count, lits, Output(used0, dist0, out.data), cap);
    var f := InlineFlush(src, floor, bpos0, acc0, nb0);
    if f.Raised? {
      return Raised;
    }
    var acc, nb, bpos := f.value.0, f.value.1, f.value.2;
    var l := Stanza(L_LOG, 8, tabs.l, st.l, acc, nb, src, floor, bpos);
    if l.Raised? {
      return Raised;
    }
    var lit := l.value.0;
    var m := Stanza(M_LOG, 11, tabs.m, st.m, l.value.2, l.value.3, src, floor, bpos);
    if m.Raised? {
      return Raised;
    }
    var length := m.value.0;
    var d := Stanza(D_LOG, 15, tabs.d, st.d, m.value.2, m.value.3, src, floor, bpos);
    if d.Raised? {
      return Raised;
    }
    LeftValid(src, floor, bpos, d.value.2, d.value.3);
    var written := WriteMatch(lit, length, d.value.0, lits, used0, dist0, out, cap);
    if written.Raised? {
      return Raised;
    }
    r := Ok(Turn(States(l.value.1, m.value.1, d.value.1), written.value.0, written.value.1, d.value.2, d.value.3,
                 bpos));
  }

  /** A match, test by test. */
  lemma PerformIs(m: Match, lits: seq<byte>, o: Output, cap: nat)
    requires o.used <= |lits|
    ensures
      var dist := if m.dist != 0 then m.dist else o.dist;
      var r := Perform(m, lits, o, cap);
      if o.used + m.lit > |lits| || dist < 0 || dist > |o.out| + m.lit || |o.out| + m.lit + m.len > cap then r == Raised
      else
        var out := o.out + lits[o.used..o.used + m.lit];
        && (m.len == 0 ==> r == Ok(Output(o.used + m.lit, dist, out)))
        && (m.len != 0 && dist == 0 ==> r == Raised)
        && (m.len != 0 && dist != 0 ==> r == Ok(Output(o.used + m.lit, dist, CopyBytes(out, dist, m.len))))
  {
    hide CopyBytes;
  }

  /** What the turn does once its three values are read. */
  method WriteMatch(lit: nat, length: nat, newD: nat, lits: seq<byte>, used0: nat, dist0: int, out: ByteArray, cap: nat)
    returns (r: Result<(nat, int)>)
    requires used0 <= |lits|
    modifies out
    ensures old(out.data) <= out.data
    ensures Perform(Match(lit, length, newD), lits, Output(used0, dist0, old(out.data)), cap)
         == if r.Ok? then Ok(Output(r.value.0, r.value.1, out.data)) else Raised
  {
    hide Perform, CopyBytes;
    PerformIs(Match(lit, length, newD), lits, Output(used0, dist0, out.data), cap);
    var dist := if newD != 0 then newD else dist0;
    var used, olen := used0, |out.data|;
    if used + lit > |lits| {
      return Raised;
    }
    if dist < 0 || dist > olen + lit {
      return Raised;
    }
    if olen + lit + length > cap {
      return Raised;
    }
    ghost var copied := out.data + lits[used..used + lit];
    if lit != 0 {
      out.data := out.data + lits[used..used + lit];
      used, olen := used + lit, olen + lit;
    }
    assert out.data == copied;
    if length != 0 {
      if dist == 0 {
        return Raised;
      }
      if dist >= length {
        var at := olen - dist;
        BlockCopy(out.data, dist, length);
        out.data := out.data + out.data[at..at + length];
      } else {
        var done := CopyMatch(out, dist, length);
        if done.Raised? {
          assert false;
        }
      }
    }
    r := Ok((used, dist));
  }
}
