/** A bvx2 stream whose literal payload is empty, so that its literals are read from the header: it
    decompresses to other bytes once `v2_to_v1` has rewritten that header. */
module RewriteDiffers {
  import opened Bits
  import opened Prelude
  import opened FseTable
  import opened FseBits
  import opened LzfseTables
  import opened LzfseMatches
  import opened LzfseHeader
  import opened LzfseBlock
  import opened LzfseEncode
  import opened LzfseStream
  import opened RewrittenStream
  import FreqCode
  import Lit = LzfseLiterals

  // ---- the block ----

  /** All states for one symbol. */
  function Only(n: nat, sym: nat, states: nat): (f: seq<nat>)
    ensures |f| == n
  {
    seq(n, i => if i == sym then states else 0)
  }

  lemma {:induction false} OnlySum(n: nat, sym: nat, states: nat, i: nat)
    requires i <= n
    ensures Sum(Only(n, sym, states)[..i]) == if sym < i then states else 0
  {
    if i > 0 {
      OnlySum(n, sym, states, i - 1);
      assert Only(n, sym, states)[..i][..i - 1] == Only(n, sym, states)[..i - 1];
    }
  }

  /** Literal 0 has one state, the first, which pulls ten bits; literal 255 has all others. */
  function LitFreqsHere(): (f: seq<nat>)
    ensures |f| == LIT_SYMBOLS && f[255] == 1023 && f[0] == 1
  {
    seq(256, i => if i == 0 then 1 else if i == 255 then 1023 else 0)
  }

  lemma {:induction false} LitSum(i: nat)
    requires i <= 256
    ensures Sum(LitFreqsHere()[..i]) == if i == 0 then 0 else if i < 256 then 1 else 1024
  {
    if i > 0 {
      LitSum(i - 1);
      assert LitFreqsHere()[..i][..i - 1] == LitFreqsHere()[..i - 1];
    }
  }

  const FREQS: Freqs := Freqs(Only(20, 8, 64), Only(20, 0, 64), Only(64, 1, 256))
  const MATCH: Match := Match(8, 0, 1)

  function Eight(): (s: seq<byte>)
    ensures |s| == 8 && forall x :: x in s ==> x == 0
  {
    Zeros(8)
  }

  const NO_STATES: seq<nat> := [0, 0, 0, 0]
  const ZEROS: BitString := BitString(0, 64)
  const CONTENT: Content :=
    Content(FREQS, LitFreqsHere(), Eight(), 8, [MATCH], NO_STATES, ZEROS, States(0, 0, 0), ZEROS)

  lemma StartValid()
    ensures ZEROS.Valid() && Lit.InRange(NO_STATES) && States(0, 0, 0).InRange()
  {
  }

  lemma Sums()
    ensures FREQS.Fits() && Sum(LitFreqsHere()) == 1024 == Pow2(LIT_LOG)
  {
    hide Pow2, Sum;
    Pow2Small();
    OnlySum(20, 8, 64, 20);
    OnlySum(20, 0, 64, 20);
    OnlySum(64, 1, 256, 64);
    LitSum(256);
    assert Only(20, 8, 64)[..20] == Only(20, 8, 64) && Only(20, 0, 64)[..20] == Only(20, 0, 64);
    assert Only(64, 1, 256)[..64] == Only(64, 1, 256) && LitFreqsHere()[..256] == LitFreqsHere();
  }

  lemma {:induction false} SymbolIs(vbits: seq<nat>, vbase: seq<nat>, v: nat, sym: nat, from: nat)
    requires |vbits| == |vbase| && sym <= from < |vbase| && vbase[0] == 0 && vbase[sym] <= v
    requires forall i :: sym < i < |vbase| ==> vbase[i] > v
    ensures SymbolOf(vbits, vbase, v, from) == sym
  {
    if from > sym {
      SymbolIs(vbits, vbase, v, sym, from - 1);
    }
  }

  lemma BasesAbove()
    ensures forall i :: 1 < i < 64 ==> D_BASE[i] > 1
  {
    assert D_BASE_0[1] == 1 && (forall i :: 2 <= i < 16 ==> D_BASE_0[i] > 1);
  }

  lemma SymbolsHere()
    ensures LSymbol(8) == 8 && MSymbol(0) == 0 && DSymbol(1) == 1
  {
    BasesAbove();
    SymbolIs(L_BITS, L_BASE, 8, 8, 19);
    SymbolIs(M_BITS, M_BASE, 0, 0, 19);
    SymbolIs(D_BITS, D_BASE, 1, 1, 63);
  }

  lemma ContentValid()
    ensures CONTENT.Valid()
  {
    hide Pow2, Sum, LSymbol, MSymbol, DSymbol, LitCode, LmdCode, Bytes;
    Sums();
    SymbolsHere();
    StartValid();
    assert Codable(FREQS, MATCH);
    EnoughBelow(FREQS, [MATCH], States(0, 0, 0), ZEROS);
    FewBytes(CONTENT);
  }

  lemma EnoughBelow(freqs: Freqs, ms: seq<Match>, final: States, rest: BitString)
    requires AllCodable(freqs, ms) && final.InRange() && rest.Valid() && rest.len >= 56
    ensures Ample(freqs, ms, final, rest) && Encode(freqs, ms, final, rest).1.len >= 56
  {
    hide Pow2, Encode, Decode, Sum;
    RoundTrip(freqs, ms, final, rest);
    if ms != [] {
      RoundTrip(freqs, ms[|ms| - 1..], final, rest);
    }
  }

  /** Eight literals and one match fit in the payloads a header can state. */
  lemma FewBytes(c: Content)
    requires c.Coded() && |c.lits| == 8 && |c.matches| == 1 && c.litRest == c.lmdRest == ZEROS
    ensures c.Valid()
  {
    hide LitCode, LmdCode, Content.Coded, Pow2;
    CodeSizes(c);
    BigPowers();
  }

  ghost predicate Full(table: Table)
  {
    Closed(LIT_LOG, LIT_SYMBOLS, table)
    && forall s :: 0 <= s < |table| ==> table[s].Some? && (table[s].value.sym == 0 || table[s].value.sym == 255)
  }

  /** The table: ten bits are pulled at the first state, and no state is without a symbol. */
  lemma TableHere(f: seq<nat>)
    requires f == LitFreqsHere() && Sum(f) == 1024 == Pow2(LIT_LOG)
    ensures Full(Spread(LIT_LOG, f)) && |Spread(LIT_LOG, f)| == 1024
    ensures Spread(LIT_LOG, f)[0] == Some(Cell(0, 10, 0))
    ensures forall s :: 0 < s < 1024 ==> Spread(LIT_LOG, f)[s].Some? && Spread(LIT_LOG, f)[s].value.sym == 255
  {
    hide Pow2, Sum, Spread, CellOf;
    SpreadClosed(LIT_LOG, f);
    FirstCell(LIT_LOG);
    assert f[..0] == [];
    NoSum();
    SpreadAt(LIT_LOG, f, 0, 0);
    forall s | 0 < s < 1024
      ensures var t := Spread(LIT_LOG, f); t[s].Some? && t[s].value.sym == 255
    {
      OwnedState(f, s);
    }
  }

  lemma NoSum()
    ensures Sum([]) == 0
  {
  }

  lemma FirstCell(n: nat)
    ensures CellOf(n, 0, 1, 0) == Cell(0, n, 0)
  {
    ShlOne(n);
    assert BitLength(1) == 1;
  }

  lemma OwnedState(f: seq<nat>, s: nat)
    requires f == LitFreqsHere() && Sum(f) == 1024 == Pow2(LIT_LOG) && 0 < s < 1024
    ensures var t := Spread(LIT_LOG, f); t[s].Some? && t[s].value.sym == 255
  {
    hide Pow2, Sum;
    var sym, j := OwnedIs(LIT_LOG, f, s);
    if sym == 0 {
      assert f[..0] == [];
      NoSum();
    }
    CellSym(sym, f[sym], j);
  }

  lemma CellSym(sym: nat, f: nat, j: nat)
    requires 0 < f <= Pow2(LIT_LOG) && j < f
    ensures CellOf(LIT_LOG, sym, f, j).sym == sym
  {
  }

  // ---- its literals ----

  lemma {:induction false} FullDecodes(table: Table, states: seq<nat>, b: BitString, groups: nat, k: nat)
    requires Full(table) && Lit.InRange(states) && b.Valid() && k < 4 && b.len >= 56 + 40 * groups + 10 * k
    ensures var l := Lit.Decode(table, states, b, groups, k);
      l.Ok? && forall x :: x in l.value.lits ==> x == 0 || x == 255
    decreases groups, k
  {
    hide Pow2;
    if groups + k > 0 {
      var one := Lit.Literal(table, states[0], b).value;
      if k == 0 {
        FullDecodes(table, states[1..] + [one.1], one.2, groups - 1, 3);
      } else {
        FullDecodes(table, states[1..] + [one.1], one.2, groups, k - 1);
      }
    }
  }

  lemma AfterOne(table: Table, states: seq<nat>, b: BitString, groups: nat, k: nat)
    requires Full(table) && Lit.InRange(states) && b.Valid() && k < 4 && b.len >= 56 + 40 * groups + 10 * k
    requires groups + k > 0
    ensures Lit.Literal(table, states[0], b).Ok? && Lit.Decode(table, states, b, groups, k).Ok?
    ensures var one, l := Lit.Literal(table, states[0], b).value, Lit.Decode(table, states, b, groups, k).value;
      && one.2.len >= b.len - 10 && Lit.InRange(states[1..] + [one.1])
      && var more := if k == 0 then Lit.Decode(table, states[1..] + [one.1], one.2, groups - 1, 3)
                     else Lit.Decode(table, states[1..] + [one.1], one.2, groups, k - 1);
         more.Ok? && l.lits == [one.0] + more.value.lits
  {
    hide Pow2;
    FullDecodes(table, states, b, groups, k);
  }

  /** The fifth literal is the one of the state the first ten bits name. */
  lemma FifthLiteral(table: Table, b: BitString)
    requires Full(table) && b.Valid() && b.len >= 136 && table[0] == Some(Cell(0, 10, 0))
    ensures Lit.InRange(NO_STATES) && b.Top(10) < |table|
    ensures var l := Lit.Decode(table, NO_STATES, b, 2, 0);
      && l.Ok? && |l.value.lits| == 8 && (forall x :: x in l.value.lits ==> x == 0 || x == 255)
      && l.value.lits[4] == table[b.Top(10)].value.sym
  {
    hide Pow2, Lit.Decode, Lit.Literal;
    StartValid();
    FullDecodes(table, NO_STATES, b, 2, 0);
    AfterOne(table, NO_STATES, b, 2, 0);
    FirstStep(table, b);
    var t, b1 := b.Top(10), Lit.Literal(table, 0, b).value.2;
    assert NO_STATES[1..] + [t] == [0, 0, 0, t];
    AfterOne(table, [0, 0, 0, t], b1, 1, 3);
    var (_, u, b2) := Lit.Literal(table, 0, b1).value;
    assert [0, 0, 0, t][1..] + [u] == [0, 0, t, u];
    AfterOne(table, [0, 0, t, u], b2, 1, 2);
    var (_, v, b3) := Lit.Literal(table, 0, b2).value;
    assert [0, 0, t, u][1..] + [v] == [0, t, u, v];
    AfterOne(table, [0, t, u, v], b3, 1, 1);
    var (_, w, b4) := Lit.Literal(table, 0, b3).value;
    assert [0, t, u, v][1..] + [w] == [t, u, v, w];
    AfterOne(table, [t, u, v, w], b4, 1, 0);
    SymbolOfState(table, t, b4);
  }

  lemma FirstStep(table: Table, b: BitString)
    requires Full(table) && b.Valid() && b.len >= 10 && table[0] == Some(Cell(0, 10, 0))
    ensures Lit.Literal(table, 0, b).Ok? && Lit.Literal(table, 0, b).value.1 == b.Top(10) < |table|
  {
    assert CellFits(LIT_LOG, LIT_SYMBOLS, table[0].value);
    PullPush(b, 10);
  }

  lemma SymbolOfState(table: Table, state: nat, b: BitString)
    requires Full(table) && state < |table| && b.Valid() && b.len >= 10
    ensures Lit.Literal(table, state, b).Ok? && Lit.Literal(table, state, b).value.0 == table[state].value.sym
  {
  }

  // ---- the two streams ----

  /** Eight literals over the table above, and one match that takes them all. */
  ghost predicate Small(c: Content)
  {
    && c.Valid() && c.litFreqs == LitFreqsHere() && |c.lits| == c.nLit == 8 && c.matches == [MATCH]
    && c.litRest == c.lmdRest == ZEROS
  }

  /** A header whose literals have no payload and start from the first state. */
  function Emptied(h: Header): Header { h.(litPayload := 0, litBits := 0, litState := NO_STATES) }

  lemma EmptiedOk(h: Header, size: nat)
    requires Packable(h) && Checked(h.(size := size)) && TablesFit(h.(size := size))
    ensures Packable(Emptied(h))
    ensures var g, e := h.(size := size), Emptied(h).(size := size);
      && WellFormed(e) && Checked(e) && TablesFit(e) && FreqsOf(e) == FreqsOf(g) && LitFreqs(e) == LitFreqs(g)
  {
    hide Sum, Pow2, FreqCode.Packable;
    StartValid();
    ZeroFits(10);
    ZeroFits(20);
  }

  lemma ZeroFits(n: nat)
    ensures 0 < Pow2(n)
  {
  }

  function HeaderHere(c: Content): Header
    requires c.Valid()
  {
    Emptied(HeaderOf(c))
  }

  lemma HeaderHereIs(c: Content, size: nat)
    requires c.Valid()
    ensures Packable(HeaderHere(c))
    ensures var h := HeaderHere(c).(size := size);
      && WellFormed(h) && Checked(h) && TablesFit(h) && FreqsOf(h) == c.freqs && LitFreqs(h) == c.litFreqs
  {
    hide Pow2, Sum, HeaderOf, Packable, Checked, TablesFit, FreqsOf, LitFreqs, Content.Valid, Content.Coded;
    HeaderPackable(c);
    HeaderAccepted(c, size);
    EmptiedOk(HeaderOf(c), size);
  }

  lemma CountsHere(c: Content)
    requires Small(c)
    ensures var h := HeaderHere(c);
      && h.raw == 8 && h.nLit == 8 && h.nMatch == 1 && h.lmdBits == Spare(LmdCode(c).1) && h.st == LmdCode(c).0
      && h.lmdPayload == |Bytes(LmdCode(c).1)| && |h.freqs| == 360 && h.freqs[359] == 1023
      && h.litPayload == 0 && h.litBits == 0 && h.litState == NO_STATES
  {
    hide Bytes, Spare, LmdCode, LitCode, Sum, Pow2;
    OneMatch();
    hide Written;
    assert HeaderOf(c).freqs[359] == c.litFreqs[255];
  }

  lemma OneMatch()
    ensures Written([MATCH]) == 8
  {
    assert Written([MATCH][1..]) == 0;
  }

  function HereHead(c: Content, v2: bool): (s: seq<byte>)
    requires c.Valid()
    ensures |s| >= 4 && s[..4] == if v2 then MAGIC_V2 else MAGIC_V1
  {
    HeaderHereIs(c, 0);
    if v2 then EncodeV2(HeaderHere(c)) else EncodeV1(HeaderHere(c))
  }

  /** The stream: its one block under either header, and the end marker. */
  function Here(c: Content, v2: bool): (s: seq<byte>)
    requires c.Valid()
  {
    HereHead(c, v2) + Bytes(LmdCode(c).1) + MAGIC_END
  }

  lemma TopZero(b: BitString)
    requires b.len >= 10 && b.value < Pow2(b.len - 10)
    ensures b.Top(10) == 0
  {
    ShrBound(b.value, 0, b.len - 10);
  }

  lemma TopSome(b: BitString)
    requires b.len >= 10 && b.value >= Pow2(b.len - 10)
    ensures b.Top(10) > 0
  {
    Split(b.value, b.len - 10);
    ShlZero(b.len - 10);
  }

  /** The bytes of a bvx1 header end in zeros. */
  lemma PlainTop(h: Header, rest: seq<byte>)
    requires Packable(h)
    ensures var b := Stated(EncodeV1(h) + rest, 0, V1_SIZE, 0);
      b.Valid() && b.Top(10) == 0
  {
    hide Pow2, LeValue, Shl, Struct.Pack;
    var e := EncodeV1(h);
    EndsInZeros(h);
    assert (e + rest)[0..V1_SIZE] == e == e[..770] + Zeros(2);
    LeValueBound(e);
    LeValueBound(e[..770]);
    LeValueConcat(e[..770], Zeros(2));
    ZeroValue();
    ShlZero(8 * 770);
    Pow2Mono(8 * 770, 8 * V1_SIZE - 10);
    TopZero(BitString(LeValue(e), 8 * V1_SIZE));
  }

  lemma EndsInZeros(h: Header)
    requires Packable(h)
    ensures EncodeV1(h)[770..] == Zeros(2)
  {
    hide Struct.Pack, Pow2;
    V1Widths();
  }

  lemma ZeroValue()
    ensures LeValue(Zeros(2)) == 0
  {
    assert Zeros(2)[1..] == Zeros(1) && Zeros(1)[1..] == [];
  }

  lemma CodeOf1023()
    ensures var c := FreqCode.Code(1023).Bits();
      c.len == 14 && c.value == 15999 >= Pow2(13)
  {
    hide Pow2;
    Pow2Small();
    var c := FreqCode.Code(1023).Bits();
    assert c.value == Shl(999, 4) + 15;
    assert Shl(999, 2) == 3996;
  }

  lemma EncodeLast(v: nat)
    requires v <= 1047
    ensures FreqCode.Encode([v]) == FreqCode.Code(v).Bits()
  {
    hide FreqCode.Code, FreqCode.Coded.Bits;
    ShlZero(FreqCode.Code(v).Bits().len);
    assert [v][1..] == [];
  }

  lemma EncodeNext(freqs: seq<nat>)
    requires FreqCode.Packable(freqs) && freqs != []
    ensures FreqCode.Encode(freqs) == FreqCode.Encode(freqs[1..]).Above(FreqCode.Code(freqs[0]).Bits())
  {
  }

  lemma AboveTop(b: BitString, low: BitString)
    requires b.len > 0 && b.value >= Pow2(b.len - 1)
    ensures b.Above(low).value >= Pow2(b.Above(low).len - 1)
  {
    ShlMono(Pow2(b.len - 1), b.value, low.len);
    Pow2Plus(b.len - 1, low.len);
  }

  /** The packed frequencies end in the top bit of the last one's code. */
  lemma {:induction false} CodeTop(freqs: seq<nat>)
    requires FreqCode.Packable(freqs) && freqs != [] && freqs[|freqs| - 1] == 1023
    ensures FreqCode.Encode(freqs).value >= Pow2(FreqCode.Encode(freqs).len - 1)
  {
    hide Pow2, Shl, FreqCode.Code, FreqCode.Coded.Bits, FreqCode.Encode, BitString.Above;
    if |freqs| == 1 {
      CodeOf1023();
      EncodeLast(1023);
      assert freqs == [1023];
    } else {
      CodeTop(freqs[1..]);
      EncodeNext(freqs);
      AboveTop(FreqCode.Encode(freqs[1..]), FreqCode.Code(freqs[0]).Bits());
    }
  }

  lemma PackedTop(h: Header, rest: seq<byte>)
    requires Packable(h) && h.freqs[359] == 1023
    ensures var b := Stated(EncodeV2(h) + rest, 0, |EncodeV2(h)|, 0);
      b.Valid() && b.Top(10) > 0 && b.len >= 136
  {
    hide Pow2, LeValue, Shl, Struct.Pack, FreqCode.Encode, LeBytes, PackBits;
    var e, f := EncodeV2(h), FreqCode.Encode(h.freqs);
    var n := (f.len + 7) / 8;
    assert (e + rest)[0..|e|] == e == e[..32] + e[32..];
    assert e[32..] == LeBytes(f.value, n);
    LeValueBound(e);
    LeValueConcat(e[..32], e[32..]);
    Pow2Mono(f.len, 8 * n);
    LeRoundTrip(f.value, n);
    CodeTop(h.freqs);
    Pow2Mono(8 * n - 8, f.len - 1);
    ShlMono(Pow2(8 * n - 8), f.value, 8 * 32);
    Pow2Plus(8 * n - 8, 8 * 32);
    Pow2Mono(8 * |e| - 10, 8 * |e| - 8);
    TopSome(BitString(LeValue(e), 8 * |e|));
  }

  lemma StatedTop(c: Content, v2: bool)
    requires Small(c)
    ensures var b := Stated(Here(c, v2), 0, |HereHead(c, v2)|, 0);
      b.Valid() && b.len >= 136 && (b.Top(10) > 0 <==> v2)
  {
    hide LmdCode, Bytes, HeaderOf, EncodeV1, EncodeV2, LeValue, Content.Valid, Content.Coded, Packable;
    HeaderHereIs(c, 0);
    CountsHere(c);
    ValidCoded(c);
    var rest := Bytes(LmdCode(c).1) + MAGIC_END;
    assert Here(c, v2) == HereHead(c, v2) + rest;
    if v2 {
      PackedTop(HeaderHere(c), rest);
    } else {
      PlainTop(HeaderHere(c), rest);
    }
  }

  lemma LiteralsHere(c: Content, v2: bool) returns (lits: seq<byte>)
    requires Small(c) && Closed(LIT_LOG, LIT_SYMBOLS, Spread(LIT_LOG, c.litFreqs)) && Lit.InRange(NO_STATES)
    ensures Lit.LiteralsOf(Here(c, v2), |HereHead(c, v2)|, 0, NO_STATES, 8, Spread(LIT_LOG, c.litFreqs)) == Ok(lits)
    ensures |lits| == 8 && (forall x :: x in lits ==> x == 0 || x == 255) && lits[4] == if v2 then 255 else 0
  {
    hide LmdCode, Bytes, HeaderOf, HereHead, Lit.Decode, Spread, Pow2, Sum, Content.Valid, Content.Coded;
    Sums();
    TableHere(c.litFreqs);
    StatedTop(c, v2);
    var b := Stated(Here(c, v2), 0, |HereHead(c, v2)|, 0);
    FifthLiteral(Spread(LIT_LOG, c.litFreqs), b);
    lits := Lit.Decode(Spread(LIT_LOG, c.litFreqs), NO_STATES, b, 2, 0).value.lits;
  }

  /** The same content with the literals that are read. */
  lemma Reread(c: Content, lits: seq<byte>)
    requires Small(c) && |lits| == 8 && forall x :: x in lits ==> x == 0 || x == 255
    ensures c.(lits := lits).Valid() && LmdCode(c.(lits := lits)) == LmdCode(c)
  {
    hide Pow2, Sum, Lit.Encode, Encode, Bytes;
    FewBytes(c.(lits := lits));
  }

  lemma Taken(lits: seq<byte>)
    requires |lits| == 8
    ensures Execute([MATCH], lits, Output(0, -1, []), 8) == Ok(Output(8, 1, lits))
  {
    assert [] + lits[0..8] == lits;
    assert Execute([MATCH][1..], lits, Output(8, 1, lits), 8) == Ok(Output(8, 1, lits));
  }

  lemma BlockHere(c: Content, v2: bool) returns (lits: seq<byte>)
    requires Small(c)
    ensures |lits| == 8 && lits[4] == if v2 then 255 else 0
    ensures Block(Here(c, v2), 0, [], 8, v2) == Ok((lits, |Here(c, v2)| - 4))
  {
    hide LmdCode, Bytes, HeaderOf, EncodeV1, EncodeV2, Lit.LiteralsOf, MatchesOf, Payload, Spread, Pow2, Sum, ParseV1,
         ParseV2, Content.Valid, Content.Coded, HeaderHere, Checked, TablesFit, Packable, Execute;
    var e := HereHead(c, v2);
    ValidCoded(c);
    var h, body := HeaderHere(c).(size := |e|), Bytes(LmdCode(c).1);
    HeaderHereIs(c, |e|);
    CountsHere(c);
    StartValid();
    Sums();
    SpreadClosed(LIT_LOG, c.litFreqs);
    lits := LiteralsHere(c, v2);
    Reread(c, lits);
    MatchesRead(e, c.(lits := lits), MAGIC_END, [], 8);
    Taken(lits);
    TablesClosed(c.freqs);
    assert [] + e + (body + MAGIC_END) == Here(c, v2);
    V1RoundTrip([], HeaderHere(c), body + MAGIC_END);
    V2RoundTrip([], HeaderHere(c), body + MAGIC_END);
    PayloadIs(Here(c, v2), 0, [], 8, h, lits, Ok(lits));
  }

  lemma StreamHere(c: Content, v2: bool) returns (lits: seq<byte>)
    requires Small(c)
    ensures |lits| == 8 && lits[4] == if v2 then 255 else 0
    ensures Decompress(Here(c, v2), 0, [], 8) == Ok(lits)
  {
    hide LmdCode, Bytes, HereHead, Block, OneBlock, Decompress, Content.Valid, Content.Coded;
    lits := BlockHere(c, v2);
    var s := Here(c, v2);
    HereMagic(c, v2);
    FirstBlock(s, v2, [], 8);
    DecompressStep(s, 0, [], 8);
    CutShort(s, |s| - 4, lits, 8);
  }

  lemma HereMagic(c: Content, v2: bool)
    requires c.Valid()
    ensures var s := Here(c, v2);
      && |s| >= 8 && s[..4] == (if v2 then MAGIC_V2 else MAGIC_V1)
      && s[|s| - 4..|s| - 4 + 4] == MAGIC_END
  {
    hide LmdCode, Bytes, Content.Valid, Content.Coded, HereHead;
    assert Here(c, v2)[..4] == HereHead(c, v2)[..4];
  }

  /** The header of the packed stream, as it parses. */
  lemma ParsedHere(c: Content)
    requires c.Valid()
    ensures var s := Here(c, true);
      && Packable(HeaderHere(c)) && |s| >= 4 && s[..4] == MAGIC_V2
      && ParseV2(s, 0) == Ok(HeaderHere(c).(size := |HereHead(c, true)|))
  {
    hide LmdCode, Bytes, Content.Valid, Content.Coded, HeaderHere, EncodeV1, EncodeV2, ParseV2, Packable;
    HereMagic(c, true);
    HeaderHereIs(c, |HereHead(c, true)|);
    ValidCoded(c);
    var rest := Bytes(LmdCode(c).1) + MAGIC_END;
    assert [] + HereHead(c, true) + rest == Here(c, true);
    V2RoundTrip([], HeaderHere(c), rest);
  }

  lemma HereParts(c: Content)
    requires c.Valid() && Packable(HeaderHere(c))
    ensures |Here(c, true)| >= |HereHead(c, true)|
    ensures Here(c, false) == EncodeV1(HeaderHere(c)) + Here(c, true)[|HereHead(c, true)|..]
  {
    hide LmdCode, Bytes, Content.Valid, Content.Coded, HeaderHere, EncodeV1, EncodeV2, Packable;
    ValidCoded(c);
    var rest := Bytes(LmdCode(c).1) + MAGIC_END;
    assert Here(c, true)[|HereHead(c, true)|..] == rest;
    assert Here(c, false) == HereHead(c, false) + rest;
  }

  lemma RewrittenHere(c: Content)
    requires c.Valid()
    ensures var s := Here(c, true);
      && |s| >= 4 && s[..4] == MAGIC_V2 && ParseV2(s, 0).Ok? && Packable(ParseV2(s, 0).value)
      && Rewritten(s) == Here(c, false)
  {
    hide Content.Valid, Content.Coded, HeaderHere, EncodeV1, ParseV2, Packable, Here, HereHead;
    ParsedHere(c);
    HereParts(c);
    SizeUnwritten(HeaderHere(c), |HereHead(c, true)|);
  }

  lemma SizeUnwritten(h: Header, size: nat)
    requires Packable(h)
    ensures Packable(h.(size := size)) && EncodeV1(h.(size := size)) == EncodeV1(h)
  {
    hide Pow2, Struct.Pack, Struct.Width, FreqCode.Packable;
  }

  /** Both streams decompress, and the fifth byte of what they give is 255 under the packed header and
      0 under the plain one. */
  lemma RewriteDiffers()
    ensures exists blob: seq<byte> ::
      && |blob| >= 4 && blob[..4] == MAGIC_V2 && ParseV2(blob, 0).Ok? && Packable(ParseV2(blob, 0).value)
      && Decompress(blob, 0, [], 8).Ok? && Decompress(Rewritten(blob), 0, [], 8).Ok?
      && Decompress(blob, 0, [], 8) != Decompress(Rewritten(blob), 0, [], 8)
  {
    hide Decompress, ParseV2, Packable, Rewritten, Here, Content.Valid, Content.Coded;
    ContentValid();
    RewrittenHere(CONTENT);
    var a := StreamHere(CONTENT, true);
    var b := StreamHere(CONTENT, false);
  }
}
