/** An LZFSE block in numbers: the ranges of its symbols, the limits of its header, the bytes of its fields,
    and what a match does to the output. */
module LzfseNumbers {
  import opened Bits
  import opened BitArithmetic
  import opened Prelude
  import opened Struct
  import opened FseTable
  import opened LzCopy
  import opened LzfseTables
  import opened LzfseMatches
  import opened LzfseHeader
  import opened LzfseBlock
  import FreqCode
  import HeaderRewrite

  // ---- symbols and values ----

  /** The numbers each symbol stands for: of literals and of lengths, itself below 16, and then from the
      first number on as many as its extra bits tell apart. */
  lemma SymbolNumbers()
    ensures |L_BITS| == |L_BASE| == |M_BITS| == |M_BASE| == 20
    ensures forall i :: 0 <= i < 16 ==> L_BITS[i] == M_BITS[i] == 0 && L_BASE[i] == M_BASE[i] == i
    ensures L_BASE[16..] == [16, 20, 28, 60] && L_BITS[16..] == [2, 3, 5, 8]
    ensures M_BASE[16..] == [16, 24, 56, 312] && M_BITS[16..] == [3, 5, 8, 11]
  {
  }

  /** Of distances, four symbols to each number of extra bits, every range where the last one ends. */
  lemma DistanceNumbers(q: nat, r: nat)
    requires q < 16 && r < 4
    ensures |D_BITS| == |D_BASE| == 64
    ensures D_BITS[4 * q + r] == q && D_BASE[4 * q + r] == (4 + r) * Pow2(q) - 4
  {
    hide Pow2;
    var k, j := q / 4, q % 4;
    assert q == 4 * k + j && 4 * q + r == 16 * k + (4 * j + r);
    PowerOf(q);
    RowAt(k, 4 * j + r);
    RowOf(k, j, r);
  }

  function Row(k: nat): (row: seq<nat>)
    requires k < 4
    ensures |row| == 16
  {
    if k == 0 then D_BASE_0 else if k == 1 then D_BASE_1 else if k == 2 then D_BASE_2 else D_BASE_3
  }

  lemma RowAt(k: nat, j: nat)
    requires k < 4 && j < 16
    ensures D_BASE[16 * k + j] == Row(k)[j]
  {
    InRow(D_BASE_0, D_BASE_1, D_BASE_2, D_BASE_3, k, j);
  }

  lemma InRow(a: seq<nat>, b: seq<nat>, c: seq<nat>, d: seq<nat>, k: nat, j: nat)
    requires |a| == |b| == |c| == |d| == 16 && k < 4 && j < 16
    ensures (a + b + c + d)[16 * k + j]
         == if k == 0 then a[j] else if k == 1 then b[j] else if k == 2 then c[j] else d[j]
  {
  }

  lemma RowOf(k: nat, j: nat, r: nat)
    requires k < 4 && j < 4 && r < 4
    ensures Row(k)[4 * j + r] == (4 + r) * ([1, 2, 4, 8][j] * [1, 16, 256, 4096][k]) - 4
  {
    RowNumbers(Row(k), [1, 16, 256, 4096][k]);
    assert RowNumber(Row(k), [1, 16, 256, 4096][k], j, r);
  }

  lemma PowerOf(q: nat)
    requires q < 16
    ensures Pow2(q) == [1, 2, 4, 8][q % 4] * [1, 16, 256, 4096][q / 4]
  {
    hide Pow2;
    SixteenPowers();
  }

  ghost predicate RowNumber(row: seq<nat>, p: nat, q: nat, r: nat)
    requires |row| == 16 && q < 4 && r < 4
  {
    row[4 * q + r] == (4 + r) * ([1, 2, 4, 8][q] * p) - 4
  }

  lemma RowNumbers(row: seq<nat>, p: nat)
    requires p > 0
    requires row == [4 * p - 4, 5 * p - 4, 6 * p - 4, 7 * p - 4, 8 * p - 4, 10 * p - 4, 12 * p - 4, 14 * p - 4,
                     16 * p - 4, 20 * p - 4, 24 * p - 4, 28 * p - 4, 32 * p - 4, 40 * p - 4, 48 * p - 4, 56 * p - 4]
    ensures forall q, r :: 0 <= q < 4 && 0 <= r < 4 ==> RowNumber(row, p, q, r)
  {
    forall q, r | 0 <= q < 4 && 0 <= r < 4
      ensures RowNumber(row, p, q, r)
    {
      FourOf(row, p, q, [1, 2, 4, 8][q] * p, r);
    }
  }

  lemma FourOf(row: seq<nat>, p: nat, q: nat, step: nat, r: nat)
    requires |row| == 16 && q < 4 && r < 4 && step == [1, 2, 4, 8][q] * p
    requires row[4 * q..4 * q + 4] == [4 * step - 4, 5 * step - 4, 6 * step - 4, 7 * step - 4]
    ensures RowNumber(row, p, q, r)
  {
    assert row[4 * q + r] == row[4 * q..4 * q + 4][r];
    assert (4 + r) * step
        == if r == 0 then 4 * step else if r == 1 then 5 * step else if r == 2 then 6 * step else 7 * step;
  }

  lemma SixteenPowers()
    ensures Pow2(0) == 1 && Pow2(1) == 2 && Pow2(2) == 4 && Pow2(3) == 8 && Pow2(4) == 16 && Pow2(5) == 32
    ensures Pow2(6) == 64 && Pow2(7) == 128 && Pow2(8) == 256 && Pow2(9) == 512 && Pow2(10) == 1024
    ensures Pow2(11) == 2048 && Pow2(12) == 4096 && Pow2(13) == 8192 && Pow2(14) == 16384 && Pow2(15) == 32768
  {
    Pow2Small();
  }

  /** A value is a symbol's first number and the last `extra` of the bits pulled; those before them lead to the
      next state. */
  ghost predicate Steps(r: Result<Step>, c: Cell, first: nat, extra: nat, b: BitString)
  {
    && c.bits + extra <= b.len
    && var x := b.Top(c.bits + extra);
       r == Ok(Step(first + x % Pow2(extra), c.delta + x / Pow2(extra), b.Rest(c.bits + extra)))
  }

  lemma ValueNumbers(n: nat, most: nat, freqs: seq<nat>, vbits: seq<nat>, vbase: seq<nat>, state: nat, b: BitString,
                     c: Cell)
    requires Sum(freqs) <= Pow2(n) && |freqs| == |vbits| == |vbase| && state < Pow2(n)
    requires ValueClosed(n, most, ValuesOf(n, freqs, vbits, vbase))
    requires Spread(n, freqs)[state] == Some(c) && b.Valid() && n + most <= b.len
    ensures c.sym < |freqs|
    ensures Steps(Value(n, most, ValuesOf(n, freqs, vbits, vbase), state, b), c, vbase[c.sym], vbits[c.sym], b)
  {
    hide Pow2, Low, Shr, Spread, Sum;
    SpreadClosed(n, freqs);
    assert CellFits(n, |freqs|, c);
    assert ValuesOf(n, freqs, vbits, vbase)[state]
        == Some(ValueCell(c.bits + vbits[c.sym], vbits[c.sym], c.delta, vbase[c.sym]));
    assert ValueFits(n, most, ValueCell(c.bits + vbits[c.sym], vbits[c.sym], c.delta, vbase[c.sym]));
    ShrIs(b.Top(c.bits + vbits[c.sym]), vbits[c.sym]);
  }

  /** So in the table of literal counts, ... */
  lemma LValue(freqs: Freqs, state: nat, b: BitString, c: Cell)
    requires freqs.Fits() && state < Pow2(6) && b.Valid() && b.len >= 14 && Spread(6, freqs.l)[state] == Some(c)
    ensures freqs.ToTables().Closed() && 64 == Pow2(6) && c.bits <= 6 && c.sym < 20
    ensures
      var r := Value(6, 8, freqs.ToTables().l, state, b);
      && r.Ok?
      && (c.sym < 16 ==> r.value.value == c.sym && r.value.rest == b.Rest(c.bits))
      && (c.sym == 16 ==> r.value.value == 16 + b.Top(c.bits + 2) % 4 && r.value.rest == b.Rest(c.bits + 2))
      && (c.sym == 17 ==> r.value.value == 20 + b.Top(c.bits + 3) % 8 && r.value.rest == b.Rest(c.bits + 3))
      && (c.sym == 18 ==> r.value.value == 28 + b.Top(c.bits + 5) % 32 && r.value.rest == b.Rest(c.bits + 5))
      && (c.sym == 19 ==> r.value.value == 60 + b.Top(c.bits + 8) % 256 && r.value.rest == b.Rest(c.bits + 8))
  {
    hide Pow2, Spread, Sum, Value, ValuesOf;
    SixteenPowers();
    TablesClosed(freqs);
    SpreadClosed(6, freqs.l);
    assert CellFits(6, 20, c);
    BitLimits();
    ValueNumbers(6, 8, freqs.l, L_BITS, L_BASE, state, b, c);
  }

  /** ... in the table of match lengths, ... */
  lemma MValue(freqs: Freqs, state: nat, b: BitString, c: Cell)
    requires freqs.Fits() && state < Pow2(6) && b.Valid() && b.len >= 17 && Spread(6, freqs.m)[state] == Some(c)
    ensures freqs.ToTables().Closed() && 64 == Pow2(6) && c.bits <= 6 && c.sym < 20
    ensures
      var r := Value(6, 11, freqs.ToTables().m, state, b);
      && r.Ok?
      && (c.sym < 16 ==> r.value.value == c.sym && r.value.rest == b.Rest(c.bits))
      && (c.sym == 16 ==> r.value.value == 16 + b.Top(c.bits + 3) % 8 && r.value.rest == b.Rest(c.bits + 3))
      && (c.sym == 17 ==> r.value.value == 24 + b.Top(c.bits + 5) % 32 && r.value.rest == b.Rest(c.bits + 5))
      && (c.sym == 18 ==> r.value.value == 56 + b.Top(c.bits + 8) % 256 && r.value.rest == b.Rest(c.bits + 8))
      && (c.sym == 19 ==> r.value.value == 312 + b.Top(c.bits + 11) % 2048 && r.value.rest == b.Rest(c.bits + 11))
  {
    hide Pow2, Spread, Sum, Value, ValuesOf;
    SixteenPowers();
    TablesClosed(freqs);
    SpreadClosed(6, freqs.m);
    assert CellFits(6, 20, c);
    BitLimits();
    ValueNumbers(6, 11, freqs.m, M_BITS, M_BASE, state, b, c);
  }

  /** ... and in the table of distances, whose first numbers `DistanceNumbers` gives. */
  lemma DValue(freqs: Freqs, state: nat, b: BitString, c: Cell)
    requires freqs.Fits() && state < Pow2(8) && b.Valid() && b.len >= 23 && Spread(8, freqs.d)[state] == Some(c)
    ensures freqs.ToTables().Closed() && 256 == Pow2(8) && c.bits <= 8 && c.sym < 64
    ensures
      var v, q := Value(8, 15, freqs.ToTables().d, state, b), c.sym / 4;
      v.Ok? && v.value.value == D_BASE[c.sym] + b.Top(c.bits + q) % Pow2(q) && v.value.rest == b.Rest(c.bits + q)
  {
    hide Pow2, Spread, Sum, Value, ValuesOf;
    SixteenPowers();
    TablesClosed(freqs);
    SpreadClosed(8, freqs.d);
    assert CellFits(8, 64, c);
    BitLimits();
    assert D_BITS[c.sym] == c.sym / 4;
    ValueNumbers(8, 15, freqs.d, D_BITS, D_BASE, state, b, c);
  }

  // ---- limits ----

  /** A block's header is accepted up to 40000 literals and 10000 matches, with states of tables of 1024, 64,
      64 and 256, ... */
  lemma CheckedIff(h: Header)
    requires WellFormed(h)
    ensures Checked(h) <==>
      && h.nLit <= 40000 && h.nMatch <= 10000 && (forall i :: 0 <= i < 4 ==> h.litState[i] < 1024)
      && h.st.l < 64 && h.st.m < 64 && h.st.d < 256
  {
    hide Pow2;
    SixteenPowers();
  }

  /** ... and its 20, 20, 64 and 256 frequencies may sum to as much. */
  lemma TablesFitIff(h: Header)
    requires WellFormed(h)
    ensures TablesFit(h) <==>
      && Sum(h.freqs[..20]) <= 64 && Sum(h.freqs[20..40]) <= 64 && Sum(h.freqs[40..104]) <= 256
      && Sum(h.freqs[104..]) <= 1024
    ensures TablesFit(h) ==>
      FreqsOf(h) == Freqs(h.freqs[..20], h.freqs[20..40], h.freqs[40..104]) && LitFreqs(h) == h.freqs[104..]
  {
    hide Pow2, Sum;
    SixteenPowers();
  }

  // ---- what a match does ----

  /** A match with its own distance, or the last one's, where that reaches: its literals follow the output,
      and then byte after byte the one so far before it. */
  lemma MatchEffect(m: Match, lits: seq<byte>, o: Output, cap: nat)
    requires o.used <= |lits|
    ensures
      var r, dist := Perform(m, lits, o, cap), if m.dist == 0 then o.dist else m.dist;
      && (r.Ok? <==>
            && o.used + m.lit <= |lits| && |o.out| + m.lit + m.len <= cap
            && 0 <= dist <= |o.out| + m.lit && (m.len > 0 ==> dist > 0))
      && (r.Ok? ==>
            && r.value.dist == dist && r.value.used == o.used + m.lit && |r.value.out| == |o.out| + m.lit + m.len
            && (forall k :: 0 <= k < |o.out| ==> r.value.out[k] == o.out[k])
            && (forall k :: |o.out| <= k < |o.out| + m.lit ==> r.value.out[k] == lits[o.used + (k - |o.out|)])
            && (forall k :: |o.out| + m.lit <= k < |r.value.out| ==> r.value.out[k] == r.value.out[k - dist]))
  {
    hide CopyBytes;
    var dist := if m.dist == 0 then o.dist else m.dist;
    if Perform(m, lits, o, cap).Ok? && m.len > 0 {
      var out := o.out + lits[o.used..o.used + m.lit];
      var r := CopyBytes(out, dist, m.len);
      CopyContinues(out, dist, m.len);
      forall k | |out| <= k < |r|
        ensures r[k] == r[k - dist]
      {
        assert Repeats(r, dist, k);
      }
      assert out <= r;
    }
  }

  // ---- the bytes of a header ----

  /** A bvx1 header, field by field. */
  lemma PlainFields(src: seq<byte>, pos: nat)
    requires pos <= |src|
    ensures ParseV1(src, pos).Ok? <==> pos + 772 <= |src|
    ensures pos + 772 <= |src| ==>
      var h := ParseV1(src, pos).value;
      && h.size == 772 && h.raw == LeValue(src[pos + 4..pos + 8])
      && h.nLit == LeValue(src[pos + 12..pos + 16]) && h.nMatch == LeValue(src[pos + 16..pos + 20])
      && h.litPayload == LeValue(src[pos + 20..pos + 24]) && h.lmdPayload == LeValue(src[pos + 24..pos + 28])
      && h.litBits == Signed32(LeValue(src[pos + 28..pos + 32]))
      && (forall i :: 0 <= i < 4 ==> h.litState[i] == LeValue(src[pos + 32 + 2 * i..pos + 34 + 2 * i]))
      && h.lmdBits == Signed32(LeValue(src[pos + 40..pos + 44]))
      && h.st == States(LeValue(src[pos + 44..pos + 46]), LeValue(src[pos + 46..pos + 48]),
                        LeValue(src[pos + 48..pos + 50]))
      && (forall i :: 0 <= i < 360 ==> h.freqs[i] == LeValue(src[pos + 50 + 2 * i..pos + 52 + 2 * i]))
  {
    hide LeValue, Unpack, Width, Signed32;
    if pos + 772 <= |src| {
      V1Widths();
      CountFields(src, pos);
      StateFields(src, pos);
      forall i | 0 <= i < 360
        ensures Unpack(src[pos + 50..], Same(2, 360))[i] == LeValue(src[pos + 50 + 2 * i..pos + 52 + 2 * i])
      {
        TwoByteField(src, pos + 50, 360, i);
      }
      forall i | 0 <= i < 4
        ensures ParseV1(src, pos).value.litState[i] == LeValue(src[pos + 32 + 2 * i..pos + 34 + 2 * i])
      {
        assert ParseV1(src, pos).value.litState[i] == Unpack(src[pos + 32..], V1_LIT_STATES)[i];
      }
    }
  }

  lemma TwoByteField(src: seq<byte>, at: nat, n: nat, i: nat)
    requires at + 2 * n <= |src| && i < n && Width(Same(2, n)) == 2 * n
    ensures Unpack(src[at..], Same(2, n))[i] == LeValue(src[at + 2 * i..at + 2 * i + 2])
  {
    hide LeValue, Unpack, Width;
    UnpackAt(src[at..], Same(2, n), i);
    assert Same(2, n)[..i] == Same(2, i);
    SameWidth(2, i);
    assert src[at..][2 * i..2 * i + 2] == src[at + 2 * i..at + 2 * i + 2];
  }

  lemma CountFields(src: seq<byte>, pos: nat)
    requires pos + 772 <= |src| && Width(V1_COUNTS) == 28
    ensures
      var c := Unpack(src[pos + 4..], V1_COUNTS);
      && c[0] == LeValue(src[pos + 4..pos + 8]) && c[2] == LeValue(src[pos + 12..pos + 16])
      && c[3] == LeValue(src[pos + 16..pos + 20]) && c[4] == LeValue(src[pos + 20..pos + 24])
      && c[5] == LeValue(src[pos + 24..pos + 28]) && c[6] == LeValue(src[pos + 28..pos + 32])
  {
    hide LeValue, Unpack, Width;
    CountField(src, pos, 0);
    CountField(src, pos, 2);
    CountField(src, pos, 3);
    CountField(src, pos, 4);
    CountField(src, pos, 5);
    CountField(src, pos, 6);
  }

  lemma CountField(src: seq<byte>, pos: nat, i: nat)
    requires pos + 772 <= |src| && Width(V1_COUNTS) == 28 && i < 7
    ensures Unpack(src[pos + 4..], V1_COUNTS)[i] == LeValue(src[pos + 4 + 4 * i..pos + 8 + 4 * i])
  {
    hide LeValue, Unpack, Width;
    UnpackAt(src[pos + 4..], V1_COUNTS, i);
    assert V1_COUNTS == Same(4, 7);
    assert Same(4, 7)[..i] == Same(4, i);
    SameWidth(4, i);
    assert src[pos + 4..][4 * i..4 * i + 4] == src[pos + 4 + 4 * i..pos + 8 + 4 * i];
  }

  lemma StateFields(src: seq<byte>, pos: nat)
    requires pos + 772 <= |src| && Width(V1_LIT_STATES) == 8 && Width(V1_LMD) == 10
    ensures
      var s := Unpack(src[pos + 32..], V1_LIT_STATES);
      forall i :: 0 <= i < 4 ==> s[i] == LeValue(src[pos + 32 + 2 * i..pos + 34 + 2 * i])
    ensures
      var t := Unpack(src[pos + 40..], V1_LMD);
      && t[0] == LeValue(src[pos + 40..pos + 44]) && t[1] == LeValue(src[pos + 44..pos + 46])
      && t[2] == LeValue(src[pos + 46..pos + 48]) && t[3] == LeValue(src[pos + 48..pos + 50])
  {
    hide LeValue, Unpack;
    assert V1_LIT_STATES == Same(2, 4);
    forall i | 0 <= i < 4
      ensures Unpack(src[pos + 32..], V1_LIT_STATES)[i] == LeValue(src[pos + 32 + 2 * i..pos + 34 + 2 * i])
    {
      TwoByteField(src, pos + 32, 4, i);
    }
    var t, w := src[pos + 40..], V1_LMD;
    assert w[..0] == [] && w[..1] == [4] && w[..2] == [4, 2] && w[..3] == [4, 2, 2];
    WidthsOf3(4, 2, 2);
    UnpackAt(t, w, 0);
    UnpackAt(t, w, 1);
    UnpackAt(t, w, 2);
    UnpackAt(t, w, 3);
    assert t[0..4] == src[pos + 40..pos + 44] && t[4..6] == src[pos + 44..pos + 46];
    assert t[6..8] == src[pos + 46..pos + 48] && t[8..10] == src[pos + 48..pos + 50];
  }

  /** What is written of one that nothing reads: the two payloads' sum, and two zeros at the end. */
  lemma PlainWritten(h: Header)
    requires Packable(h)
    ensures LeValue(EncodeV1(h)[8..12]) == h.litPayload + h.lmdPayload && EncodeV1(h)[770..] == [0, 0]
  {
    hide LeValue, LeBytes, Unpack, Width, Pow2, FreqCode.Packable;
    V1Widths();
    PackableFits(h);
    var counts := CountValues(h, h.litPayload + h.lmdPayload);
    var rest := Pack(h.litState, V1_LIT_STATES) + Pack(LmdValues(h), V1_LMD) + Pack(h.freqs, Same(2, 360)) + Zeros(2);
    var s := Pack(counts, V1_COUNTS) + rest;
    assert EncodeV1(h) == MAGIC_V1 + s;
    UnpackPack(counts, V1_COUNTS, rest);
    SumField(s);
    assert EncodeV1(h)[8..12] == s[4..8];
  }

  lemma SumField(s: seq<byte>)
    requires |s| >= 28 && Width(V1_COUNTS) == 28
    ensures Unpack(s, V1_COUNTS)[1] == LeValue(s[4..8])
  {
    hide LeValue, Unpack, Width;
    UnpackAt(s, V1_COUNTS, 1);
    assert V1_COUNTS[..1] == Same(4, 1);
    SameWidth(4, 1);
  }

  /** A bvx2 header's fixed fields: the output's size, and three numbers of fields side by side, lowest first. */
  ghost predicate Holds(h: Header, raw: nat, v0: nat, v1: nat, v2: nat)
  {
    && h.raw == raw && h.size == v2 % Pow2(32)
    && h.nLit == v0 % Pow2(20) && h.litPayload == v0 / Pow2(20) % Pow2(20) && h.nMatch == v0 / Pow2(40) % Pow2(20)
    && h.litBits == v0 / Pow2(60) % 8 - 7
    && h.litState == [v1 % 1024, v1 / Pow2(10) % 1024, v1 / Pow2(20) % 1024, v1 / Pow2(30) % 1024]
    && h.lmdPayload == v1 / Pow2(40) % Pow2(20) && h.lmdBits == v1 / Pow2(60) % 8 - 7
    && h.st == States(v2 / Pow2(32) % 1024, v2 / Pow2(42) % 1024, v2 / Pow2(52) % 1024)
  }

  /** The decoder's header, ... */
  lemma PackedFields(src: seq<byte>, pos: nat)
    requires pos <= |src| && ParseV2(src, pos).Ok?
    ensures pos + 32 <= |src|
    ensures Holds(ParseV2(src, pos).value, LeValue(src[pos + 4..pos + 8]), LeValue(src[pos + 8..pos + 16]),
                  LeValue(src[pos + 16..pos + 24]), LeValue(src[pos + 24..pos + 32]))
    ensures FreqCode.V2Freqs(src[pos..pos + ParseV2(src, pos).value.size]) == Ok(ParseV2(src, pos).value.freqs)
  {
    hide LeValue, Unpack, Width, Low, FreqCode.V2Freqs, UnpackV2, Holds;
    FixedFields(src, pos);
    var f := Unpack(src[pos + 4..], V2_FIXED);
    var freqs := FreqCode.V2Freqs(src[pos..pos + Low(f[3], 32)]).value;
    FieldsHold(f[0], f[1], f[2], f[3], freqs);
    SizeOf(f[0], f[1], f[2], f[3], freqs);
  }

  /** ... and the header that the rewriting reads without a test. */
  lemma RewrittenFields(blob: seq<byte>)
    requires |blob| >= 32
    ensures Holds(HeaderRewrite.PlainHeader(blob), LeValue(blob[4..8]), LeValue(blob[8..16]), LeValue(blob[16..24]),
                  LeValue(blob[24..32]))
  {
    hide LeValue, Unpack, Width, Low, FreqCode.Lenient, UnpackV2, Holds, Packable;
    FixedFields(blob, 0);
    assert blob[0 + 4..] == blob[4..];
    var f := Unpack(blob[4..], V2_FIXED);
    var x := LeValue(HeaderRewrite.Within(blob, Low(f[3], 32))[32..]);
    FieldsHold(f[0], f[1], f[2], f[3], FreqCode.Lenient(x, 360));
  }

  lemma SizeOf(raw: nat, v0: nat, v1: nat, v2: nat, freqs: seq<nat>)
    ensures UnpackV2(raw, v0, v1, v2, freqs).size == Low(v2, 32) && UnpackV2(raw, v0, v1, v2, freqs).freqs == freqs
  {
    hide Low;
  }

  lemma FieldsHold(raw: nat, v0: nat, v1: nat, v2: nat, freqs: seq<nat>)
    ensures Holds(UnpackV2(raw, v0, v1, v2, freqs), raw, v0, v1, v2)
  {
    hide Pow2, Low, Shr, Field;
    SixteenPowers();
    FieldIs(v0, 0, 20);
    FieldIs(v0, 20, 20);
    FieldIs(v0, 40, 20);
    FieldIs(v0, 60, 3);
    FieldIs(v1, 0, 10);
    FieldIs(v1, 10, 10);
    FieldIs(v1, 20, 10);
    FieldIs(v1, 30, 10);
    FieldIs(v1, 40, 20);
    FieldIs(v1, 60, 3);
    ShrIs(v2, 32);
    FieldIs(v2, 32, 10);
    FieldIs(v2, 42, 10);
    FieldIs(v2, 52, 10);
  }

  lemma FieldIs(v: nat, offset: nat, width: nat)
    ensures Field(v, offset, width) == v / Pow2(offset) % Pow2(width)
    ensures offset == 0 ==> Field(v, offset, width) == v % Pow2(width)
  {
    hide Pow2, Low, Shr;
    ShrIs(v, offset);
    ShrIs(Shr(v, offset), width);
    LowOne(v);
  }

  lemma FixedFields(src: seq<byte>, pos: nat)
    requires pos + 32 <= |src|
    ensures Width(V2_FIXED) == 28
    ensures Unpack(src[pos + 4..], V2_FIXED) == [LeValue(src[pos + 4..pos + 8]), LeValue(src[pos + 8..pos + 16]),
                                                 LeValue(src[pos + 16..pos + 24]), LeValue(src[pos + 24..pos + 32])]
  {
    hide LeValue, Unpack;
    V2FixedWidth();
    var s, w := src[pos + 4..], V2_FIXED;
    assert w[..0] == [] && w[..1] == [4] && w[..2] == [4, 8] && w[..3] == [4, 8, 8];
    WidthsOf3(4, 8, 8);
    UnpackAt(s, w, 0);
    UnpackAt(s, w, 1);
    UnpackAt(s, w, 2);
    UnpackAt(s, w, 3);
    assert s[0..4] == src[pos + 4..pos + 8] && s[4..12] == src[pos + 8..pos + 16];
    assert s[12..20] == src[pos + 16..pos + 24] && s[20..28] == src[pos + 24..pos + 32];
  }
}
