/** One LZFSE stream byte for byte, with a raw, an LZVN and a compressed block, and what it decompresses to. */
module ExampleStream {
  import opened Bits
  import opened BitArithmetic
  import opened Prelude
  import opened Struct
  import opened FseTable
  import opened LzfseTables
  import opened LzfseHeader
  import opened LzfseEncode
  import opened LzfseStream
  import opened LzfseNumbers
  import R = RewriteDiffers
  import M = LzfseMatches
  import Lit = LzfseLiterals
  import Lzvn

  // ---- the stream and its output ----

  const RAW_TEXT: seq<byte> := [0x65, 0x77, 0x66, 0x70, 0x72, 0x6F, 0x62, 0x65]
  const RAW_BLOCK: seq<byte> := [0x62, 0x76, 0x78, 0x2D, 8, 0, 0, 0] + RAW_TEXT

  // "abc"; "d" and 3 bytes from 4 back; "e"; 2 bytes from 4 back still; the end.
  const LZVN_BLOCK: seq<byte> :=
    [0x62, 0x76, 0x78, 0x6E, 10, 0, 0, 0, 18, 0, 0, 0]
    + [0xE3, 0x61, 0x62, 0x63, 0x40, 4, 0x64, 0xE1, 0x65, 0xF2, 6, 0, 0, 0, 0, 0, 0, 0]
  const LZVN_TEXT: seq<byte> := [0x61, 0x62, 0x63, 0x64, 0x61, 0x62, 0x63, 0x65, 0x61, 0x62]

  // 62 bytes from 32 literals and one match; tables in which L symbol 18, M symbol 17, D symbol 14 and literal
  // 0x7A have all the states; and the extra bits 00100, 00110 and 001.
  const V1_HEAD: seq<byte> :=
    [0x62, 0x76, 0x78, 0x31, 62, 0, 0, 0, 8, 0, 0, 0, 32, 0, 0, 0, 1, 0, 0, 0, 0, 0, 0, 0, 8, 0, 0, 0] + Zeros(22)
  const V1_TABLES: seq<byte> :=
    Zeros(36) + [64, 0] + Zeros(2) + (Zeros(34) + [64, 0] + Zeros(4)) + (Zeros(28) + [0, 1] + Zeros(98))
    + (Zeros(244) + [0, 4] + Zeros(266))
  const V1_MATCHES: seq<byte> := [0, 0, 0, 0, 0, 0, 0x88, 0x21]
  const V1_BLOCK: seq<byte> := V1_HEAD + V1_TABLES + Zeros(2) + V1_MATCHES

  const STREAM: seq<byte> := RAW_BLOCK + LZVN_BLOCK + V1_BLOCK + [0x62, 0x76, 0x78, 0x24]

  function Repeat(n: nat, b: byte): (s: seq<byte>)
    ensures |s| == n && forall k :: 0 <= k < n ==> s[k] == b
  {
    seq<byte>(n, _ => b)
  }

  // ---- the compressed block's content ----

  const FREQS: M.Freqs := M.Freqs(R.Only(20, 18, 64), R.Only(20, 17, 64), R.Only(64, 14, 256))
  const LIT_FREQS: seq<nat> := R.Only(256, 0x7A, 1024)
  const MATCH: M.Match := M.Match(32, 30, 45)
  const CONTENT: Content :=
    Content(FREQS, LIT_FREQS, Repeat(32, 0x7A), 32, [MATCH], [0, 0, 0, 0], BitString(0, 0), M.States(0, 0, 0),
            BitString(0, 51))

  /** The match's extra bits, 00100, 00110 and 001, above 51 zeros. */
  function MatchBits(): BitString { BitString(0x2188_0000_0000_0000, 64) }

  lemma Sums()
    ensures FREQS.Fits() && Sum(LIT_FREQS) == 1024 == Pow2(LIT_LOG)
    ensures Pow2(L_LOG) == Pow2(M_LOG) == 64 == Sum(FREQS.l) == Sum(FREQS.m) && Pow2(D_LOG) == 256 == Sum(FREQS.d)
    ensures Sum(FREQS.l[..18]) == 0 && Sum(FREQS.m[..17]) == 0 && Sum(FREQS.d[..14]) == 0 && Sum(LIT_FREQS[..0x7A]) == 0
  {
    hide Pow2, Sum;
    Pow2Small();
    R.OnlySum(20, 18, 64, 20);
    R.OnlySum(20, 17, 64, 20);
    R.OnlySum(64, 14, 256, 64);
    R.OnlySum(256, 0x7A, 1024, 256);
    R.OnlySum(20, 18, 64, 18);
    R.OnlySum(20, 17, 64, 17);
    R.OnlySum(64, 14, 256, 14);
    R.OnlySum(256, 0x7A, 1024, 0x7A);
    assert FREQS.l[..20] == FREQS.l && FREQS.m[..20] == FREQS.m && FREQS.d[..64] == FREQS.d;
    assert LIT_FREQS[..256] == LIT_FREQS;
  }

  lemma Symbols()
    ensures M.LSymbol(32) == 18 && M.MSymbol(30) == 17 && M.DSymbol(45) == 14
  {
    BasesAbove();
    R.SymbolIs(L_BITS, L_BASE, 32, 18, 19);
    R.SymbolIs(M_BITS, M_BASE, 30, 17, 19);
    R.SymbolIs(D_BITS, D_BASE, 45, 14, 63);
  }

  lemma BasesAbove()
    ensures forall i :: 14 < i < 64 ==> D_BASE[i] > 45
    ensures D_BASE[14] == 44 && D_BITS[14] == 3
  {
    assert D_BASE_0[15] == 52 && D_BASE_0[14] == 44;
    assert (forall i :: 0 <= i < 16 ==> D_BASE_1[i] > 45) && (forall i :: 0 <= i < 16 ==> D_BASE_2[i] > 45);
    assert forall i :: 0 <= i < 16 ==> D_BASE_3[i] > 45;
  }

  // ---- a symbol with all the states ----

  /** Its states pull nothing and step to themselves. */
  lemma FullStep(n: nat, freqs: seq<nat>, sym: nat, next: nat)
    requires Sum(freqs) == Pow2(n) && sym < |freqs| && freqs[sym] == Pow2(n) && Sum(freqs[..sym]) == 0 && next < Pow2(n)
    ensures StateBefore(n, freqs, sym, next) == next && CellBefore(n, freqs, sym, next) == Cell(sym, 0, next)
  {
    hide Pow2, Sum, StepBefore, CellOf, Spread;
    SumPrefix(freqs, sym);
    UnitPower();
    CellNumbers(n, sym, Pow2(n), next, 0);
    TilingUnique(n, sym, Pow2(n), next, next);
  }

  lemma UnitPower()
    ensures Pow2(0) == 1
    ensures forall x :: Shl(x, 0) == x
  {
  }

  lemma FullLiteral(b: BitString)
    ensures Lit.Codable(LIT_FREQS, [0x7A])
    ensures Lit.PushLiteral(LIT_FREQS, 0x7A, 0, b) == (0, b)
  {
    hide Pow2, Sum, CellBefore, StateBefore;
    Sums();
    FullStep(LIT_LOG, LIT_FREQS, 0x7A, 0);
    ShlZero(b.len);
  }

  lemma {:induction false} LiteralsCode(n: nat)
    ensures Lit.Codable(LIT_FREQS, Repeat(n, 0x7A)) && Lit.InRange([0, 0, 0, 0])
    ensures Lit.Encode(LIT_FREQS, Repeat(n, 0x7A), [0, 0, 0, 0], BitString(0, 0)) == ([0, 0, 0, 0], BitString(0, 0))
  {
    hide Sum, Lit.PushLiteral;
    Sums();
    if n > 0 {
      LiteralsCode(n - 1);
      assert Repeat(n, 0x7A)[1..] == Repeat(n - 1, 0x7A) && Repeat(n, 0x7A)[0] == 0x7A;
      FullLiteral(BitString(0, 0));
    }
  }

  lemma FullValue(n: nat, freqs: seq<nat>, vbits: seq<nat>, vbase: seq<nat>, sym: nat, v: nat, b: BitString)
    requires Carries(n, freqs, vbits, vbase, sym, v) && Sum(freqs) == Pow2(n) == freqs[sym] && Sum(freqs[..sym]) == 0
    ensures PushValue(n, freqs, vbits, vbase, sym, v, 0, b) == (0, b.Push(v - vbase[sym], vbits[sym]))
  {
    hide Pow2, Sum, CellBefore, StateBefore;
    FullStep(n, freqs, sym, 0);
    ShlZero(vbits[sym]);
  }

  lemma MatchCode()
    ensures M.AllCodable(FREQS, [MATCH])
    ensures M.Encode(FREQS, [MATCH], M.States(0, 0, 0), BitString(0, 51)) == (M.States(0, 0, 0), MatchBits())
  {
    hide Pow2, Sum, M.PushMatch, MatchBits, M.Codable, R.Only;
    MatchCodable();
    OneEncoded(FREQS, MATCH, M.States(0, 0, 0), BitString(0, 51));
    MatchPushed(BitString(0, 51));
    Pushes();
  }

  lemma MatchCodable()
    ensures M.Codable(FREQS, MATCH)
  {
    hide Pow2, Sum, M.LSymbol, M.MSymbol, M.DSymbol;
    Sums();
    Symbols();
  }

  lemma OneEncoded(freqs: M.Freqs, m: M.Match, final: M.States, rest: BitString)
    requires M.Codable(freqs, m) && final.InRange()
    ensures M.AllCodable(freqs, [m]) && M.Encode(freqs, [m], final, rest) == M.PushMatch(freqs, m, final, rest)
  {
    hide M.PushMatch, M.Codable;
    assert M.AllCodable(freqs, [m]) by {
      CodableFits(freqs, m);
    }
    assert [m][1..] == [];
    assert M.Encode(freqs, [m][1..], final, rest) == (final, rest);
  }

  lemma CodableFits(freqs: M.Freqs, m: M.Match)
    requires M.Codable(freqs, m)
    ensures freqs.Fits()
  {
  }

  lemma MatchPushed(b: BitString)
    ensures M.Codable(FREQS, MATCH) && M.States(0, 0, 0).InRange()
    ensures M.PushMatch(FREQS, MATCH, M.States(0, 0, 0), b) == (M.States(0, 0, 0), b.Push(1, 3).Push(6, 5).Push(4, 5))
  {
    hide Pow2, Sum, PushValue, BitString.Push, M.LSymbol, M.MSymbol, M.DSymbol, R.Only;
    MatchCodable();
    SmallBits();
    Sums();
    Symbols();
    BasesAbove();
    OnlyAt();
    M.CodableCarries(FREQS, MATCH);
    FullValue(D_LOG, FREQS.d, D_BITS, D_BASE, 14, 45, b);
    FullValue(M_LOG, FREQS.m, M_BITS, M_BASE, 17, 30, b.Push(1, 3));
    FullValue(L_LOG, FREQS.l, L_BITS, L_BASE, 18, 32, b.Push(1, 3).Push(6, 5));
  }

  lemma OnlyAt()
    ensures FREQS.l[18] == FREQS.m[17] == 64 && FREQS.d[14] == 256
  {
  }

  lemma Pushes()
    ensures BitString(0, 51).Push(1, 3).Push(6, 5).Push(4, 5) == MatchBits()
  {
    Powers();
    ShlIs(1, 51);
    ShlIs(6, 54);
    ShlIs(4, 59);
  }

  lemma Powers()
    ensures Pow2(51) == 0x8_0000_0000_0000 && Pow2(54) == 0x40_0000_0000_0000 && Pow2(59) == 0x800_0000_0000_0000
  {
    assert Pow2(9) == 512;
    assert Pow2(18) == 0x4_0000;
    assert Pow2(27) == 0x800_0000;
    assert Pow2(36) == 0x10_0000_0000;
    assert Pow2(45) == 0x2000_0000_0000;
  }

  lemma ContentCoded()
    ensures CONTENT.Coded()
  {
    hide Pow2, Sum, Lit.Encode, M.Encode, M.AllCodable, Lit.Codable, R.Only, Lit.InRange, Content.Coded;
    LiteralsCode(32);
    MatchCode();
    SmallBits();
    CodedIf(FREQS, LIT_FREQS, Repeat(32, 0x7A), MatchBits());
  }

  lemma ContentCodes()
    ensures CONTENT.Coded()
    ensures LitCode(CONTENT) == ([0, 0, 0, 0], BitString(0, 0))
    ensures LmdCode(CONTENT) == (M.States(0, 0, 0), MatchBits())
  {
    hide Pow2, Sum, Lit.Encode, M.Encode, M.AllCodable, Lit.Codable, R.Only, Lit.InRange, Content.Coded;
    ContentCoded();
    LiteralsCode(32);
    MatchCode();
  }

  lemma CodeBytes()
    ensures Bytes(BitString(0, 0)) == [] && Bytes(MatchBits()) == V1_MATCHES
    ensures Spare(BitString(0, 0)) == Spare(MatchBits()) == 0
  {
    hide Pow2, LeBytes;
    SmallBits();
    MatchBytes();
    EightBytes(MatchBits());
  }

  lemma EightBytes(b: BitString)
    requires b.len == 64
    ensures Bytes(b) == LeBytes(b.value, 8) && Spare(b) == 0
  {
    hide LeBytes;
  }

  lemma ContentValid()
    ensures CONTENT.Valid()
  {
    hide LitCode, LmdCode, Bytes, Content.Coded, Pow2, R.Only, MatchBits;
    ContentCodes();
    CodeBytes();
    BigPowers();
  }

  lemma CodedIf(freqs: M.Freqs, litFreqs: seq<nat>, lits: seq<byte>, code: BitString)
    requires |lits| == 32 && Lit.Codable(litFreqs, lits) && Lit.InRange([0, 0, 0, 0]) && M.AllCodable(freqs, [MATCH])
    requires M.Encode(freqs, [MATCH], M.States(0, 0, 0), BitString(0, 51)) == (M.States(0, 0, 0), code)
    requires code.len >= 56
    requires BitString(0, 0).Valid() && BitString(0, 51).Valid() && M.States(0, 0, 0).InRange()
    ensures Content(freqs, litFreqs, lits, 32, [MATCH], [0, 0, 0, 0], BitString(0, 0), M.States(0, 0, 0),
                    BitString(0, 51)).Coded()
  {
    hide Pow2, Sum, Lit.Encode, M.Encode, M.AllCodable, Lit.Codable, Lit.InRange;
    assert [MATCH][|[MATCH]| - 1..] == [MATCH];
  }

  lemma SmallBits()
    ensures BitString(0, 0).Valid() && BitString(0, 51).Valid() && LeBytes(0, 0) == [] && M.States(0, 0, 0).InRange()
  {
  }

  lemma MatchBytes()
    ensures LeBytes(0x2188_0000_0000_0000, 8) == [0, 0, 0, 0, 0, 0, 0x88, 0x21]
  {
    assert LeBytes(0x2188_0000, 4) == [0, 0, 0x88, 0x21];
    assert LeBytes(0x2188_0000_0000, 6) == [0, 0] + LeBytes(0x2188_0000, 4);
    assert LeBytes(0x2188_0000_0000_0000, 8) == [0, 0] + LeBytes(0x2188_0000_0000, 6);
  }

  // ---- its bytes ----

  lemma PackTwo(a: seq<nat>, b: seq<nat>)
    ensures Width(Struct.Same(2, |a|)) == 2 * |a| && Width(Struct.Same(2, |b|)) == 2 * |b|
    ensures Pack(a + b, Struct.Same(2, |a| + |b|)) == Pack(a, Struct.Same(2, |a|)) + Pack(b, Struct.Same(2, |b|))
  {
    hide Pack;
    SameWidth(2, |a|);
    SameWidth(2, |b|);
    PackConcat(a, b, Struct.Same(2, |a|), Struct.Same(2, |b|));
    assert Struct.Same(2, |a|) + Struct.Same(2, |b|) == Struct.Same(2, |a| + |b|);
  }

  function Nothing(n: nat): (s: seq<nat>)
    ensures |s| == n
  {
    seq(n, _ => 0)
  }

  lemma {:induction false} PackNothing(n: nat)
    ensures Pack(Nothing(n), Struct.Same(2, n)) == Zeros(2 * n)
  {
    if n > 0 {
      assert Nothing(n)[1..] == Nothing(n - 1) && Struct.Same(2, n)[1..] == Struct.Same(2, n - 1);
      PackNothing(n - 1);
      ZeroPair();
      assert Zeros(2) + Zeros(2 * (n - 1)) == Zeros(2 * n);
    }
  }

  lemma ZeroPair()
    ensures LeBytes(0, 2) == Zeros(2)
  {
    assert LeBytes(0, 1) == [0] + LeBytes(0, 0);
  }

  /** A table in which one symbol has states. */
  lemma PackOnly(n: nat, sym: nat, v: nat)
    requires sym < n
    ensures Width(Struct.Same(2, n)) == 2 * n
    ensures Pack(R.Only(n, sym, v), Struct.Same(2, n)) == Zeros(2 * sym) + LeBytes(v, 2) + Zeros(2 * (n - sym - 1))
  {
    hide LeBytes, Pack, Width;
    SameWidth(2, n);
    var a, b := Nothing(sym), Nothing(n - sym - 1);
    assert R.Only(n, sym, v) == a + [v] + b;
    PackTwo(a + [v], b);
    PackTwo(a, [v]);
    PackNothing(sym);
    PackNothing(n - sym - 1);
    PackOne(v);
  }

  lemma PackOne(v: nat)
    ensures Width(Struct.Same(2, 1)) == 2 && Pack([v], Struct.Same(2, 1)) == LeBytes(v, 2)
  {
    hide LeBytes;
    SameWidth(2, 1);
    assert [v][1..] == [] && Struct.Same(2, 1)[1..] == [];
  }

  lemma TableBytes()
    ensures Width(Struct.Same(2, 360)) == 720
    ensures Pack(FREQS.l + FREQS.m + FREQS.d + LIT_FREQS, Struct.Same(2, 360)) == V1_TABLES
  {
    hide LeBytes, Pack, Width, R.Only;
    SameWidth(2, 360);
    PackTwo(FREQS.l + FREQS.m + FREQS.d, LIT_FREQS);
    PackTwo(FREQS.l + FREQS.m, FREQS.d);
    PackTwo(FREQS.l, FREQS.m);
    PackOnly(20, 18, 64);
    PackOnly(20, 17, 64);
    PackOnly(64, 14, 256);
    PackOnly(256, 0x7A, 1024);
    Pairs();
  }

  lemma Pairs()
    ensures LeBytes(64, 2) == [64, 0] && LeBytes(256, 2) == [0, 1] && LeBytes(1024, 2) == [0, 4]
  {
    assert LeBytes(1, 1) == [1] && LeBytes(4, 1) == [4] && LeBytes(0, 1) == [0];
  }

  lemma Words()
    ensures LeBytes(62, 4) == [62, 0, 0, 0] && LeBytes(8, 4) == [8, 0, 0, 0] && LeBytes(32, 4) == [32, 0, 0, 0]
    ensures LeBytes(1, 4) == [1, 0, 0, 0] && LeBytes(0, 4) == [0, 0, 0, 0] && LeBytes(10, 4) == [10, 0, 0, 0]
    ensures LeBytes(18, 4) == [18, 0, 0, 0] && LeBytes(0, 2) == [0, 0]
  {
    assert LeBytes(0, 3) == [0, 0, 0] by {
      assert LeBytes(0, 2) == [0, 0] by {
        assert LeBytes(0, 1) == [0];
      }
    }
  }

  lemma PackMore(v: nat, w: nat, values: seq<nat>, widths: seq<nat>)
    requires |values| == |widths|
    ensures Pack([v] + values, [w] + widths) == LeBytes(v, w) + Pack(values, widths)
  {
    hide LeBytes;
    assert ([v] + values)[1..] == values && ([w] + widths)[1..] == widths;
  }

  lemma PackNone()
    ensures Pack([], []) == []
  {
  }

  lemma Pack1(v: nat, w: nat)
    ensures Pack([v], [w]) == LeBytes(v, w)
  {
    hide Pack, LeBytes, Width;
    PackNone();
    PackMore(v, w, [], []);
    assert [v] + [] == [v] && [w] + [] == [w];
  }

  lemma Pack2(a: nat, b: nat, u: nat, v: nat)
    ensures Pack([a, b], [u, v]) == LeBytes(a, u) + LeBytes(b, v)
  {
    hide Pack, LeBytes, Width;
    PackNone();
    PackMore(b, v, [], []);
    PackMore(a, u, [b], [v]);
    assert [a] + [b] == [a, b] && [u] + [v] == [u, v] && [b] + [] == [b] && [v] + [] == [v];
  }

  lemma {:induction false} PackConcat(a: seq<nat>, b: seq<nat>, u: seq<nat>, v: seq<nat>)
    requires |a| == |u| && |b| == |v|
    ensures Pack(a + b, u + v) == Pack(a, u) + Pack(b, v)
    decreases |a|
  {
    hide LeBytes, Width;
    if a == [] {
      assert a + b == b && u + v == v;
    } else {
      assert (a + b)[1..] == a[1..] + b && (u + v)[1..] == u[1..] + v;
      PackConcat(a[1..], b, u[1..], v);
    }
  }

  lemma Pack4(a: nat, b: nat, c: nat, d: nat, u: nat, v: nat, w: nat, x: nat)
    ensures Pack([a, b, c, d], [u, v, w, x]) == LeBytes(a, u) + LeBytes(b, v) + (LeBytes(c, w) + LeBytes(d, x))
  {
    hide Pack, LeBytes, Width;
    Pack2(a, b, u, v);
    Pack2(c, d, w, x);
    PackConcat([a, b], [c, d], [u, v], [w, x]);
    TwoPairs(a, b, c, d);
    TwoPairs(u, v, w, x);
  }

  lemma TwoPairs(a: nat, b: nat, c: nat, d: nat)
    ensures [a, b] + [c, d] == [a, b, c, d]
  {
  }

  lemma CountBytes()
    ensures Pack([62, 8, 32, 1, 0, 8, 0], V1_COUNTS)
         == [62, 0, 0, 0, 8, 0, 0, 0, 32, 0, 0, 0, 1, 0, 0, 0, 0, 0, 0, 0, 8, 0, 0, 0] + [0, 0, 0, 0]
  {
    hide Pack, LeBytes, Width;
    Words();
    Pack4(62, 8, 32, 1, 4, 4, 4, 4);
    Pack2(0, 8, 4, 4);
    Pack1(0, 4);
    PackConcat([62, 8, 32, 1], [0, 8], [4, 4, 4, 4], [4, 4]);
    PackConcat([62, 8, 32, 1] + [0, 8], [0], [4, 4, 4, 4] + [4, 4], [4]);
    assert [62, 8, 32, 1] + [0, 8] + [0] == [62, 8, 32, 1, 0, 8, 0];
    assert [4, 4, 4, 4] + [4, 4] + [4] == V1_COUNTS;
    assert [62, 0, 0, 0] + [8, 0, 0, 0] + ([32, 0, 0, 0] + [1, 0, 0, 0]) + ([0, 0, 0, 0] + [8, 0, 0, 0])
        == [62, 0, 0, 0, 8, 0, 0, 0, 32, 0, 0, 0, 1, 0, 0, 0, 0, 0, 0, 0, 8, 0, 0, 0];
  }

  lemma StateBytes()
    ensures Pack([0, 0, 0, 0], V1_LIT_STATES) == Zeros(8) && Pack([0, 0, 0, 0], V1_LMD) == Zeros(10)
  {
    hide Pack, LeBytes, Width;
    Words();
    Pack4(0, 0, 0, 0, 2, 2, 2, 2);
    Pack4(0, 0, 0, 0, 4, 2, 2, 2);
  }

  lemma ContentHeader()
    ensures CONTENT.Valid()
    ensures HeaderOf(CONTENT) == Header(0, 62, 32, 1, 0, 8, 0, [0, 0, 0, 0], 0, M.States(0, 0, 0),
                                        FREQS.l + FREQS.m + FREQS.d + LIT_FREQS)
  {
    hide Content.Valid, Content.Coded, LitCode, LmdCode, Bytes, Spare, R.Only, Written, MatchBits;
    ContentValid();
    ContentCodes();
    CodeBytes();
    OneMatch();
  }

  lemma OneMatch()
    ensures Written([MATCH]) == 62
  {
    assert Written([MATCH][1..]) == 0;
  }

  /** A bvx1 block in the parts that make it up. */
  lemma HeadIs(h: Header, counts: seq<byte>, states: seq<byte>, lmd: seq<byte>, tables: seq<byte>)
    requires Packable(h) && Pack(CountValues(h, h.litPayload + h.lmdPayload), V1_COUNTS) == counts
    requires Pack(h.litState, V1_LIT_STATES) == states && Pack(LmdValues(h), V1_LMD) == lmd
    requires Pack(h.freqs, Struct.Same(2, 360)) == tables
    ensures EncodeV1(h) == MAGIC_V1 + counts + states + lmd + tables + Zeros(2)
  {
    hide Pack, Packable;
  }

  lemma PlainHead()
    ensures CONTENT.Valid() && Packable(HeaderOf(CONTENT))
    ensures EncodeV1(HeaderOf(CONTENT)) == V1_HEAD + V1_TABLES + Zeros(2)
  {
    hide Content.Valid, LitCode, LmdCode, Bytes, Pack, HeaderOf, R.Only, Packable, EncodeV1;
    ContentHeader();
    HeaderPackable(CONTENT);
    CountBytes();
    StateBytes();
    TableBytes();
    var counts := [62, 0, 0, 0, 8, 0, 0, 0, 32, 0, 0, 0, 1, 0, 0, 0, 0, 0, 0, 0, 8, 0, 0, 0] + [0, 0, 0, 0];
    HeadIs(HeaderOf(CONTENT), counts, Zeros(8), Zeros(10), V1_TABLES);
    HeadZeros(counts);
  }

  lemma HeadZeros(counts: seq<byte>)
    requires counts == [62, 0, 0, 0, 8, 0, 0, 0, 32, 0, 0, 0, 1, 0, 0, 0, 0, 0, 0, 0, 8, 0, 0, 0] + [0, 0, 0, 0]
    ensures MAGIC_V1 + counts + Zeros(8) + Zeros(10) == V1_HEAD
  {
  }

  lemma BlockBytes()
    ensures CONTENT.Valid() && EncodeBlock(CONTENT, false) == V1_BLOCK
  {
    hide Content.Valid, Content.Coded, LitCode, LmdCode, Bytes, HeadBytes, R.Only, MatchBits;
    ContentValid();
    ContentCodes();
    CodeBytes();
    ContentHead();
    Joined(HeadBytes(CONTENT, false));
  }

  lemma ContentHead()
    ensures CONTENT.Valid() && HeadBytes(CONTENT, false) == V1_HEAD + V1_TABLES + Zeros(2)
  {
    hide Content.Valid, HeaderOf, R.Only, Packable, EncodeV1;
    PlainHead();
  }

  lemma Joined(head: seq<byte>)
    ensures head + [] + V1_MATCHES == head + V1_MATCHES
  {
  }

  // ---- the other two blocks ----

  const OPS: seq<Lzvn.Op> :=
    [Lzvn.SmlL([0x61, 0x62, 0x63]), Lzvn.SmlD([0x64], 3, 4), Lzvn.SmlL([0x65]), Lzvn.SmlM(2)]

  lemma OpBytes()
    ensures Lzvn.AllValid(OPS)
    ensures Lzvn.EncodeStream(OPS, Zeros(7))
         == [0xE3, 0x61, 0x62, 0x63, 0x40, 4, 0x64, 0xE1, 0x65, 0xF2, 6, 0, 0, 0, 0, 0, 0, 0]
  {
    assert OPS[1..] == [Lzvn.SmlD([0x64], 3, 4), Lzvn.SmlL([0x65]), Lzvn.SmlM(2)];
    assert OPS[1..][1..] == [Lzvn.SmlL([0x65]), Lzvn.SmlM(2)] && OPS[1..][1..][1..] == [Lzvn.SmlM(2)];
    assert OPS[1..][1..][1..][1..] == [];
  }

  lemma OpsWrite()
    ensures OpsLength(OPS) == 10
  {
    assert OPS[1..] == [Lzvn.SmlD([0x64], 3, 4), Lzvn.SmlL([0x65]), Lzvn.SmlM(2)];
    assert OPS[1..][1..] == [Lzvn.SmlL([0x65]), Lzvn.SmlM(2)] && OPS[1..][1..][1..] == [Lzvn.SmlM(2)];
    assert OPS[1..][1..][1..][1..] == [];
  }

  lemma RawBytes()
    ensures |RAW_TEXT| == 8 && MAGIC_RAW + Pack([|RAW_TEXT|], U32) + RAW_TEXT == RAW_BLOCK
  {
    hide Pack, Width, LeBytes;
    Words();
    Pack1(8, 4);
    assert U32 == [4] && |RAW_TEXT| == 8;
    assert MAGIC_RAW + [8, 0, 0, 0] == [0x62, 0x76, 0x78, 0x2D, 8, 0, 0, 0];
  }

  lemma LzvnBytes()
    ensures Lzvn.AllValid(OPS)
    ensures
      var body := Lzvn.EncodeStream(OPS, Zeros(7));
      && |body| == 18
      && MAGIC_LZVN + Pack([OpsLength(OPS), |body|], U32_U32) + body == LZVN_BLOCK
  {
    hide Pack, Width, Lzvn.EncodeStream, OpsLength, Lzvn.AllValid;
    OpBytes();
    OpsWrite();
    Words();
    Pack2(10, 18, 4, 4);
  }

  // ---- the stream ----

  const PIECES: seq<Piece> := [RawPiece(RAW_TEXT), LzvnPiece(OPS, Zeros(7)), LzfsePiece(CONTENT, false)]

  lemma PiecesValid()
    ensures LzfseStream.AllValid(PIECES)
  {
    hide Content.Valid, Lzvn.AllValid, Lzvn.EncodeStream, OpsLength, R.Only, Pow2, Piece.Valid;
    ShortPieces();
    BlockBytes();
    BlockPiece(CONTENT);
    AllThree(RawPiece(RAW_TEXT), LzvnPiece(OPS, Zeros(7)), LzfsePiece(CONTENT, false));
  }

  lemma AllThree(a: Piece, b: Piece, c: Piece)
    requires a.Valid() && b.Valid() && c.Valid()
    ensures LzfseStream.AllValid([a, b, c])
  {
    hide Piece.Valid;
  }

  lemma BlockPiece(c: Content)
    requires c.Valid()
    ensures LzfsePiece(c, false).Valid()
  {
    hide Content.Valid;
  }

  lemma ShortPieces()
    ensures RawPiece(RAW_TEXT).Valid() && LzvnPiece(OPS, Zeros(7)).Valid()
  {
    hide Lzvn.AllValid, Lzvn.EncodeStream, OpsLength, Pow2, Pack, Width;
    LzvnBytes();
    OpsWrite();
    BigPowers();
  }

  lemma StreamBytes()
    ensures LzfseStream.AllValid(PIECES)
    ensures [] + EncodeAll(PIECES) + MAGIC_END + [] == STREAM
  {
    hide Piece.Encode, Piece.Valid, R.Only, EncodeAll, LzfseStream.AllValid;
    PiecesValid();
    PieceBytes();
    ThreeEncoded(PIECES);
    Ended(RAW_BLOCK + LZVN_BLOCK + V1_BLOCK);
  }

  lemma Ended(s: seq<byte>)
    ensures [] + s + MAGIC_END + [] == s + [0x62, 0x76, 0x78, 0x24]
  {
  }

  lemma PieceBytes()
    ensures LzfseStream.AllValid(PIECES)
    ensures PIECES[0].Encode() == RAW_BLOCK && PIECES[1].Encode() == LZVN_BLOCK && PIECES[2].Encode() == V1_BLOCK
  {
    hide Content.Valid, EncodeBlock, Lzvn.EncodeStream, Piece.Valid, Pack, R.Only, OpsLength, Width;
    PiecesValid();
    BlockBytes();
    RawBytes();
    LzvnBytes();
  }

  lemma ThreeEncoded(ps: seq<Piece>)
    requires |ps| == 3 && LzfseStream.AllValid(ps)
    ensures EncodeAll(ps) == ps[0].Encode() + ps[1].Encode() + ps[2].Encode()
  {
    hide Piece.Encode, Piece.Valid;
    assert ps[1..][1..] == ps[2..] && ps[2..][1..] == [];
    assert EncodeAll([]) == [];
    assert EncodeAll(ps[2..]) == ps[2].Encode();
    assert EncodeAll(ps[1..]) == ps[1].Encode() + ps[2].Encode();
  }

  // ---- what it decompresses to ----

  const MATCH_TEXT: seq<byte> := [0x6F, 0x62, 0x65] + LZVN_TEXT + Repeat(17, 0x7A)
  const TEXT: seq<byte> := RAW_TEXT + LZVN_TEXT + Repeat(32, 0x7A) + MATCH_TEXT

  lemma OpsMean(before: seq<byte>)
    ensures Lzvn.PerformAll(OPS, Lzvn.Output(0, before), |before| + 10)
         == Ok(Lzvn.Output(4, before + LZVN_TEXT))
  {
    hide Lzvn.Perform, Lzvn.PerformAll;
    var cap := |before| + 10;
    var o1 := Lzvn.Output(0, before + [0x61, 0x62, 0x63]);
    var o2 := Lzvn.Output(4, before + [0x61, 0x62, 0x63, 0x64, 0x61, 0x62, 0x63]);
    var o3 := Lzvn.Output(4, before + [0x61, 0x62, 0x63, 0x64, 0x61, 0x62, 0x63, 0x65]);
    FirstOp(before, cap);
    SecondOp(before, cap);
    ThirdOp(before, cap);
    FourthOp(before, cap);
    FourOps(OPS, Lzvn.Output(0, before), o1, o2, o3, Lzvn.Output(4, before + LZVN_TEXT), cap);
  }

  lemma FourOps(ops: seq<Lzvn.Op>, a: Lzvn.Output, b: Lzvn.Output, c: Lzvn.Output, d: Lzvn.Output, e: Lzvn.Output,
                cap: nat)
    requires |ops| == 4 && Lzvn.Perform(ops[0], a, cap) == Ok(b) && Lzvn.Perform(ops[1], b, cap) == Ok(c)
    requires Lzvn.Perform(ops[2], c, cap) == Ok(d) && Lzvn.Perform(ops[3], d, cap) == Ok(e)
    ensures Lzvn.PerformAll(ops, a, cap) == Ok(e)
  {
    hide Lzvn.Perform;
    assert ops[1..][1..] == ops[2..] && ops[2..][1..] == ops[3..] && ops[3..][1..] == [];
    assert Lzvn.PerformAll([], e, cap) == Ok(e);
    assert Lzvn.PerformAll(ops[3..], d, cap) == Ok(e);
    assert Lzvn.PerformAll(ops[2..], c, cap) == Ok(e);
    assert Lzvn.PerformAll(ops[1..], b, cap) == Ok(e);
  }

  lemma FirstOp(before: seq<byte>, cap: nat)
    requires |before| + 10 <= cap
    ensures Lzvn.Perform(OPS[0], Lzvn.Output(0, before), cap) == Ok(Lzvn.Output(0, before + [0x61, 0x62, 0x63]))
  {
  }

  lemma SecondOp(before: seq<byte>, cap: nat)
    requires |before| + 10 <= cap
    ensures Lzvn.Perform(OPS[1], Lzvn.Output(0, before + [0x61, 0x62, 0x63]), cap)
         == Ok(Lzvn.Output(4, before + [0x61, 0x62, 0x63, 0x64, 0x61, 0x62, 0x63]))
  {
    hide Lzvn.Perform;
    var o := Lzvn.Output(0, before + [0x61, 0x62, 0x63]);
    Lzvn.OpEffect(OPS[1], o, cap);
    var r, n := Lzvn.Perform(OPS[1], o, cap).value.out, |before|;
    assert r[n] == o.out[n] == 0x61 && r[n + 1] == o.out[n + 1] == 0x62 && r[n + 2] == o.out[n + 2] == 0x63;
    assert r[n + 3] == 0x64 && r[n + 4] == r[n] && r[n + 5] == r[n + 1] && r[n + 6] == r[n + 2];
    Appended(before, r, [0x61, 0x62, 0x63, 0x64, 0x61, 0x62, 0x63]);
  }

  lemma Appended(a: seq<byte>, r: seq<byte>, b: seq<byte>)
    requires |r| == |a| + |b| && (forall k :: 0 <= k < |a| ==> r[k] == a[k])
    requires forall j :: 0 <= j < |b| ==> r[|a| + j] == b[j]
    ensures r == a + b
  {
  }

  lemma ThirdOp(before: seq<byte>, cap: nat)
    requires |before| + 10 <= cap
    ensures Lzvn.Perform(OPS[2], Lzvn.Output(4, before + [0x61, 0x62, 0x63, 0x64, 0x61, 0x62, 0x63]), cap)
         == Ok(Lzvn.Output(4, before + [0x61, 0x62, 0x63, 0x64, 0x61, 0x62, 0x63, 0x65]))
  {
    assert before + [0x61, 0x62, 0x63, 0x64, 0x61, 0x62, 0x63] + [0x65]
        == before + [0x61, 0x62, 0x63, 0x64, 0x61, 0x62, 0x63, 0x65];
  }

  lemma FourthOp(before: seq<byte>, cap: nat)
    requires |before| + 10 <= cap
    ensures Lzvn.Perform(OPS[3], Lzvn.Output(4, before + [0x61, 0x62, 0x63, 0x64, 0x61, 0x62, 0x63, 0x65]), cap)
         == Ok(Lzvn.Output(4, before + LZVN_TEXT))
  {
    hide Lzvn.Perform;
    var o := Lzvn.Output(4, before + [0x61, 0x62, 0x63, 0x64, 0x61, 0x62, 0x63, 0x65]);
    Lzvn.OpEffect(OPS[3], o, cap);
    var r, n := Lzvn.Perform(OPS[3], o, cap).value.out, |before|;
    assert forall k :: 0 <= k < n + 8 ==> r[k] == o.out[k];
    assert r[n + 8] == r[n + 4] == o.out[n + 4] == 0x61 && r[n + 9] == r[n + 5] == o.out[n + 5] == 0x62;
    Appended(before, r, LZVN_TEXT);
  }

  lemma MatchMeans(out: seq<byte>)
    requires out == RAW_TEXT + LZVN_TEXT
    ensures M.Execute([MATCH], Repeat(32, 0x7A), M.Output(0, -1, out), 80)
         == Ok(M.Output(32, 45, out + Repeat(32, 0x7A) + MATCH_TEXT))
  {
    hide M.Perform;
    var o, lits := M.Output(0, -1, out), Repeat(32, 0x7A);
    MatchEffect(MATCH, lits, o, 80);
    var r := M.Perform(MATCH, lits, o, 80).value;
    forall k | 0 <= k < 80
      ensures r.out[k] == (out + lits + MATCH_TEXT)[k]
    {
      if k >= 50 {
        assert r.out[k - 45] == (out + lits)[k - 45];
      }
    }
    assert r.out == out + lits + MATCH_TEXT;
    assert [MATCH][1..] == [];
    assert M.Execute([MATCH][1..], lits, r, 80) == Ok(r);
  }

  lemma Meaning()
    ensures MeaningAll(PIECES, [], 80) == Ok(TEXT)
  {
    hide M.Execute, Lzvn.PerformAll, OpsLength, R.Only, Piece.Meaning, MeaningAll;
    OpsWrite();
    OpsMean(RAW_TEXT);
    MatchMeans(RAW_TEXT + LZVN_TEXT);
    assert PIECES[0].Meaning([], 80) == Ok(RAW_TEXT) by {
      RawMeans(RAW_TEXT);
    }
    LzvnMeans();
    BlockMeans();
    ThreeMean(PIECES, [], RAW_TEXT, RAW_TEXT + LZVN_TEXT, TEXT);
  }

  lemma RawMeans(bytes: seq<byte>)
    requires |bytes| <= 80
    ensures RawPiece(bytes).Meaning([], 80) == Ok(bytes)
  {
    assert [] + bytes == bytes;
  }

  lemma LzvnMeans()
    ensures PIECES[1].Meaning(RAW_TEXT, 80) == Ok(RAW_TEXT + LZVN_TEXT)
  {
    hide Lzvn.PerformAll, OpsLength;
    OpsWrite();
    OpsMean(RAW_TEXT);
  }

  lemma BlockMeans()
    ensures PIECES[2].Meaning(RAW_TEXT + LZVN_TEXT, 80) == Ok(TEXT)
  {
    hide M.Execute, R.Only;
    MatchMeans(RAW_TEXT + LZVN_TEXT);
  }

  lemma ThreeMean(ps: seq<Piece>, a: seq<byte>, b: seq<byte>, c: seq<byte>, d: seq<byte>)
    requires |ps| == 3 && ps[0].Meaning(a, 80) == Ok(b) && ps[1].Meaning(b, 80) == Ok(c)
    requires ps[2].Meaning(c, 80) == Ok(d)
    ensures MeaningAll(ps, a, 80) == Ok(d)
  {
    hide Piece.Meaning;
    assert ps[1..][1..] == ps[2..] && ps[2..][1..] == [];
    assert MeaningAll([], d, 80) == Ok(d);
    assert MeaningAll(ps[2..], c, 80) == Ok(d);
    assert MeaningAll(ps[1..], b, 80) == Ok(d);
  }

  /** The stream's 830 bytes decompress to these 80. */
  lemma Example()
    ensures |STREAM| == 830 && |TEXT| == 80
    ensures Decompress(STREAM, 0, [], 80) == Ok(TEXT)
  {
    hide Decompress, EncodeAll, MeaningAll, LzfseStream.AllValid, R.Only;
    StreamBytes();
    Meaning();
    StreamRoundTrip([], PIECES, [], [], 80);
  }
}
