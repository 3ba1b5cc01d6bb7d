/** An encoder of LZFSE blocks: what `_lzfse_block` undoes. */
module LzfseEncode {
  import opened Bits
  import opened Prelude
  import opened FseTable
  import opened FseBits
  import opened LzfseTables
  import opened LzfseMatches
  import opened LzfseHeader
  import opened LzfseBlock
  import FreqCode
  import Lit = LzfseLiterals

  /** What a block carries: its frequency tables, its literals and how many of them it states, and its
      matches; and the states and bits that its two streams leave. */
  datatype Content = Content(freqs: Freqs, litFreqs: seq<nat>, lits: seq<byte>, nLit: nat, matches: seq<Match>,
                             litFinal: seq<nat>, litRest: BitString, lmdFinal: States, lmdRest: BitString) {
    /** Every symbol used has a state; the literals are those stated, made up to a whole number of fours as
        the decoder reads them, over any bits or none; the matches are over enough for every flush. */
    ghost predicate Coded()
    {
      && AllCodable(freqs, matches) && Lit.Codable(litFreqs, lits)
      && |lits| == (nLit + 3) / 4 * 4 && nLit <= LITERALS_PER_BLOCK && |matches| <= MATCHES_PER_BLOCK
      && Lit.InRange(litFinal) && litRest.Valid() && lmdFinal.InRange() && lmdRest.Valid()
      && Ample(freqs, matches, lmdFinal, lmdRest) && Encode(freqs, matches, lmdFinal, lmdRest).1.len >= 56
    }

    /** And the header can state the length of both payloads. */
    ghost predicate Valid()
    {
      Coded() && |Bytes(LitCode(this).1)| < Pow2(20) && |Bytes(LmdCode(this).1)| < Pow2(20)
    }
  }

  lemma ValidCoded(c: Content)
    requires c.Valid()
    ensures c.Coded()
  {
  }

  function LitCode(c: Content): (r: (seq<nat>, BitString))
    requires c.Coded()
    ensures Lit.InRange(r.0)
  {
    Lit.Encode(c.litFreqs, c.lits, c.litFinal, c.litRest)
  }

  function LmdCode(c: Content): (r: (States, BitString))
    requires c.Coded()
    ensures r.0.InRange()
  {
    Encode(c.freqs, c.matches, c.lmdFinal, c.lmdRest)
  }

  // ---- bit strings as bytes ----

  function Spare(b: BitString): (extra: int)
    ensures -7 <= extra <= 0
  {
    b.len - 8 * ((b.len + 7) / 8)
  }

  function Bytes(b: BitString): (s: seq<byte>)
    ensures 8 * |s| + Spare(b) == b.len
  {
    LeBytes(b.value, (b.len + 7) / 8)
  }

  /** The stated bits of `pre + Bytes(b) + post` down to a floor before the end of `pre` are `b` above
      the bytes between. */
  lemma BytesAbove(pre: seq<byte>, floor: nat, b: BitString, post: seq<byte>)
    requires floor <= |pre| && b.Valid()
    ensures var src, end := pre + Bytes(b) + post, |pre| + |Bytes(b)|;
      && Below(pre, floor, |pre|).Valid() && Stated(src, floor, end, Spare(b)).Valid()
      && Stated(src, floor, end, Spare(b)) == b.Above(Below(pre, floor, |pre|))
  {
    hide Pow2, Shl, LeValue, LeBytes;
    var src, end := pre + Bytes(b) + post, |pre| + |Bytes(b)|;
    assert src[floor..end] == pre[floor..] + Bytes(b) && pre[floor..] == pre[floor..|pre|];
    LeValueConcat(pre[floor..], Bytes(b));
    Pow2Mono(b.len, 8 * |Bytes(b)|);
    LeRoundTrip(b.value, |Bytes(b)|);
    LeValueBound(pre[floor..]);
    ShlBound(b.value, LeValue(pre[floor..]), b.len, 8 * |pre[floor..]|);
  }

  /** A reader opens there when there is a first load to take. */
  lemma BytesStated(pre: seq<byte>, floor: nat, b: BitString, post: seq<byte>)
    requires floor <= |pre| && b.Valid() && (b.len >= 56 || floor + 8 <= |pre|)
    ensures var src, end := pre + Bytes(b) + post, |pre| + |Bytes(b)|;
      && Opens(src, floor, end, Spare(b))
      && Stated(src, floor, end, Spare(b)) == b.Above(Below(pre, floor, |pre|))
  {
    hide Pow2, Stated, Below, Bytes;
    BytesAbove(pre, floor, b, post);
  }

  lemma AboveNothing(b: BitString, pre: seq<byte>)
    ensures b.Above(Below(pre, |pre|, |pre|)) == b
  {
    assert pre[|pre|..|pre|] == [];
  }

  // ---- a block ----

  /** How many bytes a list of matches writes. */
  function Written(ms: seq<Match>): nat
  {
    if ms == [] then 0 else ms[0].lit + ms[0].len + Written(ms[1..])
  }

  lemma {:induction false} WrittenBound(freqs: Freqs, ms: seq<Match>)
    requires AllCodable(freqs, ms)
    ensures Written(ms) <= 2674 * |ms|
    decreases |ms|
  {
    if ms != [] {
      assert Codable(freqs, ms[0]);
      WrittenBound(freqs, ms[1..]);
    }
  }

  lemma {:induction false} ExecuteWrites(ms: seq<Match>, lits: seq<byte>, o: Output, cap: nat)
    requires o.used <= |lits| && |o.out| <= cap
    ensures var r := Execute(ms, lits, o, cap);
      && (r.Ok? ==> |r.value.out| == |o.out| + Written(ms) <= cap)
    decreases |ms|
  {
    if ms != [] {
      var next := Perform(ms[0], lits, o, cap);
      if next.Ok? {
        ExecuteWrites(ms[1..], lits, next.value, cap);
      }
    }
  }

  /** The header of a block: the states its streams start from, and the sizes of both. */
  function HeaderOf(c: Content): Header
    requires c.Valid()
  {
    var lit, lmd := LitCode(c), LmdCode(c);
    Header(0, Written(c.matches), c.nLit, |c.matches|, |Bytes(lit.1)|, |Bytes(lmd.1)|,
           Spare(lit.1), lit.0, Spare(lmd.1), lmd.0, c.freqs.l + c.freqs.m + c.freqs.d + c.litFreqs)
  }

  lemma CodeSizes(c: Content)
    requires c.Coded()
    ensures LitCode(c).1.Valid() && LitCode(c).1.len <= c.litRest.len + 10 * |c.lits|
    ensures LmdCode(c).1.Valid() && 56 <= LmdCode(c).1.len <= c.lmdRest.len + 54 * |c.matches|
  {
    hide Pow2, Lit.Encode, Encode;
    Lit.EncodeValid(c.litFreqs, c.lits, c.litFinal, c.litRest);
    RoundTrip(c.freqs, c.matches, c.lmdFinal, c.lmdRest);
  }

  lemma SumBounds(s: seq<nat>, i: nat)
    requires i < |s|
    ensures s[i] <= Sum(s)
  {
    SumPrefix(s, i);
  }

  lemma FreqsPackable(c: Content)
    requires c.Valid()
    ensures FreqCode.Packable(HeaderOf(c).freqs) && WellFormed(HeaderOf(c))
  {
    hide Pow2, Sum;
    var f := HeaderOf(c).freqs;
    Pow2Small();
    forall i | 0 <= i < |f|
      ensures f[i] <= 1047
    {
      if i < 20 {
        SumBounds(c.freqs.l, i);
      } else if i < 40 {
        SumBounds(c.freqs.m, i - 20);
      } else if i < 104 {
        SumBounds(c.freqs.d, i - 40);
      } else {
        SumBounds(c.litFreqs, i - 104);
      }
    }
  }

  lemma HeaderPackable(c: Content)
    requires c.Valid()
    ensures Packable(HeaderOf(c))
  {
    hide Pow2, Sum, Written, Lit.Encode, Encode, LitCode, LmdCode, FreqCode.Packable, WellFormed;
    FreqsPackable(c);
    WrittenBound(c.freqs, c.matches);
    BigPowers();
    HeaderStates(c);
  }

  lemma HeaderStates(c: Content)
    requires c.Valid()
    ensures var h := HeaderOf(c);
      && |h.litState| == 4 && (forall i :: 0 <= i < 4 ==> h.litState[i] < Pow2(10))
      && h.st.l < Pow2(10) && h.st.m < Pow2(10) && h.st.d < Pow2(10)
  {
    hide Lit.Encode, Encode, Bytes, Written;
    Pow2Small();
    hide Pow2;
  }

  lemma BigPowers()
    ensures Pow2(20) == 1048576 && Pow2(32) > 26740000
  {
    Pow2Small();
    Pow2Is32();
    Pow2Plus(16, 4);
    assert Shl(65536, 1) == 131072;
    assert Shl(65536, 3) == 524288;
  }

  /** The bytes of that header. */
  function HeadBytes(c: Content, v2: bool): (s: seq<byte>)
    requires c.Valid()
    ensures |s| >= 32 && s[..4] == if v2 then MAGIC_V2 else MAGIC_V1
  {
    HeaderPackable(c);
    if v2 then EncodeV2(HeaderOf(c)) else EncodeV1(HeaderOf(c))
  }

  function EncodeBlock(c: Content, v2: bool): seq<byte>
    requires c.Valid()
  {
    HeadBytes(c, v2) + Bytes(LitCode(c).1) + Bytes(LmdCode(c).1)
  }

  lemma BlockParts(pre: seq<byte>, c: Content, v2: bool, post: seq<byte>)
    requires c.Valid()
    ensures var e, lit, lmd := HeadBytes(c, v2), Bytes(LitCode(c).1), Bytes(LmdCode(c).1);
      && |EncodeBlock(c, v2)| == |e| + |lit| + |lmd|
      && pre + EncodeBlock(c, v2) + post == pre + e + (lit + lmd + post) == pre + e + lit + lmd + post
  {
    hide HeadBytes, Bytes, LitCode, LmdCode, Content.Valid, Content.Coded;
    ValidCoded(c);
  }

  /** The header decodes to itself, passes its checks, and its tables come apart again. */
  lemma HeaderParses(pre: seq<byte>, c: Content, v2: bool, post: seq<byte>)
    requires c.Valid()
    ensures var e := HeadBytes(c, v2); ParseHeader(pre + e + post, |pre|, v2) == Ok(HeaderOf(c).(size := |e|))
  {
    hide EncodeV1, EncodeV2, ParseV1, ParseV2, HeaderOf, Packable, Content.Valid, Content.Coded;
    HeaderPackable(c);
    V1RoundTrip(pre, HeaderOf(c), post);
    V2RoundTrip(pre, HeaderOf(c), post);
  }

  lemma HeaderAccepted(c: Content, size: nat)
    requires c.Valid()
    ensures var h := HeaderOf(c).(size := size);
      && WellFormed(h) && Checked(h) && TablesFit(h) && FreqsOf(h) == c.freqs && LitFreqs(h) == c.litFreqs
  {
    hide Pow2, Sum, Lit.Encode, Encode, Bytes, Written, Spare;
    var f := HeaderOf(c).freqs;
    assert f[..20] == c.freqs.l && f[20..40] == c.freqs.m && f[40..104] == c.freqs.d && f[104..] == c.litFreqs;
  }

  lemma LiteralsRead(pre: seq<byte>, c: Content, post: seq<byte>)
    requires c.Valid() && |pre| >= 8
    ensures var lit := LitCode(c);
      && Closed(LIT_LOG, LIT_SYMBOLS, Spread(LIT_LOG, c.litFreqs))
      && Lit.LiteralsOf(pre + Bytes(lit.1) + post, |pre| + |Bytes(lit.1)|, Spare(lit.1), lit.0, c.nLit,
                        Spread(LIT_LOG, c.litFreqs)) == Ok(c.lits)
  {
    hide Pow2, Lit.Encode, Lit.Decode, Spread, Sum, LeValue, LeBytes;
    CodeSizes(c);
    var lit, low := LitCode(c), Below(pre, 0, |pre|);
    BytesStated(pre, 0, lit.1, post);
    BelowSplit(pre, 0, 0, |pre|);
    Lit.EncodeAbove(c.litFreqs, c.lits, c.litFinal, c.litRest, low);
    AboveValid(c.litRest, low);
    Lit.RoundTrip(c.litFreqs, c.lits, c.litFinal, c.litRest.Above(low), |c.lits| / 4, 0);
    assert (c.nLit + 3) / 4 == |c.lits| / 4;
  }

  lemma MatchesRead(pre: seq<byte>, c: Content, post: seq<byte>, out: seq<byte>, cap: nat)
    requires c.Valid()
    ensures var lmd := LmdCode(c);
      && c.freqs.ToTables().Closed()
      && MatchesOf(pre + Bytes(lmd.1) + post, |pre|, |pre| + |Bytes(lmd.1)|, Spare(lmd.1), lmd.0, |c.matches|,
                   c.freqs.ToTables(), c.lits, out, cap)
         == match Execute(c.matches, c.lits, Output(0, -1, out), cap) case Raised => Raised case Ok(o) => Ok(o.out)
  {
    hide Pow2, Encode, Decode, Execute, Sum, LeValue, LeBytes;
    CodeSizes(c);
    var lmd := LmdCode(c);
    BytesStated(pre, |pre|, lmd.1, post);
    AboveNothing(lmd.1, pre);
    RoundTrip(c.freqs, c.matches, c.lmdFinal, c.lmdRest);
  }

  /** A payload whose literals are known decodes as its matches do. */
  lemma PayloadIs(src: seq<byte>, pos: nat, out: seq<byte>, cap: nat, h: Header, lits: seq<byte>,
                  done: Result<seq<byte>>)
    requires pos + h.size + h.litPayload + h.lmdPayload <= |src|
    requires WellFormed(h) && Checked(h) && TablesFit(h)
    requires Closed(LIT_LOG, LIT_SYMBOLS, Spread(LIT_LOG, LitFreqs(h))) && FreqsOf(h).ToTables().Closed()
    requires Lit.LiteralsOf(src, pos + h.size + h.litPayload, h.litBits, h.litState, h.nLit,
                            Spread(LIT_LOG, LitFreqs(h))) == Ok(lits)
    requires done == MatchesOf(src, pos + h.size + h.litPayload, pos + h.size + h.litPayload + h.lmdPayload, h.lmdBits,
                               h.st, h.nMatch, FreqsOf(h).ToTables(), lits, out, cap)
    requires done.Ok? ==> |done.value| == |out| + h.raw <= cap
    ensures Payload(src, pos, out, cap, h) ==
      if done.Raised? then Raised else Ok((done.value, pos + h.size + h.litPayload + h.lmdPayload))
  {
    hide Lit.LiteralsOf, MatchesOf, Spread, Pow2, Sum, ValuesOf;
  }

  /** The payload after a header of the block, which it holds at `e`. */
  lemma PayloadRead(pre: seq<byte>, e: seq<byte>, c: Content, post: seq<byte>, out: seq<byte>, cap: nat)
    requires c.Valid() && |out| <= cap && |e| >= 8
    ensures WellFormed(HeaderOf(c))
    ensures var src := pre + e + Bytes(LitCode(c).1) + Bytes(LmdCode(c).1) + post;
      Payload(src, |pre|, out, cap, HeaderOf(c).(size := |e|)) ==
        match Execute(c.matches, c.lits, Output(0, -1, out), cap)
        case Raised => Raised
        case Ok(o) => Ok((o.out, |src| - |post|))
  {
    hide Lit.LiteralsOf, MatchesOf, Execute, Spread, Written, Pow2, Bytes, Spare, Sum, ValuesOf, LitCode, LmdCode,
         Payload, Checked, Content.Coded, TablesFit, Closed, Tables.Closed, Packable;
    var lit, lmd := Bytes(LitCode(c).1), Bytes(LmdCode(c).1);
    var src := pre + e + lit + lmd + post;
    HeaderAccepted(c, |e|);
    assert src == (pre + e) + lit + (lmd + post);
    LiteralsRead(pre + e, c, lmd + post);
    assert src == (pre + e + lit) + lmd + post;
    MatchesRead(pre + e + lit, c, post, out, cap);
    ExecuteWrites(c.matches, c.lits, Output(0, -1, out), cap);
    var o := Execute(c.matches, c.lits, Output(0, -1, out), cap);
    PayloadIs(src, |pre|, out, cap, HeaderOf(c).(size := |e|), c.lits, if o.Raised? then Raised else Ok(o.value.out));
  }

  /** Decoding an encoded block, wherever it stands and whatever its header's form, performs its
      matches on the output so far, and raises exactly when one of them cannot be performed. */
  lemma BlockRoundTrip(pre: seq<byte>, c: Content, v2: bool, post: seq<byte>, out: seq<byte>, cap: nat)
    requires c.Valid() && |out| <= cap
    ensures Block(pre + EncodeBlock(c, v2) + post, |pre|, out, cap, v2) ==
      match Execute(c.matches, c.lits, Output(0, -1, out), cap)
      case Raised => Raised
      case Ok(o) => Ok((o.out, |pre| + |EncodeBlock(c, v2)|))
  {
    hide ParseV1, ParseV2, Execute, Bytes, LitCode, LmdCode, Payload, Content.Valid, Content.Coded, HeaderOf, HeadBytes,
         EncodeBlock, WellFormed;
    ValidCoded(c);
    BlockParts(pre, c, v2, post);
    HeaderParses(pre, c, v2, Bytes(LitCode(c).1) + Bytes(LmdCode(c).1) + post);
    PayloadRead(pre, HeadBytes(c, v2), c, post, out, cap);
  }
}
