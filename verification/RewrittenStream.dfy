/** What a stream decodes to when the bytes before its payloads change, as `v2_to_v1` changes them. */
module RewrittenStream {
  import opened Bits
  import opened Prelude
  import opened Struct
  import opened FseTable
  import opened FseBits
  import opened LzfseTables
  import opened LzfseMatches
  import opened LzfseHeader
  import opened LzfseBlock
  import opened LzfseStream
  import opened LzfseEncode
  import opened OwnBits
  import HeaderRewrite
  import FreqCode
  import Lit = LzfseLiterals
  import Lzvn

  // ---- literals and the bytes below them ----

  /** How many literals choose the states of others: all but the last group of four. */
  function Choosing(nLit: nat): (n: nat)
    ensures nLit > 0 ==> n + 4 == 4 * ((nLit + 3) / 4)
  {
    if nLit == 0 then 0 else 4 * ((nLit + 3) / 4) - 4
  }

  /** The literals up to `litEnd`, from the bytes from `base` on alone. */
  function LiteralsFrom(src: seq<byte>, base: nat, litEnd: nat, litBits: int, states: seq<nat>, nLit: nat,
                        table: Table): Result<seq<byte>>
    requires base <= litEnd <= |src| && Closed(LIT_LOG, LIT_SYMBOLS, table) && Lit.InRange(states)
    requires StaysAbove(src, base, litEnd, litBits, states, nLit, table)
  {
    if !(-7 <= litBits <= 0) then Raised
    else
      var b := Stated(src, base, litEnd, litBits);
      if b.value >= Pow2(b.len) then Raised
      else if nLit == 0 then Ok([])
      else OwnBits.Literals(table, states, b, Choosing(nLit) + 4)
  }

  /** No literal's state is pulled from a byte before `base`; loading such bytes does not matter. */
  ghost predicate StaysAbove(src: seq<byte>, base: nat, litEnd: nat, litBits: int, states: seq<nat>, nLit: nat,
                             table: Table)
    requires base <= litEnd <= |src| && Closed(LIT_LOG, LIT_SYMBOLS, table) && Lit.InRange(states)
  {
    -7 <= litBits <= 0 ==>
      && 8 * (litEnd - base) + litBits >= 0
      && (Stated(src, base, litEnd, litBits).Valid() ==>
            Own(table, states, Stated(src, base, litEnd, litBits), Choosing(nLit)))
  }

  lemma StatedAbove(src: seq<byte>, base: nat, end: nat, extra: int)
    requires base <= end <= |src| && extra <= 0 && 8 * (end - base) + extra >= 0
    ensures var own, low := Stated(src, base, end, extra), Below(src, 0, base);
      && low.Valid() && Stated(src, 0, end, extra) == own.Above(low)
      && (Stated(src, 0, end, extra).Valid() <==> own.Valid())
  {
    hide Pow2, Shl, LeValue;
    var own, low := Stated(src, base, end, extra), Below(src, 0, base);
    assert src[0..end] == src[0..base] + src[base..end];
    LeValueConcat(src[0..base], src[base..end]);
    BelowSplit(src, 0, 0, base);
    if own.Valid() {
      AboveValid(own, low);
    } else if own.Above(low).Valid() {
      ValidAbove(own, low);
    }
  }

  lemma LiteralsAlone(src: seq<byte>, base: nat, litEnd: nat, litBits: int, states: seq<nat>, nLit: nat, table: Table)
    requires 8 <= base <= litEnd <= |src| && Closed(LIT_LOG, LIT_SYMBOLS, table) && Lit.InRange(states)
    requires StaysAbove(src, base, litEnd, litBits, states, nLit, table)
    ensures Lit.LiteralsOf(src, litEnd, litBits, states, nLit, table)
         == LiteralsFrom(src, base, litEnd, litBits, states, nLit, table)
  {
    hide Pow2, Shl, LeValue, Closed, Lit.Decode, Own, OwnBits.Literals;
    if -7 <= litBits <= 0 {
      StatedAbove(src, base, litEnd, litBits);
      var own, low := Stated(src, base, litEnd, litBits), Below(src, 0, base);
      if own.Valid() {
        if nLit == 0 {
          Lit.NoneLeft(table, states, own.Above(low));
        } else {
          LiteralsAbove(table, states, own, low, (nLit + 3) / 4, 0);
        }
      }
    }
  }

  // ---- blocks that stand after different bytes ----

  /** The sources are the same from `base1` and `base2` on, and `at1` and `at2` are the same place. */
  ghost predicate SameFrom(src1: seq<byte>, base1: nat, at1: nat, src2: seq<byte>, base2: nat, at2: nat)
  {
    base1 <= at1 <= |src1| && base2 <= |src2| && src1[base1..] == src2[base2..] && at1 - base1 == at2 - base2
  }

  lemma SameSlice(src1: seq<byte>, base1: nat, src2: seq<byte>, base2: nat, a: nat, b: nat)
    requires SameFrom(src1, base1, base1, src2, base2, base2) && a <= b <= |src1| - base1
    ensures |src2| - base2 == |src1| - base1
    ensures src1[base1 + a..base1 + b] == src2[base2 + a..base2 + b]
    ensures src1[base1 + a..] == src2[base2 + a..]
  {
    SliceSlice(src1, base1, |src1|, a, b);
    SliceSlice(src2, base2, |src2|, a, b);
    SliceSlice(src1, base1, |src1|, a, |src1| - base1);
    SliceSlice(src2, base2, |src2|, a, |src2| - base2);
    assert src1[base1..|src1|] == src1[base1..] && src2[base2..|src2|] == src2[base2..];
    assert src1[base1 + a..|src1|] == src1[base1 + a..] && src2[base2 + a..|src2|] == src2[base2 + a..];
  }

  /** A result, and an offset that moves with the source. */
  function Moved(r: Result<(seq<byte>, nat)>, base1: nat, base2: nat): Result<(seq<byte>, nat)>
    requires r.Ok? ==> base1 <= r.value.1
  {
    if r.Raised? then Raised else Ok((r.value.0, r.value.1 - base1 + base2))
  }

  lemma LiteralsMoved(src1: seq<byte>, base1: nat, src2: seq<byte>, base2: nat, k: nat, litBits: int, states: seq<nat>,
                      nLit: nat, table: Table)
    requires SameFrom(src1, base1, base1, src2, base2, base2) && base1 >= 8 && base2 >= 8 && k <= |src1| - base1
    requires Closed(LIT_LOG, LIT_SYMBOLS, table) && Lit.InRange(states)
    requires StaysAbove(src1, base1, base1 + k, litBits, states, nLit, table)
    ensures |src2| - base2 == |src1| - base1
    ensures Lit.LiteralsOf(src1, base1 + k, litBits, states, nLit, table)
         == Lit.LiteralsOf(src2, base2 + k, litBits, states, nLit, table)
  {
    hide Lit.LiteralsOf, Lit.Decode, Own, OwnBits.Literals, LeValue, Pow2, Closed;
    SameSlice(src1, base1, src2, base2, 0, k);
    LiteralsAlone(src1, base1, base1 + k, litBits, states, nLit, table);
    LiteralsAlone(src2, base2, base2 + k, litBits, states, nLit, table);
  }

  lemma MatchesMoved(src1: seq<byte>, base1: nat, src2: seq<byte>, base2: nat, a: nat, b: nat, extra: int, st: States,
                     count: nat, tabs: Tables, lits: seq<byte>, out: seq<byte>, cap: nat)
    requires SameFrom(src1, base1, base1, src2, base2, base2) && a <= b <= |src1| - base1
    requires tabs.Closed() && st.InRange()
    ensures |src2| - base2 == |src1| - base1
    ensures MatchesOf(src1, base1 + a, base1 + b, extra, st, count, tabs, lits, out, cap)
         == MatchesOf(src2, base2 + a, base2 + b, extra, st, count, tabs, lits, out, cap)
  {
    hide Decode, Resume, LeValue, Pow2;
    SameSlice(src1, base1, src2, base2, a, b);
  }

  /** A block's literals never want a byte before `base`. */
  ghost predicate LiteralsStay(src: seq<byte>, base: nat, pos: nat, h: Header)
    requires WellFormed(h)
  {
    var litEnd := pos + h.size + h.litPayload;
    litEnd + h.lmdPayload <= |src| && Checked(h) && TablesFit(h) ==>
      && base <= litEnd
      && (SpreadClosed(LIT_LOG, LitFreqs(h));
          StaysAbove(src, base, litEnd, h.litBits, h.litState, h.nLit, Spread(LIT_LOG, LitFreqs(h))))
  }

  lemma PayloadMoved(src1: seq<byte>, base1: nat, pos1: nat, h1: Header, src2: seq<byte>, base2: nat, pos2: nat,
                     h2: Header, out: seq<byte>, cap: nat)
    requires WellFormed(h1) && h2 == h1.(size := h2.size) && base1 >= 8 && base2 >= 8
    requires SameFrom(src1, base1, pos1 + h1.size, src2, base2, pos2 + h2.size)
    requires LiteralsStay(src1, base1, pos1, h1)
    ensures pos2 + h2.size <= |src2|
    ensures Payload(src2, pos2, out, cap, h2) == Moved(Payload(src1, pos1, out, cap, h1), base1, base2)
  {
    hide Lit.LiteralsOf, MatchesOf, Spread, Pow2, Sum, ValuesOf, StaysAbove, Closed, Tables.Closed;
    var a := pos1 + h1.size + h1.litPayload - base1;
    SameSlice(src1, base1, src2, base2, pos1 + h1.size - base1, |src1| - base1);
    if a + h1.lmdPayload <= |src1| - base1 && Checked(h1) && TablesFit(h1) {
      SpreadClosed(LIT_LOG, LitFreqs(h1));
      TablesClosed(FreqsOf(h1));
      LiteralsMoved(src1, base1, src2, base2, a, h1.litBits, h1.litState, h1.nLit, Spread(LIT_LOG, LitFreqs(h1)));
      var lits := Lit.LiteralsOf(src1, base1 + a, h1.litBits, h1.litState, h1.nLit, Spread(LIT_LOG, LitFreqs(h1)));
      if lits.Ok? {
        MatchesMoved(src1, base1, src2, base2, a, a + h1.lmdPayload, h1.lmdBits, h1.st, h1.nMatch,
                     FreqsOf(h1).ToTables(), lits.value, out, cap);
      }
    }
  }

  lemma HeaderMoved(src1: seq<byte>, base1: nat, src2: seq<byte>, base2: nat, k: nat, v2: bool)
    requires SameFrom(src1, base1, base1, src2, base2, base2) && k <= |src1| - base1
    ensures |src2| - base2 == |src1| - base1
    ensures ParseHeader(src2, base2 + k, v2) == ParseHeader(src1, base1 + k, v2)
  {
    hide Unpack, FreqCode.V2Freqs, Low, SameFrom, UnpackV2, Width;
    var n := |src1| - base1;
    SameSlice(src1, base1, src2, base2, k, n);
    if v2 {
      if k + 32 <= n {
        SameSlice(src1, base1, src2, base2, k + 4, n);
        V2FixedWidth();
        var size := Low(Unpack(src1[base1 + k + 4..], V2_FIXED)[3], 32);
        if k + size <= n {
          SameSlice(src1, base1, src2, base2, k, k + size);
        }
      }
    } else if k + V1_SIZE <= n {
      SameSlice(src1, base1, src2, base2, k + 4, n);
      SameSlice(src1, base1, src2, base2, k + 32, n);
      SameSlice(src1, base1, src2, base2, k + 40, n);
      SameSlice(src1, base1, src2, base2, k + 50, n);
    }
  }

  lemma RawMoved(src1: seq<byte>, base1: nat, src2: seq<byte>, base2: nat, k: nat, out: seq<byte>, limit: nat)
    requires SameFrom(src1, base1, base1, src2, base2, base2) && k + 4 <= |src1| - base1
    ensures |src2| - base2 == |src1| - base1
    ensures RawBlock(src2, base2 + k, out, limit) == Moved(RawBlock(src1, base1 + k, out, limit), base1, base2)
  {
    hide Unpack, SameFrom, Width;
    var n := |src1| - base1;
    SameSlice(src1, base1, src2, base2, k + 4, n);
    U32Widths();
    if k + 8 <= n {
      var raw := Unpack(src1[base1 + k + 4..], U32)[0];
      if k + 8 + raw <= n {
        SameSlice(src1, base1, src2, base2, k + 8, k + 8 + raw);
      }
    }
  }

  lemma LzvnMoved(src1: seq<byte>, base1: nat, src2: seq<byte>, base2: nat, k: nat, out: seq<byte>, limit: nat)
    requires SameFrom(src1, base1, base1, src2, base2, base2) && k + 4 <= |src1| - base1
    ensures |src2| - base2 == |src1| - base1
    ensures LzvnBlock(src2, base2 + k, out, limit) == Moved(LzvnBlock(src1, base1 + k, out, limit), base1, base2)
  {
    hide Unpack, SameFrom, Width, Lzvn.Run;
    var n := |src1| - base1;
    SameSlice(src1, base1, src2, base2, k + 4, n);
    U32Widths();
    if k + 12 <= n {
      var payload := Unpack(src1[base1 + k + 4..], U32_U32)[1];
      if k + 12 + payload <= n {
        SameSlice(src1, base1, src2, base2, k + 12, k + 12 + payload);
      }
    }
  }

  /** The block at `pos`, if it is a compressed one whose header parses, keeps its literals above
      `base`. */
  ghost predicate BlockStays(src: seq<byte>, base: nat, pos: nat)
    requires pos + 4 <= |src|
  {
    var magic := src[pos..pos + 4];
    magic == MAGIC_V1 || magic == MAGIC_V2 ==>
      var h := ParseHeader(src, pos, magic == MAGIC_V2);
      h.Ok? ==> LiteralsStay(src, base, pos, h.value)
  }

  lemma OneBlockMoved(src1: seq<byte>, base1: nat, src2: seq<byte>, base2: nat, k: nat, out: seq<byte>, limit: nat)
    requires SameFrom(src1, base1, base1, src2, base2, base2) && base1 >= 8 && base2 >= 8 && k + 4 <= |src1| - base1
    requires BlockStays(src1, base1, base1 + k)
    ensures |src2| - base2 == |src1| - base1
    ensures src2[base2 + k..base2 + k + 4] == src1[base1 + k..base1 + k + 4]
    ensures OneBlock(src2, base2 + k, out, limit) == Moved(OneBlock(src1, base1 + k, out, limit), base1, base2)
  {
    hide RawBlock, LzvnBlock, Payload, LiteralsStay, ParseHeader, Checked;
    SameSlice(src1, base1, src2, base2, k, k + 4);
    var magic := src1[base1 + k..base1 + k + 4];
    if magic == MAGIC_RAW {
      RawMoved(src1, base1, src2, base2, k, out, limit);
    } else if magic == MAGIC_LZVN {
      LzvnMoved(src1, base1, src2, base2, k, out, limit);
    } else if magic == MAGIC_V1 || magic == MAGIC_V2 {
      HeaderMoved(src1, base1, src2, base2, k, magic == MAGIC_V2);
      var h := ParseHeader(src1, base1 + k, magic == MAGIC_V2);
      if h.Ok? {
        PayloadMoved(src1, base1, base1 + k, h.value, src2, base2, base2 + k, h.value, out, limit);
      }
    }
  }

  /** Decompressing from `pos` never wants a byte before `base`. */
  ghost predicate Contained(src: seq<byte>, base: nat, pos: nat, out: seq<byte>, limit: nat)
    requires pos <= |src|
    decreases |src| - pos
  {
    if pos + 4 > |src| || src[pos..pos + 4] == MAGIC_END then true
    else
      && BlockStays(src, base, pos)
      && var block := OneBlock(src, pos, out, limit);
         block.Ok? ==> Contained(src, base, block.value.1, block.value.0, limit)
  }

  lemma ContainedStep(src: seq<byte>, base: nat, pos: nat, out: seq<byte>, limit: nat)
    requires pos + 4 <= |src|
    ensures src[pos..pos + 4] == MAGIC_END ==> Contained(src, base, pos, out, limit)
    ensures src[pos..pos + 4] != MAGIC_END ==>
      (Contained(src, base, pos, out, limit) <==>
         && BlockStays(src, base, pos)
         && var block := OneBlock(src, pos, out, limit);
            block.Ok? ==> Contained(src, base, block.value.1, block.value.0, limit))
  {
    hide OneBlock, BlockStays;
  }

  /** The blocks of a stream decompress alike after different bytes. */
  lemma {:induction false} DecompressMoved(src1: seq<byte>, base1: nat, src2: seq<byte>, base2: nat, k: nat,
                                           out: seq<byte>, limit: nat)
    requires SameFrom(src1, base1, base1, src2, base2, base2) && base1 >= 8 && base2 >= 8 && k <= |src1| - base1
    requires Contained(src1, base1, base1 + k, out, limit)
    ensures |src2| - base2 == |src1| - base1
    ensures Decompress(src2, base2 + k, out, limit) == Decompress(src1, base1 + k, out, limit)
    decreases |src1| - base1 - k
  {
    hide OneBlock, BlockStays;
    SameSlice(src1, base1, src2, base2, k, |src1| - base1);
    if k + 4 <= |src1| - base1 {
      SameSlice(src1, base1, src2, base2, k, k + 4);
      if src1[base1 + k..base1 + k + 4] != MAGIC_END {
        OneBlockMoved(src1, base1, src2, base2, k, out, limit);
        var block := OneBlock(src1, base1 + k, out, limit);
        if block.Ok? {
          DecompressMoved(src1, base1, src2, base2, block.value.1 - base1, block.value.0, limit);
        }
      }
    }
  }

  // ---- the rewriting ----

  /** The stream with its first header rewritten. */
  function Rewritten(blob: seq<byte>): (s: seq<byte>)
    requires |blob| >= 4 && blob[..4] == MAGIC_V2 && ParseV2(blob, 0).Ok? && Packable(ParseV2(blob, 0).value)
  {
    var h := ParseV2(blob, 0).value;
    EncodeV1(h) + blob[h.size..]
  }

  /** A block whose literals stay in their payload decodes alike under both headers: both raise, or
      both give the same output, and the rest of the stream is the same. */
  lemma BlockRewritten(blob: seq<byte>, out: seq<byte>, cap: nat)
    requires |blob| >= 4 && blob[..4] == MAGIC_V2 && ParseV2(blob, 0).Ok?
    requires LiteralsStay(blob, ParseV2(blob, 0).value.size, 0, ParseV2(blob, 0).value)
    ensures Packable(ParseV2(blob, 0).value)
    ensures Rewritten(blob)[..4] == MAGIC_V1
    ensures Block(blob, 0, out, cap, true).Ok? ==> ParseV2(blob, 0).value.size <= Block(blob, 0, out, cap, true).value.1
    ensures Block(Rewritten(blob), 0, out, cap, false)
         == Moved(Block(blob, 0, out, cap, true), ParseV2(blob, 0).value.size, V1_SIZE)
  {
    hide EncodeV1, ParseV1, ParseV2, Payload, LiteralsStay, Packable;
    var h := ParseV2(blob, 0).value;
    HeaderRewrite.RewriteKeeps(blob);
    PayloadMoved(blob, h.size, 0, h, Rewritten(blob), V1_SIZE, 0, h.(size := V1_SIZE), out, cap);
  }

  lemma FirstBlock(src: seq<byte>, v2: bool, out: seq<byte>, limit: nat)
    requires |src| >= 4 && src[..4] == if v2 then MAGIC_V2 else MAGIC_V1
    ensures src[0..0 + 4] == src[..4] != MAGIC_END
    ensures OneBlock(src, 0, out, limit) == Block(src, 0, out, limit, v2)
    ensures v2 ==> ParseHeader(src, 0, true) == ParseV2(src, 0)
  {
    hide RawBlock, LzvnBlock, ParseV1, ParseV2, Payload;
    assert src[0..0 + 4] == src[..4];
  }

  /** A whole stream: when no block's literals want a byte from the first header, the rewritten stream
      decompresses as the original does. */
  lemma StreamRewritten(blob: seq<byte>, limit: nat)
    requires |blob| >= 4 && blob[..4] == MAGIC_V2 && ParseV2(blob, 0).Ok?
    requires Contained(blob, ParseV2(blob, 0).value.size, 0, [], limit)
    ensures Packable(ParseV2(blob, 0).value)
    ensures Decompress(Rewritten(blob), 0, [], limit) == Decompress(blob, 0, [], limit)
  {
    hide EncodeV1, ParseV1, ParseV2, Block, OneBlock, ParseHeader, LiteralsStay, Packable, Contained, Decompress;
    var h := ParseV2(blob, 0).value;
    HeaderRewrite.RewriteKeeps(blob);
    FirstBlock(blob, true, [], limit);
    ContainedStep(blob, h.size, 0, [], limit);
    BlockRewritten(blob, [], limit);
    var s := Rewritten(blob);
    FirstBlock(s, false, [], limit);
    DecompressStep(blob, 0, [], limit);
    DecompressStep(s, 0, [], limit);
    var block := OneBlock(blob, 0, [], limit);
    if block.Ok? {
      DecompressMoved(blob, h.size, s, V1_SIZE, block.value.1 - h.size, block.value.0, limit);
    }
  }

  // ---- what an encoder writes ----

  /** Literals written over any bits stay in their payload, wherever it stands. */
  lemma EncodedLiterals(pre: seq<byte>, base: nat, c: Content, post: seq<byte>)
    requires c.Valid() && base <= |pre|
    ensures Closed(LIT_LOG, LIT_SYMBOLS, Spread(LIT_LOG, c.litFreqs))
    ensures var lit := LitCode(c);
      StaysAbove(pre + Bytes(lit.1) + post, base, |pre| + |Bytes(lit.1)|, Spare(lit.1), lit.0, c.nLit,
                 Spread(LIT_LOG, c.litFreqs))
  {
    hide Pow2, Shl, Lit.Encode, Own, Stated, Bytes, Below, Sum, Spread, Closed;
    ValidCoded(c);
    CodeSizes(c);
    var lit, low := LitCode(c), Below(pre, base, |pre|);
    BytesAbove(pre, base, lit.1, post);
    Lit.EncodeAbove(c.litFreqs, c.lits, c.litFinal, c.litRest, low);
    AboveValid(c.litRest, low);
    EncodeOwn(c.litFreqs, c.lits, c.litFinal, c.litRest.Above(low));
    OwnFewer(Spread(LIT_LOG, c.litFreqs), lit.0, lit.1.Above(low), |c.lits|, Choosing(c.nLit));
  }

  /** So no encoded block wants a byte from before its literals. */
  lemma EncodedStays(pre: seq<byte>, c: Content, v2: bool, post: seq<byte>, base: nat)
    requires c.Valid() && base <= |pre| + |HeadBytes(c, v2)|
    ensures |EncodeBlock(c, v2)| >= 4
    ensures BlockStays(pre + EncodeBlock(c, v2) + post, base, |pre|)
  {
    hide ParseHeader, Bytes, Spare, LitCode, LmdCode, Content.Valid, Content.Coded, HeadBytes, EncodeBlock, StaysAbove,
         Closed, Spread, Sum, Pow2;
    ValidCoded(c);
    BlockParts(pre, c, v2, post);
    var e, lit, lmd := HeadBytes(c, v2), LitCode(c), Bytes(LmdCode(c).1);
    var src := pre + EncodeBlock(c, v2) + post;
    HeaderParses(pre, c, v2, Bytes(lit.1) + lmd + post);
    HeaderAccepted(c, |e|);
    BlockMagic(c, v2);
    assert src[|pre|..|pre| + 4] == EncodeBlock(c, v2)[..4];
    assert src == (pre + e) + Bytes(lit.1) + (lmd + post);
    EncodedLiterals(pre + e, base, c, lmd + post);
  }

  /** Nor does a whole encoded stream. */
  lemma {:induction false} EncodedContained(pre: seq<byte>, ps: seq<Piece>, post: seq<byte>, base: nat,
                                            out: seq<byte>, limit: nat)
    requires LzfseStream.AllValid(ps) && |out| <= limit
    requires base <= |pre|
             || (ps != [] && ps[0].LzfsePiece? && base <= |pre| + |HeadBytes(ps[0].content, ps[0].v2)|)
    ensures Contained(pre + EncodeAll(ps) + MAGIC_END + post, base, |pre|, out, limit)
    decreases |ps|
  {
    hide OneBlock, BlockStays, Piece.Encode, Piece.Meaning, Piece.Valid, HeadBytes, Contained;
    var src := pre + EncodeAll(ps) + MAGIC_END + post;
    if ps == [] {
      assert src[|pre|..|pre| + 4] == MAGIC_END;
      ContainedStep(src, base, |pre|, out, limit);
    } else {
      var p, rest := ps[0], EncodeAll(ps[1..]) + MAGIC_END + post;
      assert src == pre + p.Encode() + rest;
      PieceStays(pre, p, rest, base);
      PieceRoundTrip(pre, p, rest, out, limit);
      MagicOf(p);
      assert src[|pre|..|pre| + 4] == p.Encode()[..4];
      ContainedStep(src, base, |pre|, out, limit);
      var next := p.Meaning(out, limit);
      if next.Ok? {
        OneBlockBound(src, |pre|, out, limit);
        EncodedContained(pre + p.Encode(), ps[1..], post, base, next.value, limit);
        assert src == (pre + p.Encode()) + EncodeAll(ps[1..]) + MAGIC_END + post;
      }
    }
  }

  lemma PieceStays(pre: seq<byte>, p: Piece, rest: seq<byte>, base: nat)
    requires p.Valid() && (base <= |pre| || p.LzfsePiece?)
    requires p.LzfsePiece? && base > |pre| ==> base <= |pre| + |HeadBytes(p.content, p.v2)|
    ensures |p.Encode()| >= 4 && base <= |pre| + |p.Encode()| && BlockStays(pre + p.Encode() + rest, base, |pre|)
  {
    hide HeadBytes, EncodeBlock, Content.Valid, LiteralsStay, ParseHeader, Pack, Pow2, Lzvn.EncodeStream;
    MagicOf(p);
    if p.LzfsePiece? {
      EncodedStays(pre, p.content, p.v2, rest, base);
      BlockParts(pre, p.content, p.v2, rest);
    } else {
      assert (pre + p.Encode() + rest)[|pre|..|pre| + 4] == p.Encode()[..4];
    }
  }

  lemma EncodedParses(c: Content, rest: seq<byte>)
    requires c.Valid()
    ensures var blob := EncodeBlock(c, true) + rest;
      && |blob| >= 4 && blob[..4] == MAGIC_V2
      && ParseV2(blob, 0) == Ok(HeaderOf(c).(size := |HeadBytes(c, true)|))
  {
    hide ParseV2, HeadBytes, HeaderOf, Content.Valid, Content.Coded, EncodeBlock, Bytes, LitCode, LmdCode;
    ValidCoded(c);
    var more := Bytes(LitCode(c).1) + Bytes(LmdCode(c).1) + rest;
    BlockParts([], c, true, rest);
    HeaderParses([], c, true, more);
    BlockMagic(c, true);
    assert [] + EncodeBlock(c, true) + rest == EncodeBlock(c, true) + rest;
    assert (EncodeBlock(c, true) + rest)[..4] == EncodeBlock(c, true)[..4];
  }

  /** Every stream of encoded blocks, of which the first has a packed header, keeps its meaning when that
      header is rewritten, whether its literals were written over spare bits or over none. */
  lemma EncodedRewritten(ps: seq<Piece>, post: seq<byte>, limit: nat)
    requires LzfseStream.AllValid(ps) && ps != [] && ps[0].LzfsePiece? && ps[0].v2
    ensures var blob := EncodeAll(ps) + MAGIC_END + post;
      && |blob| >= 4 && blob[..4] == MAGIC_V2 && ParseV2(blob, 0).Ok? && Packable(ParseV2(blob, 0).value)
      && Decompress(Rewritten(blob), 0, [], limit) == Decompress(blob, 0, [], limit) == MeaningAll(ps, [], limit)
  {
    hide ParseV2, Packable, Contained, Decompress, Rewritten, HeadBytes, HeaderOf, Content.Valid, MeaningAll,
      EncodeBlock;
    var blob, c := EncodeAll(ps) + MAGIC_END + post, ps[0].content;
    var rest := EncodeAll(ps[1..]) + MAGIC_END + post;
    assert blob == EncodeBlock(c, true) + rest;
    EncodedParses(c, rest);
    assert [] + EncodeAll(ps) + MAGIC_END + post == blob;
    EncodedContained([], ps, post, |HeadBytes(c, true)|, [], limit);
    StreamRoundTrip([], ps, post, [], limit);
    StreamRewritten(blob, limit);
  }
}
