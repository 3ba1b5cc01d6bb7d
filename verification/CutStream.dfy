/** What a stream decompresses to when its end is missing: nothing, or all that the whole one does. */
module CutStream {
  import opened Bits
  import opened Prelude
  import opened Struct
  import opened FseTable
  import opened LzfseTables
  import opened LzfseMatches
  import opened LzfseHeader
  import opened LzfseBlock
  import opened LzfseStream
  import FreqCode
  import Lit = LzfseLiterals
  import Lzvn

  /** `cut` is the beginning of `src`. */
  ghost predicate Cut(cut: seq<byte>, src: seq<byte>) { cut <= src }

  lemma CutSlice(cut: seq<byte>, src: seq<byte>, a: nat, b: nat)
    requires Cut(cut, src) && a <= b <= |cut|
    ensures |cut| <= |src| && cut[a..b] == src[a..b]
  {
    SliceSlice(src, 0, |cut|, a, b);
    assert src[0..|cut|] == cut;
  }

  lemma CutUnpack(cut: seq<byte>, src: seq<byte>, at: nat, widths: seq<nat>)
    requires Cut(cut, src) && at + Width(widths) <= |cut|
    ensures at + Width(widths) <= |src| && Unpack(src[at..], widths) == Unpack(cut[at..], widths)
  {
    assert src[at..] == cut[at..] + src[|cut|..];
    UnpackPrefix(cut[at..], src[|cut|..], widths);
  }

  /** A block read from the cut stream, or from the whole one up to where the cut stream reaches. */
  ghost predicate Agree(cut: seq<byte>, a: Result<(seq<byte>, nat)>, b: Result<(seq<byte>, nat)>)
  {
    a.Ok? || (b.Ok? && b.value.1 <= |cut|)
  }

  lemma RawCut(cut: seq<byte>, src: seq<byte>, pos: nat, out: seq<byte>, limit: nat)
    requires Cut(cut, src) && pos + 4 <= |cut| <= |src|
    requires Agree(cut, RawBlock(cut, pos, out, limit), RawBlock(src, pos, out, limit))
    ensures RawBlock(src, pos, out, limit) == RawBlock(cut, pos, out, limit)
  {
    hide Unpack, Cut, Width;
    U32Widths();
    CutUnpack(cut, src, pos + 4, U32);
    var raw := Unpack(cut[pos + 4..], U32)[0];
    CutSlice(cut, src, pos + 8, pos + 8 + raw);
  }

  lemma LzvnCut(cut: seq<byte>, src: seq<byte>, pos: nat, out: seq<byte>, limit: nat)
    requires Cut(cut, src) && pos + 4 <= |cut| <= |src|
    requires Agree(cut, LzvnBlock(cut, pos, out, limit), LzvnBlock(src, pos, out, limit))
    ensures LzvnBlock(src, pos, out, limit) == LzvnBlock(cut, pos, out, limit)
  {
    hide Unpack, Cut, Width, Lzvn.Run;
    U32Widths();
    assert pos + 12 <= |cut|;
    CutUnpack(cut, src, pos + 4, U32_U32);
    var payload := Unpack(cut[pos + 4..], U32_U32)[1];
    CutSlice(cut, src, pos + 12, pos + 12 + payload);
  }

  lemma HeaderCut(cut: seq<byte>, src: seq<byte>, pos: nat, v2: bool)
    requires Cut(cut, src) && pos <= |cut| <= |src|
    requires var a, b := ParseHeader(cut, pos, v2), ParseHeader(src, pos, v2);
      a.Ok? || (b.Ok? && pos + b.value.size <= |cut|)
    ensures ParseHeader(src, pos, v2) == ParseHeader(cut, pos, v2)
  {
    hide Unpack, Cut, Width, FreqCode.V2Freqs, Low, Same, Fits;
    if v2 {
      V2FixedWidth();
      CutUnpack(cut, src, pos + 4, V2_FIXED);
      CutSlice(cut, src, pos, pos + Low(Unpack(cut[pos + 4..], V2_FIXED)[3], 32));
    } else {
      V1Widths();
      CutUnpack(cut, src, pos + 4, V1_COUNTS);
      CutUnpack(cut, src, pos + 32, V1_LIT_STATES);
      CutUnpack(cut, src, pos + 40, V1_LMD);
      CutUnpack(cut, src, pos + 50, Same(2, 360));
    }
  }

  lemma LiteralsCut(cut: seq<byte>, src: seq<byte>, litEnd: nat, litBits: int, states: seq<nat>, nLit: nat,
                    table: Table)
    requires Cut(cut, src) && litEnd <= |cut| <= |src| && Closed(LIT_LOG, LIT_SYMBOLS, table) && Lit.InRange(states)
    ensures Lit.LiteralsOf(src, litEnd, litBits, states, nLit, table)
         == Lit.LiteralsOf(cut, litEnd, litBits, states, nLit, table)
  {
    hide Lit.Decode, LeValue, Pow2, Closed, Cut;
    CutSlice(cut, src, 0, litEnd);
  }

  lemma MatchesCut(cut: seq<byte>, src: seq<byte>, floor: nat, end: nat, extra: int, st: States, count: nat,
                   tabs: Tables, lits: seq<byte>, out: seq<byte>, cap: nat)
    requires Cut(cut, src) && floor <= end <= |cut| <= |src| && tabs.Closed() && st.InRange()
    ensures MatchesOf(src, floor, end, extra, st, count, tabs, lits, out, cap)
         == MatchesOf(cut, floor, end, extra, st, count, tabs, lits, out, cap)
  {
    hide Decode, Resume, LeValue, Pow2, Cut;
    CutSlice(cut, src, floor, end);
  }

  lemma PayloadCut(cut: seq<byte>, src: seq<byte>, pos: nat, out: seq<byte>, cap: nat, h: Header)
    requires Cut(cut, src) && pos + h.size <= |cut| <= |src| && WellFormed(h)
    requires Agree(cut, Payload(cut, pos, out, cap, h), Payload(src, pos, out, cap, h))
    ensures Payload(src, pos, out, cap, h) == Payload(cut, pos, out, cap, h)
  {
    hide Lit.LiteralsOf, MatchesOf, Spread, Pow2, Sum, ValuesOf, Closed, Tables.Closed, Cut;
    var litEnd := pos + h.size + h.litPayload;
    assert Checked(h) && TablesFit(h) && litEnd + h.lmdPayload <= |cut|;
    SpreadClosed(LIT_LOG, LitFreqs(h));
    TablesClosed(FreqsOf(h));
    LiteralsCut(cut, src, litEnd, h.litBits, h.litState, h.nLit, Spread(LIT_LOG, LitFreqs(h)));
    var lits := Lit.LiteralsOf(cut, litEnd, h.litBits, h.litState, h.nLit, Spread(LIT_LOG, LitFreqs(h)));
    MatchesCut(cut, src, litEnd, litEnd + h.lmdPayload, h.lmdBits, h.st, h.nMatch, FreqsOf(h).ToTables(), lits.value,
               out, cap);
  }

  lemma CompressedCut(cut: seq<byte>, src: seq<byte>, pos: nat, out: seq<byte>, limit: nat, v2: bool)
    requires Cut(cut, src) && pos + 4 <= |cut| <= |src|
    requires Agree(cut, Block(cut, pos, out, limit, v2), Block(src, pos, out, limit, v2))
    ensures Block(src, pos, out, limit, v2) == Block(cut, pos, out, limit, v2)
  {
    hide Payload, ParseHeader, Cut;
    HeaderCut(cut, src, pos, v2);
    PayloadCut(cut, src, pos, out, limit, ParseHeader(cut, pos, v2).value);
  }

  /** A block is read the same from the cut stream when either holds all of it. */
  lemma BlockCut(cut: seq<byte>, src: seq<byte>, pos: nat, out: seq<byte>, limit: nat)
    requires Cut(cut, src) && pos + 4 <= |cut| <= |src|
    requires Agree(cut, OneBlock(cut, pos, out, limit), OneBlock(src, pos, out, limit))
    ensures src[pos..pos + 4] == cut[pos..pos + 4]
    ensures OneBlock(src, pos, out, limit) == OneBlock(cut, pos, out, limit)
  {
    hide RawBlock, LzvnBlock, Block, Cut;
    CutSlice(cut, src, pos, pos + 4);
    var magic := cut[pos..pos + 4];
    if magic == MAGIC_RAW {
      RawCut(cut, src, pos, out, limit);
    } else if magic == MAGIC_LZVN {
      LzvnCut(cut, src, pos, out, limit);
    } else {
      CompressedCut(cut, src, pos, out, limit, magic == MAGIC_V2);
    }
  }

  /** Where a stream that decompresses has its end marker. */
  function EndAt(src: seq<byte>, pos: nat, out: seq<byte>, limit: nat): (at: nat)
    requires pos <= |src| && Decompress(src, pos, out, limit).Ok?
    ensures pos <= at && at + 4 <= |src| && src[at..at + 4] == MAGIC_END
    decreases |src| - pos
  {
    if src[pos..pos + 4] == MAGIC_END then pos
    else
      var block := OneBlock(src, pos, out, limit).value;
      EndAt(src, block.1, block.0, limit)
  }

  /** A stream cut short anywhere raises or gives the whole result, never a shorter one. */
  lemma {:induction false} NeverShort(src: seq<byte>, k: nat, pos: nat, out: seq<byte>, limit: nat)
    requires pos <= k <= |src| && Decompress(src[..k], pos, out, limit).Ok?
    ensures Decompress(src, pos, out, limit) == Decompress(src[..k], pos, out, limit)
    ensures EndAt(src, pos, out, limit) + 4 <= k
    decreases k - pos
  {
    hide OneBlock;
    var cut := src[..k];
    CutSlice(cut, src, pos, pos + 4);
    if cut[pos..pos + 4] != MAGIC_END {
      BlockCut(cut, src, pos, out, limit);
      var block := OneBlock(cut, pos, out, limit).value;
      NeverShort(src, k, block.1, block.0, limit);
    }
  }

  lemma {:induction false} EndKept(src: seq<byte>, k: nat, pos: nat, out: seq<byte>, limit: nat)
    requires pos <= k <= |src| && Decompress(src, pos, out, limit).Ok? && EndAt(src, pos, out, limit) + 4 <= k
    ensures Decompress(src[..k], pos, out, limit).Ok?
    decreases k - pos
  {
    hide OneBlock;
    var cut := src[..k];
    CutSlice(cut, src, pos, pos + 4);
    if cut[pos..pos + 4] != MAGIC_END {
      BlockCut(cut, src, pos, out, limit);
      var block := OneBlock(src, pos, out, limit).value;
      EndKept(src, k, block.1, block.0, limit);
    }
  }

  /** It gives it exactly when the end marker is still there. */
  lemma CutIff(src: seq<byte>, k: nat, pos: nat, out: seq<byte>, limit: nat)
    requires pos <= k <= |src|
    ensures Decompress(src[..k], pos, out, limit).Ok? <==>
      Decompress(src, pos, out, limit).Ok? && EndAt(src, pos, out, limit) + 4 <= k
    ensures Decompress(src[..k], pos, out, limit).Ok? ==>
      Decompress(src[..k], pos, out, limit) == Decompress(src, pos, out, limit)
  {
    hide Decompress, EndAt;
    if Decompress(src[..k], pos, out, limit).Ok? {
      NeverShort(src, k, pos, out, limit);
    } else if Decompress(src, pos, out, limit).Ok? && EndAt(src, pos, out, limit) + 4 <= k {
      EndKept(src, k, pos, out, limit);
    }
  }
}
