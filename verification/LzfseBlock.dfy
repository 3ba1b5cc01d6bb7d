/** A compressed LZFSE block (`_lzfse_block`), and the encoder it undoes. */
module LzfseBlock {
  import opened Bits
  import opened Prelude
  import opened FseTable
  import opened LzfseTables
  import opened LzfseMatches
  import opened LzfseHeader
  import Lit = LzfseLiterals

  function LFreqs(h: Header): (f: seq<nat>)
    requires WellFormed(h)
    ensures |f| == L_SYMBOLS
  {
    h.freqs[..20]
  }

  function MFreqs(h: Header): (f: seq<nat>)
    requires WellFormed(h)
    ensures |f| == M_SYMBOLS
  {
    h.freqs[20..40]
  }

  function DFreqs(h: Header): (f: seq<nat>)
    requires WellFormed(h)
    ensures |f| == D_SYMBOLS
  {
    h.freqs[40..104]
  }

  function LitFreqs(h: Header): (f: seq<nat>)
    requires WellFormed(h)
    ensures |f| == LIT_SYMBOLS
  {
    h.freqs[104..]
  }

  /** The checks on a header: its counts and states are in range. */
  predicate Checked(h: Header)
    requires WellFormed(h)
  {
    && h.nLit <= LITERALS_PER_BLOCK && h.nMatch <= MATCHES_PER_BLOCK
    && h.litState[0] < Pow2(LIT_LOG) && h.litState[1] < Pow2(LIT_LOG)
    && h.litState[2] < Pow2(LIT_LOG) && h.litState[3] < Pow2(LIT_LOG)
    && h.st.l < Pow2(L_LOG) && h.st.m < Pow2(M_LOG) && h.st.d < Pow2(D_LOG)
  }

  /** No frequency table holds more states than it may. */
  predicate TablesFit(h: Header)
    requires WellFormed(h)
  {
    && Sum(LFreqs(h)) <= Pow2(L_LOG) && Sum(MFreqs(h)) <= Pow2(M_LOG) && Sum(DFreqs(h)) <= Pow2(D_LOG)
    && Sum(LitFreqs(h)) <= Pow2(LIT_LOG)
  }

  function FreqsOf(h: Header): (f: Freqs)
    requires WellFormed(h) && TablesFit(h)
    ensures f.Fits()
  {
    Freqs(LFreqs(h), MFreqs(h), DFreqs(h))
  }

  function ParseHeader(src: seq<byte>, pos: nat, v2: bool): (r: Result<Header>)
    requires pos <= |src|
    ensures r.Ok? ==> 32 <= r.value.size && pos + r.value.size <= |src| && WellFormed(r.value)
  {
    if v2 then ParseV2(src, pos) else ParseV1(src, pos)
  }

  /** The block at `src[pos]` after `out`: the output with it, and the offset past it. */
  function Block(src: seq<byte>, pos: nat, out: seq<byte>, cap: nat, v2: bool): (r: Result<(seq<byte>, nat)>)
    requires pos <= |src|
    ensures r.Ok? ==> out <= r.value.0 && |r.value.0| <= cap && pos + 32 <= r.value.1 <= |src|
  {
    var parsed := ParseHeader(src, pos, v2);
    if parsed.Raised? then Raised else Payload(src, pos, out, cap, parsed.value)
  }

  function Payload(src: seq<byte>, pos: nat, out: seq<byte>, cap: nat, h: Header): (r: Result<(seq<byte>, nat)>)
    requires pos + h.size <= |src| && WellFormed(h)
    ensures r.Ok? ==> out <= r.value.0 && |r.value.0| <= cap && pos + h.size <= r.value.1 <= |src|
  {
    var litEnd := pos + h.size + h.litPayload;
    var end := litEnd + h.lmdPayload;
    if end > |src| || !Checked(h) || |out| + h.raw > cap || !TablesFit(h) then Raised
    else
      SpreadClosed(LIT_LOG, LitFreqs(h));
      var lits := Lit.LiteralsOf(src, litEnd, h.litBits, h.litState, h.nLit, Spread(LIT_LOG, LitFreqs(h)));
      if lits.Raised? then Raised
      else
        TablesClosed(FreqsOf(h));
        var done := MatchesOf(src, litEnd, end, h.lmdBits, h.st, h.nMatch, FreqsOf(h).ToTables(), lits.value, out, cap);
        if done.Raised? || |done.value| - |out| != h.raw then Raised else Ok((done.value, end))
  }

  method DecodeBlock(src: seq<byte>, pos: nat, out: ByteArray, cap: nat, v2: bool) returns (r: Result<nat>)
    requires pos <= |src|
    modifies out
    ensures old(out.data) <= out.data
    ensures Block(src, pos, old(out.data), cap, v2) == if r.Ok? then Ok((out.data, r.value)) else Raised
  {
    hide Pow2, Spread, Sum, ValuesOf, Lit.LiteralsOf, MatchesOf, ParseV1, ParseV2;
    var parsed := ParseHeader(src, pos, v2);
    if parsed.Raised? {
      return Raised;
    }
    var h := parsed.value;
    if pos + h.size + h.litPayload + h.lmdPayload > |src| {
      return Raised;
    }
    if !Checked(h) {
      return Raised;
    }
    if |out.data| + h.raw > cap {
      return Raised;
    }
    BitLimits();
    var lTab := ValueTableOf(L_LOG, LFreqs(h), L_BITS, L_BASE);
    if lTab.Raised? {
      return Raised;
    }
    var mTab := ValueTableOf(M_LOG, MFreqs(h), M_BITS, M_BASE);
    if mTab.Raised? {
      return Raised;
    }
    var dTab := ValueTableOf(D_LOG, DFreqs(h), D_BITS, D_BASE);
    if dTab.Raised? {
      return Raised;
    }
    var litTab := FseSpread(LIT_LOG, LitFreqs(h));
    if litTab.Raised? {
      return Raised;
    }
    SpreadClosed(LIT_LOG, LitFreqs(h));
    TablesClosed(FreqsOf(h));
    var litEnd := pos + h.size + h.litPayload;
    var lits := Lit.DecodeLoop(src, litEnd, h.litBits, h.litState, h.nLit, litTab.value);
    if lits.Raised? {
      return Raised;
    }
    var startLen := |out.data|;
    var tabs := Tables(lTab.value, mTab.value, dTab.value);
    var done := MatchLoop(src, litEnd, litEnd + h.lmdPayload, h.lmdBits, h.st, h.nMatch, tabs, lits.value, out, cap);
    if done.Raised? {
      return Raised;
    }
    if |out.data| - startLen != h.raw {
      return Raised;
    }
    r := Ok(litEnd + h.lmdPayload);
  }
}
