/** The two headers of a compressed LZFSE block: bvx2, whose fields and frequencies are packed, and
    bvx1, where they are plain; and the rewriting of one as the other (`v2_to_v1`). */
module LzfseHeader {
  import opened Bits
  import opened Prelude
  import opened Struct
  import FreqCode
  import opened LzfseMatches

  const MAGIC_V1: seq<byte> := [0x62, 0x76, 0x78, 0x31]
  const MAGIC_V2: seq<byte> := [0x62, 0x76, 0x78, 0x32]
  const V1_SIZE: nat := 772

  datatype Header = Header(size: nat, raw: nat, nLit: nat, nMatch: nat, litPayload: nat, lmdPayload: nat,
                           litBits: int, litState: seq<nat>, lmdBits: int, st: States, freqs: seq<nat>)

  // ---- bit fields of one number ----

  function Field(v: nat, offset: nat, width: nat): nat { Low(Shr(v, offset), width) }

  /** The fields packed into one number, the first lowest. */
  function PackBits(values: seq<nat>, widths: seq<nat>): nat
    requires |values| == |widths|
  {
    if values == [] then 0 else Shl(PackBits(values[1..], widths[1..]), widths[0]) + values[0]
  }

  ghost predicate FieldsFit(values: seq<nat>, widths: seq<nat>)
  {
    |values| == |widths| && forall i :: 0 <= i < |values| ==> values[i] < Pow2(widths[i])
  }

  lemma {:induction false} PackBitsBound(values: seq<nat>, widths: seq<nat>)
    requires FieldsFit(values, widths)
    ensures PackBits(values, widths) < Pow2(Width(widths))
  {
    if values != [] {
      PackBitsBound(values[1..], widths[1..]);
      ShlBound(PackBits(values[1..], widths[1..]), values[0], Width(widths[1..]), widths[0]);
      assert Width(widths[1..]) + widths[0] == Width(widths);
    }
  }

  lemma {:induction false} ShrShr(x: nat, a: nat, b: nat)
    ensures Shr(Shr(x, a), b) == Shr(x, a + b)
  {
    if a != 0 {
      ShrShr(x / 2, a - 1, b);
    }
  }

  lemma {:induction false} FieldAt(values: seq<nat>, widths: seq<nat>, i: nat)
    requires FieldsFit(values, widths) && i < |values|
    ensures Field(PackBits(values, widths), Width(widths[..i]), widths[i]) == values[i]
  {
    var more := PackBits(values[1..], widths[1..]);
    Join(more, values[0], widths[0]);
    if i == 0 {
      LowPrefix(more, values[0], widths[0], widths[0]);
      LowSmall(values[0], widths[0]);
    } else {
      FieldAt(values[1..], widths[1..], i - 1);
      assert widths[..i][0] == widths[0] && widths[..i][1..] == widths[1..][..i - 1];
      ShrShr(PackBits(values, widths), widths[0], Width(widths[1..][..i - 1]));
    }
  }

  lemma LowSmall(x: nat, n: nat)
    requires x < Pow2(n)
    ensures Low(x, n) == x
  {
    ShlZero(n);
    Join(0, x, n);
  }

  const V0_WIDTHS: seq<nat> := [20, 20, 20, 3]
  const V1_WIDTHS: seq<nat> := [10, 10, 10, 10, 20, 3]
  const V2_WIDTHS: seq<nat> := [32, 10, 10, 10]

  lemma V0Fields(values: seq<nat>)
    requires FieldsFit(values, V0_WIDTHS)
    ensures var v := PackBits(values, V0_WIDTHS);
      && v < Pow2(64) && [Field(v, 0, 20), Field(v, 20, 20), Field(v, 40, 20), Field(v, 60, 3)] == values
  {
    hide Field, PackBits, Pow2;
    var w := V0_WIDTHS;
    FieldAt(values, w, 0);
    FieldAt(values, w, 1);
    FieldAt(values, w, 2);
    FieldAt(values, w, 3);
    assert w[..0] == [] && w[..1] == [20] && w[..2] == [20, 20] && w[..3] == [20, 20, 20];
    WidthsOf3(20, 20, 20);
    PackBitsBound(values, w);
    assert w[1..] == [20, 20, 3];
    WidthsOf3(20, 20, 3);
    Pow2Mono(63, 64);
  }

  lemma V1Fields(values: seq<nat>)
    requires FieldsFit(values, V1_WIDTHS)
    ensures var v := PackBits(values, V1_WIDTHS);
      && v < Pow2(64)
      && [Field(v, 0, 10), Field(v, 10, 10), Field(v, 20, 10), Field(v, 30, 10), Field(v, 40, 20), Field(v, 60, 3)]
         == values
  {
    hide Field, PackBits, Pow2;
    var w := V1_WIDTHS;
    FieldAt(values, w, 0);
    FieldAt(values, w, 1);
    FieldAt(values, w, 2);
    FieldAt(values, w, 3);
    FieldAt(values, w, 4);
    FieldAt(values, w, 5);
    assert w[..0] == [] && w[..1] == [10] && w[..2] == [10, 10] && w[..3] == [10, 10, 10];
    assert w[..4] == [10, 10, 10, 10] && w[..5] == [10, 10, 10, 10, 20];
    WidthsOf3(10, 10, 10);
    assert [10, 10, 10, 10][1..] == [10, 10, 10];
    WidthsOf3(10, 10, 20);
    assert [10, 10, 10, 10, 20][1..][1..] == [10, 10, 20];
    PackBitsBound(values, w);
    WidthsOf3(10, 20, 3);
    assert w[1..][1..][1..] == [10, 20, 3];
    Pow2Mono(63, 64);
  }

  lemma V2Fields(values: seq<nat>)
    requires FieldsFit(values, V2_WIDTHS)
    ensures var v := PackBits(values, V2_WIDTHS);
      && v < Pow2(64) && [Low(v, 32), Field(v, 32, 10), Field(v, 42, 10), Field(v, 52, 10)] == values
  {
    hide PackBits, Pow2;
    var w := V2_WIDTHS;
    FieldAt(values, w, 0);
    FieldAt(values, w, 1);
    FieldAt(values, w, 2);
    FieldAt(values, w, 3);
    assert w[..0] == [] && w[..1] == [32] && w[..2] == [32, 10] && w[..3] == [32, 10, 10];
    WidthsOf3(32, 10, 10);
    PackBitsBound(values, w);
    assert w[1..] == [10, 10, 10];
    WidthsOf3(10, 10, 10);
    Pow2Mono(62, 64);
  }

  lemma WidthsOf3(a: nat, b: nat, c: nat)
    ensures Width([]) == 0 && Width([a]) == a && Width([a, b]) == a + b && Width([a, b, c]) == a + b + c
  {
    assert [a][1..] == [] && [a, b][1..] == [b] && [a, b, c][1..] == [b, c] && [b, c][1..] == [c] && [c][1..] == [];
    assert Width([c]) == c && Width([b]) == b && Width([b, c]) == b + c;
  }

  // ---- bvx2 ----

  const V2_FIXED: seq<nat> := [4, 8, 8, 8]

  function ParseV2(src: seq<byte>, pos: nat): (r: Result<Header>)
    requires pos <= |src|
    ensures r.Ok? ==> 32 <= r.value.size && pos + r.value.size <= |src| && WellFormed(r.value)
  {
    if pos + 32 > |src| then Raised
    else
      V2FixedWidth();
      var f := Unpack(src[pos + 4..], V2_FIXED);
      var size := Low(f[3], 32);
      if size < 32 || pos + size > |src| then Raised
      else
        var freqs := FreqCode.V2Freqs(src[pos..pos + size]);
        if freqs.Raised? then Raised else Ok(UnpackV2(f[0], f[1], f[2], f[3], freqs.value))
  }

  lemma V2FixedWidth()
    ensures Width(V2_FIXED) == 28
  {
    assert V2_FIXED[1..] == [8, 8, 8];
    WidthsOf3(8, 8, 8);
  }

  ghost predicate WellFormed(h: Header) { |h.litState| == 4 && |h.freqs| == 360 }

  function UnpackV2(raw: nat, v0: nat, v1: nat, v2: nat, freqs: seq<nat>): Header
  {
    Header(Low(v2, 32), raw, Field(v0, 0, 20), Field(v0, 40, 20), Field(v0, 20, 20), Field(v1, 40, 20),
           Field(v0, 60, 3) - 7, [Field(v1, 0, 10), Field(v1, 10, 10), Field(v1, 20, 10), Field(v1, 30, 10)],
           Field(v1, 60, 3) - 7, States(Field(v2, 32, 10), Field(v2, 42, 10), Field(v2, 52, 10)), freqs)
  }

  /** The header's fields are in range of a bvx2 header. */
  ghost predicate Packable(h: Header)
  {
    && h.raw < Pow2(32) && h.nLit < Pow2(20) && h.nMatch < Pow2(20)
    && h.litPayload < Pow2(20) && h.lmdPayload < Pow2(20)
    && -7 <= h.litBits <= 0 && -7 <= h.lmdBits <= 0
    && |h.litState| == 4 && (forall i :: 0 <= i < 4 ==> h.litState[i] < Pow2(10))
    && h.st.l < Pow2(10) && h.st.m < Pow2(10) && h.st.d < Pow2(10)
    && |h.freqs| == 360 && FreqCode.Packable(h.freqs)
  }

  /** The bytes of the packed frequency tables. */
  function FreqBytes(freqs: seq<nat>): (s: seq<byte>)
    requires FreqCode.Packable(freqs)
    ensures |s| == (FreqCode.Encode(freqs).len + 7) / 8
  {
    LeBytes(FreqCode.Encode(freqs).value, (FreqCode.Encode(freqs).len + 7) / 8)
  }

  function V0Values(h: Header): seq<nat>
    requires Packable(h)
  {
    [h.nLit, h.litPayload, h.nMatch, h.litBits + 7]
  }

  function V1Values(h: Header): seq<nat>
    requires Packable(h)
  {
    [h.litState[0], h.litState[1], h.litState[2], h.litState[3], h.lmdPayload, h.lmdBits + 7]
  }

  function EncodeV2(h: Header): (s: seq<byte>)
    requires Packable(h)
    ensures |s| == 32 + |FreqBytes(h.freqs)| && s[..4] == MAGIC_V2
  {
    V2FixedWidth();
    var size := 32 + |FreqBytes(h.freqs)|;
    var v0 := PackBits(V0Values(h), V0_WIDTHS);
    var v1 := PackBits(V1Values(h), V1_WIDTHS);
    var v2 := PackBits([size, h.st.l, h.st.m, h.st.d], V2_WIDTHS);
    MAGIC_V2 + Pack([h.raw, v0, v1, v2], V2_FIXED) + FreqBytes(h.freqs)
  }

  /** The packed tables fill their bytes exactly. */
  lemma FreqBytesDecode(head: seq<byte>, freqs: seq<nat>)
    requires |freqs| == 360 && FreqCode.Packable(freqs)
    requires |head| >= 32 && head[32..] == FreqBytes(freqs)
    ensures FreqCode.V2Freqs(head) == Ok(freqs)
    ensures 122 <= |head| <= 662
  {
    hide FreqCode.Decode, FreqCode.Encode;
    var code := FreqCode.Encode(freqs);
    var n := (code.len + 7) / 8;
    Pow2Mono(code.len, 8 * n);
    LeRoundTrip(code.value, n);
    FreqCode.RoundTrip(freqs, BitString(0, 8 * n - code.len));
    ShlZero(code.len);
  }

  lemma V2RoundTrip(pre: seq<byte>, h: Header, post: seq<byte>)
    requires Packable(h)
    ensures ParseV2(pre + EncodeV2(h) + post, |pre|) == Ok(h.(size := |EncodeV2(h)|))
  {
    hide Pow2, PackBits, FreqCode.V2Freqs, Low, FreqBytes, Width, Field;
    var src, e := pre + EncodeV2(h) + post, EncodeV2(h);
    var size := |e|;
    var v0 := PackBits(V0Values(h), V0_WIDTHS);
    var v1 := PackBits(V1Values(h), V1_WIDTHS);
    var v2 := PackBits([size, h.st.l, h.st.m, h.st.d], V2_WIDTHS);
    assert src[|pre|..|pre| + size] == e;
    V2FixedWidth();
    assert e[32..] == FreqBytes(h.freqs);
    FreqBytesDecode(e, h.freqs);
    SmallSizes();
    Pow2Values();
    assert FieldsFit(V0Values(h), V0_WIDTHS);
    assert FieldsFit(V1Values(h), V1_WIDTHS);
    assert FieldsFit([size, h.st.l, h.st.m, h.st.d], V2_WIDTHS);
    V0Fields(V0Values(h));
    V1Fields(V1Values(h));
    V2Fields([size, h.st.l, h.st.m, h.st.d]);
    var fixed := [h.raw, v0, v1, v2];
    assert Fits(fixed, V2_FIXED);
    UnpackPack(fixed, V2_FIXED, FreqBytes(h.freqs) + post);
    assert src[|pre| + 4..] == Pack(fixed, V2_FIXED) + (FreqBytes(h.freqs) + post);
    UnpackV2Is(h, v0, v1, v2);
  }

  lemma UnpackV2Is(h: Header, v0: nat, v1: nat, v2: nat)
    requires Packable(h)
    requires [Field(v0, 0, 20), Field(v0, 20, 20), Field(v0, 40, 20), Field(v0, 60, 3)] == V0Values(h)
    requires [Field(v1, 0, 10), Field(v1, 10, 10), Field(v1, 20, 10), Field(v1, 30, 10), Field(v1, 40, 20),
              Field(v1, 60, 3)] == V1Values(h)
    requires [Field(v2, 32, 10), Field(v2, 42, 10), Field(v2, 52, 10)] == [h.st.l, h.st.m, h.st.d]
    ensures UnpackV2(h.raw, v0, v1, v2, h.freqs) == h.(size := Low(v2, 32))
  {
    hide Field, Low, Pow2;
    var a, b := V0Values(h), V1Values(h);
    var x := [Field(v0, 0, 20), Field(v0, 20, 20), Field(v0, 40, 20), Field(v0, 60, 3)];
    var y := [Field(v1, 0, 10), Field(v1, 10, 10), Field(v1, 20, 10), Field(v1, 30, 10), Field(v1, 40, 20),
              Field(v1, 60, 3)];
    var z := [Field(v2, 32, 10), Field(v2, 42, 10), Field(v2, 52, 10)];
    assert x[0] == a[0] && x[1] == a[1] && x[2] == a[2] && x[3] == a[3];
    assert y[0] == b[0] && y[1] == b[1] && y[2] == b[2] && y[3] == b[3] && y[4] == b[4] && y[5] == b[5];
    assert z[0] == h.st.l && z[1] == h.st.m && z[2] == h.st.d;
    assert [b[0], b[1], b[2], b[3]] == h.litState;
  }

  lemma Pow2Values()
    ensures Pow2(3) == 8
    ensures 662 < Pow2(32)
  {
    Pow2Small();
    Pow2Mono(10, 32);
  }

  lemma SmallSizes()
    ensures 8 * 4 == 32 && 8 * 8 == 64
  {
  }

  // ---- bvx1 ----

  const V1_COUNTS: seq<nat> := [4, 4, 4, 4, 4, 4, 4]
  const V1_LIT_STATES: seq<nat> := [2, 2, 2, 2]
  const V1_LMD: seq<nat> := [4, 2, 2, 2]

  lemma V1Widths()
    ensures Width(V1_COUNTS) == 28 && Width(V1_LIT_STATES) == 8 && Width(V1_LMD) == 10 && Width(Same(2, 360)) == 720
  {
    assert V1_COUNTS[1..][1..][1..][1..] == [4, 4, 4];
    WidthsOf3(4, 4, 4);
    assert V1_LIT_STATES[1..] == [2, 2, 2] && V1_LMD[1..] == [2, 2, 2];
    WidthsOf3(2, 2, 2);
    SameWidth(2, 360);
  }

  function ParseV1(src: seq<byte>, pos: nat): (r: Result<Header>)
    requires pos <= |src|
    ensures r.Ok? ==> 32 <= r.value.size && pos + r.value.size <= |src| && WellFormed(r.value)
  {
    if pos + V1_SIZE > |src| then Raised
    else
      V1Widths();
      var c := Unpack(src[pos + 4..], V1_COUNTS);
      var s := Unpack(src[pos + 32..], V1_LIT_STATES);
      var t := Unpack(src[pos + 40..], V1_LMD);
      var freqs := Unpack(src[pos + 50..], Same(2, 360));
      Ok(Header(V1_SIZE, c[0], c[2], c[3], c[4], c[5], Signed32(c[6]), s, Signed32(t[0]), States(t[1], t[2], t[3]),
                freqs))
  }

  function CountValues(h: Header, payload: nat): (v: seq<nat>)
    requires -7 <= h.litBits <= 0
  {
    [h.raw, payload, h.nLit, h.nMatch, h.litPayload, h.lmdPayload, Unsigned32(h.litBits)]
  }

  function LmdValues(h: Header): (v: seq<nat>)
    requires -7 <= h.lmdBits <= 0
  {
    [Unsigned32(h.lmdBits), h.st.l, h.st.m, h.st.d]
  }

  /** The 772 bytes of a bvx1 header; the second count is the sum of the two payloads, and the last
      two bytes pad it. */
  function EncodeV1(h: Header): (s: seq<byte>)
    requires Packable(h)
    ensures |s| == V1_SIZE && s[..4] == MAGIC_V1
  {
    hide Pow2;
    V1Widths();
    MAGIC_V1 + Pack(CountValues(h, h.litPayload + h.lmdPayload), V1_COUNTS) + Pack(h.litState, V1_LIT_STATES)
    + Pack(LmdValues(h), V1_LMD) + Pack(h.freqs, Same(2, 360)) + Zeros(2)
  }

  lemma PackableFits(h: Header)
    requires Packable(h)
    ensures Fits(CountValues(h, h.litPayload + h.lmdPayload), V1_COUNTS) && Fits(h.litState, V1_LIT_STATES)
    ensures Fits(LmdValues(h), V1_LMD) && Fits(h.freqs, Same(2, 360))
  {
    hide Pow2;
    Pow2Mono(21, 32);
    Pow2Mono(20, 32);
    Pow2Doubles(20);
    Pow2Mono(10, 16);
    Pow2Mono(11, 16);
    Pow2Small();
    Pow2Is32();
  }

  lemma Pow2Doubles(n: nat)
    ensures Pow2(n + 1) == 2 * Pow2(n)
  {
  }

  lemma Pow2Is32()
    ensures Pow2(32) == 0x1_0000_0000
  {
    Pow2Small();
    Pow2Plus(16, 16);
    ShlTimes256(65536);
    ShlShl(65536, 8, 8);
    ShlTimes256(16777216);
  }

  lemma V1RoundTrip(pre: seq<byte>, h: Header, post: seq<byte>)
    requires Packable(h)
    ensures ParseV1(pre + EncodeV1(h) + post, |pre|) == Ok(h.(size := V1_SIZE))
  {
    hide Pow2, Width, Unpack, Pack;
    V1Widths();
    PackableFits(h);
    var src := pre + EncodeV1(h) + post;
    var counts := CountValues(h, h.litPayload + h.lmdPayload);
    var a, b, c, d := Pack(counts, V1_COUNTS), Pack(h.litState, V1_LIT_STATES), Pack(LmdValues(h), V1_LMD),
                      Pack(h.freqs, Same(2, 360));
    assert src == pre + MAGIC_V1 + a + b + c + d + Zeros(2) + post;
    assert src[|pre| + 50..] == d + (Zeros(2) + post);
    UnpackPack(h.freqs, Same(2, 360), Zeros(2) + post);
    assert src[|pre| + 40..] == c + (d + Zeros(2) + post);
    UnpackPack(LmdValues(h), V1_LMD, d + Zeros(2) + post);
    assert src[|pre| + 32..] == b + (c + d + Zeros(2) + post);
    UnpackPack(h.litState, V1_LIT_STATES, c + d + Zeros(2) + post);
    assert src[|pre| + 4..] == a + (b + c + d + Zeros(2) + post);
    UnpackPack(counts, V1_COUNTS, b + c + d + Zeros(2) + post);
  }
}
