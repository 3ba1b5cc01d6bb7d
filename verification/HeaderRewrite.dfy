/** `v2_to_v1`: a stream whose first block has a bvx2 header, with that header written as bvx1. */
module HeaderRewrite {
  import opened Bits
  import opened Prelude
  import opened Struct
  import FreqCode
  import opened LzfseHeader

  lemma {:induction false} LenientPackable(x: nat, count: nat)
    ensures FreqCode.Packable(FreqCode.Lenient(x, count))
    decreases count
  {
    hide FreqCode.Value, FreqCode.Take, Shr;
    if count != 0 {
      FreqCode.ValueBound(x);
      LenientPackable(Shr(x, FreqCode.Take(x)), count - 1);
    }
  }

  /** Whatever is unpacked from a bvx2 header fits a bvx1 header. */
  lemma UnpackedPackable(raw: nat, v0: nat, v1: nat, v2: nat, freqs: seq<nat>)
    requires raw < Pow2(32) && |freqs| == 360 && FreqCode.Packable(freqs)
    ensures Packable(UnpackV2(raw, v0, v1, v2, freqs))
  {
    hide Pow2, Low, Shr;
    FreqCode.LowBound(Shr(v0, 0), 20);
    FreqCode.LowBound(Shr(v0, 20), 20);
    FreqCode.LowBound(Shr(v0, 40), 20);
    FreqCode.LowBound(Shr(v0, 60), 3);
    FreqCode.LowBound(Shr(v1, 0), 10);
    FreqCode.LowBound(Shr(v1, 10), 10);
    FreqCode.LowBound(Shr(v1, 20), 10);
    FreqCode.LowBound(Shr(v1, 30), 10);
    FreqCode.LowBound(Shr(v1, 40), 20);
    FreqCode.LowBound(Shr(v1, 60), 3);
    FreqCode.LowBound(Shr(v2, 32), 10);
    FreqCode.LowBound(Shr(v2, 42), 10);
    FreqCode.LowBound(Shr(v2, 52), 10);
    Pow2Small();
  }

  /** Frequencies accepted from a header are those read without the tests. */
  lemma AcceptedLenient(head: seq<byte>)
    requires |head| >= 32 && FreqCode.V2Freqs(head).Ok?
    ensures FreqCode.V2Freqs(head).value == FreqCode.Lenient(LeValue(head[32..]), 360)
  {
    hide FreqCode.Decode, FreqCode.Lenient;
    if |head| == 32 {
      LenientZero(360);
    } else {
      FreqCode.LenientAgrees(LeValue(head[32..]), 8 * (|head| - 32), 360);
    }
  }

  lemma {:induction false} LenientZero(count: nat)
    ensures FreqCode.Lenient(0, count) == seq(count, _ => 0)
    decreases count
  {
    if count != 0 {
      Zero();
      LenientZero(count - 1);
      assert [0] + seq(count - 1, _ => 0) == seq(count, _ => 0);
    }
  }

  lemma Zero()
    ensures FreqCode.Take(0) == 2 && FreqCode.Value(0) == 0 && Shr(0, 2) == 0
  {
    FreqCode.LowEntries();
    assert Shr(0, 2) == Shr(0, 1);
  }

  /** The bytes of a blob the loop may read: those before the stated size, as far as there are any. */
  function Within(blob: seq<byte>, size: nat): (head: seq<byte>)
    requires |blob| >= 32
    ensures |head| >= 32
  {
    blob[..Max(32, Min(size, |blob|))]
  }

  /** The loop that tops the accumulator up. It runs off the blob when that is shorter than the size
      stated and holds too few of the 25 bits a code may need. */
  method Refill(blob: seq<byte>, size: nat, accum0: nat, nbits0: int, at0: nat, ghost head: seq<byte>)
    returns (r: Result<(nat, int, nat)>)
    requires |blob| >= 32 && head == Within(blob, size) && at0 <= |head|
    requires (at0 < size ==> 0 <= nbits0) && nbits0 <= 32 && accum0 < Pow2(Max(nbits0, 0))
    ensures r.Raised? <==> at0 < size && size > |blob| && nbits0 + 8 * (|blob| - at0) < 25
    ensures r.Ok? ==> var (accum, nbits, at) := r.value;
      && at0 <= at <= |head| && nbits <= 32 && accum < Pow2(Max(nbits, 0)) && (at < size ==> nbits >= 25)
      && nbits - nbits0 == 8 * (at - at0)
      && FreqCode.Ahead(accum, Max(nbits, 0), head, at) == FreqCode.Ahead(accum0, Max(nbits0, 0), head, at0)
  {
    hide Pow2, Shl, FreqCode.Ahead;
    var accum: nat, nbits: int, at: nat := accum0, nbits0, at0;
    while at < size && nbits + 8 <= 32
      invariant at0 <= at <= |head| && nbits <= 32 && accum < Pow2(Max(nbits, 0)) && (at < size ==> 0 <= nbits)
      invariant nbits - nbits0 == 8 * (at - at0)
      invariant FreqCode.Ahead(accum, Max(nbits, 0), head, at) == FreqCode.Ahead(accum0, Max(nbits0, 0), head, at0)
      decreases size - at
    {
      if at >= |blob| {
        return Raised;
      }
      FreqCode.Refilled(accum, nbits, head, at);
      accum := accum + Shl(blob[at], nbits);
      nbits, at := nbits + 8, at + 1;
    }
    r := Ok((accum, nbits, at));
  }

  /** The frequencies read so far, and what is left of the packed ones, make up all 360; so do the bits
      taken so far, and what the codes before the last will take. */
  ghost predicate Tracks(freqs: seq<nat>, taken: nat, accum: nat, nbits: int, head: seq<byte>, at: nat, x: nat)
    requires |freqs| <= 360
  {
    && 32 <= at <= |head| && nbits <= 32 && accum < Pow2(Max(nbits, 0)) && 8 * (at - 32) == taken + nbits
    && var ahead := FreqCode.Ahead(accum, Max(nbits, 0), head, at);
       && freqs + FreqCode.Lenient(ahead, 360 - |freqs|) == FreqCode.Lenient(x, 360)
       && (|freqs| < 360 ==> taken + FreqCode.Taken(ahead, 359 - |freqs|) == FreqCode.Taken(x, 359))
  }

  lemma TrackOne(freqs: seq<nat>, taken: nat, accum: nat, nbits: int, head: seq<byte>, at: nat, x: nat)
    requires |freqs| < 360 && Tracks(freqs, taken, accum, nbits, head, at, x) && (nbits >= 25 || at == |head|)
    ensures var take := FreqCode.Take(accum);
      Tracks(freqs + [FreqCode.Value(accum)], taken + take, Shr(accum, take), nbits - take, head, at, x)
  {
    hide Pow2, Shr, FreqCode.Lenient, FreqCode.Taken, FreqCode.Value, FreqCode.Take, FreqCode.Ahead;
    var ahead, count := FreqCode.Ahead(accum, Max(nbits, 0), head, at), 360 - |freqs|;
    OneFrequency(accum, nbits, head, at, count);
    TakenNext(ahead, count - 1);
    assert (freqs + [FreqCode.Value(ahead)]) + FreqCode.Lenient(Shr(ahead, FreqCode.Take(ahead)), count - 1)
        == freqs + FreqCode.Lenient(ahead, count);
  }

  lemma TakenNext(x: nat, count: nat)
    ensures count > 0 ==>
      FreqCode.Taken(x, count) == FreqCode.Take(x) + FreqCode.Taken(Shr(x, FreqCode.Take(x)), count - 1)
  {
  }

  /** The last code is reached with all the others' bits taken. */
  lemma LastTaken(freqs: seq<nat>, taken: nat, accum: nat, nbits: int, head: seq<byte>, at: nat, x: nat)
    requires |freqs| < 360 && Tracks(freqs, taken, accum, nbits, head, at, x)
    ensures taken <= FreqCode.Taken(x, 359)
    ensures |freqs| == 359 ==> taken == FreqCode.Taken(x, 359)
  {
    hide Pow2, Shr, FreqCode.Lenient, FreqCode.Take, FreqCode.Ahead;
  }

  /** Reading the frequencies runs off a blob that is shorter than the size stated and ends less than 25
      bits after the codes before the last. */
  predicate RunsOff(blob: seq<byte>, size: nat)
    requires |blob| >= 32
  {
    size > |blob| && 8 * (|blob| - 32) < FreqCode.Taken(LeValue(Within(blob, size)[32..]), 359) + 25
  }

  /** The second reading of the frequencies, which tests nothing: what it gives is what the bytes it
      may read hold. */
  method ReadFreqs(blob: seq<byte>, size: nat) returns (r: Result<seq<nat>>)
    requires |blob| >= 32
    ensures r.Raised? <==> RunsOff(blob, size)
    ensures r.Ok? ==>
      r.value == FreqCode.Lenient(LeValue(Within(blob, size)[32..]), 360) && FreqCode.Packable(r.value)
  {
    hide Pow2, Shr, LeValue, FreqCode.Lenient, FreqCode.Taken, FreqCode.Value, FreqCode.Take, FreqCode.Ahead, Tracks;
    var freqs: seq<nat>, accum: nat, nbits: int, at: nat := [], 0, 0, 32;
    ghost var head, taken := Within(blob, size), 0;
    ghost var x := LeValue(head[32..]);
    StartTracks(head);
    for i := 0 to 360
      invariant |freqs| == i && FreqCode.Packable(freqs) && Tracks(freqs, taken, accum, nbits, head, at, x)
      invariant at < size ==> 0 <= nbits
      invariant i == 360 && size > |blob| ==> 8 * (|blob| - 32) >= FreqCode.Taken(x, 359) + 25
    {
      LastTaken(freqs, taken, accum, nbits, head, at, x);
      TrackBounds(freqs, taken, accum, nbits, head, at, x);
      var filled := Refill(blob, size, accum, nbits, at, head);
      if filled.Raised? {
        return Raised;
      }
      StillTracks(freqs, taken, accum, nbits, head, at, x, filled.value.0, filled.value.1, filled.value.2);
      accum, nbits, at := filled.value.0, filled.value.1, filled.value.2;
      TrackOne(freqs, taken, accum, nbits, head, at, x);
      var value, take := FreqCode.ReadFreq(accum);
      freqs, taken := freqs + [value], taken + take;
      accum, nbits := Shr(accum, take), nbits - take;
    }
    AllTracked(freqs, taken, accum, nbits, head, at, x);
    r := Ok(freqs);
  }

  lemma StartTracks(head: seq<byte>)
    requires |head| >= 32
    ensures Tracks([], 0, 0, 0, head, 32, LeValue(head[32..]))
  {
    hide Shr, LeValue, FreqCode.Lenient, FreqCode.Taken;
    FreqCode.NothingRead(head);
    hide Pow2, FreqCode.Ahead;
    var all := FreqCode.Lenient(LeValue(head[32..]), 360);
    assert [] + all == all;
  }

  lemma TrackBounds(freqs: seq<nat>, taken: nat, accum: nat, nbits: int, head: seq<byte>, at: nat, x: nat)
    requires |freqs| <= 360 && Tracks(freqs, taken, accum, nbits, head, at, x)
    ensures 32 <= at <= |head| && nbits <= 32 && accum < Pow2(Max(nbits, 0)) && 8 * (at - 32) == taken + nbits
  {
    hide Pow2, FreqCode.Lenient, FreqCode.Taken, FreqCode.Ahead;
  }

  lemma StillTracks(freqs: seq<nat>, taken: nat, accum0: nat, nbits0: int, head: seq<byte>, at0: nat, x: nat,
                    accum: nat, nbits: int, at: nat)
    requires |freqs| <= 360 && Tracks(freqs, taken, accum0, nbits0, head, at0, x) && at0 <= at <= |head| && nbits <= 32
    requires accum < Pow2(Max(nbits, 0)) && nbits - nbits0 == 8 * (at - at0)
    requires FreqCode.Ahead(accum, Max(nbits, 0), head, at) == FreqCode.Ahead(accum0, Max(nbits0, 0), head, at0)
    ensures Tracks(freqs, taken, accum, nbits, head, at, x)
  {
    hide Pow2, FreqCode.Lenient, FreqCode.Taken, FreqCode.Ahead;
  }

  lemma AllTracked(freqs: seq<nat>, taken: nat, accum: nat, nbits: int, head: seq<byte>, at: nat, x: nat)
    requires |freqs| == 360 && Tracks(freqs, taken, accum, nbits, head, at, x)
    ensures freqs == FreqCode.Lenient(x, 360)
  {
    hide Pow2, FreqCode.Ahead, FreqCode.Taken, FreqCode.Value, FreqCode.Take;
    assert freqs + [] == freqs;
  }

  /** One turn of the loop, inside the blob; when the bytes have run out the code may be longer than
      the bits held, and what is left is zero. */
  lemma OneFrequency(accum: nat, nbits: int, head: seq<byte>, at: nat, count: nat)
    requires at <= |head| && accum < Pow2(Max(nbits, 0)) && (nbits >= 25 || at == |head|) && count > 0
    ensures var x, take := FreqCode.Ahead(accum, Max(nbits, 0), head, at), FreqCode.Take(accum);
      && FreqCode.Take(x) == take && FreqCode.Value(x) == FreqCode.Value(accum)
      && FreqCode.Lenient(x, count) == [FreqCode.Value(x)] + FreqCode.Lenient(Shr(x, take), count - 1)
      && Shr(accum, take) < Pow2(Max(nbits - take, 0))
      && FreqCode.Ahead(Shr(accum, take), Max(nbits - take, 0), head, at) == Shr(x, take)
  {
    hide Pow2, Shl, Shr, Low, LeValue, FreqCode.Value, FreqCode.Take;
    var take := FreqCode.Take(accum);
    FreqCode.Enough(accum, Max(nbits, 0), head, at);
    if take > nbits {
      assert head[at..] == [];
      FreqCode.NothingAhead(Max(nbits, 0));
      FreqCode.NothingAhead(0);
      if nbits >= 0 {
        Pow2Mono(nbits, take);
      } else {
        Pow2Mono(0, take);
      }
      ShrBound(accum, 0, take);
      FreqCode.NoBits();
    }
  }

  /** The size a bvx2 header states for itself. */
  function StatedSize(blob: seq<byte>): nat
    requires |blob| >= 32
  {
    V2FixedWidth();
    Low(Unpack(blob[4..], V2_FIXED)[3], 32)
  }

  /** The header read without a test. */
  function PlainHeader(blob: seq<byte>): (h: Header)
    requires |blob| >= 32
    ensures Packable(h)
  {
    V2FixedWidth();
    var f := Unpack(blob[4..], V2_FIXED);
    UnpackBound(blob[4..], V2_FIXED);
    var x := LeValue(Within(blob, Low(f[3], 32))[32..]);
    LenientPackable(x, 360);
    assert f[0] < Pow2(8 * V2_FIXED[0]);
    UnpackedPackable(f[0], f[1], f[2], f[3], FreqCode.Lenient(x, 360));
    UnpackV2(f[0], f[1], f[2], f[3], FreqCode.Lenient(x, 360))
  }

  /** What the decoder accepts it reads the same. */
  lemma AcceptedPlain(blob: seq<byte>)
    requires |blob| >= 4 && blob[..4] == MAGIC_V2 && ParseV2(blob, 0).Ok?
    ensures |blob| >= 32 && ParseV2(blob, 0).value == PlainHeader(blob)
    ensures 32 <= StatedSize(blob) == PlainHeader(blob).size <= |blob| && !RunsOff(blob, StatedSize(blob))
  {
    hide Low, Shr, Pow2, FreqCode.Lenient, FreqCode.V2Freqs, Packable;
    V2FixedWidth();
    var size := StatedSize(blob);
    AcceptedLenient(blob[..size]);
    assert Within(blob, size) == blob[..size] && blob[0..0 + size] == blob[..size];
  }

  /** For every blob: it raises when that is too short, or not bvx2, or ends inside the frequencies; else
      the header it reads is written plain, and what followed the stated size follows. */
  method V2ToV1(blob: seq<byte>) returns (r: Result<seq<byte>>)
    ensures r.Raised? <==> |blob| < 32 || blob[..4] != MAGIC_V2 || RunsOff(blob, StatedSize(blob))
    ensures r.Ok? ==> r.value == EncodeV1(PlainHeader(blob)) + blob[Min(StatedSize(blob), |blob|)..]
    ensures |blob| >= 4 && blob[..4] == MAGIC_V2 && ParseV2(blob, 0).Ok? ==>
      && Packable(ParseV2(blob, 0).value)
      && r == Ok(EncodeV1(ParseV2(blob, 0).value) + blob[ParseV2(blob, 0).value.size..])
  {
    hide Low, Shr, Pow2, FreqCode.Lenient, FreqCode.V2Freqs, EncodeV1, RunsOff, Packable, ParseV2;
    if |blob| >= 4 && blob[..4] == MAGIC_V2 && ParseV2(blob, 0).Ok? {
      AcceptedPlain(blob);
    }
    if |blob| < 32 || blob[..4] != MAGIC_V2 {
      return Raised;
    }
    V2FixedWidth();
    var f := Unpack(blob[4..], V2_FIXED);
    var size := Low(f[3], 32);
    var read := ReadFreqs(blob, size);
    if read.Raised? {
      return Raised;
    }
    ghost var plain := PlainHeader(blob);
    var head := EncodeV1(UnpackV2(f[0], f[1], f[2], f[3], read.value));
    r := Ok(head + blob[Min(size, |blob|)..]);
  }

  /** The rewritten header says the same as the one it came from, and what followed it follows. */
  lemma RewriteKeeps(blob: seq<byte>)
    requires |blob| >= 4 && blob[..4] == MAGIC_V2 && ParseV2(blob, 0).Ok?
    ensures var h := ParseV2(blob, 0).value;
      && Packable(h)
      && ParseV1(EncodeV1(h) + blob[h.size..], 0) == Ok(h.(size := V1_SIZE))
      && (EncodeV1(h) + blob[h.size..])[V1_SIZE..] == blob[h.size..]
  {
    hide EncodeV1, ParseV1, Low, Shr, Pow2, FreqCode.Lenient, FreqCode.V2Freqs;
    V2FixedWidth();
    var f := Unpack(blob[0 + 4..], V2_FIXED);
    UnpackBound(blob[0 + 4..], V2_FIXED);
    var h := ParseV2(blob, 0).value;
    AcceptedLenient(blob[0..0 + h.size]);
    LenientPackable(LeValue(blob[0..0 + h.size][32..]), 360);
    assert f[0] < Pow2(8 * V2_FIXED[0]);
    UnpackedPackable(f[0], f[1], f[2], f[3], h.freqs);
    V1RoundTrip([], h, blob[h.size..]);
    assert [] + EncodeV1(h) + blob[h.size..] == EncodeV1(h) + blob[h.size..];
  }
}
