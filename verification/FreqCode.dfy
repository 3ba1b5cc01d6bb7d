/** The packed frequency tables of a bvx2 header (`_lzfse_v2_freqs`, and its second reading in
    `v2_to_v1`), and the encoder they undo. */
module FreqCode {
  import opened Bits
  import opened Prelude

  // By the low five bits: the length of a code, and its value when the length is 2, 3 or 5.
  const FREQ_NBITS: seq<nat> := NBITS_HALF + NBITS_HALF
  const NBITS_HALF: seq<nat> := [2, 3, 2, 5, 2, 3, 2, 8, 2, 3, 2, 5, 2, 3, 2, 14]
  const FREQ_VALUE: seq<int> := VALUE_LOW + VALUE_HIGH
  const VALUE_LOW: seq<int> := [0, 2, 1, 4, 0, 3, 1, -1, 0, 2, 1, 5, 0, 3, 1, -1]
  const VALUE_HIGH: seq<int> := [0, 2, 1, 6, 0, 3, 1, -1, 0, 2, 1, 7, 0, 3, 1, -1]

  function Take(x: nat): (n: nat)
    ensures 2 <= n <= 14
  {
    if Low(x, 1) == 0 then 2 else if Low(x, 2) == 1 then 3 else if Low(x, 3) == 3 then 5
    else if Low(x, 4) == 7 then 8 else 14
  }

  /** The frequency whose code is the low end of `x`. */
  function Value(x: nat): nat
  {
    match Take(x)
    case 2 => Low(Shr(x, 1), 1)
    case 3 => 2 + Low(Shr(x, 2), 1)
    case 5 => 4 + Low(Shr(x, 3), 2)
    case 8 => 8 + Low(Shr(x, 4), 4)
    case _ => 24 + Low(Shr(x, 4), 10)
  }

  /** The two tables say the same as the arithmetic. */
  lemma TablesMean(low: nat)
    requires low < 32
    ensures FREQ_NBITS[low] == Take(low)
    ensures Take(low) <= 5 ==> FREQ_VALUE[low] == Value(low)
  {
    hide Take, Value;
    if low < 16 {
      LowEntries();
      assert FREQ_NBITS[low] == NBITS_HALF[low] && FREQ_VALUE[low] == VALUE_LOW[low];
    } else {
      HighEntries();
      assert FREQ_NBITS[low] == NBITS_HALF[low - 16] && FREQ_VALUE[low] == VALUE_HIGH[low - 16];
    }
  }

  lemma LowEntries()
    ensures Take(0) == 2 && Take(1) == 3 && Take(2) == 2 && Take(3) == 5
    ensures Value(0) == 0 && Value(1) == 2 && Value(2) == 1 && Value(3) == 4
    ensures Take(4) == 2 && Take(5) == 3 && Take(6) == 2 && Take(7) == 8
    ensures Value(4) == 0 && Value(5) == 3 && Value(6) == 1
    ensures Take(8) == 2 && Take(9) == 3 && Take(10) == 2 && Take(11) == 5
    ensures Value(8) == 0 && Value(9) == 2 && Value(10) == 1 && Value(11) == 5
    ensures Take(12) == 2 && Take(13) == 3 && Take(14) == 2 && Take(15) == 14
    ensures Value(12) == 0 && Value(13) == 3 && Value(14) == 1
  {
  }

  lemma HighEntries()
    ensures Take(16) == 2 && Take(17) == 3 && Take(18) == 2 && Take(19) == 5
    ensures Value(16) == 0 && Value(17) == 2 && Value(18) == 1 && Value(19) == 6
    ensures Take(20) == 2 && Take(21) == 3 && Take(22) == 2 && Take(23) == 8
    ensures Value(20) == 0 && Value(21) == 3 && Value(22) == 1
    ensures Take(24) == 2 && Take(25) == 3 && Take(26) == 2 && Take(27) == 5
    ensures Value(24) == 0 && Value(25) == 2 && Value(26) == 1 && Value(27) == 7
    ensures Take(28) == 2 && Take(29) == 3 && Take(30) == 2 && Take(31) == 14
    ensures Value(28) == 0 && Value(29) == 3 && Value(30) == 1
  {
  }

  /** A frequency's code: a prefix that tells the length, and the value above it. */
  datatype Coded = Coded(prefix: nat, prefixBits: nat, value: nat, valueBits: nat) {
    function Bits(): BitString { BitString(Shl(value, prefixBits) + prefix, prefixBits + valueBits) }
  }

  function Code(v: nat): (c: Coded)
    requires v <= 1047
    ensures c.prefix < Pow2(c.prefixBits) && c.value < Pow2(c.valueBits)
    ensures 2 <= c.prefixBits + c.valueBits <= 14
  {
    Pow2Small();
    if v <= 1 then Coded(0, 1, v, 1)
    else if v <= 3 then Coded(1, 2, v - 2, 1)
    else if v <= 7 then Coded(3, 3, v - 4, 2)
    else if v <= 23 then Coded(7, 4, v - 8, 4)
    else Coded(15, 4, v - 24, 10)
  }

  lemma CodeValid(v: nat)
    requires v <= 1047
    ensures var b := Code(v).Bits(); b.Valid() && 2 <= b.len <= 14
  {
    hide Shl, Pow2, Code;
    var c := Code(v);
    ShlBound(c.value, c.prefix, c.valueBits, c.prefixBits);
  }

  /** Under anything else a code's prefix and value are where they were put. */
  lemma CodeParts(c: Coded, above: nat)
    requires c.prefix < Pow2(c.prefixBits) && c.value < Pow2(c.valueBits)
    ensures var x := Shl(above, c.Bits().len) + c.Bits().value;
      && Low(Shr(x, c.prefixBits), c.valueBits) == c.value
      && forall j :: 0 <= j <= c.prefixBits ==> Low(x, j) == Low(c.prefix, j)
  {
    hide Shl, Pow2, Shr, Low;
    var x := Shl(above, c.Bits().len) + c.Bits().value;
    var up := Shl(above, c.valueBits) + c.value;
    ShlShl(above, c.valueBits, c.prefixBits);
    ShlPlus(Shl(above, c.valueBits), c.value, c.prefixBits);
    assert x == Shl(up, c.prefixBits) + c.prefix;
    Join(up, c.prefix, c.prefixBits);
    Join(above, c.value, c.valueBits);
    LowPrefixes(up, c.prefix, c.prefixBits);
  }

  lemma CodeReads(v: nat, above: nat)
    requires v <= 1047
    ensures var b := Code(v).Bits();
      && b.Valid() && Take(Shl(above, b.len) + b.value) == b.len && Value(Shl(above, b.len) + b.value) == v
  {
    hide Shl, Pow2, Shr, Low, BitString.Valid;
    CodeValid(v);
    var c := Code(v);
    CodeParts(c, above);
    Prefixes();
    var x := Shl(above, c.Bits().len) + c.Bits().value;
    assert Low(x, 1) == Low(c.prefix, 1);
    assert v > 1 ==> Low(x, 2) == Low(c.prefix, 2);
    assert v > 3 ==> Low(x, 3) == Low(c.prefix, 3);
    assert v > 7 ==> Low(x, 4) == Low(c.prefix, 4);
  }

  lemma Prefixes()
    ensures Low(0, 1) == 0 && Low(1, 1) == 1 && Low(1, 2) == 1
    ensures Low(3, 1) == 1 && Low(3, 2) == 3 && Low(3, 3) == 3
    ensures Low(7, 1) == 1 && Low(7, 2) == 3 && Low(7, 3) == 7 && Low(7, 4) == 7
    ensures Low(15, 1) == 1 && Low(15, 2) == 3 && Low(15, 3) == 7 && Low(15, 4) == 15
  {
  }

  lemma LowPrefixes(up: nat, prefix: nat, n: nat)
    ensures forall j :: 0 <= j <= n ==> Low(Shl(up, n) + prefix, j) == Low(prefix, j)
  {
    forall j | 0 <= j <= n
      ensures Low(Shl(up, n) + prefix, j) == Low(prefix, j)
    {
      LowPrefix(up, prefix, n, j);
    }
  }

  /** The next frequency can be told from 14 bits, and from five when its code is that short. */
  lemma SameLow(a: nat, y: nat)
    ensures Take(Shl(y, 14) + a) == Take(a) && Value(Shl(y, 14) + a) == Value(a)
  {
    hide Shl, Shr, Low;
    LowPrefixes(y, a, 14);
    ShrPrefix(y, a, 14, 1);
    LowPrefix(y, Shr(a, 1), 13, 1);
    ShrPrefix(y, a, 14, 2);
    LowPrefix(y, Shr(a, 2), 12, 1);
    ShrPrefix(y, a, 14, 3);
    LowPrefix(y, Shr(a, 3), 11, 2);
    ShrPrefix(y, a, 14, 4);
    LowPrefix(y, Shr(a, 4), 10, 4);
    LowPrefix(y, Shr(a, 4), 10, 10);
  }

  lemma SameLow5(x: nat)
    ensures Low(x, 5) < 32 && Take(Low(x, 5)) == Take(x)
    ensures Take(x) <= 5 ==> Value(Low(x, 5)) == Value(x)
  {
    hide Shl, Shr, Low, Pow2;
    var y, a := Shr(x, 5), Low(x, 5);
    Split(x, 5);
    Pow2Small();
    LowPrefixes(y, a, 5);
    ShrPrefix(y, a, 5, 1);
    LowPrefix(y, Shr(a, 1), 4, 1);
    ShrPrefix(y, a, 5, 2);
    LowPrefix(y, Shr(a, 2), 3, 1);
    ShrPrefix(y, a, 5, 3);
    LowPrefix(y, Shr(a, 3), 2, 2);
  }

  // ---- tables of frequencies ----

  /** `count` frequencies from the low end of a number of `len` bits, and what is left above them;
      a code may not reach past the top. */
  function Decode(x: nat, len: nat, count: nat): (r: Result<(seq<nat>, nat, nat)>)
    ensures r.Ok? ==> |r.value.0| == count
    decreases count
  {
    if count == 0 then Ok(([], x, len))
    else if Take(x) > len then Raised
    else
      var more := Decode(Shr(x, Take(x)), len - Take(x), count - 1);
      if more.Raised? then Raised else Ok(([Value(x)] + more.value.0, more.value.1, more.value.2))
  }

  /** The same without the test, as `v2_to_v1` reads them. */
  function Lenient(x: nat, count: nat): (r: seq<nat>)
    ensures |r| == count
    decreases count
  {
    if count == 0 then [] else [Value(x)] + Lenient(Shr(x, Take(x)), count - 1)
  }

  /** The bits those codes take. */
  function Taken(x: nat, count: nat): nat
    decreases count
  {
    if count == 0 then 0 else Take(x) + Taken(Shr(x, Take(x)), count - 1)
  }

  lemma {:induction false} LenientAgrees(x: nat, len: nat, count: nat)
    requires Decode(x, len, count).Ok?
    ensures Decode(x, len, count).value.0 == Lenient(x, count)
    decreases count
  {
    hide Take, Value, Shr;
    if count != 0 {
      LenientAgrees(Shr(x, Take(x)), len - Take(x), count - 1);
    }
  }

  ghost predicate Packable(freqs: seq<nat>) { forall i :: 0 <= i < |freqs| ==> freqs[i] <= 1047 }

  /** The codes of a list of frequencies, the first one lowest. */
  function Encode(freqs: seq<nat>): (b: BitString)
    requires Packable(freqs)
    ensures b.Valid() && 2 * |freqs| <= b.len <= 14 * |freqs|
  {
    if freqs == [] then BitString(0, 0)
    else
      CodeValid(freqs[0]);
      var c := Code(freqs[0]).Bits();
      var more := Encode(freqs[1..]);
      ShlBound(more.value, c.value, more.len, c.len);
      more.Above(c)
  }

  /** The packed tables decode to themselves, whatever bits stand above them. */
  lemma {:induction false} RoundTrip(freqs: seq<nat>, above: BitString)
    requires Packable(freqs)
    ensures var x := above.Above(Encode(freqs));
      Decode(x.value, x.len, |freqs|) == Ok((freqs, above.value, above.len))
  {
    if freqs == [] {
      assert Shl(above.value, 0) + 0 == above.value;
    } else {
      RoundTrip(freqs[1..], above);
      DecodeCode(freqs[0], above.Above(Encode(freqs[1..])), |freqs| - 1);
      EncodeAboveCode(freqs, above);
      assert [freqs[0]] + freqs[1..] == freqs;
    }
  }

  lemma EncodeAboveCode(freqs: seq<nat>, above: BitString)
    requires Packable(freqs) && freqs != []
    ensures above.Above(Encode(freqs)) == above.Above(Encode(freqs[1..])).Above(Code(freqs[0]).Bits())
  {
    AboveAbove(above, Encode(freqs[1..]), Code(freqs[0]).Bits());
  }

  lemma DecodeCode(v: nat, y: BitString, count: nat)
    requires v <= 1047
    ensures var x := y.Above(Code(v).Bits());
      Decode(x.value, x.len, count + 1) ==
        var more := Decode(y.value, y.len, count);
        if more.Raised? then Raised else Ok(([v] + more.value.0, more.value.1, more.value.2))
  {
    hide Take, Value, Code, Shr, Shl;
    CodeReads(v, y.value);
    Join(y.value, Code(v).Bits().value, Code(v).Bits().len);
  }

  // ---- the loop ----

  /** What the loop's accumulator and the bytes it has not read yet make up. */
  function Ahead(accum: nat, nbits: nat, head: seq<byte>, at: nat): nat
    requires at <= |head|
  {
    Shl(LeValue(head[at..]), nbits) + accum
  }

  lemma Refilled(accum: nat, nbits: nat, head: seq<byte>, at: nat)
    requires at < |head| && accum < Pow2(nbits)
    ensures Ahead(accum + Shl(head[at], nbits), nbits + 8, head, at + 1) == Ahead(accum, nbits, head, at)
    ensures accum + Shl(head[at], nbits) < Pow2(nbits + 8)
  {
    var rest := LeValue(head[at + 1..]);
    assert head[at..][1..] == head[at + 1..];
    ShlTimes256(rest);
    ShlPlus(Shl(rest, 8), head[at], nbits);
    ShlShl(rest, 8, nbits);
    Pow2Small();
    ShlBound(head[at], accum, 8, nbits);
    assert 8 + nbits == nbits + 8;
  }

  lemma NothingAhead(nbits: nat)
    ensures Shl(LeValue([]), nbits) == 0
  {
    ShlZero(nbits);
  }

  /** Enough bits are in the accumulator to tell the next frequency. */
  lemma Enough(accum: nat, nbits: nat, head: seq<byte>, at: nat)
    requires at <= |head| && accum < Pow2(nbits) && (nbits >= 14 || at == |head|)
    ensures var x := Ahead(accum, nbits, head, at);
      && Take(accum) == Take(x) && Value(accum) == Value(x)
    ensures Take(accum) <= nbits ==>
      && Shr(accum, Take(accum)) < Pow2(nbits - Take(accum))
      && Ahead(Shr(accum, Take(accum)), nbits - Take(accum), head, at)
         == Shr(Ahead(accum, nbits, head, at), Take(accum))
  {
    hide Pow2, Shl, Shr, Low, LeValue, Take, Value;
    var up := LeValue(head[at..]);
    if at == |head| {
      assert head[at..] == [];
      NothingAhead(nbits);
    } else {
      ShlShl(up, nbits - 14, 14);
      SameLow(accum, Shl(up, nbits - 14));
      assert nbits - 14 + 14 == nbits;
    }
    var n := Take(accum);
    if n <= nbits {
      ShrBound(accum, nbits - n, n);
      Split(accum, n);
      ShlShl(up, nbits - n, n);
      ShlPlus(Shl(up, nbits - n), Shr(accum, n), n);
      Join(Shl(up, nbits - n) + Shr(accum, n), Low(accum, n), n);
    }
  }

  /** `_lzfse_v2_freqs`: the 360 frequencies after the 32 fixed bytes of a header, none at all when
      there is nothing after them, else exactly enough bits to end inside the last byte. */
  function V2Freqs(head: seq<byte>): (r: Result<seq<nat>>)
    requires |head| >= 32
    ensures r.Ok? ==> |r.value| == 360
  {
    if |head| == 32 then Ok(seq(360, _ => 0))
    else
      var d := Decode(LeValue(head[32..]), 8 * (|head| - 32), 360);
      if d.Raised? || d.value.2 >= 8 then Raised else Ok(d.value.0)
  }

  lemma OneMore(x: nat, len: nat, count: nat, freqs: seq<nat>, whole: Result<(seq<nat>, nat, nat)>)
    requires count > 0
    requires whole == Extend(freqs, Decode(x, len, count))
    ensures Take(x) > len ==> whole == Raised
    ensures Take(x) <= len ==> whole == Extend(freqs + [Value(x)], Decode(Shr(x, Take(x)), len - Take(x), count - 1))
  {
    if Take(x) <= len {
      var more := Decode(Shr(x, Take(x)), len - Take(x), count - 1);
      if more.Ok? {
        assert freqs + ([Value(x)] + more.value.0) == (freqs + [Value(x)]) + more.value.0;
      }
    }
  }

  function Extend(freqs: seq<nat>, r: Result<(seq<nat>, nat, nat)>): Result<(seq<nat>, nat, nat)>
  {
    if r.Raised? then Raised else Ok((freqs + r.value.0, r.value.1, r.value.2))
  }

  lemma LowBound(x: nat, n: nat)
    ensures Low(x, n) < Pow2(n)
  {
    Split(x, n);
  }

  lemma ValueBound(x: nat)
    ensures Value(x) <= 1047
  {
    hide Low, Shr;
    LowBound(Shr(x, 1), 1);
    LowBound(Shr(x, 2), 1);
    LowBound(Shr(x, 3), 2);
    LowBound(Shr(x, 4), 4);
    LowBound(Shr(x, 4), 10);
    Pow2Small();
  }

  lemma ReadOne(accum: nat, low: nat, value: int)
    requires low == Low(accum, 5) < 32
    requires value == if Take(accum) == 8 then 8 + Low(Shr(accum, 4), 4)
                      else if Take(accum) == 14 then 24 + Low(Shr(accum, 4), 10) else FREQ_VALUE[low]
    ensures value == Value(accum)
  {
    hide Low, Shr;
    SameLow5(accum);
    TablesMean(low);
  }

  /** One frequency off the accumulator, by the tables. */
  method ReadFreq(accum: nat) returns (value: nat, take: nat)
    ensures value == Value(accum) <= 1047 && take == Take(accum)
  {
    hide Shr, Low, Value, Take;
    var low := Low(accum, 5);
    SameLow5(accum);
    TablesMean(low);
    ValueBound(accum);
    take := FREQ_NBITS[low];
    value := if take == 8 then 8 + Low(Shr(accum, 4), 4)
             else if take == 14 then 24 + Low(Shr(accum, 4), 10) else FREQ_VALUE[low];
    ReadOne(accum, low, value);
  }

  method V2FreqsLoop(head: seq<byte>) returns (r: Result<seq<nat>>)
    requires |head| >= 32
    ensures r == V2Freqs(head)
  {
    hide Pow2, Shl, Shr, LeValue, Decode, Take, Value, Ahead;
    var size := |head|;
    if size == 32 {
      return Ok(seq(360, _ => 0));
    }
    var freqs: seq<nat>, accum: nat, nbits: nat, at := [], 0, 0, 32;
    ghost var whole := Decode(LeValue(head[32..]), 8 * (size - 32), 360);
    NothingRead(head);
    assert whole == Extend([], whole) by {
      if whole.Ok? {
        assert [] + whole.value.0 == whole.value.0;
      }
    }
    for i := 0 to 360
      invariant 32 <= at <= size && nbits <= 32 && accum < Pow2(nbits)
      invariant whole == Extend(freqs, Decode(Ahead(accum, nbits, head, at), nbits + 8 * (size - at), 360 - i))
    {
      ghost var x := Ahead(accum, nbits, head, at);
      ghost var len := nbits + 8 * (size - at);
      while at < size && nbits + 8 <= 32
        invariant 32 <= at <= size && nbits <= 32 && accum < Pow2(nbits)
        invariant Ahead(accum, nbits, head, at) == x && nbits + 8 * (size - at) == len
        decreases size - at
      {
        Refilled(accum, nbits, head, at);
        accum := accum + Shl(head[at], nbits);
        nbits, at := nbits + 8, at + 1;
      }
      Enough(accum, nbits, head, at);
      OneMore(x, len, 360 - i, freqs, whole);
      var value, take := ReadFreq(accum);
      if take > nbits {
        return Raised;
      }
      freqs := freqs + [value];
      accum, nbits := Shr(accum, take), nbits - take;
    }
    NoneLeft(Ahead(accum, nbits, head, at), nbits + 8 * (size - at), freqs);
    if nbits >= 8 || at != size {
      return Raised;
    }
    r := Ok(freqs);
  }

  lemma NothingRead(head: seq<byte>)
    requires |head| >= 32
    ensures Ahead(0, 0, head, 32) == LeValue(head[32..]) && 0 < Pow2(0)
  {
  }

  lemma NoBits()
    ensures Shr(0, 0) == 0 && Pow2(0) == 1
  {
  }

  lemma NoneLeft(x: nat, len: nat, freqs: seq<nat>)
    ensures Extend(freqs, Decode(x, len, 0)) == Ok((freqs, x, len))
  {
    assert freqs + [] == freqs;
  }
}
