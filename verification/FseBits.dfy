/** The backward bit reader (`_FseBits`). Whatever it has loaded, the bits it will still give are
    one number: the little-endian value of the bytes down to its floor, read from the top. */
module FseBits {
  import opened Bits
  import opened Prelude

  /** The bits left when `acc` holds the next `nb` and the bytes of `buf[floor..pos]` follow. */
  function Left(buf: seq<byte>, floor: nat, pos: nat, acc: nat, nb: nat): BitString
    requires floor <= pos <= |buf|
  {
    BitString(acc, nb).Above(Below(buf, floor, pos))
  }

  function Below(buf: seq<byte>, floor: nat, pos: nat): BitString
    requires floor <= pos <= |buf|
  {
    BitString(LeValue(buf[floor..pos]), 8 * (pos - floor))
  }

  /** The bits of `buf[floor..end]` but for the `-extra` highest. */
  function Stated(buf: seq<byte>, floor: nat, end: nat, extra: int): BitString
    requires floor <= end <= |buf| && 8 * (end - floor) + extra >= 0
  {
    BitString(LeValue(buf[floor..end]), 8 * (end - floor) + extra)
  }

  /** The first load takes eight bytes, or seven when the last byte is full. */
  function FirstLoad(extra: int): nat { if extra != 0 then 8 else 7 }

  /** When a reader opens: the bit count is in range, the first load fits, and the bits above the
      stated end are zero. */
  ghost predicate Opens(buf: seq<byte>, floor: nat, end: nat, extra: int)
    requires floor <= end <= |buf|
  {
    -7 <= extra <= 0 && floor + FirstLoad(extra) <= end && Stated(buf, floor, end, extra).Valid()
  }

  function OpensAt(src: seq<byte>, floor: nat, end: nat, extra: int): (r: bool)
    requires floor <= end <= |src|
    ensures r <==> Opens(src, floor, end, extra)
  {
    -7 <= extra <= 0 && floor + FirstLoad(extra) <= end
    && Stated(src, floor, end, extra).value < Pow2(8 * (end - floor) + extra)
  }

  /** How many bits a flush adds. */
  function TopUp(nb: nat): (add: nat)
    requires nb <= 63
    ensures add % 8 == 0 && 56 <= nb + add <= 63
  {
    63 - nb - (63 - nb) % 8
  }

  lemma BelowSplit(buf: seq<byte>, floor: nat, mid: nat, pos: nat)
    requires floor <= mid <= pos <= |buf|
    ensures Below(buf, floor, pos) == Below(buf, mid, pos).Above(Below(buf, floor, mid))
    ensures Below(buf, floor, pos).Valid()
  {
    assert buf[floor..pos] == buf[floor..mid] + buf[mid..pos];
    LeValueConcat(buf[floor..mid], buf[mid..pos]);
    LeValueBound(buf[floor..pos]);
  }

  lemma LeftValid(buf: seq<byte>, floor: nat, pos: nat, acc: nat, nb: nat)
    requires floor <= pos <= |buf| && acc < Pow2(nb)
    ensures Left(buf, floor, pos, acc, nb).Valid()
  {
    BelowSplit(buf, floor, floor, pos);
    ShlBound(acc, LeValue(buf[floor..pos]), nb, 8 * (pos - floor));
  }

  /** A flush moves bytes into the accumulator and changes nothing that is left; it can be done
      exactly when at least 56 bits are left. */
  lemma Flushed(buf: seq<byte>, floor: nat, pos: nat, acc: nat, nb: nat)
    requires floor <= pos <= |buf| && acc < Pow2(nb) && nb <= 63
    ensures (floor <= pos - TopUp(nb) / 8) <==> Left(buf, floor, pos, acc, nb).len >= 56
    ensures floor <= pos - TopUp(nb) / 8 ==>
      var add, npos := TopUp(nb), pos - TopUp(nb) / 8;
      var acc' := Shl(acc, add) + LeValue(buf[npos..pos]);
      && acc' < Pow2(nb + add)
      && Left(buf, floor, npos, acc', nb + add) == Left(buf, floor, pos, acc, nb)
  {
    hide Shl, LeValue, Pow2;
    var add := TopUp(nb);
    var npos := pos - add / 8;
    if floor <= npos {
      LeValueBound(buf[npos..pos]);
      ShlBound(acc, LeValue(buf[npos..pos]), nb, add);
      BelowSplit(buf, floor, npos, pos);
      AboveAbove(BitString(acc, nb), Below(buf, npos, pos), Below(buf, floor, npos));
    }
  }

  lemma HeldAfterFlush(buf: seq<byte>, floor: nat, pos: nat, acc: nat, nb: nat)
    requires floor <= pos <= |buf| && nb <= 63
    ensures nb + TopUp(nb) == 56 + Left(buf, floor, pos, acc, nb).len % 8
  {
    assert Left(buf, floor, pos, acc, nb).len % 8 == nb % 8;
  }

  /** Pulling from the accumulator takes the top bits of what is left. */
  lemma Pulled(buf: seq<byte>, floor: nat, pos: nat, acc: nat, nb: nat, n: nat)
    requires floor <= pos <= |buf| && acc < Pow2(nb) && n <= nb
    ensures var left := Left(buf, floor, pos, acc, nb);
      && Low(acc, nb - n) < Pow2(nb - n)
      && left.Top(n) == Shr(acc, nb - n) < Pow2(n)
      && left.Rest(n) == Left(buf, floor, pos, Low(acc, nb - n), nb - n)
  {
    var b, low := BitString(acc, nb), Below(buf, floor, pos);
    PullPush(b, n);
    PushAbove(b.Rest(n), low, b.Top(n), n);
    LeftValid(buf, floor, pos, Low(acc, nb - n), nb - n);
    PushPull(b.Rest(n).Above(low), b.Top(n), n);
  }

  lemma ShrIsZero(x: nat, n: nat)
    ensures Shr(x, n) == 0 <==> x < Pow2(n)
  {
    hide Shl, Shr, Pow2, Low;
    Split(x, n);
    ShlZero(n);
    if x < Pow2(n) {
      ShrBound(x, 0, n);
      Pow2Zero();
    }
  }

  lemma Pow2Zero()
    ensures Pow2(0) == 1
  {
  }

  lemma LeftValidIff(buf: seq<byte>, floor: nat, pos: nat, acc: nat, nb: nat)
    requires floor <= pos <= |buf|
    ensures Left(buf, floor, pos, acc, nb).Valid() <==> acc < Pow2(nb)
  {
    hide LeValue, Shl, Pow2;
    if acc < Pow2(nb) {
      LeftValid(buf, floor, pos, acc, nb);
    } else {
      ShlMono(Pow2(nb), acc, 8 * (pos - floor));
      Pow2Plus(nb, 8 * (pos - floor));
    }
  }

  /** The first load, and the test that nothing is set above the stated end. */
  lemma Loaded(buf: seq<byte>, floor: nat, end: nat, extra: int)
    requires floor <= end <= |buf| && -7 <= extra <= 0 && floor + FirstLoad(extra) <= end
    ensures var pos := end - FirstLoad(extra);
      var acc, nb := LeValue(buf[pos..end]), if extra != 0 then extra + 64 else 56;
      && Left(buf, floor, pos, acc, nb) == Stated(buf, floor, end, extra)
      && (Shr(acc, nb) == 0 <==> Stated(buf, floor, end, extra).Valid())
      && (Shr(acc, nb) == 0 <==> acc < Pow2(nb))
  {
    hide LeValue, Shl, Shr, Pow2, Low;
    var pos := end - FirstLoad(extra);
    var acc, nb: nat := LeValue(buf[pos..end]), if extra != 0 then extra + 64 else 56;
    BelowSplit(buf, floor, pos, end);
    assert Left(buf, floor, pos, acc, nb) == Stated(buf, floor, end, extra);
    ShrIsZero(acc, nb);
    LeftValidIff(buf, floor, pos, acc, nb);
  }

  class FseReader {
    const buf: seq<byte>
    const floor: nat
    var pos: nat
    var accum: nat
    var nbits: nat

    ghost predicate Valid()
      reads this
    {
      floor <= pos <= |buf| && nbits <= 63 && accum < Pow2(nbits)
    }

    ghost function Remaining(): BitString
      requires Valid()
      reads this
    {
      Left(buf, floor, pos, accum, nbits)
    }

    constructor (buf: seq<byte>, end: nat, floor: nat, extra: int)
      requires floor <= end <= |buf| && Opens(buf, floor, end, extra)
      ensures Valid() && this.buf == buf && this.floor == floor
      ensures Remaining() == Stated(buf, floor, end, extra)
      ensures pos == end - FirstLoad(extra)
    {
      Loaded(buf, floor, end, extra);
      var take := FirstLoad(extra);
      this.buf, this.floor, this.pos := buf, floor, end - take;
      this.accum := LeValue(buf[end - take..end]);
      this.nbits := if extra != 0 then extra + 64 else 56;
    }

    static method Open(buf: seq<byte>, end: nat, floor: nat, extra: int) returns (r: Result<FseReader>)
      requires floor <= end <= |buf|
      ensures r.Ok? <==> Opens(buf, floor, end, extra)
      ensures r.Ok? ==> fresh(r.value) && r.value.Valid() && r.value.buf == buf && r.value.floor == floor
      ensures r.Ok? ==> r.value.Remaining() == Stated(buf, floor, end, extra)
    {
      if !(-7 <= extra <= 0) {
        return Raised;
      }
      var take := if extra != 0 then 8 else 7;
      if end - take < floor {
        return Raised;
      }
      Loaded(buf, floor, end, extra);
      if Shr(LeValue(buf[end - take..end]), if extra != 0 then extra + 64 else 56) != 0 {
        return Raised;
      }
      var reader := new FseReader(buf, end, floor, extra);
      r := Ok(reader);
    }

    method Flush() returns (r: Result<()>)
      requires Valid()
      modifies this
      ensures Valid() && Remaining() == old(Remaining())
      ensures r.Ok? <==> Remaining().len >= 56
      ensures r.Ok? ==> 56 <= nbits == 56 + Remaining().len % 8
      ensures r.Raised? ==> pos == old(pos) && accum == old(accum) && nbits == old(nbits)
    {
      Flushed(buf, floor, pos, accum, nbits);
      HeldAfterFlush(buf, floor, pos, accum, nbits);
      var add := TopUp(nbits);
      if add != 0 {
        var npos := pos - add / 8;
        if npos < floor {
          return Raised;
        }
        accum := Shl(accum, add) + LeValue(buf[npos..pos]);
        nbits := nbits + add;
        pos := npos;
      }
      r := Ok(());
    }

    method Pull(n: nat) returns (r: Result<nat>)
      requires Valid()
      modifies this`nbits, this`accum
      ensures Valid()
      ensures r.Ok? <==> n <= old(nbits)
      ensures r.Ok? ==> n <= old(Remaining()).len && r.value == old(Remaining()).Top(n)
      ensures r.Ok? ==> Remaining() == old(Remaining()).Rest(n) && nbits == old(nbits) - n
      ensures r.Raised? ==> accum == old(accum) && nbits == old(nbits)
    {
      if n > nbits {
        return Raised;
      }
      Pulled(buf, floor, pos, accum, nbits, n);
      nbits := nbits - n;
      var value := Shr(accum, nbits);
      accum := Low(accum, nbits);
      r := Ok(value);
    }
  }

  /** The flush as both loops of `_lzfse_block` write it out, on local copies of the reader's state. */
  method InlineFlush(src: seq<byte>, floor: nat, bpos: nat, acc: nat, nb: nat) returns (r: Result<(nat, nat, nat)>)
    requires floor <= bpos <= |src| && acc < Pow2(nb) && nb <= 63
    ensures r.Ok? <==> Left(src, floor, bpos, acc, nb).len >= 56
    ensures r.Ok? ==> var (acc', nb', bpos') := r.value;
      && floor <= bpos' <= bpos && acc' < Pow2(nb') && 56 <= nb' <= 63
      && Left(src, floor, bpos', acc', nb') == Left(src, floor, bpos, acc, nb)
  {
    Flushed(src, floor, bpos, acc, nb);
    var add := TopUp(nb);
    if add != 0 {
      var npos := bpos - add / 8;
      if npos < floor {
        return Raised;
      }
      return Ok((Shl(acc, add) + LeValue(src[npos..bpos]), nb + add, npos));
    }
    r := Ok((acc, nb, bpos));
  }

  // ---- runs of the reader ----

  datatype Call = CallFlush | CallPull(bits: nat)

  /** What a run of calls pulls from `b` when the accumulator holds `held` of its bits: the values
      written one below the other, each in its own width. It stops at the call that raises. */
  function Run(b: BitString, held: nat, calls: seq<Call>): BitString
    requires held <= 63 && held <= b.len
    decreases |calls|
  {
    if calls == [] then BitString(0, 0)
    else match calls[0]
      case CallFlush =>
        if b.len < 56 then BitString(0, 0) else Run(b, 56 + b.len % 8, calls[1..])
      case CallPull(n) =>
        if n > held then BitString(0, 0)
        else Run(b.Rest(n), held - n, calls[1..]).Push(b.Top(n), n)
  }

  /** The calls made on a reader. */
  method Drive(reader: FseReader, calls: seq<Call>) returns (got: BitString)
    requires reader.Valid()
    modifies reader
    ensures reader.Valid()
    ensures old(reader.nbits) <= old(reader.Remaining()).len
    ensures got == Run(old(reader.Remaining()), old(reader.nbits), calls)
    decreases |calls|
  {
    got := BitString(0, 0);
    if calls != [] {
      ghost var b := reader.Remaining();
      match calls[0] {
        case CallFlush =>
          var r := reader.Flush();
          if r.Ok? {
            got := Drive(reader, calls[1..]);
          }
        case CallPull(n) =>
          var r := reader.Pull(n);
          if r.Ok? {
            got := Drive(reader, calls[1..]);
            got := got.Push(r.value, n);
          }
      }
    }
  }

  /** Whatever the calls, what they pull is the top of the one number the buffer holds. */
  lemma {:induction false} RunReadsDown(b: BitString, held: nat, calls: seq<Call>)
    requires b.Valid() && held <= 63 && held <= b.len
    ensures Run(b, held, calls).len <= b.len
    ensures Run(b, held, calls).value == b.Top(Run(b, held, calls).len)
    decreases |calls|
  {
    TopOfNothing(b);
    if calls != [] {
      match calls[0]
      case CallFlush =>
        if b.len >= 56 {
          RunReadsDown(b, 56 + b.len % 8, calls[1..]);
        }
      case CallPull(n) =>
        if n <= held {
          PullPush(b, n);
          RunReadsDown(b.Rest(n), held - n, calls[1..]);
          TopOfTop(b, n, Run(b.Rest(n), held - n, calls[1..]).len);
        }
    }
  }

  lemma TopOfNothing(b: BitString)
    requires b.Valid()
    ensures b.Top(0) == 0
  {
    ShlZero(b.len);
    Join(0, b.value, b.len);
  }

  lemma TopOfTop(b: BitString, n: nat, m: nat)
    requires b.Valid() && n + m <= b.len
    ensures b.Top(n + m) == Shl(b.Top(n), m) + b.Rest(n).Top(m)
  {
    hide Shl, Shr, Low, Pow2;
    var below := b.len - n - m;
    PullPush(b, n);
    PullPush(b.Rest(n), m);
    var hi, lo := b.Top(n), b.Rest(n).Top(m);
    ShlPlus(Shl(hi, m), lo, below);
    ShlShl(hi, m, below);
    Split(b.Rest(n).value, below);
    Join(Shl(hi, m) + lo, Low(b.Rest(n).value, below), below);
  }
}
