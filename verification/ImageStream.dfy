/** The seekable stream over a disk image (`EwfImage.seek`, `read`, `_chunk`, `_keep`, `_note_padded`,
    `_count_padded_zeros`): a position, a bounded cache of chunks, and a count of padded zeros. */
module ImageStream {
  import opened Bits
  import opened Prelude
  import opened Division
  import opened PaddedSpans

  const CHUNK_CACHE: nat := 64
  const CHUNK_CACHE_BYTES: nat := 64 * 32768

  /** What decoding a chunk comes to: its bytes, or none when it raises, and the zeros it puts where a
      unit's data ran out. */
  datatype Decoded = Decoded(data: Option<seq<byte>>, padded: seq<Span>)

  /** The image under a stream, whatever its format. */
  datatype Image = Image(size: nat, chunkSize: nat, chunk: nat -> Decoded) {
    function Needed(): nat
      requires chunkSize > 0
    {
      CeilDiv(size, chunkSize)
    }

    /** The bytes of the disk a chunk covers. */
    function Want(n: nat): nat
      requires chunkSize > 0
    {
      var tail := Mod(size, chunkSize);
      if n + 1 == Needed() && tail != 0 then tail else chunkSize
    }

    /** A decoded chunk, zeros put after it or its end cut off. */
    function Fit(n: nat): (data: seq<byte>)
      requires chunkSize > 0 && chunk(n).data.Some?
      ensures |data| == Want(n)
    {
      FitTo(chunk(n).data.value, Want(n))
    }

    /** A byte of the disk. */
    function ByteAt(i: nat): byte
      requires chunkSize > 0
    {
      var n, within := Div(i, chunkSize), Mod(i, chunkSize);
      if chunk(n).data.Some? && within < Want(n) then Fit(n)[within] else 0
    }

    /** Position `i` is a zero put where its unit's data ran out. */
    predicate Padded(i: nat)
      requires chunkSize > 0
    {
      InSpans(chunk(Div(i, chunkSize)).padded, i)
    }

    /** How many positions from `lo` to `hi` are. */
    function PaddedFrom(lo: nat, hi: nat): nat
      requires chunkSize > 0
    {
      if hi <= lo then 0 else PaddedFrom(lo, hi - 1) + (if Padded(hi - 1) then 1 else 0)
    }

    /** Different spans of zeros are apart, and a chunk that decodes tells of every padded position it
        covers: what follows when they come from units of the disk (`UnitsConsistent`). */
    ghost predicate Consistent()
    {
      && chunkSize > 0
      && (forall n, m, s, t :: s in chunk(n).padded && t in chunk(m).padded && s.low < s.high && t.low < t.high ==>
            s == t || s.Apart(t))
      && (forall m: nat, i: nat :: InSpans(chunk(m).padded, i) && chunk(Div(i, chunkSize)).data.Some? ==> Padded(i))
    }

    /** How much a read of `n` at `pos` returns when nothing is missing. */
    function Amount(pos: nat, n: Option<int>): nat
    {
      if pos >= size then 0
      else if n.None? || n.value < 0 || n.value > size - pos then size - pos
      else n.value
    }

    /** Every chunk of a range decodes. */
    ghost predicate Readable(pos: nat, amount: nat)
      requires chunkSize > 0
    {
      forall i :: pos <= i < pos + amount ==> chunk(Div(i, chunkSize)).data.Some?
    }

    function Slice(pos: nat, amount: nat): (s: seq<byte>)
      requires chunkSize > 0
      ensures |s| == amount && forall k :: 0 <= k < amount ==> s[k] == ByteAt(pos + k)
    {
      seq<byte>(amount, k requires 0 <= k < amount => ByteAt(pos + k))
    }
  }

  /** A unit of a format (a chunk, page, grain or cluster): the bytes of the disk it covers, and how
      many its data gave. */
  datatype Unit = Unit(offset: nat, covers: nat, decoded: nat) {
    function Zeros(): Span { Span(offset + decoded, offset + covers) }

    predicate Meets(low: nat, high: nat) { offset < high && low < offset + covers }
  }

  /** The units cover different bytes; chunks tell of units' zeros and of nothing else; and one that
      decodes has read, and so told of, every unit that covers some of its bytes and fell short. */
  ghost predicate FromUnits(image: Image, units: seq<Unit>)
  {
    && image.chunkSize > 0
    && (forall a, b :: 0 <= a < b < |units| ==>
          !units[a].Meets(units[b].offset, units[b].offset + units[b].covers))
    && (forall n, s :: s in image.chunk(n).padded ==> exists a :: 0 <= a < |units| && s == units[a].Zeros())
    && (forall n: nat, a | 0 <= a < |units| && image.chunk(n).data.Some? && units[a].decoded < units[a].covers
          && units[a].Meets(n * image.chunkSize, n * image.chunkSize + image.chunkSize) ::
          units[a].Zeros() in image.chunk(n).padded)
  }

  lemma UnitsConsistent(image: Image, units: seq<Unit>)
    requires FromUnits(image, units)
    ensures image.Consistent()
  {
    forall n, m, s, t | s in image.chunk(n).padded && t in image.chunk(m).padded && s.low < s.high && t.low < t.high
      ensures s == t || s.Apart(t)
    {
      var a :| 0 <= a < |units| && s == units[a].Zeros();
      var b :| 0 <= b < |units| && t == units[b].Zeros();
    }
    forall m: nat, i: nat | InSpans(image.chunk(m).padded, i) && image.chunk(Div(i, image.chunkSize)).data.Some?
      ensures image.Padded(i)
    {
      UnitTold(image, units, m, i);
    }
  }

  lemma UnitTold(image: Image, units: seq<Unit>, m: nat, i: nat)
    requires FromUnits(image, units) && InSpans(image.chunk(m).padded, i)
    requires image.chunk(Div(i, image.chunkSize)).data.Some?
    ensures image.Padded(i)
  {
    hide Div;
    var told, own := image.chunk(m).padded, image.chunk(Div(i, image.chunkSize)).padded;
    var k :| 0 <= k < |told| && told[k].Holds(i);
    assert told[k] in told;
    var a :| 0 <= a < |units| && told[k] == units[a].Zeros();
    UnitMet(image, units, a, i);
    var j :| 0 <= j < |own| && own[j] == told[k];
  }

  lemma UnitMet(image: Image, units: seq<Unit>, a: nat, i: nat)
    requires FromUnits(image, units) && a < |units| && units[a].Zeros().Holds(i)
    requires image.chunk(Div(i, image.chunkSize)).data.Some?
    ensures units[a].Zeros() in image.chunk(Div(i, image.chunkSize)).padded
  {
    hide Div, Mod;
    DivParts(i, image.chunkSize);
  }

  function FitTo(data: seq<byte>, want: nat): (r: seq<byte>)
    ensures |r| == want
    ensures forall k :: 0 <= k < want ==> r[k] == if k < |data| then data[k] else 0
  {
    if |data| < want then data + Zeros(want - |data|) else data[..want]
  }

  // ---- the cache, an ordered dictionary, oldest first ----

  type Cache = seq<(nat, seq<byte>)>

  /** Where a key is, or the length when it is not there. */
  function Find(c: Cache, n: nat): (k: nat)
    ensures k <= |c| && (k < |c| ==> c[k].0 == n) && (forall j :: 0 <= j < k ==> c[j].0 != n)
  {
    if c == [] then 0
    else if c[0].0 == n then 0
    else
      var k := Find(c[1..], n);
      assert forall j :: 1 <= j < |c| ==> c[j] == c[1..][j - 1];
      1 + k
  }

  /** The cached chunks are the disk's, each once. */
  ghost predicate CacheOk(image: Image, c: Cache)
    requires image.chunkSize > 0
  {
    && (forall k :: 0 <= k < |c| ==> image.chunk(c[k].0).data.Some? && c[k].1 == image.Fit(c[k].0))
    && (forall j, k :: 0 <= j < k < |c| ==> c[j].0 != c[k].0)
  }

  function CacheLimit(chunkSize: nat): (limit: nat)
    ensures 2 <= limit <= CHUNK_CACHE
  {
    Max(2, Min(CHUNK_CACHE, Div(CHUNK_CACHE_BYTES, Max(chunkSize, 1))))
  }

  // ---- the list of padded spans ----

  /** The list is in order, holds only what chunks told of, and all that the given chunks did. */
  ghost predicate ZerosOk(image: Image, zs: seq<Span>)
  {
    Ordered(zs) && forall k :: 0 <= k < |zs| ==> exists n :: zs[k] in image.chunk(n).padded
  }

  /** All a chunk tells of is in the list. */
  ghost predicate Told(image: Image, zs: seq<Span>, n: nat)
  {
    forall s :: s in image.chunk(n).padded && s.low < s.high ==> s in zs
  }

  lemma WantCovers(image: Image, p: nat)
    requires image.chunkSize > 0 && p < image.size
    ensures var n, within := Div(p, image.chunkSize), Mod(p, image.chunkSize);
      within < image.Want(n) && n < image.Needed()
  {
    hide Div, Mod;
    var size, c := image.size, image.chunkSize;
    var n := Div(p, c);
    BelowCeil(p, size, c);
    DivParts(p, c);
    DivParts(size, c);
    DivParts(size - 1, c);
    Apart(n, Div(size, c), c);
    Apart(Div(size, c), n, c);
    if Mod(size, c) != 0 {
      DivUnique(size - 1, c, Div(size, c), Mod(size, c) - 1);
    } else {
      Apart(Div(size, c), Div(size - 1, c), c);
      Apart(Div(size - 1, c) + 1, Div(size, c), c);
    }
  }

  /** A chunk covers its size's bytes, or those that are left of the disk. */
  lemma WantIs(image: Image, n: nat, start: nat)
    requires image.chunkSize > 0 && start == n * image.chunkSize < image.size
    ensures image.Want(n) == Min(image.chunkSize, image.size - start)
  {
    hide Div, Mod;
    var size, c := image.size, image.chunkSize;
    var last := Div(size - 1, c);
    DivParts(size - 1, c);
    Apart(n, last, c);
    Apart(last, n, c);
    if n == last {
      if size == start + c {
        Distribute(n, 1, c);
        DivUnique(size, c, n + 1, 0);
      } else {
        DivUnique(size, c, n, size - start);
      }
    }
  }

  /** A run of bytes inside one chunk is that part of the chunk. */
  lemma PartOfChunk(image: Image, p: nat, k: nat)
    requires image.chunkSize > 0
    requires var n, within := Div(p, image.chunkSize), Mod(p, image.chunkSize);
      within + k < image.Want(n) && image.chunk(n).data.Some? && image.Want(n) <= image.chunkSize
    ensures var n, within := Div(p, image.chunkSize), Mod(p, image.chunkSize);
      && Div(p + k, image.chunkSize) == n && image.ByteAt(p + k) == image.Fit(n)[within + k]
  {
    hide Div, Mod, Image.Want, Image.Fit;
    var c := image.chunkSize;
    DivParts(p, c);
    DivUnique(p + k, c, Div(p, c), Mod(p, c) + k);
  }

  /** What a list that holds all a range's chunks told of counts there. */
  lemma {:induction false} CountAgrees(image: Image, zs: seq<Span>, lo: nat, hi: nat)
    requires image.Consistent() && ZerosOk(image, zs)
    requires forall i :: lo <= i < hi ==>
      Told(image, zs, Div(i, image.chunkSize)) && image.chunk(Div(i, image.chunkSize)).data.Some?
    ensures CountIn(zs, lo, hi) == image.PaddedFrom(lo, hi)
    decreases hi
  {
    hide Div, InSpans, ZerosOk, Told;
    if lo < hi {
      CountAgrees(image, zs, lo, hi - 1);
      PaddedAgrees(image, zs, hi - 1);
    }
  }

  lemma PaddedAgrees(image: Image, zs: seq<Span>, i: nat)
    requires image.Consistent() && ZerosOk(image, zs) && Told(image, zs, Div(i, image.chunkSize))
    requires image.chunk(Div(i, image.chunkSize)).data.Some?
    ensures InSpans(zs, i) == image.Padded(i)
  {
    hide Div;
    if InSpans(zs, i) {
      var k :| 0 <= k < |zs| && zs[k].Holds(i);
      var n :| zs[k] in image.chunk(n).padded;
      var j :| 0 <= j < |image.chunk(n).padded| && image.chunk(n).padded[j] == zs[k];
      assert InSpans(image.chunk(n).padded, i);
    }
    if image.Padded(i) {
      var told := image.chunk(Div(i, image.chunkSize)).padded;
      var j :| 0 <= j < |told| && told[j].Holds(i);
      assert told[j] in told && told[j] in zs;
    }
  }

  lemma NoteFits(image: Image, zs: seq<Span>, s: Span)
    requires image.Consistent() && ZerosOk(image, zs) && exists n :: s in image.chunk(n).padded
    ensures s.low < s.high ==> Fits(zs, s)
  {
    var n :| s in image.chunk(n).padded;
    forall k | 0 <= k < |zs| && s.low < s.high
      ensures zs[k] == s || zs[k].Apart(s)
    {
      var m :| zs[k] in image.chunk(m).padded;
    }
  }

  lemma NotedKnown(image: Image, zs: seq<Span>, s: Span)
    requires image.Consistent() && ZerosOk(image, zs) && exists n :: s in image.chunk(n).padded
    requires Ordered(Noted(zs, s))
    ensures ZerosOk(image, Noted(zs, s))
  {
    var next := Noted(zs, s);
    forall k | 0 <= k < |next|
      ensures exists n :: next[k] in image.chunk(n).padded
    {
      if next[k] != s {
        var at := BisectLeft(zs, s);
        assert next[k] in zs;
      }
    }
  }

  /** The list holds all that the cached chunks told of. */
  ghost predicate CacheTold(image: Image, zs: seq<Span>, c: Cache)
  {
    forall k :: 0 <= k < |c| ==> Told(image, zs, c[k].0)
  }

  lemma ToldMore(image: Image, zs: seq<Span>, more: seq<Span>, c: Cache)
    requires CacheTold(image, zs, c) && forall t :: t in zs ==> t in more
    ensures CacheTold(image, more, c)
  {
  }

  lemma CacheHit(image: Image, zs: seq<Span>, c: Cache, k: nat)
    requires image.chunkSize > 0 && CacheOk(image, c) && CacheTold(image, zs, c) && k < |c|
    ensures image.chunk(c[k].0).data.Some? && c[k].1 == image.Fit(c[k].0) && Told(image, zs, c[k].0)
  {
    hide Image.Fit, Told;
  }

  /** A hit moves its entry to the end. */
  lemma MovedToEnd(image: Image, zs: seq<Span>, c: Cache, k: nat)
    requires image.chunkSize > 0 && CacheOk(image, c) && CacheTold(image, zs, c) && k < |c|
    ensures var next := c[..k] + c[k + 1..] + [c[k]];
      |next| == |c| && CacheOk(image, next) && CacheTold(image, zs, next)
  {
    hide Image.Fit, Told;
    var next := c[..k] + c[k + 1..] + [c[k]];
    forall j | 0 <= j < |next|
      ensures next[j] == c[if j < k then j else if j + 1 < |c| then j + 1 else k]
    {
    }
  }

  /** A miss puts its chunk at the end, with the oldest entry gone or not. */
  lemma PutAtEnd(image: Image, zs: seq<Span>, c: Cache, n: nat, from: nat)
    requires image.chunkSize > 0 && CacheOk(image, c) && CacheTold(image, zs, c) && Find(c, n) == |c| && from <= |c|
    requires image.chunk(n).data.Some? && Told(image, zs, n)
    ensures var next := c[from..] + [(n, image.Fit(n))];
      CacheOk(image, next) && CacheTold(image, zs, next)
  {
    hide Image.Fit, Told;
    var next := c[from..] + [(n, image.Fit(n))];
    assert forall j :: 0 <= j < |next| - 1 ==> next[j] == c[from + j];
  }

  // ---- a read under way ----

  /** The bytes read so far are the disk's, and everything their chunks told of is in the list. */
  ghost predicate ReadTo(image: Image, zs: seq<Span>, start: nat, at: nat, parts: seq<byte>)
    requires image.chunkSize > 0
  {
    && |parts| == at - start
    && (forall k :: 0 <= k < |parts| ==> parts[k] == image.ByteAt(start + k))
    && (forall i :: start <= i < at ==>
          image.chunk(Div(i, image.chunkSize)).data.Some? && Told(image, zs, Div(i, image.chunkSize)))
  }

  lemma EmptyRead(image: Image, zs: seq<Span>, start: nat)
    requires image.chunkSize > 0
    ensures ReadTo(image, zs, start, start, [])
  {
  }

  lemma MissingChunk(image: Image, start: nat, amount: nat, at: nat)
    requires image.chunkSize > 0 && start <= at < start + amount
    ensures image.chunk(Div(at, image.chunkSize)).data.None? ==> !image.Readable(start, amount)
  {
  }

  lemma AllDecoded(image: Image, zs: seq<Span>, start: nat, amount: nat, parts: seq<byte>)
    requires image.chunkSize > 0 && ReadTo(image, zs, start, start + amount, parts)
    ensures image.Readable(start, amount)
  {
  }

  lemma ChunkSizePositive(image: Image)
    requires image.Consistent()
    ensures image.chunkSize > 0
  {
  }

  /** A finished read is what the disk holds there, and the list counts its padded zeros. */
  lemma WholeRead(image: Image, zs: seq<Span>, start: nat, amount: nat, parts: seq<byte>)
    requires image.Consistent() && ZerosOk(image, zs) && ReadTo(image, zs, start, start + amount, parts)
    ensures parts == image.Slice(start, amount) && image.Readable(start, amount)
    ensures CountIn(zs, start, start + amount) == image.PaddedFrom(start, start + amount)
  {
    hide Div, Mod, Image.ByteAt, Image.Consistent, Told;
    ChunkSizePositive(image);
    CountAgrees(image, zs, start, start + amount);
  }

  /** One chunk's share of a read. */
  lemma ReadStep(image: Image, zs: seq<Span>, more: seq<Span>, start: nat, at: nat, parts: seq<byte>, take: nat)
    requires image.chunkSize > 0 && start <= at < image.size && ReadTo(image, zs, start, at, parts)
    requires forall t :: t in zs ==> t in more
    requires
      var n, within := Div(at, image.chunkSize), Mod(at, image.chunkSize);
      image.chunk(n).data.Some? && Told(image, more, n) && within + take <= image.Want(n)
    ensures
      var n, within := Div(at, image.chunkSize), Mod(at, image.chunkSize);
      ReadTo(image, more, start, at + take, parts + image.Fit(n)[within..within + take])
  {
    hide Div, Mod, Image.Fit, Image.ByteAt, CeilDiv;
    var n, within := Div(at, image.chunkSize), Mod(at, image.chunkSize);
    var next := parts + image.Fit(n)[within..within + take];
    assert image.Want(n) <= image.chunkSize;
    forall k | 0 <= k < |next|
      ensures next[k] == image.ByteAt(start + k)
    {
      if k >= |parts| {
        PartOfChunk(image, at, start + k - at);
      }
    }
    forall i | start <= i < at + take
      ensures image.chunk(Div(i, image.chunkSize)).data.Some? && Told(image, more, Div(i, image.chunkSize))
    {
      if i >= at {
        PartOfChunk(image, at, i - at);
      }
    }
  }

  // ---- what a caller sees: no cache, no list ----

  /** A call on an open stream, and what it answers. */
  datatype Call = Seek(offset: int, whence: int) | Read(n: Option<int>)
  datatype Answer = At(pos: nat) | Data(bytes: seq<byte>) | Error

  /** A stream as its callers know it: where it is, and how many padded zeros it has handed out. */
  datatype Stream = Stream(pos: nat, padded: nat)

  const SEEK_SET := 0
  const SEEK_CUR := 1
  const SEEK_END := 2

  function SeekTo(size: nat, pos: nat, offset: int, whence: int): Option<nat>
  {
    var to := if whence == SEEK_SET then offset else if whence == SEEK_CUR then pos + offset else size + offset;
    if whence != SEEK_SET && whence != SEEK_CUR && whence != SEEK_END then None
    else if to < 0 then None
    else Some(to)
  }

  ghost function Step(image: Image, st: Stream, call: Call): (Stream, Answer)
    requires image.chunkSize > 0
  {
    match call
    case Seek(offset, whence) =>
      var to := SeekTo(image.size, st.pos, offset, whence);
      if to.None? then (st, Error) else (st.(pos := to.value), At(to.value))
    case Read(n) =>
      var amount := image.Amount(st.pos, n);
      if !image.Readable(st.pos, amount) then (st, Error)
      else (Stream(st.pos + amount, st.padded + image.PaddedFrom(st.pos, st.pos + amount)),
            Data(image.Slice(st.pos, amount)))
  }

  lemma StepRead(image: Image, st: Stream, n: Option<int>)
    requires image.chunkSize > 0
    ensures
      var amount := image.Amount(st.pos, n);
      Step(image, st, Call.Read(n)) ==
      if !image.Readable(st.pos, amount) then (st, Error)
      else (Stream(st.pos + amount, st.padded + image.PaddedFrom(st.pos, st.pos + amount)),
            Data(image.Slice(st.pos, amount)))
  {
  }

  lemma NoBytes(image: Image, pos: nat)
    requires image.chunkSize > 0
    ensures image.Readable(pos, 0) && image.PaddedFrom(pos, pos) == 0 && image.Slice(pos, 0) == []
  {
  }

  /** A stream over an image. */
  class EwfImage {
    const image: Image
    var pos: nat
    var cache: Cache
    var paddedZeros: seq<Span>
    var paddedZerosRead: nat
    var closed: bool

    ghost predicate Valid()
      reads this`cache, this`paddedZeros
    {
      && image.Consistent() && CacheOk(image, cache) && |cache| <= CacheLimit(image.chunkSize)
      && ZerosOk(image, paddedZeros) && CacheTold(image, paddedZeros, cache)
    }

    ghost function AsStream(): Stream
      reads this
    {
      Stream(pos, paddedZerosRead)
    }

    constructor (image: Image)
      requires image.Consistent()
      ensures Valid() && this.image == image && AsStream() == Stream(0, 0) && !closed
    {
      this.image := image;
      pos, cache, paddedZeros, paddedZerosRead, closed := 0, [], [], 0, false;
    }

    /** `_note_padded`'s list: a span goes in where it belongs unless it is there or empty. */
    method NotePadded(s: Span)
      requires image.chunkSize > 0 && image.Consistent() && ZerosOk(image, paddedZeros)
      requires exists n :: s in image.chunk(n).padded
      modifies this`paddedZeros
      ensures ZerosOk(image, paddedZeros)
      ensures forall t :: t in paddedZeros <==> t in old(paddedZeros) || (t == s && s.low < s.high)
    {
      NoteFits(image, paddedZeros, s);
      NotedOrdered(paddedZeros, s);
      NotedMembers(paddedZeros, s);
      if s.high > s.low {
        var at := BisectLeft(paddedZeros, s);
        if at == |paddedZeros| || paddedZeros[at] != s {
          paddedZeros := paddedZeros[..at] + [s] + paddedZeros[at..];
        }
      }
      assert paddedZeros == Noted(old(paddedZeros), s);
      NotedKnown(image, old(paddedZeros), s);
    }

    /** Decoding a chunk, which notes what it pads before it returns or raises. */
    method Decode(n: nat) returns (data: Option<seq<byte>>)
      requires image.chunkSize > 0 && image.Consistent() && ZerosOk(image, paddedZeros)
      modifies this`paddedZeros
      ensures ZerosOk(image, paddedZeros) && Told(image, paddedZeros, n)
      ensures forall t :: t in old(paddedZeros) ==> t in paddedZeros
      ensures data == image.chunk(n).data
    {
      hide ZerosOk, Image.Consistent;
      var told := image.chunk(n).padded;
      var j := 0;
      while j < |told|
        invariant j <= |told| && ZerosOk(image, paddedZeros)
        invariant forall t :: t in old(paddedZeros) ==> t in paddedZeros
        invariant forall k :: 0 <= k < j && told[k].low < told[k].high ==> told[k] in paddedZeros
      {
        assert told[j] in image.chunk(n).padded;
        NotePadded(told[j]);
        j := j + 1;
      }
      data := image.chunk(n).data;
    }

    /** `_keep`: fit a decoded chunk to the size it covers and cache it. */
    method Keep(n: nat, data: seq<byte>, want: nat) returns (kept: seq<byte>)
      requires image.chunkSize > 0
      modifies this`cache
      ensures kept == FitTo(data, want)
      ensures
        var limit := CacheLimit(image.chunkSize);
        cache == (if old(|cache|) >= limit then old(cache[1..]) else old(cache)) + [(n, kept)]
    {
      kept := data;
      if |kept| < want {
        kept := kept + Zeros(want - |kept|);
      } else if |kept| > want {
        kept := kept[..want];
      }
      if |cache| >= CacheLimit(image.chunkSize) {
        cache := cache[1..];
      }
      cache := cache + [(n, kept)];
    }

    /** A chunk of the disk, from the cache or decoded. */
    method Chunk(n: nat) returns (r: Result<seq<byte>>)
      requires Valid()
      modifies this`cache, this`paddedZeros
      ensures Valid()
      ensures r.Ok? <==> image.chunk(n).data.Some?
      ensures r.Ok? ==> r.value == image.Fit(n) && Told(image, paddedZeros, n)
      ensures forall t :: t in old(paddedZeros) ==> t in paddedZeros
    {
      hide CacheOk, CacheTold, ZerosOk, Image.Consistent, Told, FitTo;
      ChunkSizePositive(image);
      var k := Find(cache, n);
      if k < |cache| {
        CacheHit(image, paddedZeros, cache, k);
        MovedToEnd(image, paddedZeros, cache, k);
        r := Ok(cache[k].1);
        cache := cache[..k] + cache[k + 1..] + [cache[k]];
        return;
      }
      var want := image.Want(n);
      ghost var before := paddedZeros;
      var data := Decode(n);
      ToldMore(image, before, paddedZeros, cache);
      if data.None? {
        return Raised;
      }
      PutAtEnd(image, paddedZeros, cache, n, 0);
      PutAtEnd(image, paddedZeros, cache, n, if |cache| == 0 then 0 else 1);
      assert cache[0..] == cache;
      var kept := Keep(n, data.value, want);
      r := Ok(kept);
    }

    /** `_count_padded_zeros`: what of a read lies in the list, from the one span bisection starts at. */
    method CountPaddedZeros(start: nat, end: nat)
      requires ZerosOk(image, paddedZeros) && start <= end
      modifies this`paddedZerosRead
      ensures paddedZerosRead == old(paddedZerosRead) + CountIn(paddedZeros, start, end)
    {
      hide Overlaps, CountIn, Ordered;
      var zeros := paddedZeros;
      var at := Max(BisectRight(zeros, start) - 1, 0);
      EarlierMissed(zeros, start, end, at);
      while at < |zeros| && zeros[at].low < end
        invariant 0 <= at <= |zeros|
        invariant paddedZerosRead == old(paddedZerosRead) + Overlaps(zeros[..at], start, end)
      {
        var low, high := Max(start, zeros[at].low), Min(end, zeros[at].high);
        if high > low {
          paddedZerosRead := paddedZerosRead + (high - low);
        }
        OverlapsAppend(zeros, at, start, end);
        at := at + 1;
      }
      LaterMissed(zeros, start, end, at);
      OverlapsCount(zeros, start, end);
    }

    method Seek(offset: int, whence: int) returns (r: Result<nat>)
      requires Valid()
      modifies this`pos
      ensures Valid()
      ensures old(closed) ==> r.Raised? && pos == old(pos)
      ensures !old(closed) ==>
        var (next, answer) := Step(image, old(AsStream()), Call.Seek(offset, whence));
        AsStream() == next && answer == if r.Ok? then At(r.value) else Error
    {
      if closed {
        return Raised;
      }
      var to := 0;
      if whence == SEEK_SET {
        to := offset;
      } else if whence == SEEK_CUR {
        to := pos + offset;
      } else if whence == SEEK_END {
        to := image.size + offset;
      } else {
        return Raised;
      }
      if to < 0 {
        return Raised;
      }
      pos := to;
      r := Ok(pos);
    }

    /** The chunks of a read of `n` bytes, joined; the list meanwhile gains what they pad. */
    method ReadChunks(start: nat, amount: nat) returns (r: Result<seq<byte>>)
      requires Valid() && start + amount <= image.size
      modifies this`cache, this`paddedZeros
      ensures Valid()
      ensures r.Ok? <==> image.Readable(start, amount)
      ensures r.Ok? ==> ReadTo(image, paddedZeros, start, start + amount, r.value)
    {
      hide Div, Mod, Told, Image.Fit, Image.Want, Image.Needed, ReadTo, Image.Readable, Valid, FitTo, Image.Consistent,
        ZerosOk;
      ValidZeros();
      EmptyRead(image, paddedZeros, start);
      var n, parts, at := amount, [], start;
      while n > 0
        invariant Valid() && start <= at && n >= 0 && at + n == start + amount
        invariant ReadTo(image, paddedZeros, start, at, parts)
      {
        var index, within := Div(at, image.chunkSize), Mod(at, image.chunkSize);
        WantCovers(image, at);
        MissingChunk(image, start, amount, at);
        ghost var before := paddedZeros;
        var chunk :- Chunk(index);
        var take := Min(n, |chunk| - within);
        assert take > 0;  // so the guard against an empty take never ends a read early
        ReadStep(image, before, paddedZeros, start, at, parts, take);
        parts := parts + chunk[within..within + take];
        at, n := at + take, n - take;
      }
      AllDecoded(image, paddedZeros, start, amount, parts);
      r := Ok(parts);
    }

    lemma ValidZeros()
      requires Valid()
      ensures image.chunkSize > 0 && image.Consistent() && ZerosOk(image, paddedZeros)
    {
    }

    method Read(size: Option<int>) returns (r: Result<seq<byte>>)
      requires Valid()
      modifies this
      ensures Valid() && closed == old(closed)
      ensures old(closed) ==> r.Raised? && AsStream() == old(AsStream())
      ensures !old(closed) ==> AsStream() == Step(image, old(AsStream()), Call.Read(size)).0
      ensures !old(closed) ==>
        (if r.Ok? then Data(r.value) else Error) == Step(image, old(AsStream()), Call.Read(size)).1
    {
      hide Valid, Step, ReadTo, ZerosOk, CountIn, Image.Consistent, Image.Readable, Image.PaddedFrom, Image.Slice;
      ValidZeros();
      if closed {
        return Raised;
      }
      StepRead(image, AsStream(), size);
      if pos >= image.size {
        NoBytes(image, pos);
        return Ok([]);
      }
      var remaining := image.size - pos;
      var n := if size.None? || size.value < 0 || size.value > remaining then remaining else size.value;
      var parts :- ReadChunks(pos, n);
      var at := pos + |parts|;
      ValidZeros();
      WholeRead(image, paddedZeros, pos, n, parts);
      if paddedZeros != [] {
        CountPaddedZeros(pos, at);
      } else {
        NothingCounted(pos, at);
      }
      pos := at;
      r := Ok(parts);
    }
  }

  // ---- what a caller gets ----

  /** A byte of the disk is its chunk's, or a zero where that has none. */
  lemma ByteIs(image: Image, i: nat)
    requires image.chunkSize > 0 && i < image.size && image.chunk(i / image.chunkSize).data.Some?
    ensures
      var data, k := image.chunk(i / image.chunkSize).data.value, i % image.chunkSize;
      image.ByteAt(i) == if k < |data| then data[k] else 0
  {
    hide Div, Mod, CeilDiv;
    DivIsQuotient(i, image.chunkSize);
    WantCovers(image, i);
  }

  /** Where a seek goes: to the offset, on from the position, or on from the end. It raises, and moves
      nothing, exactly when that is before the start or there is no such way to seek. */
  lemma SeekAnswers(image: Image, st: Stream, offset: int)
    requires image.chunkSize > 0
    ensures
      Step(image, st, Call.Seek(offset, 0)) == if offset >= 0 then (st.(pos := offset), At(offset)) else (st, Error)
    ensures
      var to := st.pos + offset;
      Step(image, st, Call.Seek(offset, 1)) == if to >= 0 then (st.(pos := to), At(to)) else (st, Error)
    ensures
      var to := image.size + offset;
      Step(image, st, Call.Seek(offset, 2)) == if to >= 0 then (st.(pos := to), At(to)) else (st, Error)
    ensures forall whence | whence != 0 && whence != 1 && whence != 2 ::
      Step(image, st, Call.Seek(offset, whence)) == (st, Error)
  {
  }

  /** What a read of `n` bytes that are there returns, and of all the bytes that are left. */
  lemma ReadAnswers(image: Image, st: Stream, n: nat, less: int)
    requires image.chunkSize > 0 && less < 0
    requires forall i :: st.pos <= i < image.size ==> image.chunk(i / image.chunkSize).data.Some?
    ensures st.pos + n <= image.size ==>
      var (next, answer) := Step(image, st, Call.Read(Some(n)));
      && next.pos == st.pos + n && answer.Data? && |answer.bytes| == n
      && forall k :: 0 <= k < n ==> answer.bytes[k] == image.ByteAt(st.pos + k)
    ensures
      var (next, answer) := Step(image, st, Call.Read(None));
      && next.pos == Max(st.pos, image.size) && answer.Data? && |answer.bytes| == Max(image.size - st.pos, 0)
      && forall k :: 0 <= k < |answer.bytes| ==> answer.bytes[k] == image.ByteAt(st.pos + k)
    ensures Step(image, st, Call.Read(Some(less))) == Step(image, st, Call.Read(None))
    ensures st.pos + n > image.size ==> Step(image, st, Call.Read(Some(n))) == Step(image, st, Call.Read(None))
  {
    hide Div, Image.ByteAt, Image.PaddedFrom;
    forall i | st.pos <= i < image.size
      ensures image.chunk(Div(i, image.chunkSize)).data.Some?
    {
      DivIsQuotient(i, image.chunkSize);
    }
  }

  /** Sought to `k` bytes before the end, a stream returns the last `k` bytes of the disk. */
  lemma LastBytes(image: Image, st: Stream, k: nat)
    requires image.chunkSize > 0 && k <= image.size
    requires forall i :: image.size - k <= i < image.size ==> image.chunk(i / image.chunkSize).data.Some?
    ensures
      var (next, answers) := Run(image, st, [Call.Seek(-(k as int), 2), Call.Read(None)]);
      && next.pos == image.size && |answers| == 2 && answers[0] == At(image.size - k)
      && answers[1].Data? && |answers[1].bytes| == k
      && forall j :: 0 <= j < k ==> answers[1].bytes[j] == image.ByteAt(image.size - k + j)
  {
    hide Step, Image.ByteAt;
    var calls := [Call.Seek(-(k as int), 2), Call.Read(None)];
    var at := st.(pos := image.size - k);
    SeekAnswers(image, st, -(k as int));
    ReadAnswers(image, at, 0, -1);
    assert calls[..1] == [Call.Seek(-(k as int), 2)] && calls[..1][..0] == [];
    assert Run(image, st, calls[..1][..0]) == (st, []);
    assert Run(image, st, calls[..1]) == (at, [At(image.size - k)]) by {
      assert [] + [At(image.size - k)] == [At(image.size - k)];
    }
  }

  lemma CacheSizes()
    ensures CacheLimit(32768) == 64 && CacheLimit(65536) == 32 && CacheLimit(0x100000) == 2 && CacheLimit(512) == 64
  {
    hide Div;
    DivUnique(64 * 32768, 32768, 64, 0);
    DivUnique(64 * 32768, 65536, 32, 0);
    DivUnique(64 * 32768, 0x100000, 2, 0);
    DivUnique(64 * 32768, 512, 4096, 0);
  }

  // ---- any history of calls ----

  /** A history of calls on an open stream, with its answers. */
  ghost function Run(image: Image, st: Stream, calls: seq<Call>): (Stream, seq<Answer>)
    requires image.chunkSize > 0
  {
    if calls == [] then (st, [])
    else
      var before := Run(image, st, calls[..|calls| - 1]);
      var last := Step(image, before.0, calls[|calls| - 1]);
      (last.0, before.1 + [last.1])
  }

  /** The calls made on an image, one after the other: it answers as the stream without a cache. */
  method Drive(e: EwfImage, calls: seq<Call>) returns (answers: seq<Answer>)
    requires e.Valid() && !e.closed
    modifies e
    ensures e.Valid() && !e.closed && (e.AsStream(), answers) == Run(e.image, old(e.AsStream()), calls)
  {
    hide Step;
    answers := [];
    for i := 0 to |calls|
      invariant e.Valid() && !e.closed && (e.AsStream(), answers) == Run(e.image, old(e.AsStream()), calls[..i])
    {
      assert calls[..i + 1][..i] == calls[..i];
      match calls[i] {
        case Seek(offset, whence) =>
          var to := e.Seek(offset, whence);
          answers := answers + [if to.Ok? then At(to.value) else Error];
        case Read(n) =>
          var data := e.Read(n);
          answers := answers + [if data.Ok? then Data(data.value) else Error];
      }
    }
    assert calls[..|calls|] == calls;
  }

  /** The bytes a history's reads return, joined. */
  function Returned(answers: seq<Answer>): seq<byte>
  {
    if answers == [] then []
    else
      var last := answers[|answers| - 1];
      Returned(answers[..|answers| - 1]) + (if last.Data? then last.bytes else [])
  }

  /** The positions they lie at, as often as they were returned. */
  ghost function Visited(image: Image, st: Stream, calls: seq<Call>): seq<nat>
    requires image.chunkSize > 0
  {
    if calls == [] then []
    else
      var fewer := calls[..|calls| - 1];
      var at := Run(image, st, fewer).0;
      Visited(image, st, fewer) + Positions(image, at, calls[|calls| - 1])
  }

  /** The positions one call returns: a range of the disk from where the stream is. */
  ghost function Positions(image: Image, st: Stream, call: Call): seq<nat>
    requires image.chunkSize > 0
  {
    if call.Read? && image.Readable(st.pos, image.Amount(st.pos, call.n)) then
      Range(st.pos, image.Amount(st.pos, call.n))
    else []
  }

  function Range(lo: nat, n: nat): (r: seq<nat>)
    ensures |r| == n && forall k :: 0 <= k < n ==> r[k] == lo + k
  {
    if n == 0 then [] else Range(lo, n - 1) + [lo + n - 1]
  }

  function PaddedAmong(image: Image, at: seq<nat>): nat
    requires image.chunkSize > 0
  {
    if at == [] then 0
    else PaddedAmong(image, at[..|at| - 1]) + (if image.Padded(at[|at| - 1]) then 1 else 0)
  }

  lemma {:induction false} PaddedAmongSplit(image: Image, a: seq<nat>, b: seq<nat>)
    requires image.chunkSize > 0
    ensures PaddedAmong(image, a + b) == PaddedAmong(image, a) + PaddedAmong(image, b)
    decreases |b|
  {
    hide Image.Padded;
    if b == [] {
      assert a + b == a;
    } else {
      assert (a + b)[..|a + b| - 1] == a + b[..|b| - 1];
      PaddedAmongSplit(image, a, b[..|b| - 1]);
    }
  }

  lemma {:induction false} PaddedInRange(image: Image, lo: nat, n: nat)
    requires image.chunkSize > 0
    ensures PaddedAmong(image, Range(lo, n)) == image.PaddedFrom(lo, lo + n)
  {
    hide Image.Padded;
    if n > 0 {
      assert Range(lo, n)[..n - 1] == Range(lo, n - 1);
      PaddedInRange(image, lo, n - 1);
    }
  }

  /** What a call returns is right at the positions it returns it for. */
  ghost predicate RightAt(image: Image, bytes: seq<byte>, at: seq<nat>)
    requires image.chunkSize > 0
  {
    |bytes| == |at| && forall k :: 0 <= k < |at| ==> bytes[k] == image.ByteAt(at[k])
  }

  lemma RightJoined(image: Image, a: seq<byte>, b: seq<byte>, at: seq<nat>, bt: seq<nat>)
    requires image.chunkSize > 0 && RightAt(image, a, at) && RightAt(image, b, bt)
    ensures RightAt(image, a + b, at + bt)
  {
    hide Image.ByteAt;
  }

  lemma OneCall(image: Image, st: Stream, call: Call)
    requires image.chunkSize > 0
    ensures
      var step, at := Step(image, st, call), Positions(image, st, call);
      && RightAt(image, if step.1.Data? then step.1.bytes else [], at)
      && step.0.padded == st.padded + PaddedAmong(image, at)
  {
    hide Image.ByteAt, Image.Padded, Image.Readable, Image.Amount, Image.PaddedFrom, SeekTo, PaddedAmong, Range;
    NoneAmong(image);
    if call.Read? {
      PaddedInRange(image, st.pos, image.Amount(st.pos, call.n));
    }
  }

  lemma NoneAmong(image: Image)
    requires image.chunkSize > 0
    ensures PaddedAmong(image, []) == 0
  {
  }

  /** Whatever seeks and reads came before, each byte returned is the disk's at the position it was
      returned for, and the count is of all the padded positions among them, repeats included. */
  lemma {:induction false} History(image: Image, st: Stream, calls: seq<Call>)
    requires image.chunkSize > 0
    ensures
      var run, at := Run(image, st, calls), Visited(image, st, calls);
      && |run.1| == |calls| && RightAt(image, Returned(run.1), at)
      && run.0.padded == st.padded + PaddedAmong(image, at)
    decreases |calls|
  {
    if calls != [] {
      hide Step, Positions, RightAt;
      var fewer, call := calls[..|calls| - 1], calls[|calls| - 1];
      History(image, st, fewer);
      var before := Run(image, st, fewer);
      var step, at := Step(image, before.0, call), Positions(image, before.0, call);
      OneCall(image, before.0, call);
      assert (before.1 + [step.1])[..|calls| - 1] == before.1;
      RightJoined(image, Returned(before.1), if step.1.Data? then step.1.bytes else [], Visited(image, st, fewer), at);
      PaddedAmongSplit(image, Visited(image, st, fewer), at);
    }
  }
}
