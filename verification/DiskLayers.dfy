/** Reading a disk through its layers: `_chunk_data_vhd`, `_chunk_data_vhdx`, `_chunk_data_qcow` and the
    reads of a parent disk they make, all to one specification, `Disk.ByteAt`. */
module DiskLayers {
  import opened Bits
  import opened Prelude
  import opened Division
  import opened VhdxBat
  import opened VhdxOverlay
  import opened DiskMaps

  /** `data` is what the disk holds from `at` on. */
  ghost predicate Shows(d: Disk, at: nat, data: seq<byte>)
    requires d.Shaped()
  {
    forall k :: 0 <= k < |data| ==> Some(data[k]) == d.ByteAt(at + k)
  }

  /** What a read of byte `i` takes is there: of this layer, and of the ones below where it is theirs. */
  ghost predicate Sound(d: Disk, i: nat)
    requires d.Shaped() && i < d.Size()
    decreases d, 0
  {
    d.Backed(i) && (d.SourceOf(i).Below? && d.Beneath().Some? ==> Readable(d.Beneath().value, i))
  }

  /** The whole chunk byte `i` is in is: a layer is read by chunks. Past a disk's end nothing is. */
  ghost predicate Readable(d: Disk, i: nat)
    requires d.Shaped()
    decreases d, 1
  {
    i < d.Size() && !d.RawDisk? ==>
      (ChunkSizePositive(d);
       var start := Div(i, d.ChunkSize()) * d.ChunkSize();
       forall j: nat | start <= j < start + d.ChunkSize() && j < d.Size() :: Sound(d, j))
  }

  ghost predicate AllSound(d: Disk, at: nat, n: nat)
    requires d.Shaped() && at + n <= d.Size()
  {
    forall i: nat :: at <= i < at + n ==> Sound(d, i)
  }

  ghost predicate AllReadable(d: Disk, at: nat, n: nat)
    requires d.Shaped()
  {
    forall i: nat :: at <= i < at + n ==> Readable(d, i)
  }

  /** A read of `n` bytes of a stream: right when it returns, and it returns exactly when the chunks it
      touches can be read. */
  ghost predicate Reads(d: Disk, at: nat, n: nat, r: Result<seq<byte>>)
    requires d.Shaped()
  {
    && (r.Ok? ==> |r.value| == n && Shows(d, at, r.value))
    && (r.Ok? <==> AllReadable(d, at, n))
  }

  /** The same of bytes inside one chunk: exactly when those bytes can be. */
  ghost predicate Gives(d: Disk, at: nat, n: nat, r: Result<seq<byte>>)
    requires d.Shaped()
  {
    && at + n <= d.Size()
    && (r.Ok? ==> |r.value| == n && Shows(d, at, r.value))
    && (r.Ok? <==> AllSound(d, at, n))
  }

  /** And of a whole chunk, the last cut short at the disk's end. */
  ghost predicate GivesChunk(d: Disk, n: nat, r: Result<seq<byte>>)
    requires d.Shaped() && n * d.ChunkSize() < d.Size()
  {
    hide Disk.ByteAt, Disk.Shaped, Disk.Size, Disk.ChunkSize, Gives;
    var start := n * d.ChunkSize();
    Gives(d, start, Min(d.ChunkSize(), d.Size() - start), r)
  }

  /** The bytes so far, all of them right and such as can be had. */
  ghost predicate Got(d: Disk, at: nat, out: seq<byte>)
    requires d.Shaped()
  {
    at + |out| <= d.Size() && Shows(d, at, out) && AllSound(d, at, |out|)
  }

  lemma GotNothing(d: Disk, at: nat)
    requires d.Shaped() && at <= d.Size()
    ensures Got(d, at, [])
  {
  }

  /** More of them. */
  lemma GotMore(d: Disk, at: nat, out: seq<byte>, n: nat, r: Result<seq<byte>>)
    requires d.Shaped() && Got(d, at, out) && at + |out| + n <= d.Size() && Gives(d, at + |out|, n, r) && r.Ok?
    ensures |r.value| == n && Got(d, at, out + r.value)
  {
    hide Shows, Sound, Disk.Shaped, Disk.Size;
    ShowsJoined(d, at, out, r.value);
  }

  /** Or not: then all that was asked for cannot be had. */
  lemma GotNoMore(d: Disk, at: nat, out: seq<byte>, n: nat, r: Result<seq<byte>>, want: nat)
    requires d.Shaped() && Got(d, at, out) && at + want <= d.Size() && |out| + n <= want
    requires at + |out| + n <= d.Size() && Gives(d, at + |out|, n, r) && r.Raised?
    ensures Gives(d, at, want, Raised)
  {
    hide Shows, Sound, Disk.Shaped, Disk.Size;
  }

  lemma GotAll(d: Disk, at: nat, out: seq<byte>)
    requires d.Shaped() && Got(d, at, out)
    ensures at + |out| <= d.Size() && Gives(d, at, |out|, Ok(out))
  {
  }

  /** A byte of a chunk is readable exactly when the chunk is. */
  lemma ChunkReadable(d: Disk, index: nat, start: nat, at: nat, n: nat, len: nat)
    requires d.Shaped() && !d.RawDisk? && start == index * d.ChunkSize() < d.Size()
    requires len == Min(d.ChunkSize(), d.Size() - start) && start <= at && at + n <= start + len && n > 0
    ensures AllReadable(d, at, n) <==> AllSound(d, start, len)
    ensures Readable(d, at) <==> AllSound(d, start, len)
  {
    hide Sound, Disk.Shaped, Div, Mod, Disk.ChunkSize, Disk.Size;
    ChunkSizePositive(d);
    forall i: nat | at <= i < at + n
      ensures Readable(d, i) <==> AllSound(d, start, len)
    {
      DivUnique(i, d.ChunkSize(), index, i - start);
    }
    assert Readable(d, at) <==> AllSound(d, start, len);
  }

  lemma ShowsJoined(d: Disk, at: nat, a: seq<byte>, b: seq<byte>)
    requires d.Shaped() && Shows(d, at, a) && Shows(d, at + |a|, b)
    ensures Shows(d, at, a + b)
  {
    hide Disk.ByteAt, Disk.Shaped;
    forall k | 0 <= k < |a + b|
      ensures Some((a + b)[k]) == d.ByteAt(at + k)
    {
      if k >= |a| {
        assert (a + b)[k] == b[k - |a|];
        assert d.ByteAt(at + |a| + (k - |a|)) == d.ByteAt(at + k);
      }
    }
  }

  lemma ShowsPart(d: Disk, at: nat, a: seq<byte>, lo: nat, hi: nat)
    requires d.Shaped() && Shows(d, at, a) && lo <= hi <= |a|
    ensures Shows(d, at + lo, a[lo..hi])
  {
    hide Disk.ByteAt, Disk.Shaped;
    forall k | 0 <= k < hi - lo
      ensures Some(a[lo..hi][k]) == d.ByteAt(at + lo + k)
    {
      assert a[lo..hi][k] == a[lo + k];
    }
  }

  /** `data` is what a file holds at an offset. */
  ghost predicate FromFile(file: seq<byte>, at: nat, data: seq<byte>)
  {
    forall k :: 0 <= k < |data| ==> data[k] == FileByte(file, at + k)
  }

  /** `_read_exactly` at an offset: all of the bytes or an error. */
  function ReadExactly(file: seq<byte>, at: nat, n: nat): (r: Result<seq<byte>>)
    ensures r.Ok? <==> at + n <= |file|
    ensures r.Ok? ==> |r.value| == n && FromFile(file, at, r.value)
  {
    if at + n <= |file| then Ok(file[at..at + n]) else Raised
  }

  // ---- a stream over a disk ----

  /** A seek and a read of a layer. */
  method ReadDisk(d: Disk, offset: nat, n: nat) returns (r: Result<seq<byte>>)
    requires d.Shaped()
    ensures Reads(d, offset, Max(0, Min(n, d.Size() - offset)), r)
    ensures d.Intact() ==> r.Ok?
    decreases d, 3
  {
    hide Disk.ByteAt, Disk.Shaped, Disk.ChunkSize, Disk.Intact, Sound, Readable, Reads, Shows, AllReadable, AllSound,
      Gives, GivesChunk, Div, Mod;
    var left := Max(0, Min(n, d.Size() - offset));
    IntactNeverRaised(d, offset, left);
    NothingYet(d, offset);
    if offset >= d.Size() {
      return Ok([]);
    }
    if d.RawDisk? {
      RawReads(d, offset, left);
      return Ok(d.bytes[offset..offset + left]);
    }
    var pos, parts := offset, [];
    ghost var want := left;
    while left > 0
      invariant offset <= pos && pos + left == offset + want <= d.Size() && left >= 0
      invariant |parts| == pos - offset && Reads(d, offset, |parts|, Ok(parts))
    {
      ChunkOf(d, pos);
      var index, within := Div(pos, d.ChunkSize()), Mod(pos, d.ChunkSize());
      var chunk := Chunk(d, index);
      ghost var start, len := ChunkHolds(d, pos, left, index, within, chunk);
      ReadStep(d, offset, parts, start, within, len, chunk, left);
      if chunk.Raised? {
        return Raised;
      }
      var take := Min(left, |chunk.value| - within);
      parts := parts + chunk.value[within..within + take];
      pos, left := pos + take, left - take;
    }
    r := Ok(parts);
  }

  lemma ChunkOf(d: Disk, pos: nat)
    requires d.Shaped() && !d.RawDisk? && pos < d.Size()
    ensures d.ChunkSize() > 0 && Div(pos, d.ChunkSize()) * d.ChunkSize() < d.Size()
  {
    ChunkSizePositive(d);
    DivParts(pos, d.ChunkSize());
  }

  /** The chunk of a byte holds all of the bytes wanted from there that it has room for. */
  lemma ChunkHolds(d: Disk, pos: nat, left: nat, index: nat, within: nat, chunk: Result<seq<byte>>)
      returns (start: nat, len: nat)
    requires d.Shaped() && !d.RawDisk? && d.ChunkSize() > 0 && pos < d.Size() && left > 0
    requires index == Div(pos, d.ChunkSize()) && within == Mod(pos, d.ChunkSize())
    requires index * d.ChunkSize() < d.Size() && GivesChunk(d, index, chunk)
    ensures start + within == pos && within < len && start + len <= d.Size() && Gives(d, start, len, chunk)
    ensures AllReadable(d, pos, Min(left, len - within)) <==> AllSound(d, start, len)
  {
    hide Disk.Shaped, Disk.Size, Disk.ChunkSize, AllReadable, AllSound, Gives, Readable, Div, Mod;
    DivParts(pos, d.ChunkSize());
    start := index * d.ChunkSize();
    len := Min(d.ChunkSize(), d.Size() - start);
    ChunkReadable(d, index, start, pos, Min(left, len - within), len);
  }

  lemma NothingYet(d: Disk, offset: nat)
    requires d.Shaped()
    ensures Reads(d, offset, 0, Ok([]))
  {
  }

  /** One chunk's share of a read, or its failure. */
  lemma ReadStep(d: Disk, offset: nat, parts: seq<byte>, start: nat, within: nat, len: nat, chunk: Result<seq<byte>>,
                 left: nat)
    requires d.Shaped() && Reads(d, offset, |parts|, Ok(parts))
    requires offset + |parts| == start + within && within < len && Gives(d, start, len, chunk)
    requires left > 0 && offset + |parts| + left <= d.Size() && start + len <= d.Size()
    requires AllReadable(d, start + within, Min(left, len - within)) <==> AllSound(d, start, len)
    ensures chunk.Raised? ==> Reads(d, offset, |parts| + left, Raised)
    ensures chunk.Ok? ==>
      && |chunk.value| == len
      && var next := parts + chunk.value[within..within + Min(left, len - within)];
         Reads(d, offset, |next|, Ok(next))
  {
    hide Disk.Shaped, Disk.Size, Shows, AllSound, Readable;
    if chunk.Ok? {
      var take := Min(left, len - within);
      ShowsPart(d, start, chunk.value, within, within + take);
      ShowsJoined(d, offset, parts, chunk.value[within..within + take]);
    }
  }

  lemma RawReads(d: Disk, offset: nat, n: nat)
    requires d.RawDisk? && offset + n <= |d.bytes|
    ensures Reads(d, offset, n, Ok(d.bytes[offset..offset + n]))
  {
  }

  lemma ChunkSizePositive(d: Disk)
    requires d.Shaped()
    ensures d.ChunkSize() > 0
  {
  }

  /** `_parent_read`: past the parent's end, zeros. */
  method ParentRead(p: Disk, offset: nat, n: nat) returns (r: Result<seq<byte>>)
    requires p.Shaped()
    ensures Reads(p, offset, n, r)
    decreases p, 4
  {
    hide Disk.ByteAt, Disk.Shaped, Sound, Readable;
    var have := Max(0, Min(n, p.Size() - offset));
    var data := [];
    PastEnd(p, offset + have, n - have);
    if have > 0 {
      data :- ReadDisk(p, offset, have);
    }
    ShowsJoined(p, offset, data, Zeros(n - |data|));
    r := Ok(data + Zeros(n - |data|));
  }

  lemma PastEnd(p: Disk, at: nat, n: nat)
    requires p.Shaped() && (n > 0 ==> at >= p.Size())
    ensures Shows(p, at, Zeros(n)) && AllReadable(p, at, n)
  {
  }

  method Chunk(d: Disk, n: nat) returns (r: Result<seq<byte>>)
    requires d.Shaped() && !d.RawDisk? && n * d.ChunkSize() < d.Size()
    ensures GivesChunk(d, n, r)
    decreases d, 2
  {
    hide Disk.ByteAt, Disk.Shaped, Disk.Size, Disk.ChunkSize, GivesChunk;
    if d.VhdDisk? {
      r := VhdChunk(d, n);
    } else if d.VhdxDisk? {
      r := VhdxChunk(d, n);
    } else {
      r := QcowChunk(d, n);
    }
  }

  /** Bytes that this layer leaves to the one below. */
  ghost predicate LeftBelow(d: Disk, at: nat, n: nat)
    requires d.Shaped() && at + n <= d.Size()
  {
    forall i: nat :: at <= i < at + n ==> d.SourceOf(i) == Below && d.Backed(i)
  }

  /** They can be had exactly when the layer below can be read there. */
  lemma SoundBelow(d: Disk, at: nat, n: nat)
    requires d.Shaped() && !d.RawDisk? && at + n <= d.Size() && LeftBelow(d, at, n)
    ensures AllSound(d, at, n) <==> d.Beneath().None? || AllReadable(d.Beneath().value, at, n)
  {
    hide Disk.SourceOf, Disk.Backed, Disk.Shaped, Readable;
    BeneathShaped(d);
    forall i: nat | at <= i < at + n
      ensures Sound(d, i) <==> d.Beneath().None? || Readable(d.Beneath().value, i)
    {
      assert d.SourceOf(i) == Below;
    }
  }

  lemma BeneathShaped(d: Disk)
    requires d.Shaped()
    ensures d.LayerShaped() && (d.Beneath().Some? ==> d.Beneath().value.Shaped())
  {
  }

  /** The maps of an opened disk's own layer. */
  lemma LayerOf(d: Disk)
    requires d.Shaped()
    ensures d.LayerShaped()
    ensures d.VhdDisk? ==> d.vhd.Shaped() && d.Size() == d.vhd.size
    ensures d.VhdxDisk? ==> d.vhdx.Shaped(d.parent.Some?) && d.Size() == d.vhdx.size
    ensures d.QcowDisk? ==> d.qcow.Shaped() && d.Size() == d.qcow.size
  {
    hide VhdMap.Shaped, VhdxMap.Shaped, QcowMap.Shaped;
  }

  /** The parent's bytes, or zeros where there is none. */
  method ReadBelow(d: Disk, at: nat, n: nat) returns (r: Result<seq<byte>>)
    requires d.Shaped() && !d.RawDisk? && at + n <= d.Size() && LeftBelow(d, at, n)
    ensures Gives(d, at, n, r)
    decreases d, 0, 0
  {
    hide Disk.SourceOf, Disk.Backed, Sound, Readable;
    SoundBelow(d, at, n);
    if d.parent.Some? {
      r := ParentRead(d.parent.value, at, n);
    } else {
      r := Ok(Zeros(n));
    }
  }

  // ---- merging a partly stored run of sectors ----

  /** The first `upTo` bytes are the disk's, the rest still this layer's own. */
  ghost predicate Merged(d: Disk, start: nat, data: seq<byte>, out: seq<byte>, upTo: nat)
    requires d.Shaped()
  {
    && |out| == |data|
    && forall r :: 0 <= r < |out| ==> Some(out[r]) == if r < upTo then d.ByteAt(start + r) else Some(data[r])
  }

  /** Bytes `lo` to `hi` of a run of sectors are all stored here or all below. */
  ghost predicate OneRun(d: Disk, start: nat, data: seq<byte>, lo: nat, hi: nat, present: bool)
    requires d.Shaped()
  {
    && hi <= |data| && start + |data| <= d.Size()
    && forall i :: start + lo <= i < start + hi ==> d.SourceOf(i) == if present then Stored(data[i - start]) else Below
  }

  /** A run can be had when it is stored, or exactly when the layer below can be read there. */
  lemma RunSound(d: Disk, start: nat, data: seq<byte>, lo: nat, hi: nat, present: bool)
    requires d.Shaped() && d.Beneath().Some? && lo <= hi && OneRun(d, start, data, lo, hi, present)
    requires forall i: nat :: start + lo <= i < start + hi ==> d.Backed(i)
    ensures present ==> AllSound(d, start + lo, hi - lo)
    ensures !present ==> (AllSound(d, start + lo, hi - lo) <==> AllReadable(d.Beneath().value, start + lo, hi - lo))
  {
    hide Disk.SourceOf, Disk.Shaped, Disk.Backed, Readable;
    if !present {
      SoundBelow(d, start + lo, hi - lo);
    }
  }

  lemma MergeStep(d: Disk, start: nat, data: seq<byte>, out: seq<byte>, lo: nat, hi: nat, present: bool,
                  below: seq<byte>, next: seq<byte>)
    requires d.Shaped() && d.Beneath().Some? && lo <= hi
    requires Merged(d, start, data, out, lo) && OneRun(d, start, data, lo, hi, present)
    requires |below| == hi - lo && (!present ==> Shows(d.Beneath().value, start + lo, below))
    requires next == if present then out else Splice(out, lo, hi, below)
    ensures Merged(d, start, data, next, hi)
  {
    hide Disk.SourceOf;
    var p := d.Beneath().value;
    assert p.Shaped();
    forall r | 0 <= r < |next|
      ensures Some(next[r]) == if r < hi then d.ByteAt(start + r) else Some(data[r])
    {
      if lo <= r < hi {
        assert d.SourceOf(start + r) == if present then Stored(data[r]) else Below;
        if !present {
          assert Some(below[r - lo]) == p.ByteAt(start + lo + (r - lo));
        }
      }
    }
  }

  // ---- VHD ----

  /** The `len` bytes of the disk from `start` are in block `k`, from its byte `w`, by whole sectors. */
  ghost predicate InBlock(d: Disk, start: nat, len: nat, k: nat, w: nat)
    requires d.Shaped() && d.VhdDisk?
  {
    && k < |d.vhd.bat| && w % 512 == 0 && len % 512 == 0 && len > 0 && start + len <= d.Size()
    && w + len <= 8 * 512 * d.vhd.bitmapBytes
    && forall i :: start <= i < start + len ==> VhdByte(d, start, k, w, i)
  }

  ghost predicate VhdByte(d: Disk, start: nat, k: nat, w: nat, i: nat)
    requires d.Shaped() && d.VhdDisk? && k < |d.vhd.bat| && start <= i < d.Size()
  {
    && d.SourceOf(i) == d.vhd.SourceIn(d.parent.Some?, k, w + i - start)
    && (d.vhd.DataThere(i) <==>
          d.vhd.bat[k] != VHD_UNUSED ==> d.vhd.bat[k] * 512 + d.vhd.bitmapBytes + w + (i - start) < |d.vhd.file|)
  }

  lemma ChunkIn(d: Disk, n: nat, start: nat, len: nat, k: nat, w: nat)
    requires d.Shaped() && d.VhdDisk? && !d.vhd.fixed && start == n * d.ChunkSize() < d.Size()
    requires len == Min(d.ChunkSize(), d.Size() - start) && k == Div(start, d.vhd.block) && w == Mod(start, d.vhd.block)
    ensures InBlock(d, start, len, k, w)
  {
    hide Div, Mod, CeilDiv, VhdMap.Shaped, VhdMap.SourceOf, VhdMap.SourceIn, VhdMap.ChunkSize, VhdMap.DataThere,
      Disk.ByteAt, Disk.Shaped, Disk.LayerShaped;
    var v, p := d.vhd, d.parent.Some?;
    LayerOf(d);
    VhdRoom(v, p, n, start, len, k, w);
    forall i: nat | start <= i < start + len
      ensures VhdByte(d, start, k, w, i)
    {
      v.ChunkInBlock(p, n, i - start);
    }
  }

  lemma VhdRoom(v: VhdMap, p: bool, n: nat, start: nat, len: nat, k: nat, w: nat)
    requires v.Shaped() && !v.fixed && start == n * v.ChunkSize() < v.size
    requires len == Min(v.ChunkSize(), v.size - start) && k == Div(start, v.block) && w == Mod(start, v.block)
    ensures k < |v.bat| && w % 512 == 0 && len % 512 == 0 && len > 0 && w + len <= 8 * 512 * v.bitmapBytes
  {
    hide Div, Mod, CeilDiv, VhdMap.SourceOf, VhdMap.SourceIn, VhdMap.DataThere;
    v.ChunkInBlock(p, n, 0);
    Whole(n, v.ChunkSize(), v.size);
  }

  lemma Whole(n: nat, chunk: nat, size: nat)
    requires chunk % 512 == 0 && size % 512 == 0 && n * chunk < size
    ensures Min(chunk, size - n * chunk) % 512 == 0
  {
    var c := chunk / 512;
    assert n * (512 * c) == 512 * (n * c);
  }

  method VhdChunk(d: Disk, n: nat) returns (r: Result<seq<byte>>)
    requires d.Shaped() && d.VhdDisk? && n * d.ChunkSize() < d.Size()
    ensures GivesChunk(d, n, r)
    decreases d, 1, 2
  {
    hide Disk.ByteAt, Disk.Shaped, Disk.SourceOf, Gives, InBlock, Div, Mod;
    LayerOf(d);
    var v := d.vhd;
    var start := n * v.ChunkSize();
    var want := Min(v.ChunkSize(), v.size - start);
    if v.fixed {
      r := ReadExactly(v.file, start, want);
      FixedShows(d, start, want, r);
      return;
    }
    var i, within := Div(start, v.block), Mod(start, v.block);
    ChunkIn(d, n, start, want, i, within);
    r := VhdBlock(d, start, want, i, within);
  }

  lemma FixedShows(d: Disk, start: nat, n: nat, r: Result<seq<byte>>)
    requires d.Shaped() && d.VhdDisk? && d.vhd.fixed && start + n <= d.Size() && n > 0
    requires r == ReadExactly(d.vhd.file, start, n)
    ensures Gives(d, start, n, r)
  {
    if r.Raised? {
      assert !Sound(d, start + n - 1);
    }
  }

  /** A chunk of block `i`. */
  method VhdBlock(d: Disk, start: nat, want: nat, i: nat, within: nat) returns (r: Result<seq<byte>>)
    requires d.Shaped() && d.VhdDisk? && InBlock(d, start, want, i, within)
    ensures Gives(d, start, want, r)
    decreases d, 1, 1
  {
    hide Disk.ByteAt, Disk.SourceOf, Disk.Shaped, FileByte, Sound, Disk.Backed, InBlock;
    BlockBounds(d, start, want, i, within);
    var v := d.vhd;
    var entry := v.bat[i];
    if entry == VHD_UNUSED {
      UnusedBelow(d, start, want, i, within);
      r := ReadBelow(d, start, want);
      return;
    }
    BlockEnds(d, start, want, i, within);
    var data :- ReadExactly(v.file, entry * 512 + v.bitmapBytes + within, want);
    if d.parent.None? {
      Stretch(d, start, i, within, data, 0, want / 512, true);
      RunShows(d, start, data);
      r := Ok(data);
      return;
    }
    // a block's bitmap is stored before its data, so it is there when they are
    var bitmap := ReadExactly(v.file, entry * 512, v.bitmapBytes).value;
    r := VhdMerge(d, start, i, within, data, bitmap);
  }

  lemma BlockBounds(d: Disk, start: nat, len: nat, k: nat, w: nat)
    requires d.Shaped() && d.VhdDisk? && InBlock(d, start, len, k, w)
    ensures k < |d.vhd.bat| && w % 512 == 0 && len % 512 == 0 && len > 0 && start + len <= d.Size()
  {
  }

  lemma UnusedBelow(d: Disk, start: nat, len: nat, k: nat, w: nat)
    requires d.Shaped() && d.VhdDisk? && InBlock(d, start, len, k, w) && d.vhd.bat[k] == VHD_UNUSED
    ensures LeftBelow(d, start, len)
  {
    hide Disk.SourceOf, Disk.Shaped, VhdMap.DataThere;
    BeneathShaped(d);
    forall i: nat | start <= i < start + len
      ensures d.SourceOf(i) == Below && d.Backed(i)
    {
      assert VhdByte(d, start, k, w, i);
    }
  }

  /** A file that ends before the bytes asked for lacks the last of them. */
  lemma BlockEnds(d: Disk, start: nat, len: nat, k: nat, w: nat)
    requires d.Shaped() && d.VhdDisk? && InBlock(d, start, len, k, w) && d.vhd.bat[k] != VHD_UNUSED
    ensures d.vhd.bat[k] * 512 + d.vhd.bitmapBytes + w + len > |d.vhd.file| ==> !AllSound(d, start, len)
  {
    hide Disk.SourceOf, Disk.Shaped, VhdMap.DataThere;
    if d.vhd.bat[k] * 512 + d.vhd.bitmapBytes + w + len > |d.vhd.file| {
      assert VhdByte(d, start, k, w, start + len - 1);
      assert !Sound(d, start + len - 1);
    }
  }

  predicate VhdBit(bitmap: seq<byte>, q: nat)
    requires q / 8 < |bitmap|
  {
    BitOf(bitmap[q / 8], 7 - q % 8)
  }

  /** `data` is what the file stores for the bytes from `start`. */
  ghost predicate VhdHolds(d: Disk, start: nat, k: nat, w: nat, data: seq<byte>)
    requires d.Shaped() && d.VhdDisk?
  {
    && InBlock(d, start, |data|, k, w) && d.vhd.bat[k] != VHD_UNUSED
    && d.vhd.bat[k] * 512 + d.vhd.bitmapBytes + w + |data| <= |d.vhd.file|
    && FromFile(d.vhd.file, d.vhd.bat[k] * 512 + d.vhd.bitmapBytes + w, data)
  }

  /** Sectors whose bits agree are one run. */
  lemma Stretch(d: Disk, start: nat, k: nat, w: nat, data: seq<byte>, s: nat, e: nat, present: bool)
    requires d.Shaped() && d.VhdDisk? && VhdHolds(d, start, k, w, data) && s <= e <= |data| / 512
    requires
      if d.parent.None? then present
      else forall q :: w / 512 + s <= q < w / 512 + e ==> d.vhd.SectorPresent(k, q) == present
    ensures OneRun(d, start, data, s * 512, e * 512, present)
    ensures forall i: nat :: start + s * 512 <= i < start + e * 512 ==> d.Backed(i)
  {
    hide VhdMap.SectorPresent, Disk.SourceOf, Disk.ByteAt, Disk.Shaped, Disk.LayerShaped, VhdMap.DataThere;
    BeneathShaped(d);
    forall i: nat | start + s * 512 <= i < start + e * 512
      ensures d.SourceOf(i) == (if present then Stored(data[i - start]) else Below) && d.Backed(i)
    {
      assert (w + (i - start)) / 512 == w / 512 + (i - start) / 512;
      assert VhdByte(d, start, k, w, i);
    }
  }

  lemma RunShows(d: Disk, start: nat, data: seq<byte>)
    requires d.Shaped() && OneRun(d, start, data, 0, |data|, true)
    requires forall i: nat :: start <= i < start + |data| ==> d.Backed(i)
    ensures Shows(d, start, data) && AllSound(d, start, |data|)
  {
    hide Disk.SourceOf, Disk.Backed;
    forall k | 0 <= k < |data|
      ensures Some(data[k]) == d.ByteAt(start + k)
    {
      assert d.SourceOf(start + k) == Stored(data[k]);
    }
  }

  /** Where the run of sectors like sector `q` ends, at `last` if not before. */
  method VhdRunEnd(bitmap: seq<byte>, q: nat, last: nat) returns (e: nat)
    requires q < last <= 8 * |bitmap|
    ensures q < e <= last && forall k :: q <= k < e ==> VhdBit(bitmap, k) == VhdBit(bitmap, q)
    ensures e < last ==> VhdBit(bitmap, e) != VhdBit(bitmap, q)
  {
    hide BitOf;
    e := q + 1;
    while e < last && VhdBit(bitmap, e) == VhdBit(bitmap, q)
      invariant q < e <= last && forall k :: q <= k < e ==> VhdBit(bitmap, k) == VhdBit(bitmap, q)
    {
      e := e + 1;
    }
  }

  /** The bitmap of a block, as its file has it. */
  ghost predicate VhdBitmap(d: Disk, k: nat, bitmap: seq<byte>)
    requires d.VhdDisk? && k < |d.vhd.bat|
  {
    |bitmap| == d.vhd.bitmapBytes && FromFile(d.vhd.file, d.vhd.bat[k] * 512, bitmap)
  }

  lemma VhdMergeStep(d: Disk, start: nat, i: nat, within: nat, data: seq<byte>, bitmap: seq<byte>,
                     out: seq<byte>, s: nat, e: nat, below: seq<byte>, next: seq<byte>)
    requires d.Shaped() && d.VhdDisk? && d.parent.Some? && VhdHolds(d, start, i, within, data)
    requires VhdBitmap(d, i, bitmap) && s < e <= |data| / 512 && BitsAgree(bitmap, within / 512, s, e)
    requires Merged(d, start, data, out, s * 512) && |below| == e * 512 - s * 512
    requires
      var bit := VhdBit(bitmap, within / 512 + s);
      && (!bit ==> Shows(d.parent.value, start + s * 512, below))
      && next == if bit then out else Splice(out, s * 512, e * 512, below)
    ensures Merged(d, start, data, next, e * 512)
  {
    hide Disk.ByteAt, Disk.SourceOf, Disk.Shaped, FileByte, VhdMap.SourceIn, BitOf, Splice, Shows, Merged, InBlock,
      Disk.Backed;
    var bit := VhdBit(bitmap, within / 512 + s);
    BlockBounds(d, start, |data|, i, within);
    BitsPresent(d, i, bitmap, within / 512, s, e);
    Stretch(d, start, i, within, data, s, e, bit);
    MergeStep(d, start, data, out, s * 512, e * 512, bit, below, next);
  }

  /** The bits of sectors `s` to `e` are the same. */
  ghost predicate BitsAgree(bitmap: seq<byte>, first: nat, s: nat, e: nat)
  {
    s < e && forall q :: first + s <= q < first + e ==>
      q / 8 < |bitmap| && (first + s) / 8 < |bitmap| && VhdBit(bitmap, q) == VhdBit(bitmap, first + s)
  }

  lemma BitsPresent(d: Disk, k: nat, bitmap: seq<byte>, first: nat, s: nat, e: nat)
    requires d.VhdDisk? && k < |d.vhd.bat| && VhdBitmap(d, k, bitmap) && BitsAgree(bitmap, first, s, e)
    ensures (first + s) / 8 < |bitmap|
    ensures forall q :: first + s <= q < first + e ==> d.vhd.SectorPresent(k, q) == VhdBit(bitmap, first + s)
  {
    hide FileByte, BitOf;
    assert first + s < first + e;
    forall q | first + s <= q < first + e
      ensures d.vhd.SectorPresent(k, q) == VhdBit(bitmap, first + s)
    {
      assert VhdBit(bitmap, q) == VhdBit(bitmap, first + s);
    }
  }

  /** A run of sectors can be had when stored here, or exactly when the parent can be read there. */
  lemma VhdRunSound(d: Disk, start: nat, i: nat, within: nat, data: seq<byte>, bitmap: seq<byte>, s: nat, e: nat)
    requires d.Shaped() && d.VhdDisk? && d.parent.Some? && VhdHolds(d, start, i, within, data)
    requires VhdBitmap(d, i, bitmap) && s < e <= |data| / 512 && BitsAgree(bitmap, within / 512, s, e)
    ensures start + e * 512 <= d.Size() && (within / 512 + s) / 8 < |bitmap|
    ensures
      if VhdBit(bitmap, within / 512 + s) then AllSound(d, start + s * 512, e * 512 - s * 512)
      else AllSound(d, start + s * 512, e * 512 - s * 512) <==>
        AllReadable(d.parent.value, start + s * 512, e * 512 - s * 512)
  {
    hide Disk.SourceOf, Disk.Shaped, FileByte, BitOf, Disk.Backed, InBlock, Sound, Readable;
    BlockBounds(d, start, |data|, i, within);
    BitsPresent(d, i, bitmap, within / 512, s, e);
    Stretch(d, start, i, within, data, s, e, VhdBit(bitmap, within / 512 + s));
    RunSound(d, start, data, s * 512, e * 512, VhdBit(bitmap, within / 512 + s));
  }

  lemma SoundJoined(d: Disk, at: nat, a: nat, b: nat)
    requires d.Shaped() && at + a + b <= d.Size() && AllSound(d, at, a) && AllSound(d, at + a, b)
    ensures AllSound(d, at, a + b)
  {
    hide Sound;
  }

  lemma MergeBounds(d: Disk, start: nat, k: nat, w: nat, data: seq<byte>, bitmap: seq<byte>)
    requires d.Shaped() && d.VhdDisk? && VhdHolds(d, start, k, w, data) && VhdBitmap(d, k, bitmap)
    ensures |data| % 512 == 0 && start + |data| <= d.Size() && w / 512 + |data| / 512 <= 8 * |bitmap|
  {
    hide Disk.Shaped, Disk.Size, VhdByte, FromFile;
  }

  /** The sectors of a stored block whose bit is clear are the parent's, whole runs at a time. */
  method VhdMerge(d: Disk, start: nat, i: nat, within: nat, data: seq<byte>, bitmap: seq<byte>)
      returns (r: Result<seq<byte>>)
    requires d.Shaped() && d.VhdDisk? && d.parent.Some? && VhdHolds(d, start, i, within, data)
    requires VhdBitmap(d, i, bitmap)
    ensures start + |data| <= d.Size() && Gives(d, start, |data|, r)
    decreases d, 0
  {
    hide Disk.ByteAt, Disk.SourceOf, Disk.Shaped, FromFile, InBlock, VhdBit, Splice, Disk.LayerShaped, AllSound,
      AllReadable, Disk.Size, VhdHolds, Shows, Merged;
    var p := d.parent.value;
    BeneathShaped(d);
    MergeBounds(d, start, i, within, data, bitmap);
    var first, count := within / 512, |data| / 512;
    var out, s := data, 0;
    NothingMerged(d, start, data);
    while s < count
      invariant s <= count && |out| == |data| && Merged(d, start, data, out, s * 512) && AllSound(d, start, s * 512)
    {
      var e := VhdRunEnd(bitmap, first + s, first + count);
      e := e - first;
      VhdRunSound(d, start, i, within, data, bitmap, s, e);
      var below := data[s * 512..e * 512];
      ghost var before := out;
      if !VhdBit(bitmap, first + s) {
        var read := ParentRead(p, start + s * 512, (e - s) * 512);
        if read.Raised? {
          NotAllSound(d, start, |data|, s * 512, e * 512 - s * 512);
          return Raised;
        }
        below := read.value;
        out := Splice(out, s * 512, e * 512, below);
      }
      VhdMergeStep(d, start, i, within, data, bitmap, before, s, e, below, out);
      SoundJoined(d, start, s * 512, e * 512 - s * 512);
      s := e;
    }
    AllMerged(d, start, data, out);
    r := Ok(out);
  }

  lemma NothingMerged(d: Disk, start: nat, data: seq<byte>)
    requires d.Shaped() && start + |data| <= d.Size()
    ensures Merged(d, start, data, data, 0) && AllSound(d, start, 0)
  {
  }

  lemma AllMerged(d: Disk, start: nat, data: seq<byte>, out: seq<byte>)
    requires d.Shaped() && Merged(d, start, data, out, |data|)
    ensures |out| == |data| && Shows(d, start, out)
  {
    hide Disk.ByteAt;
  }

  lemma NotAllSound(d: Disk, at: nat, n: nat, lo: nat, m: nat)
    requires d.Shaped() && at + n <= d.Size() && lo + m <= n && !AllSound(d, at + lo, m)
    ensures !AllSound(d, at, n)
  {
    hide Sound;
  }

  // ---- VHDX ----

  /** The `len` bytes of the disk from `start` are whole sectors of block `k`, whose bitmap is that of
      row `c`. */
  ghost predicate InRow(d: Disk, start: nat, len: nat, k: nat, c: nat)
    requires d.Shaped() && d.VhdxDisk?
  {
    var x := d.vhdx;
    && x.logical > 0 && x.block > 0 && x.BlockRatio() > 0 && PayloadIndex(x.BlockRatio(), k) < |x.bat|
    && Div(start, x.logical) * x.logical == start && Div(len, x.logical) * x.logical == len
    && len > 0 && start + len <= d.Size()
    && (x.State(k) == 7 ==> d.parent.Some? && BitmapIndex(x.BlockRatio(), c) < |x.bat|)
  }

  /** Each of those bytes is that of block `k` from its byte `w`. */
  ghost predicate FromBlock(d: Disk, start: nat, len: nat, k: nat, w: nat, c: nat)
    requires d.Shaped() && d.VhdxDisk? && InRow(d, start, len, k, c)
  {
    forall i :: start <= i < start + len ==> ByteFrom(d, start, k, w, c, i)
  }

  ghost predicate ByteFrom(d: Disk, start: nat, k: nat, w: nat, c: nat, i: nat)
    requires d.Shaped() && d.VhdxDisk? && start <= i < d.Size()
    requires d.vhdx.logical > 0 && d.vhdx.block > 0 && d.vhdx.BlockRatio() > 0
    requires PayloadIndex(d.vhdx.BlockRatio(), k) < |d.vhdx.bat|
    requires d.vhdx.State(k) == 7 ==> BitmapIndex(d.vhdx.BlockRatio(), c) < |d.vhdx.bat|
  {
    && Div(i, d.vhdx.logical) / PER_CHUNK == c
    && d.SourceOf(i) == d.vhdx.SourceIn(d.parent.Some?, k, w + i - start, Div(i, d.vhdx.logical))
  }

  lemma VhdxChunkIn(d: Disk, n: nat, start: nat, len: nat, k: nat)
    requires d.Shaped() && d.VhdxDisk? && start == n * MIB < d.Size()
    requires d.vhdx.block > 0 && d.vhdx.BlockRatio() > 0
    requires len == Min(MIB, d.Size() - start) && k == Div(start, d.vhdx.block)
    ensures InRow(d, start, len, k, Div(k, d.vhdx.BlockRatio()))
  {
    hide Div, Mod, CeilDiv, Disk.ByteAt, Disk.Shaped, PayloadIndex, BitmapIndex, Ratio, Entries, Low;
    var x, p := d.vhdx, d.parent.Some?;
    LayerOf(d);
    x.ChunkInBlock(p, n, 0);
    WholeSectors(n, x.logical, x.size);
  }

  lemma VhdxBytesIn(d: Disk, n: nat, start: nat, len: nat, k: nat, w: nat, c: nat)
    requires d.Shaped() && d.VhdxDisk? && start == n * MIB < d.Size() && len <= MIB
    requires InRow(d, start, len, k, c) && c == Div(k, d.vhdx.BlockRatio())
    requires k == Div(start, d.vhdx.block) && w == Mod(start, d.vhdx.block)
    ensures FromBlock(d, start, len, k, w, c)
  {
    hide Div, Mod, Disk.ByteAt, Disk.Shaped, Disk.LayerShaped, Disk.SourceOf, Disk.Size, ByteFrom;
    assert start + len <= d.Size();
    forall i: nat | start <= i < start + len
      ensures ByteFrom(d, start, k, w, c, i)
    {
      VhdxByteIn(d, n, start, k, w, c, i);
    }
  }

  lemma VhdxByteIn(d: Disk, n: nat, start: nat, k: nat, w: nat, c: nat, i: nat)
    requires d.Shaped() && d.VhdxDisk? && start == n * MIB <= i < d.Size() && i < start + MIB
    requires d.vhdx.block > 0 && d.vhdx.logical > 0 && d.vhdx.BlockRatio() > 0
    requires k == Div(start, d.vhdx.block) && w == Mod(start, d.vhdx.block) && c == Div(k, d.vhdx.BlockRatio())
    ensures PayloadIndex(d.vhdx.BlockRatio(), k) < |d.vhdx.bat|
    ensures d.vhdx.State(k) == 7 ==> BitmapIndex(d.vhdx.BlockRatio(), c) < |d.vhdx.bat|
    ensures ByteFrom(d, start, k, w, c, i)
  {
    hide Div, Mod, CeilDiv, Disk.ByteAt, Disk.Shaped, Disk.LayerShaped, PayloadIndex, BitmapIndex, Ratio,
      Entries, Low, VhdxMap.SourceIn, Sizes;
    var x := d.vhdx;
    LayerOf(d);
    x.ChunkInBlock(d.parent.Some?, n, i - start);
  }

  lemma WholeSectors(n: nat, logical: nat, size: nat)
    requires (logical == 512 || logical == 4096) && size % logical == 0 && n * MIB < size
    ensures Div(n * MIB, logical) * logical == n * MIB
    ensures var len := Min(MIB, size - n * MIB); Div(len, logical) * logical == len
  {
    hide Div, Mod;
    var at, len := n * MIB, Min(MIB, size - n * MIB);
    if logical == 512 {
      var m := size / 512;
      assert size == 512 * m && at == 512 * (2048 * n);
      DivUnique(at, 512, 2048 * n, 0);
      DivUnique(len, 512, Min(2048, m - 2048 * n), 0);
    } else {
      var m := size / 4096;
      assert size == 4096 * m && at == 4096 * (256 * n);
      DivUnique(at, 4096, 256 * n, 0);
      DivUnique(len, 4096, Min(256, m - 256 * n), 0);
    }
  }

  method VhdxChunk(d: Disk, n: nat) returns (r: Result<seq<byte>>)
    requires d.Shaped() && d.VhdxDisk? && n * d.ChunkSize() < d.Size()
    ensures GivesChunk(d, n, r)
    decreases d, 1, 2
  {
    hide Disk.ByteAt, Disk.Shaped, Disk.SourceOf, InRow, FromBlock, Gives;
    LayerOf(d);
    var x := d.vhdx;
    var start := n * MIB;
    var want := Min(MIB, x.size - start);
    var i, within := Div(start, x.block), Mod(start, x.block);
    VhdxChunkIn(d, n, start, want, i);
    VhdxBytesIn(d, n, start, want, i, within, Div(i, x.BlockRatio()));
    r := VhdxBlock(d, start, want, i, within, Div(i, x.BlockRatio()));
  }

  /** `_vhdx_read` of the file as its log leaves it. */
  function StoreRead(store: nat -> byte, at: nat, n: nat): (data: seq<byte>)
    ensures |data| == n && FromStore(store, at, data)
  {
    seq(n, k requires 0 <= k < n => store(at + k))
  }

  ghost predicate FromStore(store: nat -> byte, at: nat, data: seq<byte>)
  {
    forall k :: 0 <= k < |data| ==> data[k] == store(at + k)
  }

  lemma RowBounds(d: Disk, start: nat, len: nat, k: nat, c: nat)
    requires d.Shaped() && d.VhdxDisk? && InRow(d, start, len, k, c)
    ensures len > 0 && start + len <= d.Size()
  {
  }

  /** A chunk of block `i`. */
  method VhdxBlock(d: Disk, start: nat, want: nat, i: nat, within: nat, ghost c: nat) returns (r: Result<seq<byte>>)
    requires d.Shaped() && d.VhdxDisk? && InRow(d, start, want, i, c) && FromBlock(d, start, want, i, within, c)
    ensures start + want <= d.Size() && Gives(d, start, want, r)
    decreases d, 1, 1
  {
    hide Disk.ByteAt, Disk.SourceOf, Disk.Shaped, Div, Ratio, PayloadIndex, BitmapIndex, Low, Disk.Backed, Sound,
      Disk.Size, AllSound, Shows, FromBlock;
    RowBounds(d, start, want, i, c);
    var x := d.vhdx;
    var entry := x.bat[PayloadIndex(x.BlockRatio(), i)];
    var state := Low(entry, 3);
    if state == 6 || state == 7 {
      var data := StoreRead(x.store, x.Place(entry) + within, want);
      if state == 6 {
        WholeRun(d, start, i, within, c, data);
        RunShows(d, start, data);
        r := Ok(data);
        return;
      }
      r := VhdxMerge(d, start, i, within, c, data);
      return;
    }
    if d.parent.Some? && state == 0 {
      NotPresent(d, start, want, i, within, c);
      r := ReadBelow(d, start, want);
      return;
    }
    NothingStored(d, start, want, i, within, c);
    r := Ok(Zeros(want));
  }

  /** The bytes the file stores for a block. */
  ghost predicate VhdxHolds(d: Disk, start: nat, k: nat, w: nat, c: nat, data: seq<byte>)
    requires d.Shaped() && d.VhdxDisk?
  {
    && InRow(d, start, |data|, k, c) && FromBlock(d, start, |data|, k, w, c)
    && FromStore(d.vhdx.store, d.vhdx.Place(d.vhdx.bat[PayloadIndex(d.vhdx.BlockRatio(), k)]) + w, data)
  }

  lemma WholeRun(d: Disk, start: nat, k: nat, w: nat, c: nat, data: seq<byte>)
    requires d.Shaped() && d.VhdxDisk? && VhdxHolds(d, start, k, w, c, data) && d.vhdx.State(k) == 6
    ensures OneRun(d, start, data, 0, |data|, true)
    ensures forall i: nat :: start <= i < start + |data| ==> d.Backed(i)
  {
    hide Disk.SourceOf, Disk.ByteAt, Div, Ratio, PayloadIndex, BitmapIndex, Low, Shr;
    forall i: nat | start <= i < start + |data|
      ensures d.SourceOf(i) == Stored(data[i - start])
    {
      assert ByteFrom(d, start, k, w, c, i);
    }
  }

  lemma NotPresent(d: Disk, start: nat, len: nat, k: nat, w: nat, c: nat)
    requires d.Shaped() && d.VhdxDisk? && InRow(d, start, len, k, c) && FromBlock(d, start, len, k, w, c)
    requires d.parent.Some? && d.vhdx.State(k) == 0
    ensures LeftBelow(d, start, len)
  {
    hide Disk.SourceOf, Disk.ByteAt, Div, Ratio, PayloadIndex, BitmapIndex, Low;
    forall i: nat | start <= i < start + len
      ensures d.SourceOf(i) == Below
    {
      assert ByteFrom(d, start, k, w, c, i);
    }
  }

  lemma NothingStored(d: Disk, start: nat, len: nat, k: nat, w: nat, c: nat)
    requires d.Shaped() && d.VhdxDisk? && InRow(d, start, len, k, c) && FromBlock(d, start, len, k, w, c)
    requires d.vhdx.State(k) != 6 && d.vhdx.State(k) != 7 && !(d.parent.Some? && d.vhdx.State(k) == 0)
    ensures Shows(d, start, Zeros(len)) && AllSound(d, start, len)
  {
    hide Disk.SourceOf, Div, Ratio, PayloadIndex, BitmapIndex, Low, Shr;
    var none := Zeros(len);
    forall r | 0 <= r < len
      ensures Some(none[r]) == d.ByteAt(start + r)
    {
      assert ByteFrom(d, start, k, w, c, start + r);
    }
    forall i: nat | start <= i < start + len
      ensures Sound(d, i)
    {
      assert ByteFrom(d, start, k, w, c, i);
    }
  }

  /** `_vhdx_bitmap` of row `chunk`. */
  function VhdxBitmap(x: VhdxMap, chunk: nat): (r: Result<seq<byte>>)
    requires x.block > 0 && x.BlockRatio() > 0 && BitmapIndex(x.BlockRatio(), chunk) < |x.bat|
    ensures r.Ok? <==> Low(x.bat[BitmapIndex(x.BlockRatio(), chunk)], 3) == 6
    ensures r.Ok? ==>
      |r.value| == MIB && FromStore(x.store, x.Place(x.bat[BitmapIndex(x.BlockRatio(), chunk)]), r.value)
  {
    var entry := x.bat[BitmapIndex(x.BlockRatio(), chunk)];
    if Low(entry, 3) != 6 then Raised else Ok(StoreRead(x.store, x.Place(entry), MIB))
  }

  /** A sector's bit in its row's bitmap, the lowest bit first. */
  predicate VhdxBit(bitmap: seq<byte>, q: nat)
    requires |bitmap| == MIB
  {
    BitOf(bitmap[q % PER_CHUNK / 8], q % PER_CHUNK % 8)
  }

  /** Where the run of sectors of one row like sector `q` ends, at `last` if not before. */
  method VhdxRunEnd(bitmap: seq<byte>, q: nat, last: nat) returns (e: nat)
    requires q < last && |bitmap| == MIB
    ensures q < e <= last
    ensures forall k :: q <= k < e ==> k / PER_CHUNK == q / PER_CHUNK && VhdxBit(bitmap, k) == VhdxBit(bitmap, q)
    ensures e < last ==> e / PER_CHUNK != q / PER_CHUNK || VhdxBit(bitmap, e) != VhdxBit(bitmap, q)
  {
    hide VhdxBit;
    e := q + 1;
    while e < last && e / PER_CHUNK == q / PER_CHUNK && VhdxBit(bitmap, e) == VhdxBit(bitmap, q)
      invariant q < e <= last
      invariant forall k :: q <= k < e ==> k / PER_CHUNK == q / PER_CHUNK && VhdxBit(bitmap, k) == VhdxBit(bitmap, q)
    {
      e := e + 1;
    }
  }

  /** Each byte is stored here or below as its sector's bit in one bitmap says, and the bytes are whole
      sectors of one row. */
  ghost predicate ByBit(d: Disk, start: nat, data: seq<byte>, logical: nat, c: nat, bitmap: seq<byte>)
    requires d.Shaped()
  {
    && logical > 0 && |bitmap| == MIB && start + |data| <= d.Size()
    && Div(start, logical) * logical == start && Div(|data|, logical) * logical == |data|
    && forall i :: start <= i < start + |data| ==>
         && Div(i, logical) / PER_CHUNK == c
         && d.SourceOf(i) == if VhdxBit(bitmap, Div(i, logical)) then Stored(data[i - start]) else Below
  }

  lemma HoldsByBit(d: Disk, start: nat, k: nat, w: nat, c: nat, data: seq<byte>, bitmap: seq<byte>)
    requires d.Shaped() && d.VhdxDisk? && VhdxHolds(d, start, k, w, c, data) && d.vhdx.State(k) == 7
    requires VhdxBitmap(d.vhdx, c) == Ok(bitmap)
    ensures ByBit(d, start, data, d.vhdx.logical, c, bitmap)
  {
    hide Disk.ByteAt, Disk.Shaped, Disk.SourceOf, Disk.LayerShaped, Div, Ratio, PayloadIndex, BitmapIndex,
      Low, VhdxMap.Shaped, VhdxMap.SourceIn, VhdxMap.Place, VhdxBitmap, VhdxBit;
    var x := d.vhdx;
    LayerOf(d);
    forall i | start <= i < start + |data|
      ensures Div(i, x.logical) / PER_CHUNK == c
      ensures d.SourceOf(i) == if VhdxBit(bitmap, Div(i, x.logical)) then Stored(data[i - start]) else Below
    {
      assert ByteFrom(d, start, k, w, c, i);
      assert data[i - start] == x.store(x.Place(x.bat[PayloadIndex(x.BlockRatio(), k)]) + w + (i - start));
      ByteByBit(x, d.parent.Some?, k, w + i - start, Div(i, x.logical), bitmap);
    }
  }

  /** A byte of a partly stored block, by its sector's bit in its row's bitmap. */
  lemma ByteByBit(x: VhdxMap, hasParent: bool, k: nat, w: nat, sector: nat, bitmap: seq<byte>)
    requires x.block > 0 && x.BlockRatio() > 0 && PayloadIndex(x.BlockRatio(), k) < |x.bat| && x.State(k) == 7
    requires BitmapIndex(x.BlockRatio(), sector / PER_CHUNK) < |x.bat|
    requires VhdxBitmap(x, sector / PER_CHUNK) == Ok(bitmap)
    ensures x.SourceIn(hasParent, k, w, sector) ==
      if VhdxBit(bitmap, sector) then Stored(x.store(x.Place(x.bat[PayloadIndex(x.BlockRatio(), k)]) + w)) else Below
  {
    hide Div, Ratio, PayloadIndex, BitmapIndex, Low, Shr, BitOf, VhdxMap.Place;
  }

  /** Sectors whose bits agree are one run. */
  lemma VhdxStretch(d: Disk, start: nat, data: seq<byte>, logical: nat, c: nat, bitmap: seq<byte>,
                    s: nat, e: nat, lo: nat, hi: nat, present: bool)
    requires d.Shaped() && d.VhdxDisk? && ByBit(d, start, data, logical, c, bitmap)
    requires lo == s * logical && hi == e * logical && lo <= hi <= |data|
    requires forall q :: Div(start, logical) + s <= q < Div(start, logical) + e ==> VhdxBit(bitmap, q) == present
    ensures OneRun(d, start, data, lo, hi, present)
    ensures forall i: nat :: start + lo <= i < start + hi ==> d.Backed(i)
  {
    hide Disk.ByteAt, Disk.SourceOf, VhdxBit, Div;
    assert d.LayerShaped();
    var first := Div(start, logical);
    forall i: nat | start + lo <= i < start + hi
      ensures d.SourceOf(i) == if present then Stored(data[i - start]) else Below
    {
      DivBetween(i - start, logical, s, e);
      DivShift(first, i - start, logical);
      assert VhdxBit(bitmap, first + Div(i - start, logical)) == present;
      assert Div(i, logical) / PER_CHUNK == c;
    }
  }

  lemma VhdxMergeStep(d: Disk, start: nat, data: seq<byte>, logical: nat, c: nat, bitmap: seq<byte>, out: seq<byte>,
                      s: nat, e: nat, lo: nat, hi: nat, bit: bool, below: seq<byte>, next: seq<byte>)
    requires d.Shaped() && d.VhdxDisk? && d.parent.Some? && ByBit(d, start, data, logical, c, bitmap)
    requires lo == s * logical && hi == e * logical && lo <= hi <= |data| && Merged(d, start, data, out, lo)
    requires forall q :: Div(start, logical) + s <= q < Div(start, logical) + e ==> VhdxBit(bitmap, q) == bit
    requires |below| == hi - lo && (!bit ==> Shows(d.parent.value, start + lo, below))
    requires next == if bit then out else Splice(out, lo, hi, below)
    ensures Merged(d, start, data, next, hi)
  {
    hide Disk.ByteAt, Disk.SourceOf, Disk.Shaped, Disk.LayerShaped, Disk.Size, VhdxBit, Splice, Div, Merged, OneRun,
      Shows, Disk.Backed;
    VhdxStretch(d, start, data, logical, c, bitmap, s, e, lo, hi, bit);
    MergeStep(d, start, data, out, lo, hi, bit, below, next);
  }

  /** A run of sectors can be had when stored here, or exactly when the parent can be read there. */
  lemma VhdxRunSound(d: Disk, start: nat, data: seq<byte>, logical: nat, c: nat, bitmap: seq<byte>,
                     s: nat, e: nat, lo: nat, hi: nat, bit: bool)
    requires d.Shaped() && d.VhdxDisk? && d.parent.Some? && ByBit(d, start, data, logical, c, bitmap)
    requires lo == s * logical && hi == e * logical && lo <= hi <= |data|
    requires forall q :: Div(start, logical) + s <= q < Div(start, logical) + e ==> VhdxBit(bitmap, q) == bit
    ensures start + |data| <= d.Size()
    ensures if bit then AllSound(d, start + lo, hi - lo)
            else AllSound(d, start + lo, hi - lo) <==> AllReadable(d.parent.value, start + lo, hi - lo)
  {
    hide Disk.ByteAt, Disk.SourceOf, Disk.Shaped, Disk.LayerShaped, VhdxBit, Div, OneRun, Disk.Backed, Sound, Readable;
    VhdxStretch(d, start, data, logical, c, bitmap, s, e, lo, hi, bit);
    RunSound(d, start, data, lo, hi, bit);
  }

  lemma RunBounds(s: nat, e: nat, count: nat, logical: nat)
    requires s < e <= count
    ensures s * logical <= e * logical <= count * logical && (e - s) * logical == e * logical - s * logical
  {
    Apart(e, count, logical);
    Apart(s, e, logical);
    Distribute(s, e - s, logical);
  }

  lemma RunInside(d: Disk, start: nat, data: seq<byte>, logical: nat, c: nat, bitmap: seq<byte>, out: seq<byte>,
                  lo: nat)
    requires d.Shaped() && ByBit(d, start, data, logical, c, bitmap) && Merged(d, start, data, out, lo)
    ensures logical > 0 && |bitmap| == MIB && start + |data| <= d.Size()
    ensures |out| == |data| == Div(|data|, logical) * logical
  {
    hide Disk.Shaped, Disk.SourceOf, Disk.ByteAt, Div, VhdxBit;
  }

  /** One run of sectors from `s`, at byte `lo`: what merging it leaves of the bytes so far, and its end. */
  method VhdxMergeRun(d: Disk, start: nat, data: seq<byte>, logical: nat, ghost c: nat, bitmap: seq<byte>,
                      out: seq<byte>, s: nat, lo: nat, count: nat)
      returns (r: Result<seq<byte>>, e: nat, hi: nat)
    requires d.Shaped() && d.VhdxDisk? && d.parent.Some? && ByBit(d, start, data, logical, c, bitmap)
    requires s < count == Div(|data|, logical) && lo == s * logical && Merged(d, start, data, out, lo)
    ensures s < e <= count && hi == e * logical && lo <= hi <= |data| && start + |data| <= d.Size()
    ensures r.Ok? ==> Merged(d, start, data, r.value, hi)
    ensures r.Ok? <==> AllSound(d, start + lo, hi - lo)
    decreases d, 0, 0
  {
    hide Disk.ByteAt, Disk.SourceOf, Disk.Shaped, Disk.LayerShaped, Disk.Size, VhdxBit, Splice, Div, ByBit, Merged,
      OneRun, Shows, AllSound, AllReadable;
    var p := d.parent.value;
    BeneathShaped(d);
    RunInside(d, start, data, logical, c, bitmap, out, lo);
    var first := Div(start, logical);
    var end := VhdxRunEnd(bitmap, first + s, first + count);
    e := end - first;
    RunBounds(s, e, count, logical);
    hi := e * logical;
    var bit := VhdxBit(bitmap, first + s);
    VhdxRunSound(d, start, data, logical, c, bitmap, s, e, lo, hi, bit);
    var below, next := data[lo..hi], out;
    if !bit {
      below :- ParentRead(p, start + lo, (e - s) * logical);
      next := Splice(out, lo, hi, below);
    }
    VhdxMergeStep(d, start, data, logical, c, bitmap, out, s, e, lo, hi, bit, below, next);
    r := Ok(next);
  }

  /** `_vhdx_merge`: sectors whose bit is set from this file, the rest from the parent, in runs. */
  method VhdxMerge(d: Disk, start: nat, i: nat, within: nat, ghost c: nat, data: seq<byte>)
      returns (r: Result<seq<byte>>)
    requires d.Shaped() && d.VhdxDisk? && VhdxHolds(d, start, i, within, c, data) && d.vhdx.State(i) == 7
    ensures start + |data| <= d.Size() && Gives(d, start, |data|, r)
    decreases d, 0, 1
  {
    hide Disk.ByteAt, Disk.SourceOf, Disk.Shaped, FromBlock, FromStore, Disk.LayerShaped, Disk.Size,
      Div, Ratio, PayloadIndex, BitmapIndex, Low, VhdxBitmap, ByBit, AllSound, Merged, Shows;
    var x := d.vhdx;
    RowBounds(d, start, |data|, i, c);
    NothingMerged(d, start, data);
    NoBitmap(d, start, i, within, c, data);
    assert Div(|data|, x.logical) * x.logical == |data|;
    var first, count := Div(start, x.logical), Div(|data|, x.logical);
    var out, s, lo := data, 0, 0;
    while s < count
      invariant s <= count && lo == s * x.logical <= |data| && Merged(d, start, data, out, lo) && AllSound(d, start, lo)
    {
      SectorIn(d, start, i, within, c, data, s);
      var bitmap :- VhdxBitmap(x, (first + s) / PER_CHUNK);
      HoldsByBit(d, start, i, within, c, data, bitmap);
      var merged, e, hi := VhdxMergeRun(d, start, data, x.logical, c, bitmap, out, s, lo, count);
      if merged.Raised? {
        NotAllSound(d, start, |data|, lo, hi - lo);
        return Raised;
      }
      SoundJoined(d, start, lo, hi - lo);
      out, s, lo := merged.value, e, hi;
    }
    AllMerged(d, start, data, out);
    r := Ok(out);
  }

  /** Without the row's bitmap none of a partly stored block can be had. */
  lemma NoBitmap(d: Disk, start: nat, k: nat, w: nat, c: nat, data: seq<byte>)
    requires d.Shaped() && d.VhdxDisk? && VhdxHolds(d, start, k, w, c, data) && d.vhdx.State(k) == 7
    ensures VhdxBitmap(d.vhdx, c).Raised? ==> !AllSound(d, start, |data|)
  {
    hide Disk.ByteAt, Disk.SourceOf, Disk.Shaped, Div, Ratio, PayloadIndex, BitmapIndex, Low;
    RowBounds(d, start, |data|, k, c);
    assert ByteFrom(d, start, k, w, c, start);
    if VhdxBitmap(d.vhdx, c).Raised? {
      assert !Sound(d, start);
    }
  }

  /** Every sector of a block is in its own row. */
  lemma SectorIn(d: Disk, start: nat, k: nat, w: nat, c: nat, data: seq<byte>, s: nat)
    requires d.Shaped() && d.VhdxDisk? && VhdxHolds(d, start, k, w, c, data) && s < Div(|data|, d.vhdx.logical)
    ensures (Div(start, d.vhdx.logical) + s) / PER_CHUNK == c
  {
    hide Disk.ByteAt, Disk.SourceOf, Disk.Shaped, Div, Ratio, PayloadIndex, BitmapIndex, Low, VhdxMap.SourceIn;
    var at := SectorStart(start, |data|, d.vhdx.logical, s);
    assert ByteFrom(d, start, k, w, c, at);
  }

  lemma SectorStart(start: nat, len: nat, logical: nat, s: nat) returns (at: nat)
    requires logical > 0 && Div(start, logical) * logical == start && Div(len, logical) * logical == len
    requires s < Div(len, logical)
    ensures start <= at < start + len && Div(at, logical) == Div(start, logical) + s
  {
    hide Div;
    at := start + s * logical;
    Apart(s, Div(len, logical), logical);
    Distribute(Div(start, logical), s, logical);
    DivShift(Div(start, logical) + s, 0, logical);
    DivUnique(0, logical, 0, 0);
  }

  // ---- QCOW ----

  /** `_qcow_l2_table`: none where there is no table, an error where the file ends inside it, else its
      bytes unpacked. */
  method QcowTable(q: QcowMap, index: nat) returns (r: Result<Option<seq<nat>>>)
    requires index < |q.l1| && q.l2Entries > 0
    ensures r.Ok? <==> q.TableReadable(index)
    ensures r.Ok? ==> (r.value.Some? <==> q.HasTable(index))
    ensures r.Ok? && r.value.Some? ==>
      |r.value.value| == q.TableFields()
      && forall j :: 0 <= j < q.TableFields() ==> r.value.value[j] == q.TableField(index, j)
  {
    hide BeValue, QcowMap.OffsetOf;
    var entry := q.l1[index];
    var offset := if q.version > 1 then q.OffsetOf(entry) else entry;
    if offset == 0 {
      return Ok(None);
    }
    var count := q.l2Entries * (if q.extended then 2 else 1);
    assert count == q.TableFields() && count >= q.l2Entries;
    var raw := q.file[Min(offset, |q.file|)..Min(offset + 8 * count, |q.file|)];
    if |raw| < 8 * count {
      return Raised;
    }
    var fields := UnpackBe(raw, count);
    forall j | 0 <= j < count
      ensures fields[j] == q.TableField(index, j)
    {
      SliceSlice(q.file, offset, offset + 8 * count, 8 * j, 8 * j + 8);
    }
    r := Ok(Some(fields));
  }

  /** `_qcow_compressed`: the bytes an entry names, decompressed, and zeros up to a cluster. */
  method QcowCompressed(q: QcowMap, entry: nat) returns (r: Result<seq<byte>>)
    requires q.Shaped()
    ensures r == q.Inflated(entry)
  {
    hide Low, Shr, Pow2, BitLength;
    var bits: nat := q.ClusterBits();
    var offset: nat, length: nat;
    if q.version == 1 {
      offset, length := Low(entry, 63 - bits), Low(Shr(entry, 63 - bits), bits);
    } else {
      var e, x := Low(entry, 62), 62 - (bits - 8);
      offset := Low(e, x);
      var sectors := Low(Shr(e, x), 62 - x);
      length := (sectors + 1) * 512 - offset % 512;
    }
    var blob := q.file[Min(offset, |q.file|)..Min(offset + length, |q.file|)];
    assert blob == q.CompressedBytes(entry);
    var data := q.inflate(blob);
    if data.None? || |data.value| > q.cluster {
      return Raised;
    }
    r := Ok(data.value + Zeros(q.cluster - |data.value|));
  }

  /** The bytes of the disk from `at` are those of one cluster, with this entry, from its byte `within`. */
  ghost predicate InCluster(d: Disk, entry: nat, bitmap: nat, within: nat, take: nat, at: nat)
    requires d.Shaped() && d.QcowDisk?
  {
    && within + take <= d.qcow.cluster && at + take <= d.Size()
    && forall i :: at <= i < at + take ==> d.qcow.SourceOf(i) == d.qcow.Piece(entry, bitmap, within + i - at)
  }

  /** What a piece says a run of bytes is. */
  ghost predicate AllFrom(d: Disk, at: nat, data: seq<byte>)
    requires d.Shaped() && d.QcowDisk? && at + |data| <= d.Size()
  {
    forall i: nat :: at <= i < at + |data| ==>
      d.qcow.SourceOf(i) == Stored(data[i - at]) || (d.qcow.SourceOf(i) == ZeroFill && data[i - at] == 0)
  }

  lemma FromShows(d: Disk, at: nat, data: seq<byte>)
    requires d.Shaped() && d.QcowDisk? && at + |data| <= d.Size() && AllFrom(d, at, data)
    ensures Gives(d, at, |data|, Ok(data))
  {
    hide QcowMap.SourceOf;
    forall k | 0 <= k < |data|
      ensures Some(data[k]) == d.ByteAt(at + k)
    {
      assert d.qcow.SourceOf(at + k) != Missing;
    }
    forall i: nat | at <= i < at + |data|
      ensures Sound(d, i)
    {
      assert d.qcow.SourceOf(i) != Missing;
    }
  }

  /** A byte that is missing cannot be had. */
  lemma MissingGives(d: Disk, at: nat, n: nat, i: nat)
    requires d.Shaped() && d.QcowDisk? && at + n <= d.Size() && at <= i < at + n && d.qcow.SourceOf(i) == Missing
    ensures Gives(d, at, n, Raised)
  {
    hide QcowMap.SourceOf;
    assert !Sound(d, i);
  }

  /** A run of bytes that all come from one place: the data file from `base`, zeros, or below. */
  ghost predicate StoredRun(d: Disk, base: nat, at: nat, n: nat)
    requires d.Shaped() && d.QcowDisk?
  {
    at + n <= d.Size() && forall i :: at <= i < at + n ==> d.qcow.SourceOf(i) == StoredAt(d.qcow.Data(), base + i - at)
  }

  ghost predicate SameRun(d: Disk, source: Source, at: nat, n: nat)
    requires d.Shaped() && d.QcowDisk?
  {
    at + n <= d.Size() && forall i :: at <= i < at + n ==> d.qcow.SourceOf(i) == source
  }

  lemma ZerosRead(d: Disk, at: nat, n: nat)
    requires d.Shaped() && d.QcowDisk? && SameRun(d, ZeroFill, at, n)
    ensures Gives(d, at, n, Ok(Zeros(n)))
  {
    hide QcowMap.SourceOf;
    FromShows(d, at, Zeros(n));
  }

  /** `_qcow_absent`. */
  method QcowAbsent(d: Disk, at: nat, take: nat) returns (r: Result<seq<byte>>)
    requires d.Shaped() && d.QcowDisk? && SameRun(d, Below, at, take)
    ensures at + take <= d.Size() && Gives(d, at, take, r)
    decreases d, 0, 1
  {
    hide QcowMap.SourceOf, Disk.ByteAt, Gives, Disk.Size, LeftBelow, SameRun;
    AbsentBelow(d, at, take);
    r := ReadBelow(d, at, take);
  }

  lemma AbsentBelow(d: Disk, at: nat, n: nat)
    requires d.Shaped() && d.QcowDisk? && SameRun(d, Below, at, n)
    ensures at + n <= d.Size() && LeftBelow(d, at, n)
  {
    hide QcowMap.SourceOf;
    forall i: nat | at <= i < at + n
      ensures d.SourceOf(i) == Below && d.Backed(i)
    {
      assert d.qcow.SourceOf(i) == Below;
    }
  }

  method QcowPiece(d: Disk, entry: nat, bitmap: nat, within: nat, take: nat, at: nat) returns (r: Result<seq<byte>>)
    requires d.Shaped() && d.QcowDisk? && InCluster(d, entry, bitmap, within, take, at) && take > 0
    ensures at + take <= d.Size() && Gives(d, at, take, r)
    decreases d, 1, 0
  {
    hide QcowMap.SourceOf, Disk.ByteAt, Disk.Shaped, BitOf, Low, InCluster, Gives, SameRun, StoredRun, Sound,
      QcowMap.Compressed, QcowMap.Absent, QcowMap.Shaped, Disk.Size, QcowMap.Inflated;
    var q := d.qcow;
    PieceIs(d, entry, bitmap, within, take, at);
    if q.version == 1 && q.Absent(entry) {
      r := QcowAbsent(d, at, take);
    } else if q.Compressed(entry) {
      var data := QcowCompressed(q, entry);
      if data.Raised? {
        return Raised;
      }
      r := Ok(data.value[within..within + take]);
    } else if q.extended {
      r := QcowSubclusters(d, entry, bitmap, within, take, at);
    } else if q.ZeroCluster(entry) {
      r := Ok(Zeros(take));
    } else if q.Absent(entry) {
      r := QcowAbsent(d, at, take);
    } else {
      r := QcowStored(d, q.Base(entry), within, take, at);
    }
  }

  /** What the bytes of a piece are, case by case. */
  lemma PieceIs(d: Disk, entry: nat, bitmap: nat, within: nat, take: nat, at: nat)
    requires d.Shaped() && d.QcowDisk? && InCluster(d, entry, bitmap, within, take, at) && take > 0
    ensures d.qcow.Shaped() && at + take <= d.Size() && within + take <= d.qcow.cluster
    ensures var q := d.qcow;
      if q.version == 1 && q.Absent(entry) then SameRun(d, Below, at, take)
      else if q.Compressed(entry) then
        Gives(d, at, take, if q.Inflated(entry).Raised? then Raised
                           else Ok(q.Inflated(entry).value[within..within + take]))
      else if q.extended then true
      else if q.ZeroCluster(entry) then Gives(d, at, take, Ok(Zeros(take)))
      else if q.Absent(entry) then SameRun(d, Below, at, take)
      else StoredRun(d, q.Base(entry) + within, at, take)
  {
    hide QcowMap.SourceOf, Disk.ByteAt, Disk.Shaped, BitOf, Low, Gives, Sound, QcowMap.Inflated;
    BeneathShaped(d);
    var q := d.qcow;
    if q.version == 1 && q.Absent(entry) {
    } else if q.Compressed(entry) {
      InflatedGives(d, entry, bitmap, within, take, at);
    } else if !q.extended && q.ZeroCluster(entry) {
      ZerosRead(d, at, take);
    }
  }

  lemma InflatedGives(d: Disk, entry: nat, bitmap: nat, within: nat, take: nat, at: nat)
    requires d.Shaped() && d.QcowDisk? && InCluster(d, entry, bitmap, within, take, at) && take > 0
    requires d.qcow.ClusterPower() && d.qcow.Compressed(entry) && !(d.qcow.version == 1 && d.qcow.Absent(entry))
    ensures Gives(d, at, take, if d.qcow.Inflated(entry).Raised? then Raised
                               else Ok(d.qcow.Inflated(entry).value[within..within + take]))
  {
    hide QcowMap.SourceOf, Disk.ByteAt, Disk.Shaped, BitOf, Low, Gives, Sound, QcowMap.CompressedBytes,
      QcowMap.Compressed, QcowMap.Absent;
    LayerOf(d);
    var q := d.qcow;
    assert q.SourceOf(at) == q.InflatedByte(entry, within);
    if q.Inflated(entry).Raised? {
      MissingGives(d, at, take, at);
    } else {
      FromShows(d, at, q.Inflated(entry).value[within..within + take]);
    }
  }

  /** `_qcow_stored`: the cluster's bytes from the data file, or an error where it ends first. */
  method QcowStored(d: Disk, base: nat, within: nat, take: nat, at: nat) returns (r: Result<seq<byte>>)
    requires d.Shaped() && d.QcowDisk? && StoredRun(d, base + within, at, take) && take > 0
    ensures at + take <= d.Size() && Gives(d, at, take, r)
  {
    hide QcowMap.SourceOf, Disk.ByteAt, Gives;
    r := ReadExactly(d.qcow.Data(), base + within, take);
    if r.Ok? {
      FromShows(d, at, r.value);
    } else {
      MissingGives(d, at, take, at + take - 1);
    }
  }

  /** Extended entries: each 32nd of a cluster by its own two bits. */
  method QcowSubclusters(d: Disk, entry: nat, bitmap: nat, within: nat, take: nat, at: nat)
      returns (r: Result<seq<byte>>)
    requires d.Shaped() && d.QcowDisk? && InCluster(d, entry, bitmap, within, take, at)
    requires d.qcow.extended && !d.qcow.Compressed(entry)
    ensures at + take <= d.Size() && Gives(d, at, take, r)
    decreases d, 0, 3
  {
    hide Disk.ByteAt, Disk.Shaped, Disk.LayerShaped, Disk.Size, InCluster, Got, Gives, QcowMap.Compressed;
    PieceInside(d, entry, bitmap, within, take, at);
    GotNothing(d, at);
    var out, done := [], 0;
    while done < take
      invariant 0 <= done <= take && |out| == done && Got(d, at, out)
    {
      var piece, part := QcowSubcluster(d, entry, bitmap, within, take, at, done);
      if piece.Raised? {
        GotNoMore(d, at, out, part, piece, take);
        return Raised;
      }
      GotMore(d, at, out, part, piece);
      out := out + piece.value;
      done := done + part;
    }
    GotAll(d, at, out);
    r := Ok(out);
  }

  /** The part of a piece in the subcluster its byte `done` is in. */
  method QcowSubcluster(d: Disk, entry: nat, bitmap: nat, within: nat, take: nat, at: nat, done: nat)
      returns (r: Result<seq<byte>>, part: nat)
    requires d.Shaped() && d.QcowDisk? && InCluster(d, entry, bitmap, within, take, at) && done < take
    requires d.qcow.extended && !d.qcow.Compressed(entry)
    ensures 0 < part <= take - done && at + done + part <= d.Size() && Gives(d, at + done, part, r)
    decreases d, 0, 2
  {
    hide QcowMap.SourceOf, Disk.ByteAt, Disk.Shaped, Disk.LayerShaped, Disk.Size, Div, Mod, BitOf,
      QcowMap.OffsetOf, StoredAt, QcowMap.Compressed, QcowMap.Shaped, InCluster, Gives, StoredRun, SameRun;
    SubclusterSize(d);
    var sub := d.qcow.cluster / 32;
    var k, inside := Div(within + done, sub), Mod(within + done, sub);
    part := Min(sub - inside, take - done);
    Subcluster(d, entry, bitmap, within, take, at, done, part);
    if BitOf(bitmap, k) {
      r := QcowStored(d, d.qcow.OffsetOf(entry), within + done, part, at + done);
    } else if BitOf(bitmap, 32 + k) {
      r := Ok(Zeros(part));
      ZerosRead(d, at + done, part);
    } else {
      r := QcowAbsent(d, at + done, part);
    }
  }

  lemma PieceInside(d: Disk, entry: nat, bitmap: nat, within: nat, take: nat, at: nat)
    requires d.Shaped() && d.QcowDisk? && InCluster(d, entry, bitmap, within, take, at)
    ensures at + take <= d.Size()
  {
  }

  lemma SubclusterSize(d: Disk)
    requires d.Shaped() && d.QcowDisk?
    ensures d.qcow.cluster / 32 > 0
  {
  }

  /** One subcluster's share of a piece, by its bits. */
  lemma Subcluster(d: Disk, entry: nat, bitmap: nat, within: nat, take: nat, at: nat, done: nat, part: nat)
    requires d.Shaped() && d.QcowDisk? && InCluster(d, entry, bitmap, within, take, at) && done + part <= take
    requires d.qcow.extended && !d.qcow.Compressed(entry)
    requires d.qcow.cluster / 32 > 0 && Mod(within + done, d.qcow.cluster / 32) + part <= d.qcow.cluster / 32
    ensures at + done + part <= d.Size()
    ensures
      var q, k := d.qcow, Div(within + done, d.qcow.cluster / 32);
      if BitOf(bitmap, k) then StoredRun(d, q.OffsetOf(entry) + (within + done), at + done, part)
      else SameRun(d, if BitOf(bitmap, 32 + k) then ZeroFill else Below, at + done, part)
  {
    hide QcowMap.SourceOf, Disk.ByteAt, Disk.Shaped, Disk.LayerShaped, Disk.Size, Div, Mod, BitOf, Low, QcowMap.Piece,
      QcowMap.OffsetOf, StoredAt, QcowMap.InflatedByte, QcowMap.Shaped, QcowMap.Compressed;
    var q := d.qcow;
    LayerOf(d);
    var sub := q.cluster / 32;
    var k, inside := Div(within + done, sub), Mod(within + done, sub);
    PieceInside(d, entry, bitmap, within, take, at);
    DivParts(within + done, sub);
    forall i | at + done <= i < at + done + part
      ensures q.SourceOf(i) == if BitOf(bitmap, k) then StoredAt(q.Data(), q.OffsetOf(entry) + within + i - at)
                               else if BitOf(bitmap, 32 + k) then ZeroFill
                               else Below
    {
      DivUnique(within + i - at, sub, k, inside + i - at - done);
      ExtendedPiece(q, entry, bitmap, within + i - at);
    }
  }

  lemma ExtendedPiece(q: QcowMap, entry: nat, bitmap: nat, w: nat)
    requires q.Shaped() && w < q.cluster && q.extended && !q.Compressed(entry)
    ensures q.cluster / 32 > 0
    ensures var k := Div(w, q.cluster / 32);
      q.Piece(entry, bitmap, w) == if BitOf(bitmap, k) then StoredAt(q.Data(), q.OffsetOf(entry) + w)
                                   else if BitOf(bitmap, 32 + k) then ZeroFill
                                   else Below
  {
    hide Div, BitOf, QcowMap.OffsetOf, StoredAt, QcowMap.InflatedByte, QcowMap.Compressed;
  }

  /** A cluster's entry, from the second-level table where there is one. */
  method QcowEntry(q: QcowMap, index: nat) returns (r: Result<(nat, nat)>)
    requires q.l2Entries > 0
    ensures r.Ok? <==> q.TableReadable(Div(index, q.l2Entries))
    ensures r.Ok? ==> r.value == q.EntryOf(index)
  {
    hide Div, Mod, BeValue;
    var l1Index, l2Index := Div(index, q.l2Entries), Mod(index, q.l2Entries);
    var table := None;
    if l1Index < |q.l1| {
      table :- QcowTable(q, l1Index);
    }
    var entry, bitmap := 0, 0;
    if table.Some? {
      if q.extended {
        entry, bitmap := table.value[2 * l2Index], table.value[2 * l2Index + 1];
      } else {
        entry := table.value[l2Index];
      }
    }
    r := Ok((entry, bitmap));
  }

  /** Without its table a cluster's bytes are missing. */
  lemma ClusterMissing(d: Disk, at: nat, n: nat, index: nat, within: nat)
    requires d.Shaped() && d.QcowDisk? && at + n <= d.Size() && n > 0 && d.qcow.cluster > 0 && d.qcow.l2Entries > 0
    requires at == index * d.qcow.cluster + within && within < d.qcow.cluster
    ensures !d.qcow.TableReadable(Div(index, d.qcow.l2Entries)) ==> Gives(d, at, n, Raised)
  {
    hide Div, QcowMap.TableReadable, QcowMap.SourceOf, Disk.ByteAt;
    ClusterUnread(d.qcow, index, within, at);
    if !d.qcow.TableReadable(Div(index, d.qcow.l2Entries)) {
      MissingGives(d, at, n, at);
    }
  }

  lemma ClusterIs(d: Disk, at: nat, take: nat, index: nat, within: nat)
    requires d.Shaped() && d.QcowDisk? && at + take <= d.Size() && d.qcow.cluster > 0 && d.qcow.l2Entries > 0
    requires at == index * d.qcow.cluster + within && within + take <= d.qcow.cluster
    requires d.qcow.TableReadable(Div(index, d.qcow.l2Entries))
    ensures InCluster(d, d.qcow.EntryOf(index).0, d.qcow.EntryOf(index).1, within, take, at)
  {
    hide Div, QcowMap.Piece, QcowMap.EntryOf, QcowMap.TableReadable, QcowMap.Shaped, QcowMap.SourceOf, Disk.ByteAt,
      Disk.Shaped, Disk.SourceOf;
    var q := d.qcow;
    LayerOf(d);
    var e := q.EntryOf(index);
    forall i: nat | at <= i < at + take
      ensures q.SourceOf(i) == q.Piece(e.0, e.1, within + i - at)
    {
      ClusterByte(q, index, within + i - at, i);
    }
  }

  lemma ClusterUnread(q: QcowMap, index: nat, w: nat, i: nat)
    requires q.Shaped() && i < q.size && i == index * q.cluster + w && w < q.cluster
    ensures !q.TableReadable(Div(index, q.l2Entries)) ==> q.SourceOf(i) == Missing
  {
    hide Div, Mod, QcowMap.Piece, QcowMap.EntryOf, QcowMap.TableReadable;
    DivUnique(i, q.cluster, index, w);
  }

  lemma ClusterByte(q: QcowMap, index: nat, w: nat, i: nat)
    requires q.Shaped() && i < q.size && i == index * q.cluster + w && w < q.cluster
    requires q.TableReadable(Div(index, q.l2Entries))
    ensures q.SourceOf(i) == q.Piece(q.EntryOf(index).0, q.EntryOf(index).1, w)
  {
    hide Div, Mod, QcowMap.Piece, QcowMap.EntryOf, QcowMap.TableReadable;
    DivUnique(i, q.cluster, index, w);
  }

  method QcowChunk(d: Disk, n: nat) returns (r: Result<seq<byte>>)
    requires d.Shaped() && d.QcowDisk? && n * d.ChunkSize() < d.Size()
    ensures GivesChunk(d, n, r)
    decreases d, 1, 2
  {
    hide Disk.ByteAt, Disk.Shaped, Div, Mod, QcowMap.EntryOf, QcowMap.TableReadable, InCluster, Got, Gives, Disk.Size;
    LayerOf(d);
    var q := d.qcow;
    var start := n * MIB;
    var want := Min(MIB, q.size - start);
    GotNothing(d, start);
    var out, at := [], start;
    while at < start + want
      invariant start <= at <= start + want && |out| == at - start && Got(d, start, out)
    {
      var index, within := Div(at, q.cluster), Mod(at, q.cluster);
      DivParts(at, q.cluster);
      var take := Min(q.cluster - within, start + want - at);
      ClusterMissing(d, at, take, index, within);
      var entry := QcowEntry(q, index);
      if entry.Raised? {
        GotNoMore(d, start, out, take, Raised, want);
        return Raised;
      }
      ClusterIs(d, at, take, index, within);
      var piece := QcowPiece(d, entry.value.0, entry.value.1, within, take, at);
      if piece.Raised? {
        GotNoMore(d, start, out, take, piece, want);
        return Raised;
      }
      GotMore(d, start, out, take, piece);
      out := out + piece.value;
      at := at + take;
    }
    GotAll(d, start, out);
    r := Ok(out);
  }

  // ---- an undamaged chain ----

  /** Nothing is missing from an intact layer. */
  lemma IntactBacked(d: Disk, i: nat)
    requires d.LayerShaped() && d.LayerIntact() && i < d.Size()
    ensures d.Backed(i)
  {
    hide Div, Mod, CeilDiv, QcowMap.SourceOf, PayloadIndex, BitmapIndex, Ratio, Low, Shr;
    if d.VhdDisk? && !d.vhd.fixed {
      BelowCeil(i, d.vhd.size, d.vhd.block);
      DivParts(i, d.vhd.block);
    } else if d.VhdxDisk? {
      d.vhdx.BlockInTable(d.parent.Some?, i);
    }
  }

  /** Every byte of an undamaged chain of disks can be read. */
  lemma {:induction false} IntactReadable(d: Disk, i: nat)
    requires d.Shaped() && d.Intact()
    ensures Readable(d, i) && (i < d.Size() ==> Sound(d, i))
    decreases d
  {
    hide Disk.Backed, Disk.SourceOf, Disk.LayerShaped, Disk.LayerIntact, Div;
    forall j: nat | j < d.Size()
      ensures Sound(d, j)
    {
      IntactBacked(d, j);
      if d.Beneath().Some? {
        IntactReadable(d.Beneath().value, j);
      }
    }
  }

  lemma IntactReads(d: Disk, at: nat, n: nat)
    requires d.Shaped()
    ensures d.Intact() ==> AllReadable(d, at, n)
  {
    hide Readable, Sound;
    if d.Intact() {
      forall i: nat | at <= i < at + n
        ensures Readable(d, i)
      {
        IntactReadable(d, i);
      }
    }
  }

  lemma IntactNeverRaised(d: Disk, at: nat, n: nat)
    requires d.Shaped()
    ensures d.Intact() ==> !Reads(d, at, n, Raised)
  {
    hide Disk.Shaped, Disk.Intact, AllReadable, Shows;
    IntactReads(d, at, n);
  }
}
