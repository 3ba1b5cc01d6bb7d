/** Where each byte of a virtual disk comes from: the block maps of VHD, VHDX and QCOW, byte by byte. */
module DiskMaps {
  import opened Bits
  import opened Prelude
  import opened Division
  import opened VhdxBat
  import opened VhdxOverlay

  /** A byte this layer stores, a zero it states, a byte of the layer below, or a byte that cannot be
      read because what says where it is, or the byte itself, is not there. */
  datatype Source = Stored(b: byte) | ZeroFill | Below | Missing

  function StoredAt(file: seq<byte>, i: nat): Source { if i < |file| then Stored(file[i]) else Missing }

  predicate BitOf(x: nat, k: nat) { Low(Shr(x, k), 1) == 1 }

  const MIB: nat := 0x100000

  // ---- VHD ----

  const VHD_UNUSED: nat := 0xFFFFFFFF

  /** A VHD: a fixed one is its data; another has a table of blocks, each stored after a bitmap of its
      512-byte sectors, the highest bit first. */
  datatype VhdMap = VhdMap(file: seq<byte>, size: nat, fixed: bool, block: nat, bitmapBytes: nat, bat: seq<nat>) {
    function ChunkSize(): nat { if fixed then MIB else Min(block, MIB) }

    /** What opening the file makes sure of. */
    ghost predicate Shaped()
    {
      && size % 512 == 0
      && (!fixed ==>
            && block >= 512 && block % 512 == 0 && (block <= MIB || block % MIB == 0)
            && CeilDiv(size, block) <= |bat| && block <= 8 * 512 * bitmapBytes)
    }

    /** Every stored block lies inside the file, which opening it checks. */
    ghost predicate Intact()
      requires Shaped()
    {
      if fixed then size <= |file|
      else forall k :: 0 <= k < |bat| && bat[k] != VHD_UNUSED && k * block < size ==>
        bat[k] * 512 + bitmapBytes + Min(block, size - k * block) <= |file|
    }

    predicate SectorPresent(k: nat, s: nat)
      requires k < |bat|
    {
      BitOf(FileByte(file, bat[k] * 512 + s / 8), 7 - s % 8)
    }

    function SourceOf(hasParent: bool, i: nat): Source
      requires Shaped() && i < size
    {
      if fixed then StoredAt(file, i)
      else
        BelowCeil(i, size, block);
        SourceIn(hasParent, Div(i, block), Mod(i, block))
    }

    /** Byte `w` of block `k`. */
    function SourceIn(hasParent: bool, k: nat, w: nat): Source
      requires k < |bat|
    {
      if bat[k] == VHD_UNUSED then Below
      else if hasParent && bat[k] * 512 + bitmapBytes > |file| then Missing
      else if !hasParent || SectorPresent(k, w / 512) then StoredAt(file, bat[k] * 512 + bitmapBytes + w)
      else Below
    }

    /** The block of byte `i`, if it is stored, is stored as far as that byte, which reading any of its
        sectors needs, the parent's among them. */
    predicate DataThere(i: nat)
      requires Shaped() && i < size
    {
      !fixed ==>
        (BelowCeil(i, size, block);
         bat[Div(i, block)] != VHD_UNUSED ==> bat[Div(i, block)] * 512 + bitmapBytes + Mod(i, block) < |file|)
    }

    /** A chunk lies in one block and starts with one of its sectors. */
    lemma ChunkInBlock(hasParent: bool, n: nat, r: nat)
      requires Shaped() && !fixed && r < ChunkSize() && n * ChunkSize() + r < size
      ensures var k, w := Div(n * ChunkSize(), block), Mod(n * ChunkSize(), block);
        && k < |bat| && w % 512 == 0 && w + ChunkSize() <= block && k * block + w == n * ChunkSize()
        && SourceOf(hasParent, n * ChunkSize() + r) == SourceIn(hasParent, k, w + r)
        && (DataThere(n * ChunkSize() + r) <==>
              bat[k] != VHD_UNUSED ==> bat[k] * 512 + bitmapBytes + w + r < |file|)
    {
      hide Div, Mod, VhdMap.SourceIn, CeilDiv;
      var chunk := ChunkSize();
      var times := if block <= MIB then 1 else block / MIB;
      assert block == chunk * times && times > 0;
      RunInBlock(n, chunk, times, r);
      RunInBlock(n, chunk, times, chunk - 1);
      BelowCeil(n * chunk, size, block);
      DivParts(n * chunk, block);
      SectorStarts(n, chunk, Div(n * chunk, block), block);
    }
  }

  lemma SectorStarts(n: nat, chunk: nat, k: nat, block: nat)
    requires chunk % 512 == 0 && block % 512 == 0
    ensures (n * chunk - k * block) % 512 == 0
  {
    var c, b := chunk / 512, block / 512;
    assert n * (512 * c) == 512 * (n * c);
    assert k * (512 * b) == 512 * (k * b);
  }

  // ---- VHDX ----

  /** A VHDX: its file as the replayed log leaves it, and its table of blocks. */
  datatype VhdxMap = VhdxMap(store: nat -> byte, size: nat, block: nat, logical: nat, bat: seq<nat>) {
    function BlockRatio(): nat
      requires block > 0
    {
      Ratio(block, logical)
    }

    function State(i: nat): nat
      requires block > 0 && BlockRatio() > 0 && PayloadIndex(BlockRatio(), i) < |bat|
    {
      Low(bat[PayloadIndex(BlockRatio(), i)], 3)
    }

    /** What opening the file makes sure of: among it, that a partly present block has a parent. */
    ghost predicate Shaped(hasParent: bool)
    {
      && Sizes(block, logical) && size % logical == 0 && BlockRatio() > 0
      && (size > 0 ==> Entries(CeilDiv(size, block), BlockRatio(), hasParent) <= |bat|)
      && (forall k :: 0 <= k < CeilDiv(size, block) && PayloadIndex(BlockRatio(), k) < |bat| ==>
            State(k) != 4 && State(k) != 5 && (State(k) == 7 ==> hasParent))
    }

    /** Every partly present block's sector bitmap is stored, which nothing checks before it is read. */
    ghost predicate Intact()
      requires block > 0 && BlockRatio() > 0
    {
      forall k :: 0 <= k < CeilDiv(size, block) && PayloadIndex(BlockRatio(), k) < |bat| && State(k) == 7 ==>
        && BitmapIndex(BlockRatio(), Div(k, BlockRatio())) < |bat|
        && Low(bat[BitmapIndex(BlockRatio(), Div(k, BlockRatio()))], 3) == 6
    }

    /** Where an entry says its megabytes are. */
    function Place(entry: nat): nat { Shr(entry, 20) * MIB }

    predicate SectorPresent(bitmapEntry: nat, s: nat)
    {
      BitOf(store(Place(bitmapEntry) + s / 8), s % 8)
    }

    function SourceOf(hasParent: bool, i: nat): Source
      requires Shaped(hasParent) && i < size
    {
      BlockInTable(hasParent, i);
      SameRow(block, logical, i);
      SourceIn(hasParent, Div(i, block), Mod(i, block), Div(i, logical))
    }

    /** Byte `w` of block `k`, in the given sector of the disk. */
    function SourceIn(hasParent: bool, k: nat, w: nat, sector: nat): Source
      requires block > 0 && BlockRatio() > 0 && PayloadIndex(BlockRatio(), k) < |bat|
      requires State(k) == 7 ==> BitmapIndex(BlockRatio(), sector / PER_CHUNK) < |bat|
    {
      var stored := Stored(store(Place(bat[PayloadIndex(BlockRatio(), k)]) + w));
      if State(k) == 6 then stored
      else if State(k) == 7 then
        if Low(bat[BitmapIndex(BlockRatio(), sector / PER_CHUNK)], 3) != 6 then Missing
        else if SectorPresent(bat[BitmapIndex(BlockRatio(), sector / PER_CHUNK)], sector % PER_CHUNK) then stored
        else Below
      else if hasParent && State(k) == 0 then Below
      else ZeroFill
    }

    lemma BlockInTable(hasParent: bool, i: nat)
      requires Shaped(hasParent) && i < size
      ensures Div(i, block) < CeilDiv(size, block) && PayloadIndex(BlockRatio(), Div(i, block)) < |bat|
      ensures hasParent ==> BitmapIndex(BlockRatio(), Div(Div(i, block), BlockRatio())) < |bat|
      ensures State(Div(i, block)) == 7 ==> BitmapIndex(BlockRatio(), Div(i, logical) / PER_CHUNK) < |bat|
      ensures Div(i, logical) / PER_CHUNK == Div(Div(i, block), BlockRatio())
    {
      hide Div, Mod, CeilDiv, Entries, PayloadIndex, BitmapIndex, Ratio, Low;
      assert block > 0 && logical > 0;
      BelowCeil(i, size, block);
      IndicesFit(CeilDiv(size, block), BlockRatio(), hasParent, Div(i, block));
      SameRow(block, logical, i);
      DivIsQuotient(Div(i, logical), PER_CHUNK);
    }

    /** A chunk lies in one block; all its sectors are in that block's bitmap. */
    lemma ChunkInBlock(hasParent: bool, n: nat, r: nat)
      requires Shaped(hasParent) && r < MIB && n * MIB + r < size
      ensures var k, w := Div(n * MIB, block), Mod(n * MIB, block);
        && Div(n * MIB + r, block) == k && Mod(n * MIB + r, block) == w + r
        && PayloadIndex(BlockRatio(), k) < |bat| && (State(k) == 7 ==> hasParent)
        && k < CeilDiv(size, block)
        && Div(n * MIB + r, logical) / PER_CHUNK == Div(k, BlockRatio())
        && (hasParent ==> BitmapIndex(BlockRatio(), Div(k, BlockRatio())) < |bat|)
    {
      hide Div, Mod, CeilDiv, Entries, PayloadIndex, BitmapIndex, Ratio, Low;
      RatioExact(block, logical);
      BlockInTable(hasParent, n * MIB + r);
      BlockInTable(hasParent, n * MIB);
      RunInBlock(n, MIB, block / MIB, r);
    }
  }

  // ---- QCOW ----

  /** Python's `struct` for a big-endian field. */
  function BeValue(s: seq<byte>): nat
  {
    if s == [] then 0 else BeValue(s[..|s| - 1]) * 256 + s[|s| - 1]
  }

  function BeBytes(v: nat, n: nat): (s: seq<byte>)
    ensures |s| == n
  {
    if n == 0 then [] else BeBytes(v / 256, n - 1) + [v % 256]
  }

  lemma {:induction false} BeRoundTrip(v: nat, n: nat)
    requires v < Pow2(8 * n)
    ensures BeValue(BeBytes(v, n)) == v
  {
    if n != 0 {
      Byte8(0, n - 1);
      BeRoundTrip(v / 256, n - 1);
      assert BeBytes(v, n)[..n - 1] == BeBytes(v / 256, n - 1);
    }
  }

  /** `struct.unpack` of `n` big-endian eight-byte fields. */
  function UnpackBe(s: seq<byte>, n: nat): (fields: seq<nat>)
    requires |s| >= 8 * n
    ensures |fields| == n && forall j :: 0 <= j < n ==> fields[j] == BeValue(s[8 * j..8 * j + 8])
  {
    if n == 0 then [] else UnpackBe(s, n - 1) + [BeValue(s[8 * (n - 1)..8 * n])]
  }

  function PackBe(fields: seq<nat>): (s: seq<byte>)
    ensures |s| == 8 * |fields|
  {
    if fields == [] then [] else PackBe(fields[..|fields| - 1]) + BeBytes(fields[|fields| - 1], 8)
  }

  lemma {:induction false} PackedField(fields: seq<nat>, j: nat)
    requires j < |fields| && fields[j] < Pow2(64)
    ensures BeValue(PackBe(fields)[8 * j..8 * j + 8]) == fields[j]
  {
    hide BeValue, BeBytes, Pow2;
    var n := |fields| - 1;
    var fewer, last := PackBe(fields[..n]), BeBytes(fields[n], 8);
    if j < n {
      PackedField(fields[..n], j);
      assert PackBe(fields)[8 * j..8 * j + 8] == fewer[8 * j..8 * j + 8];
    } else {
      BeRoundTrip(fields[n], 8);
      assert PackBe(fields)[8 * j..8 * j + 8] == last;
    }
  }

  /** The bytes from `at` to the end of the 512-byte sector that many after its own. */
  function ToSectorEnd(at: nat, sectors: nat): nat { (sectors + 1) * 512 - at % 512 }

  function SectorsAfter(at: nat, n: nat): nat
    requires n > 0
  {
    (at % 512 + n - 1) / 512
  }

  lemma SectorsHold(at: nat, n: nat)
    requires n > 0
    ensures var length := ToSectorEnd(at, SectorsAfter(at, n)); n <= length < n + 512 && (at + length) % 512 == 0
  {
  }

  /** The place of a compressed cluster in an entry of version 1: its offset and its number of bytes. */
  function BytePlace(bits: nat, entry: nat): (nat, nat)
    requires 9 <= bits <= 21
  {
    (Low(entry, 63 - bits), Low(Shr(entry, 63 - bits), bits))
  }

  /** And in a later one: its offset and the sectors after its first that it reaches into. */
  function SectorPlace(bits: nat, entry: nat): (nat, nat)
    requires 9 <= bits <= 21
  {
    var e := Low(entry, 62);
    (Low(e, 70 - bits), ToSectorEnd(Low(e, 70 - bits), Low(Shr(e, 70 - bits), bits - 8)))
  }

  /** The entries of compressed clusters in those places, their flags set. */
  function ByteEntry(bits: nat, at: nat, n: nat): nat
    requires 9 <= bits <= 21
  {
    Shl(1, 63) + (Shl(n, 63 - bits) + at)
  }

  function SectorEntry(bits: nat, at: nat, n: nat): nat
    requires 9 <= bits <= 21 && n > 0
  {
    Shl(1, 62) + (Shl(SectorsAfter(at, n), 70 - bits) + at)
  }

  lemma LowSmall(x: nat, n: nat)
    requires x < Pow2(n)
    ensures Low(x, n) == x
  {
    ShlZero(n);
    Join(0, x, n);
  }

  lemma FlagAbove(y: nat, n: nat)
    requires y < Pow2(n)
    ensures Low(Shl(1, n) + y, n) == y && BitOf(Shl(1, n) + y, n)
  {
    Join(1, y, n);
  }

  /** Two fields, one above the other. */
  lemma TwoFields(high: nat, low: nat, m: nat, n: nat)
    requires high < Pow2(m) && low < Pow2(n)
    ensures var y := Shl(high, n) + low;
      y < Pow2(m + n) && Low(y, n) == low && Shr(y, n) == high && Low(high, m) == high
  {
    ShlBound(high, low, m, n);
    Join(high, low, n);
    LowSmall(high, m);
  }

  /** The place packed into an entry is the place read from it: exactly in version 1, ... */
  lemma BytePlaceRoundTrip(bits: nat, at: nat, n: nat)
    requires 9 <= bits <= 21 && at < Pow2(63 - bits) && n < Pow2(bits)
    ensures BitOf(ByteEntry(bits, at, n), 63) && BytePlace(bits, ByteEntry(bits, at, n)) == (at, n)
  {
    hide Pow2, Shl, Shr, Low, BitOf;
    var y := Shl(n, 63 - bits) + at;
    TwoFields(n, at, bits, 63 - bits);
    FlagAbove(y, 63);
    LowPrefix(1, y, 63, 63 - bits);
    ShrPrefix(1, y, 63, 63 - bits);
    LowPrefix(1, n, bits, bits);
  }

  lemma SectorPlaceIs(bits: nat, at: nat, sectors: nat)
    requires 9 <= bits <= 21 && at < Pow2(70 - bits) && sectors < Pow2(bits - 8)
    ensures var entry := Shl(1, 62) + (Shl(sectors, 70 - bits) + at);
      BitOf(entry, 62) && SectorPlace(bits, entry) == (at, ToSectorEnd(at, sectors))
  {
    hide Pow2, Shl, Shr, Low, BitOf, ToSectorEnd;
    TwoFields(sectors, at, bits - 8, 70 - bits);
    FlagAbove(Shl(sectors, 70 - bits) + at, 62);
  }

  /** ... and later whole sectors that hold it, the first cut to where it starts. */
  lemma SectorPlaceRoundTrip(bits: nat, at: nat, n: nat)
    requires 9 <= bits <= 21 && at < Pow2(70 - bits) && n > 0 && SectorsAfter(at, n) < Pow2(bits - 8)
    ensures BitOf(SectorEntry(bits, at, n), 62)
    ensures var (from, length) := SectorPlace(bits, SectorEntry(bits, at, n));
      from == at && n <= length < n + 512 && (from + length) % 512 == 0
  {
    hide Pow2, Shl, BitOf, SectorPlace, ToSectorEnd, SectorsAfter;
    SectorsHold(at, n);
    SectorPlaceIs(bits, at, SectorsAfter(at, n));
  }

  /** A QCOW: two levels of tables over clusters, whose data may be in a file of its own; `inflate` is
      the codec: what decompressing some bytes gives, or nothing when it fails. */
  datatype QcowMap = QcowMap(file: seq<byte>, external: Option<seq<byte>>, size: nat, version: nat, cluster: nat,
                             l1: seq<nat>, l2Entries: nat, extended: bool, inflate: seq<byte> -> Option<seq<byte>>)
  {
    ghost predicate Shaped()
    {
      && cluster >= 32 && cluster % 32 == 0 && ClusterPower()
      && l2Entries > 0 && 1 <= version <= 3 && (extended ==> version == 3)
    }

    ghost predicate ClusterPower() { 9 <= ClusterBits() <= 21 && cluster == Pow2(ClusterBits()) }

    function ClusterBits(): int { BitLength(cluster) - 1 }

    function Data(): seq<byte> { if external.Some? then external.value else file }

    function TableFields(): nat { l2Entries * (if extended then 2 else 1) }

    /** Bits 9 to 55 of an entry. */
    function OffsetOf(entry: nat): nat { Shl(Low(Shr(entry, 9), 47), 9) }

    /** Where a second-level table is, or zero when there is none. */
    function TableOffset(index: nat): nat
      requires index < |l1|
    {
      if version > 1 then OffsetOf(l1[index]) else l1[index]
    }

    predicate HasTable(index: nat) { index < |l1| && TableOffset(index) != 0 }

    predicate TableReadable(index: nat)
    {
      HasTable(index) ==> TableOffset(index) + 8 * TableFields() <= |file|
    }

    /** Field `j` of the second-level table `index`. */
    function TableField(index: nat, j: nat): nat
      requires HasTable(index) && TableReadable(index) && j < TableFields()
    {
      BeValue(file[TableOffset(index) + 8 * j..TableOffset(index) + 8 * j + 8])
    }

    /** The entry of a cluster and its subcluster bitmap; both zero without a table. */
    function EntryOf(index: nat): (e: (nat, nat))
      requires l2Entries > 0 && TableReadable(Div(index, l2Entries))
    {
      var t, j := Div(index, l2Entries), Mod(index, l2Entries);
      if !HasTable(t) then (0, 0)
      else if extended then (TableField(t, 2 * j), TableField(t, 2 * j + 1))
      else (TableField(t, j), 0)
    }

    /** Where an entry says the bytes of a compressed cluster are, and how many. */
    function CompressedPlace(entry: nat): (nat, nat)
      requires ClusterPower()
    {
      if version == 1 then BytePlace(ClusterBits(), entry) else SectorPlace(ClusterBits(), entry)
    }

    /** The file's bytes there, as many of them as it has. */
    function CompressedBytes(entry: nat): seq<byte>
      requires ClusterPower()
    {
      var (at, n) := CompressedPlace(entry);
      file[Min(at, |file|)..Min(at + n, |file|)]
    }

    /** A cluster's bytes as the decompressor gives them, zeros after them. */
    function Inflated(entry: nat): (r: Result<seq<byte>>)
      requires ClusterPower()
      ensures r.Ok? <==> inflate(CompressedBytes(entry)).Some? && |inflate(CompressedBytes(entry)).value| <= cluster
      ensures r.Ok? ==>
        var d := inflate(CompressedBytes(entry)).value;
        |r.value| == cluster && forall k :: 0 <= k < cluster ==> r.value[k] == if k < |d| then d[k] else 0
    {
      match inflate(CompressedBytes(entry))
      case None => Raised
      case Some(d) => if |d| > cluster then Raised else Ok(d + Zeros(cluster - |d|))
    }

    /** What an entry makes of a whole cluster. */
    predicate Compressed(entry: nat) { if version == 1 then BitOf(entry, 63) else BitOf(entry, 62) }

    predicate ZeroCluster(entry: nat) { version == 3 && BitOf(entry, 0) }

    predicate Absent(entry: nat)
    {
      if version == 1 then entry == 0
      else OffsetOf(entry) == 0 && !(BitOf(entry, 63) && external.Some?)
    }

    /** Where a cluster's own bytes start. */
    function Base(entry: nat): nat { if version == 1 then entry else OffsetOf(entry) }

    /** Where byte `w` of a cluster with this entry comes from. */
    function Piece(entry: nat, bitmap: nat, w: nat): Source
      requires Shaped() && w < cluster
    {
      if version == 1 && Absent(entry) then Below
      else if Compressed(entry) then InflatedByte(entry, w)
      else if extended then
        var k := Div(w, cluster / 32);
        if BitOf(bitmap, k) then StoredAt(Data(), Base(entry) + w)
        else if BitOf(bitmap, 32 + k) then ZeroFill
        else Below
      else if ZeroCluster(entry) then ZeroFill
      else if Absent(entry) then Below
      else StoredAt(Data(), Base(entry) + w)
    }

    function InflatedByte(entry: nat, w: nat): Source
      requires ClusterPower() && w < cluster
    {
      var d := Inflated(entry);
      if d.Raised? then Missing else Stored(d.value[w])
    }

    function SourceOf(i: nat): Source
      requires Shaped() && i < size
    {
      var index := Div(i, cluster);
      if !TableReadable(Div(index, l2Entries)) then Missing
      else
        var e := EntryOf(index);
        Piece(e.0, e.1, Mod(i, cluster))
    }

    /** Every byte of the disk can be read. */
    ghost predicate Intact()
      requires Shaped()
    {
      forall i :: 0 <= i < size ==> SourceOf(i) != Missing
    }
  }

  /** A second-level table written as big-endian fields is read back, field by field. */
  lemma TableRoundTrip(q: QcowMap, index: nat, fields: seq<nat>, j: nat)
    requires q.HasTable(index) && |fields| == q.TableFields() && j < |fields| && fields[j] < Pow2(64)
    requires q.TableOffset(index) + 8 * |fields| <= |q.file|
    requires q.file[q.TableOffset(index)..q.TableOffset(index) + 8 * |fields|] == PackBe(fields)
    ensures q.TableReadable(index) && q.TableField(index, j) == fields[j]
  {
    hide BeValue, PackBe, Pow2;
    var at := q.TableOffset(index);
    PackedField(fields, j);
    SliceSlice(q.file, at, at + 8 * |fields|, 8 * j, 8 * j + 8);
  }

  // ---- layers ----

  /** A disk over the disk its map refers to, to any depth. */
  datatype Disk =
    | RawDisk(bytes: seq<byte>)
    | VhdDisk(vhd: VhdMap, parent: Option<Disk>)
    | VhdxDisk(vhdx: VhdxMap, parent: Option<Disk>)
    | QcowDisk(qcow: QcowMap, parent: Option<Disk>)
  {
    function Size(): nat
    {
      match this
      case RawDisk(bytes) => |bytes|
      case VhdDisk(v, _) => v.size
      case VhdxDisk(x, _) => x.size
      case QcowDisk(q, _) => q.size
    }

    function ChunkSize(): nat { if VhdDisk? then vhd.ChunkSize() else MIB }

    function Beneath(): Option<Disk> { if RawDisk? then None else parent }

    ghost predicate LayerShaped()
    {
      match this
      case RawDisk(_) => true
      case VhdDisk(v, p) => v.Shaped()
      case VhdxDisk(x, p) => x.Shaped(p.Some?)
      case QcowDisk(q, p) => q.Shaped()
    }

    ghost predicate Shaped() { LayerShaped() && (Beneath().Some? ==> Beneath().value.Shaped()) }

    ghost predicate LayerIntact()
      requires LayerShaped()
    {
      match this
      case RawDisk(_) => true
      case VhdDisk(v, p) => v.Intact()
      case VhdxDisk(x, p) => x.Intact()
      case QcowDisk(q, p) => q.Intact()
    }

    /** Nothing a read needs is missing, in this layer or below it. */
    ghost predicate Intact()
      requires Shaped()
    {
      LayerIntact() && (Beneath().Some? ==> Beneath().value.Intact())
    }

    function SourceOf(i: nat): Source
      requires LayerShaped() && i < Size()
    {
      match this
      case RawDisk(bytes) => Stored(bytes[i])
      case VhdDisk(v, p) => v.SourceOf(p.Some?, i)
      case VhdxDisk(x, p) => x.SourceOf(p.Some?, i)
      case QcowDisk(q, p) => q.SourceOf(i)
    }

    /** What byte `i` takes of this layer's own file is there. */
    predicate Backed(i: nat)
      requires LayerShaped() && i < Size()
    {
      SourceOf(i) != Missing && (VhdDisk? ==> vhd.DataThere(i))
    }

    /** Byte `i` of the disk: from the nearest layer that defines it, zero past a layer's end and
        where no layer does; none when the layer that has it cannot give it. */
    function ByteAt(i: nat): Option<byte>
      requires Shaped()
    {
      if i >= Size() then Some(0)
      else match SourceOf(i)
        case Stored(b) => Some(b)
        case ZeroFill => Some(0)
        case Below => if Beneath().None? then Some(0) else Beneath().value.ByteAt(i)
        case Missing => None
    }
  }

  // ---- the nearest layer, without recursion ----

  /** The layers from the top down. */
  function Layers(d: Disk): (ls: seq<Disk>)
    requires d.Shaped()
    ensures ls != [] && ls[0] == d && forall k :: 0 <= k < |ls| ==> ls[k].Shaped()
  {
    if d.Beneath().None? then [d] else [d] + Layers(d.Beneath().value)
  }

  /** A layer says something of a byte that is not "see below". */
  predicate Defines(l: Disk, i: nat)
    requires l.Shaped()
  {
    i >= l.Size() || l.SourceOf(i) != Below
  }

  /** A layer's word on a byte it defines. */
  function Says(l: Disk, i: nat): Option<byte>
    requires l.Shaped() && Defines(l, i)
  {
    if i >= l.Size() || l.SourceOf(i).ZeroFill? then Some(0)
    else if l.SourceOf(i).Stored? then Some(l.SourceOf(i).b)
    else None
  }

  /** The first layer at or after `k` that defines a byte; their number when none does. */
  function Nearest(ls: seq<Disk>, i: nat, k: nat): (m: nat)
    requires k <= |ls| && forall j :: 0 <= j < |ls| ==> ls[j].Shaped()
    ensures k <= m <= |ls| && (m < |ls| ==> Defines(ls[m], i)) && forall j :: k <= j < m ==> !Defines(ls[j], i)
    decreases |ls| - k
  {
    if k == |ls| || Defines(ls[k], i) then k else Nearest(ls, i, k + 1)
  }

  lemma {:induction false} NearestBelow(top: Disk, ls: seq<Disk>, i: nat, k: nat)
    requires k <= |ls| && top.Shaped() && forall j :: 0 <= j < |ls| ==> ls[j].Shaped()
    ensures Nearest([top] + ls, i, k + 1) == 1 + Nearest(ls, i, k)
    decreases |ls| - k
  {
    hide Defines;
    if k < |ls| {
      assert ([top] + ls)[k + 1] == ls[k];
      NearestBelow(top, ls, i, k + 1);
    }
  }

  /** A byte is what the first layer that defines it says, and zero when none does. */
  lemma {:induction false} NearestLayer(d: Disk, i: nat)
    requires d.Shaped()
    ensures var ls := Layers(d); var m := Nearest(ls, i, 0);
      d.ByteAt(i) == if m < |ls| then Says(ls[m], i) else Some(0)
    decreases d
  {
    hide Disk.SourceOf, Disk.LayerShaped;
    if d.Beneath().Some? {
      var p := d.Beneath().value;
      NearestLayer(p, i);
      NearestBelow(d, Layers(p), i, 0);
    } else {
      assert Layers(d) == [d];
    }
  }
}
