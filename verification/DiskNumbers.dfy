/** Where a disk's bytes are, in numbers: the maps of VHD, VHDX and QCOW disks with every flag, shift and
    bit order written out. */
module DiskNumbers {
  import opened Bits
  import opened Prelude
  import opened Division
  import opened BitArithmetic
  import opened VhdxBat
  import opened DiskMaps

  // ---- bits ----

  /** Bit `k` of a number. */
  lemma BitIs(x: nat, k: nat)
    ensures BitOf(x, k) <==> x / Pow2(k) % 2 == 1
  {
    hide Shr, Low, Pow2;
    ShrIs(x, k);
    LowOne(Shr(x, k));
  }

  lemma ByteBits(x: nat, k: nat)
    requires k < 8
    ensures BitOf(x, k) <==> x / [1, 2, 4, 8, 16, 32, 64, 128][k] % 2 == 1
    ensures BitOf(x, 7 - k) <==> x / [128, 64, 32, 16, 8, 4, 2, 1][k] % 2 == 1
  {
    hide Pow2, BitOf;
    Pow2Small();
    BitIs(x, k);
    BitIs(x, 7 - k);
  }

  lemma Megabytes(entry: nat)
    ensures Shr(entry, 20) == entry / 0x100000
  {
    hide Shr, Pow2;
    LargePowers();
    ShrIs(entry, 20);
  }

  // ---- VHD ----

  /** A byte of a VHD: in a fixed one where it is on the disk. */
  lemma FixedByte(v: VhdMap, hasParent: bool, i: nat)
    requires v.Shaped() && v.fixed && i < v.size
    ensures v.SourceOf(hasParent, i) == StoredAt(v.file, i)
  {
  }

  /** And else, byte `w` of block `k`, after that block's bitmap, unless there is a parent and the bitmap's
      bit of its sector, highest first, is clear. */
  lemma VhdByte(v: VhdMap, hasParent: bool, k: nat, w: nat, i: nat)
    requires v.Shaped() && !v.fixed && w < v.block && i == k * v.block + w && i < v.size
    ensures k < |v.bat| && w / 512 / 8 < v.bitmapBytes
    ensures VhdNumbers(v, hasParent, k, w, v.SourceOf(hasParent, i))
  {
    hide Div, Mod, CeilDiv, VhdMap.SourceIn, VhdNumbers;
    DivUnique(i, v.block, k, w);
    BelowCeil(i, v.size, v.block);
    VhdBlockByte(v, hasParent, k, w);
  }

  ghost predicate VhdNumbers(v: VhdMap, hasParent: bool, k: nat, w: nat, source: Source)
    requires k < |v.bat| && w / 512 / 8 < v.bitmapBytes
  {
    var at, s := v.bat[k] * 512, w / 512;
    && (v.bat[k] == 0xFFFFFFFF ==> source == Below)
    && (v.bat[k] != 0xFFFFFFFF && !hasParent ==> source == StoredAt(v.file, at + v.bitmapBytes + w))
    && (v.bat[k] != 0xFFFFFFFF && hasParent && at + v.bitmapBytes <= |v.file| ==>
          source == if v.file[at + s / 8] / [128, 64, 32, 16, 8, 4, 2, 1][s % 8] % 2 == 1 then
                      StoredAt(v.file, at + v.bitmapBytes + w)
                    else Below)
  }

  lemma VhdBlockByte(v: VhdMap, hasParent: bool, k: nat, w: nat)
    requires k < |v.bat| && w / 512 / 8 < v.bitmapBytes
    ensures VhdNumbers(v, hasParent, k, w, v.SourceIn(hasParent, k, w))
  {
    hide BitOf;
    var at, s := v.bat[k] * 512, w / 512;
    if at + v.bitmapBytes <= |v.file| {
      ByteBits(v.file[at + s / 8], s % 8);
    }
  }

  // ---- VHDX ----

  /** What a byte of the `c`-th block of a row of the table is, by the low three bits of the block's entry: 6 is
      stored at the entry's megabytes; 7 by its sector's bit, lowest first, in the bitmap that ends the row;
      0 is the parent's; all else reads as zeros. */
  ghost predicate VhdxNumbers(x: VhdxMap, hasParent: bool, ratio: nat, row: nat, c: nat, w: nat, sector: nat,
                              source: Source)
    requires row * (ratio + 1) + c < |x.bat|
    requires x.bat[row * (ratio + 1) + c] % 8 == 7 ==> row * (ratio + 1) + ratio < |x.bat|
  {
    var entry, s := x.bat[row * (ratio + 1) + c], sector % 0x800000;
    source ==
      if entry % 8 == 6 then Stored(x.store(entry / 0x100000 * 0x100000 + w))
      else if entry % 8 == 7 then
        var bits := x.bat[row * (ratio + 1) + ratio];
        if bits % 8 != 6 then Missing
        else if x.store(bits / 0x100000 * 0x100000 + s / 8) / [1, 2, 4, 8, 16, 32, 64, 128][s % 8] % 2 == 1 then
          Stored(x.store(entry / 0x100000 * 0x100000 + w))
        else Below
      else if hasParent && entry % 8 == 0 then Below
      else ZeroFill
  }

  /** Byte `w` of block `k`, which is block `c` of a row of as many as a bitmap has sectors for. */
  lemma VhdxByte(x: VhdxMap, hasParent: bool, ratio: nat, row: nat, c: nat, k: nat, w: nat, i: nat, sector: nat)
    requires x.Shaped(hasParent) && ratio * x.block == 0x800000 * x.logical && c < ratio && k == row * ratio + c
    requires w < x.block && i == k * x.block + w && i < x.size
    requires sector * x.logical <= i < sector * x.logical + x.logical
    ensures row * (ratio + 1) + c < |x.bat|
    ensures x.bat[row * (ratio + 1) + c] % 8 == 7 ==> row * (ratio + 1) + ratio < |x.bat|
    ensures VhdxNumbers(x, hasParent, ratio, row, c, w, sector, x.SourceOf(hasParent, i))
  {
    hide Div, Mod, CeilDiv, Low, VhdxMap.Shaped, VhdxMap.SourceIn, VhdxNumbers, Ratio, PayloadIndex, BitmapIndex,
      VhdxMap.State, VhdxMap.BlockRatio;
    RatioPositive(x, hasParent);
    RatioIs(x, hasParent, ratio);
    DivUnique(i, x.block, k, w);
    DivUnique(i, x.logical, sector, i - sector * x.logical);
    DivUnique(k, ratio, row, c);
    x.BlockInTable(hasParent, i);
    RowIndex(row, ratio, c, k);
    VhdxBlockByte(x, hasParent, ratio, row, c, k, w, sector);
  }

  lemma RowIndex(row: nat, ratio: nat, c: nat, k: nat)
    requires ratio > 0 && k == row * ratio + c && Div(k, ratio) == row
    ensures PayloadIndex(ratio, k) == row * (ratio + 1) + c && BitmapIndex(ratio, row) == row * (ratio + 1) + ratio
  {
    hide Div;
  }

  lemma RatioIs(x: VhdxMap, hasParent: bool, ratio: nat)
    requires x.Shaped(hasParent) && ratio * x.block == 0x800000 * x.logical && x.block > 0
    ensures x.BlockRatio() == ratio
  {
    hide Div, VhdxMap.Shaped;
    DivUnique(0x800000 * x.logical, x.block, ratio, 0);
  }

  lemma VhdxBlockByte(x: VhdxMap, hasParent: bool, ratio: nat, row: nat, c: nat, k: nat, w: nat, sector: nat)
    requires x.block > 0 && ratio == x.BlockRatio() > 0 && sector / PER_CHUNK == row
    requires PayloadIndex(ratio, k) == row * (ratio + 1) + c < |x.bat|
    requires BitmapIndex(ratio, row) == row * (ratio + 1) + ratio
    requires x.State(k) == 7 ==> BitmapIndex(ratio, row) < |x.bat|
    ensures x.bat[row * (ratio + 1) + c] % 8 == 7 ==> row * (ratio + 1) + ratio < |x.bat|
    ensures VhdxNumbers(x, hasParent, ratio, row, c, w, sector, x.SourceIn(hasParent, k, w, sector))
  {
    hide Div, BitOf, Low, Shr, Ratio, PayloadIndex, BitmapIndex, VhdxMap.BlockRatio;
    var entry, s := x.bat[row * (ratio + 1) + c], sector % 0x800000;
    LowThree(entry);
    Megabytes(entry);
    if entry % 8 == 7 {
      var bits := x.bat[BitmapIndex(ratio, row)];
      LowThree(bits);
      Megabytes(bits);
      ByteBits(x.store(bits / 0x100000 * 0x100000 + s / 8), s % 8);
    }
  }

  lemma RatioPositive(x: VhdxMap, hasParent: bool)
    requires x.Shaped(hasParent)
    ensures x.block > 0 && x.logical > 0 && x.BlockRatio() > 0
  {
  }

  // ---- QCOW ----

  /** Bits 9 to 55 of an entry, whatever its flags. */
  lemma OffsetIs(flags: nat, offset: nat, low: nat)
    requires offset < 0x100_0000_0000_0000 && offset % 512 == 0 && low < 512
    ensures Shl(Low(Shr(flags * 0x100_0000_0000_0000 + offset + low, 9), 47), 9) == offset
  {
    hide Shl, Shr, Low, Pow2;
    QcowPowers();
    var m := offset / 512;
    ShlNine(flags * 0x8000_0000_0000 + m);
    Join(flags * 0x8000_0000_0000 + m, low, 9);
    Shl47(flags);
    LowPrefix(flags, m, 47, 47);
    LowSmall(m, 47);
    ShlNine(m);
  }

  lemma QcowPowers()
    ensures Pow2(9) == 512 && Pow2(47) == 0x8000_0000_0000 && Pow2(56) == 0x100_0000_0000_0000
    ensures Pow2(62) == 0x4000_0000_0000_0000 && Pow2(63) == 0x8000_0000_0000_0000
  {
    assert Pow2(9) == 512;
    assert Pow2(18) == 0x4_0000;
    assert Pow2(27) == 0x800_0000;
    assert Pow2(36) == 0x10_0000_0000;
    assert Pow2(47) == 0x8000_0000_0000;
    assert Pow2(56) == 0x100_0000_0000_0000;
  }

  lemma ShlNine(x: nat)
    ensures Shl(x, 9) == 512 * x
  {
    hide Shl, Pow2;
    Pow2Small();
    ShlIs(x, 9);
  }

  lemma Shl47(x: nat)
    ensures Shl(x, 47) == 0x8000_0000_0000 * x
  {
    hide Shl, Pow2;
    QcowPowers();
    ShlIs(x, 47);
  }

  /** The flags an entry of version 2 or 3 has, read off the number. */
  lemma FlagsAre(copied: bool, offset: nat, low: nat)
    requires offset < 0x100_0000_0000_0000 && offset % 512 == 0 && low < 512
    ensures
      var entry := (if copied then 0x8000_0000_0000_0000 else 0) + offset + low;
      && !BitOf(entry, 62) && (BitOf(entry, 63) <==> copied) && (BitOf(entry, 0) <==> low % 2 == 1)
      && Shl(Low(Shr(entry, 9), 47), 9) == offset
  {
    hide Shl, Shr, Low, Pow2;
    QcowPowers();
    var c := if copied then 1 else 0;
    var entry := 0x8000_0000_0000_0000 * c + offset + low;
    ShlIs(c, 63);
    ShlIs(2 * c, 62);
    Join(c, offset + low, 63);
    Join(2 * c, offset + low, 62);
    LowOne(c);
    LowOne(2 * c);
    LowOne(entry);
    OffsetIs(128 * c, offset, low);
  }

  /** What the entry of a cluster that is not compressed gives, in each version: the cluster at the offset it
      holds, zeros where version 3 says so, or the layer below when it holds none. */
  lemma PlainEntry(q: QcowMap, copied: bool, offset: nat, low: nat, bitmap: nat, w: nat)
    requires q.Shaped() && w < q.cluster && !q.extended
    requires offset < 0x100_0000_0000_0000 && offset % 512 == 0 && low < 512
    ensures
      var entry := (if copied then 0x8000_0000_0000_0000 else 0) + offset + low;
      q.version > 1 ==>
        q.Piece(entry, bitmap, w) ==
          if q.version == 3 && low % 2 == 1 then ZeroFill
          else if offset > 0 || (copied && q.external.Some?) then StoredAt(q.Data(), offset + w)
          else Below
    ensures q.version == 1 ==>
      q.Piece(offset + low, bitmap, w) == if offset + low == 0 then Below else StoredAt(q.Data(), offset + low + w)
  {
    hide Shl, Shr, Low, Pow2, BitOf, Div, BitLength, QcowMap.InflatedByte;
    FlagsAre(copied, offset, low);
    FlagsAre(false, offset, low);
  }

  /** An extended entry's cluster, by the two bits of its bitmap for each thirty-second part: the low half
      says what is stored, the high half what is zeros. */
  lemma ExtendedEntry(q: QcowMap, copied: bool, offset: nat, low: nat, bitmap: nat, part: nat, k: nat, w: nat)
    requires q.Shaped() && q.extended && q.cluster == 32 * part && k * part <= w < k * part + part && w < q.cluster
    requires offset < 0x100_0000_0000_0000 && offset % 512 == 0 && low < 512
    ensures
      var entry := (if copied then 0x8000_0000_0000_0000 else 0) + offset + low;
      q.Piece(entry, bitmap, w) ==
        if bitmap / Pow2(k) % 2 == 1 then StoredAt(q.Data(), offset + w)
        else if bitmap / Pow2(32 + k) % 2 == 1 then ZeroFill
        else Below
  {
    hide Shl, Shr, Low, Pow2, BitOf, Div, BitLength, QcowMap.InflatedByte, QcowMap.ClusterPower;
    FlagsAre(copied, offset, low);
    DivUnique(w, part, k, w - k * part);
    BitIs(bitmap, k);
    BitIs(bitmap, 32 + k);
  }

  /** A byte of what decompressing these bytes gives, zeros after it, or nothing. */
  function Unpacked(q: QcowMap, at: nat, n: nat, w: nat): Source
  {
    match q.inflate(q.file[Min(at, |q.file|)..Min(at + n, |q.file|)])
    case None => Missing
    case Some(d) => if |d| > q.cluster then Missing else Stored(if w < |d| then d[w] else 0)
  }

  /** A compressed cluster's entry: bit 62 and, from bit 70 less the cluster's bits, the sectors its bytes
      reach into after the first. */
  lemma CompressedEntry(q: QcowMap, bits: nat, at: nat, n: nat, entry: nat, bitmap: nat, w: nat)
    requires q.Shaped() && w < q.cluster && 9 <= bits <= 21 && q.cluster == Pow2(bits) && q.version > 1
    requires at < Pow2(70 - bits) && n < Pow2(bits - 8)
    requires entry == 0x4000_0000_0000_0000 + n * Pow2(70 - bits) + at
    ensures q.Piece(entry, bitmap, w) == Unpacked(q, at, (n + 1) * 512 - at % 512, w)
  {
    hide Shl, Pow2, BitOf, Div, BitLength, SectorPlace;
    SectorPlaceIs(bits, at, n);
    ShlOne(62);
    QcowPowers();
    ShlIs(n, 70 - bits);
    Times(n, Pow2(70 - bits));
    assert entry == Shl(1, 62) + (Shl(n, 70 - bits) + at);
    BitLengthPow2(bits);
    InflatedIs(q, entry, at, (n + 1) * 512 - at % 512, w);
  }

  /** In version 1: bit 63 and, from bit 63 less the cluster's bits, the number of its bytes. */
  lemma CompressedEntry1(q: QcowMap, bits: nat, at: nat, n: nat, entry: nat, bitmap: nat, w: nat)
    requires q.Shaped() && w < q.cluster && 9 <= bits <= 21 && q.cluster == Pow2(bits) && q.version == 1
    requires at < Pow2(63 - bits) && n < Pow2(bits) && entry == 0x8000_0000_0000_0000 + n * Pow2(63 - bits) + at
    ensures q.Piece(entry, bitmap, w) == Unpacked(q, at, n, w)
  {
    hide Shl, Pow2, BitOf, Div, BitLength, BytePlace;
    BytePlaceRoundTrip(bits, at, n);
    ShlOne(63);
    QcowPowers();
    ShlIs(n, 63 - bits);
    Times(n, Pow2(63 - bits));
    assert entry == Shl(1, 63) + (Shl(n, 63 - bits) + at);
    BitLengthPow2(bits);
    InflatedIs(q, entry, at, n, w);
  }

  lemma InflatedIs(q: QcowMap, entry: nat, at: nat, n: nat, w: nat)
    requires q.ClusterPower() && w < q.cluster && q.CompressedPlace(entry) == (at, n)
    ensures q.InflatedByte(entry, w) == Unpacked(q, at, n, w)
  {
    hide QcowMap.CompressedPlace, Pow2, BitLength;
  }

  /** Byte `w` of cluster `j` of those that second-level table `t` is for: the cluster's entry is in the table
      that the first level names, or all zero where it names none. */
  lemma QcowByte(q: QcowMap, t: nat, j: nat, index: nat, w: nat, i: nat, flags: nat, offset: nat, fields: seq<nat>)
    requires q.Shaped() && j < q.l2Entries && index == t * q.l2Entries + j
    requires w < q.cluster && i == index * q.cluster + w && i < q.size
    requires |fields| == q.l2Entries * (if q.extended then 2 else 1)
    requires forall j :: 0 <= j < |fields| ==> fields[j] < Pow2(64)
    requires q.version > 1 ==> offset < 0x100_0000_0000_0000 && offset % 512 == 0
    ensures
      var source := q.SourceOf(i);
      && (t >= |q.l1| ==> source == q.Piece(0, 0, w))
      && (t < |q.l1| && q.l1[t] == (if q.version > 1 then flags * 0x100_0000_0000_0000 else 0) + offset ==>
            && (offset == 0 ==> source == q.Piece(0, 0, w))
            && (offset > 0 && offset + 8 * |fields| > |q.file| ==> source == Missing)
            && (offset > 0 && offset + 8 * |fields| <= |q.file|
                && q.file[offset..offset + 8 * |fields|] == PackBe(fields) ==>
                  source == if q.extended then q.Piece(fields[2 * j], fields[2 * j + 1], w)
                            else q.Piece(fields[j], 0, w)))
  {
    hide Pow2, Div, Mod, QcowMap.Piece, PackBe, QcowMap.TableReadable, QcowMap.EntryOf, QcowMap.TableOffset;
    DivUnique(i, q.cluster, index, w);
    DivUnique(index, q.l2Entries, t, j);
    if t >= |q.l1| {
      NoTable(q, index, t);
    } else if q.l1[t] == (if q.version > 1 then flags * 0x100_0000_0000_0000 else 0) + offset {
      TableAt(q, t, flags, offset);
      if offset == 0 {
        NoTable(q, index, t);
      } else if offset + 8 * |fields| > |q.file| {
        TableCut(q, t, |fields|);
      } else if q.file[offset..offset + 8 * |fields|] == PackBe(fields) {
        TableEntry(q, index, t, j, fields);
      }
    }
  }

  lemma NoTable(q: QcowMap, index: nat, t: nat)
    requires q.l2Entries > 0 && t == Div(index, q.l2Entries) && (t < |q.l1| ==> q.TableOffset(t) == 0)
    ensures q.TableReadable(t) && q.EntryOf(index) == (0, 0)
  {
    hide Div;
  }

  lemma TableAt(q: QcowMap, t: nat, flags: nat, offset: nat)
    requires t < |q.l1| && q.l1[t] == (if q.version > 1 then flags * 0x100_0000_0000_0000 else 0) + offset
    requires q.version > 1 ==> offset < 0x100_0000_0000_0000 && offset % 512 == 0
    ensures q.TableOffset(t) == offset
  {
    hide Shl, Low, Shr;
    if q.version > 1 {
      OffsetIs(flags, offset, 0);
    }
  }

  lemma TableCut(q: QcowMap, t: nat, n: nat)
    requires t < |q.l1| && q.TableOffset(t) > 0 && n == q.l2Entries * (if q.extended then 2 else 1)
    requires q.TableOffset(t) + 8 * n > |q.file|
    ensures !q.TableReadable(t)
  {
    hide QcowMap.TableOffset;
  }

  lemma TableEntry(q: QcowMap, index: nat, t: nat, j: nat, fields: seq<nat>)
    requires q.l2Entries > 0 && t == Div(index, q.l2Entries) < |q.l1| && j == Mod(index, q.l2Entries)
    requires |fields| == q.l2Entries * (if q.extended then 2 else 1)
    requires forall j :: 0 <= j < |fields| ==> fields[j] < Pow2(64)
    requires q.TableOffset(t) > 0 && q.TableOffset(t) + 8 * |fields| <= |q.file|
    requires q.file[q.TableOffset(t)..q.TableOffset(t) + 8 * |fields|] == PackBe(fields)
    ensures q.TableReadable(t) && j < q.l2Entries
    ensures q.EntryOf(index) == if q.extended then (fields[2 * j], fields[2 * j + 1]) else (fields[j], 0)
  {
    hide Pow2, Div, Mod, PackBe, BeValue, QcowMap.TableOffset, QcowMap.TableField;
    DivParts(index, q.l2Entries);
    if q.extended {
      TableRoundTrip(q, t, fields, 2 * j);
      TableRoundTrip(q, t, fields, 2 * j + 1);
    } else {
      TableRoundTrip(q, t, fields, j);
    }
  }
}
