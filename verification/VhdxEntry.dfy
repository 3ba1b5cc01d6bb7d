/** One entry of a VHDX log (the function `entry` inside `_vhdx_replay`). */
module VhdxEntry {
  import opened Bits
  import opened Prelude
  import opened Struct
  import opened VhdxOverlay
  import Crc32c
  import Division

  datatype LogEntry = LogEntry(seqNumber: nat, tail: nat, length: nat, flushed: nat, last: nat, updates: seq<Update>)

  const LOGE: seq<byte> := [0x6C, 0x6F, 0x67, 0x65]
  const ZERO: seq<byte> := [0x7A, 0x65, 0x72, 0x6F]
  const DESC: seq<byte> := [0x64, 0x65, 0x73, 0x63]
  const DATA: seq<byte> := [0x64, 0x61, 0x74, 0x61]

  // Checksum, length, tail, sequence number, descriptor count, reserved; the GUID follows, then the
  // flushed and last file offsets.
  const HEAD_WIDTHS: seq<nat> := [4, 4, 4, 8, 4, 4]
  const TAIL_WIDTHS: seq<nat> := [8, 8]
  const ZERO_WIDTHS: seq<nat> := [4, 8, 8, 8]
  const DESC_WIDTHS: seq<nat> := [8, 8]

  lemma Widths()
    ensures Width(HEAD_WIDTHS) == 28 && Width(TAIL_WIDTHS) == 16 && Width(ZERO_WIDTHS) == 28 && Width(DESC_WIDTHS) == 16
    ensures Width([4]) == 4
  {
    assert HEAD_WIDTHS[1..] == [4, 4, 8, 4, 4] && [4, 4, 8, 4, 4][1..] == [4, 8, 4, 4];
    assert [4, 8, 4, 4][1..] == [8, 4, 4] && [8, 4, 4][1..] == [4, 4] && [4, 4][1..] == [4] && [4][1..] == [];
    assert ZERO_WIDTHS[1..] == [8, 8, 8] && [8, 8, 8][1..] == [8, 8] && [8, 8][1..] == [8] && [8][1..] == [];
    assert Width([4]) == 4 && Width([4, 4]) == 8 && Width([8, 4, 4]) == 16 && Width([4, 8, 4, 4]) == 20;
    assert Width([8]) == 8 && Width([8, 8]) == 16 && Width([8, 8, 8]) == 24;
  }

  /** A log: the ring's bytes twice, end to end, so that any entry is one run of them. */
  datatype Log = Log(ring: seq<byte>, guid: seq<byte>) {
    ghost predicate Valid() { |ring| > 0 && |ring| % SECTOR == 0 && |guid| == 16 }

    function Doubled(): (bytes: seq<byte>)
      ensures |bytes| == 2 * |ring|
    {
      ring + ring
    }

    /** An address an entry may have, and a length it may state. */
    ghost predicate Place(at: nat, length: nat)
    {
      Valid() && at % SECTOR == 0 && at < |ring| && length <= |ring|
    }
  }

  /** Reading the doubled log is reading the ring modulo its length. */
  lemma DoubledIsRing(log: Log, at: nat, k: nat)
    requires log.ring != [] && at < |log.ring| && k < |log.ring|
    ensures log.Doubled()[at + k] == log.ring[Division.Mod(at + k, |log.ring|)]
  {
    var n := |log.ring|;
    if at + k < n {
      Division.DivUnique(at + k, n, 0, at + k);
    } else {
      Division.DivUnique(at + k, n, 1, at + k - n);
    }
  }

  /** The update of a zero descriptor at `d`. */
  function ZeroUpdate(bytes: seq<byte>, d: nat, seqNumber: nat): (r: Option<Update>)
    requires d + 32 <= |bytes|
    ensures r.Some? ==> r.value.Aligned() && r.value.ZeroRange?
  {
    Widths();
    var f := Unpack(bytes[d + 4..], ZERO_WIDTHS);
    if f[3] != seqNumber || f[1] % SECTOR != 0 || f[2] % SECTOR != 0 then None else Some(ZeroRange(f[2], f[1]))
  }

  /** The update of a data descriptor at `d`, whose sector is at `dataAt` and ends by `end`. */
  function DataUpdate(bytes: seq<byte>, d: nat, seqNumber: nat, dataAt: nat, end: nat): (r: Option<Update>)
    requires d + 32 <= |bytes| && end <= |bytes|
    ensures r.Some? ==>
      && r.value.Aligned() && r.value.DataSector?
      && dataAt + SECTOR <= end && bytes[dataAt..dataAt + 4] == DATA
  {
    Widths();
    var f := Unpack(bytes[d + 16..], DESC_WIDTHS);
    if f[1] != seqNumber || f[0] % SECTOR != 0 || dataAt + SECTOR > end then None
    else
      var sector := bytes[dataAt..dataAt + SECTOR];
      assert sector[..4] == bytes[dataAt..dataAt + 4];
      var high, low := Unpack(sector[4..], [4])[0], Unpack(sector[4092..], [4])[0];
      if sector[..4] != DATA || Shl(high, 32) + low != seqNumber then None
      else Some(DataSector(f[0], bytes[d + 8..d + 16] + sector[8..4092] + bytes[d + 4..d + 8]))
  }

  /** A zero descriptor's fields: signature, four bytes unread, length, offset, sequence number. */
  lemma ZeroUpdateIs(bytes: seq<byte>, d: nat, seqNumber: nat)
    requires d + 32 <= |bytes|
    ensures
      var length, offset := LeValue(bytes[d + 8..d + 16]), LeValue(bytes[d + 16..d + 24]);
      ZeroUpdate(bytes, d, seqNumber) ==
        if LeValue(bytes[d + 24..d + 32]) == seqNumber && length % 4096 == 0 && offset % 4096 == 0 then
          Some(ZeroRange(offset, length))
        else None
  {
    hide LeValue, Unpack, Width;
    Widths();
    var s := bytes[d + 4..];
    ZeroPlaces();
    UnpackAt(s, ZERO_WIDTHS, 1);
    UnpackAt(s, ZERO_WIDTHS, 2);
    UnpackAt(s, ZERO_WIDTHS, 3);
    assert s[4..12] == bytes[d + 8..d + 16] && s[12..20] == bytes[d + 16..d + 24] && s[20..28] == bytes[d + 24..d + 32];
  }

  lemma ZeroPlaces()
    ensures Width(ZERO_WIDTHS[..1]) == 4 && Width(ZERO_WIDTHS[..2]) == 12 && Width(ZERO_WIDTHS[..3]) == 20
    ensures Width(DESC_WIDTHS[..0]) == 0 && Width(DESC_WIDTHS[..1]) == 8
  {
    assert ZERO_WIDTHS[..1] == [4] && ZERO_WIDTHS[..2] == [4, 8] && ZERO_WIDTHS[..3] == [4, 8, 8];
    assert [4][1..] == [] && [4, 8][1..] == [8] && [4, 8, 8][1..] == [8, 8] && [8, 8][1..] == [8] && [8][1..] == [];
    assert DESC_WIDTHS[..0] == [] && DESC_WIDTHS[..1] == [8];
  }

  /** A data descriptor's fields: signature, four trailing bytes, eight leading bytes, offset, sequence
      number. Its sector has a signature and the number's halves where those bytes go. */
  lemma DataUpdateIs(bytes: seq<byte>, d: nat, seqNumber: nat, dataAt: nat, end: nat)
    requires d + 32 <= |bytes| && end <= |bytes|
    ensures
      var r, offset := DataUpdate(bytes, d, seqNumber, dataAt, end), LeValue(bytes[d + 16..d + 24]);
      && (r.Some? <==>
            && LeValue(bytes[d + 24..d + 32]) == seqNumber && offset % 4096 == 0 && dataAt + 4096 <= end
            && bytes[dataAt..dataAt + 4] == [0x64, 0x61, 0x74, 0x61]
            && 0x1_0000_0000 * LeValue(bytes[dataAt + 4..dataAt + 8]) + LeValue(bytes[dataAt + 4092..dataAt + 4096])
               == seqNumber)
      && (r.Some? ==>
            && r.value.DataSector? && r.value.offset == offset && |r.value.content| == 4096
            && (forall k :: 0 <= k < 8 ==> r.value.content[k] == bytes[d + 8 + k])
            && (forall k :: 8 <= k < 4092 ==> r.value.content[k] == bytes[dataAt + k])
            && (forall k :: 4092 <= k < 4096 ==> r.value.content[k] == bytes[d + 4 + (k - 4092)]))
  {
    hide LeValue, Unpack, Width, Shl;
    Widths();
    ZeroPlaces();
    var s := bytes[d + 16..];
    UnpackAt(s, DESC_WIDTHS, 0);
    UnpackAt(s, DESC_WIDTHS, 1);
    assert s[0..8] == bytes[d + 16..d + 24] && s[8..16] == bytes[d + 24..d + 32];
    if dataAt + SECTOR <= end {
      var sector := bytes[dataAt..dataAt + SECTOR];
      SectorNumber(bytes, dataAt);
      assert sector[..4] == bytes[dataAt..dataAt + 4];
      var content := bytes[d + 8..d + 16] + sector[8..4092] + bytes[d + 4..d + 8];
      forall k | 8 <= k < 4092
        ensures content[k] == bytes[dataAt + k]
      {
        assert content[k] == sector[8..4092][k - 8] == sector[k];
      }
    }
  }

  lemma SectorNumber(bytes: seq<byte>, at: nat)
    requires at + SECTOR <= |bytes|
    ensures Width([4]) == 4
    ensures
      var sector := bytes[at..at + SECTOR];
      Shl(Unpack(sector[4..], [4])[0], 32) + Unpack(sector[4092..], [4])[0]
      == 0x1_0000_0000 * LeValue(bytes[at + 4..at + 8]) + LeValue(bytes[at + 4092..at + 4096])
  {
    hide LeValue, Shl;
    Widths();
    var sector := bytes[at..at + SECTOR];
    assert sector[4..][..4] == bytes[at + 4..at + 8] && sector[4092..][..4] == bytes[at + 4092..at + 4096];
    ShlIs32(LeValue(bytes[at + 4..at + 8]));
  }

  lemma ShlIs32(x: nat)
    ensures Shl(x, 32) == 0x1_0000_0000 * x
  {
    hide Shl;
    ShlTimes256(x);
    ShlTimes256(256 * x);
    ShlTimes256(65536 * x);
    ShlTimes256(16777216 * x);
    ShlShl(x, 8, 8);
    ShlShl(x, 16, 8);
    ShlShl(x, 24, 8);
  }

  /** The `k`-th descriptor of the entry at `at`: its update, and where the next data sector is. */
  function Descriptor(log: Log, at: nat, length: nat, seqNumber: nat, k: nat, dataAt: nat): (r: Option<(Update, nat)>)
    requires log.Place(at, length)
    ensures r.Some? ==> r.value.0.Aligned()
  {
    var d, bytes := at + 64 + 32 * k, log.Doubled();
    if d + 4 > |bytes| then None
    else
      DescriptorFits(|log.ring|, at, k);
      if bytes[d..d + 4] == ZERO then
        match ZeroUpdate(bytes, d, seqNumber)
        case None => None
        case Some(u) => Some((u, dataAt))
      else if bytes[d..d + 4] == DESC then
        match DataUpdate(bytes, d, seqNumber, dataAt, at + length)
        case None => None
        case Some(u) => Some((u, dataAt + SECTOR))
      else None
  }

  /** A descriptor that starts inside the log ends inside it, so unpacking one never falls short. */
  lemma DescriptorFits(n: nat, at: nat, k: nat)
    requires n % SECTOR == 0 && at % SECTOR == 0 && at + 64 + 32 * k + 4 <= 2 * n
    ensures at + 64 + 32 * k + 32 <= 2 * n
  {
    var a, b := n / SECTOR, at / SECTOR;
    assert 2 * n == 32 * (256 * a) && at + 64 + 32 * k == 32 * (128 * b + 2 + k);
  }

  /** The updates of an entry, from its `k`-th descriptor on. */
  function Updates(log: Log, at: nat, length: nat, seqNumber: nat, k: nat, count: nat, dataAt: nat):
    (r: Option<seq<Update>>)
    requires log.Place(at, length) && k <= count
    ensures r.Some? ==> AllAligned(r.value)
    decreases count - k
  {
    if k == count then Some([])
    else
      match Descriptor(log, at, length, seqNumber, k, dataAt)
      case None => None
      case Some((u, next)) =>
        match Updates(log, at, length, seqNumber, k + 1, count, next)
        case None => None
        case Some(us) => Some([u] + us)
  }

  function DescSectors(count: nat): nat { if count != 0 then (64 + 32 * count + SECTOR - 1) / SECTOR else 1 }

  /** The fixed part of an entry. */
  datatype Head = Head(sig: seq<byte>, checksum: nat, length: nat, tail: nat, seqNumber: nat, count: nat,
                       guid: seq<byte>, flushed: nat, last: nat)

  function HeadAt(log: Log, at: nat): Head
    requires log.Valid() && at < |log.ring| && at % SECTOR == 0
  {
    var bytes := log.Doubled();
    RoomFor(|log.ring|, at);
    Widths();
    var h := Unpack(bytes[at + 4..], HEAD_WIDTHS);
    var t := Unpack(bytes[at + 48..], TAIL_WIDTHS);
    Head(bytes[at..at + 4], h[0], h[1], h[2], h[3], h[4], bytes[at + 32..at + 48], t[0], t[1])
  }

  /** The fixed part's fields, byte by byte. */
  lemma HeadFields(log: Log, at: nat)
    requires log.Valid() && at < |log.ring| && at % SECTOR == 0
    ensures at + 64 <= 2 * |log.ring|
    ensures
      var h, b := HeadAt(log, at), log.Doubled();
      && h.sig == b[at..at + 4] && h.checksum == LeValue(b[at + 4..at + 8]) && h.length == LeValue(b[at + 8..at + 12])
      && h.tail == LeValue(b[at + 12..at + 16]) && h.seqNumber == LeValue(b[at + 16..at + 24])
      && h.count == LeValue(b[at + 24..at + 28]) && h.guid == b[at + 32..at + 48]
      && h.flushed == LeValue(b[at + 48..at + 56]) && h.last == LeValue(b[at + 56..at + 64])
  {
    hide LeValue, Unpack, Width;
    Widths();
    RoomFor(|log.ring|, at);
    HeadPlaces();
    var b := log.Doubled();
    var s, t := b[at + 4..], b[at + 48..];
    UnpackAt(s, HEAD_WIDTHS, 0);
    UnpackAt(s, HEAD_WIDTHS, 1);
    UnpackAt(s, HEAD_WIDTHS, 2);
    UnpackAt(s, HEAD_WIDTHS, 3);
    UnpackAt(s, HEAD_WIDTHS, 4);
    UnpackAt(t, TAIL_WIDTHS, 0);
    UnpackAt(t, TAIL_WIDTHS, 1);
    assert s[0..4] == b[at + 4..at + 8] && s[4..8] == b[at + 8..at + 12] && s[8..12] == b[at + 12..at + 16];
    assert s[12..20] == b[at + 16..at + 24] && s[20..24] == b[at + 24..at + 28];
    assert t[0..8] == b[at + 48..at + 56] && t[8..16] == b[at + 56..at + 64];
  }

  lemma HeadPlaces()
    ensures Width(HEAD_WIDTHS[..0]) == 0 && Width(HEAD_WIDTHS[..1]) == 4 && Width(HEAD_WIDTHS[..2]) == 8
    ensures Width(HEAD_WIDTHS[..3]) == 12 && Width(HEAD_WIDTHS[..4]) == 20
    ensures Width(TAIL_WIDTHS[..0]) == 0 && Width(TAIL_WIDTHS[..1]) == 8
  {
    var w := HEAD_WIDTHS;
    assert w[..0] == [] && w[..1] == [4] && w[..2] == [4, 4] && w[..3] == [4, 4, 4] && w[..4] == [4, 4, 4, 8];
    assert [4][1..] == [] && [4, 4][1..] == [4] && [4, 4, 4][1..] == [4, 4];
    assert [4, 4, 4, 8][1..] == [4, 4, 8] && [4, 4, 8][1..] == [4, 8] && [4, 8][1..] == [8] && [8][1..] == [];
    assert TAIL_WIDTHS[..0] == [] && TAIL_WIDTHS[..1] == [8];
  }

  predicate HeadOk(log: Log, h: Head)
  {
    && h.sig == LOGE && h.guid == log.guid && h.seqNumber != 0
    && h.length % SECTOR == 0 && h.length != 0 && h.length <= |log.ring|
    && h.tail % SECTOR == 0 && h.tail < |log.ring|
  }

  /** The entry at `at`, or none when it is not a valid one. */
  function EntryAt(log: Log, at: nat): (r: Option<LogEntry>)
    requires log.Valid() && at < |log.ring| && at % SECTOR == 0
    ensures r.Some? ==>
      && r.value.seqNumber > 0 && 0 < r.value.length <= |log.ring| && r.value.length % SECTOR == 0
      && r.value.tail < |log.ring| && r.value.tail % SECTOR == 0 && AllAligned(r.value.updates)
  {
    var h := HeadAt(log, at);
    if !HeadOk(log, h) then None
    else
      var bytes := log.Doubled();
      if Crc32c.Crc(Crc32c.FieldZeroed(bytes[at..at + h.length], 4)) != h.checksum then None
      else
        match Updates(log, at, h.length, h.seqNumber, 0, h.count, at + SECTOR * DescSectors(h.count))
        case None => None
        case Some(us) => Some(LogEntry(h.seqNumber, h.tail, h.length, h.flushed, h.last, us))
  }

  /** What makes these fields of an entry at `at` a valid one's. */
  ghost predicate Accepted(log: Log, at: nat, sum: nat, length: nat, tail: nat, number: nat, count: nat)
    requires log.Valid() && at < |log.ring| && at % SECTOR == 0
  {
    hide Updates, Crc32c.Crc, Crc32c.FieldZeroed, DescSectors, LeValue;
    RoomFor(|log.ring|, at);
    var b := log.Doubled();
    && b[at..at + 4] == [0x6C, 0x6F, 0x67, 0x65] && b[at + 32..at + 48] == log.guid && number > 0
    && length % 4096 == 0 && 0 < length <= |log.ring| && tail % 4096 == 0 && tail < |log.ring|
    && Crc32c.Crc(Crc32c.FieldZeroed(b[at..at + length], 4)) == sum
    && Updates(log, at, length, number, 0, count, at + 4096 * DescSectors(count)).Some?
  }

  /** An entry is valid exactly when its bytes are so, and then says what they do. */
  lemma EntryIff(log: Log, at: nat, sum: nat, length: nat, tail: nat, number: nat, count: nat)
    requires log.Valid() && at < |log.ring| && at % SECTOR == 0 && at + 64 <= 2 * |log.ring|
    requires
      var b := log.Doubled();
      && sum == LeValue(b[at + 4..at + 8]) && length == LeValue(b[at + 8..at + 12])
      && tail == LeValue(b[at + 12..at + 16]) && number == LeValue(b[at + 16..at + 24])
      && count == LeValue(b[at + 24..at + 28])
    ensures EntryAt(log, at).Some? <==> Accepted(log, at, sum, length, tail, number, count)
    ensures EntryAt(log, at).Some? ==>
      var e, b := EntryAt(log, at).value, log.Doubled();
      && e.seqNumber == number && e.tail == tail && e.length == length
      && e.flushed == LeValue(b[at + 48..at + 56]) && e.last == LeValue(b[at + 56..at + 64])
      && Some(e.updates) == Updates(log, at, length, number, 0, count, at + 4096 * DescSectors(count))
  {
    hide LeValue, HeadAt, Updates, Crc32c.Crc, Crc32c.FieldZeroed, DescSectors, Log.Doubled;
    HeadFields(log, at);
  }

  lemma RoomFor(n: nat, at: nat)
    requires n > 0 && n % SECTOR == 0 && at < n && at % SECTOR == 0
    ensures at + SECTOR <= n
  {
    var a, b := n / SECTOR, at / SECTOR;
    assert n == SECTOR * a && at == SECTOR * b;
  }

  // ---- the sectors an entry fills ----

  /** How many of the updates come with a data sector. */
  function DataSectors(us: seq<Update>): nat
  {
    if us == [] then 0 else (if us[0].DataSector? then 1 else 0) + DataSectors(us[1..])
  }

  /** What an entry's header, descriptors and data sectors fill. The length it states may be more. */
  function Filled(e: LogEntry): nat { SECTOR * (DescSectors(|e.updates|) + DataSectors(e.updates)) }

  /** The four bytes of the doubled log at `x`. */
  function Signature(log: Log, x: nat): seq<byte>
    requires x + 4 <= 2 * |log.ring|
  {
    log.Doubled()[x..x + 4]
  }

  lemma {:induction false} DescriptorSigned(log: Log, at: nat, length: nat, seqNumber: nat, k: nat, count: nat,
                                            dataAt: nat, j: nat)
    requires log.Place(at, length) && k <= count && k <= j < count
    requires Updates(log, at, length, seqNumber, k, count, dataAt).Some?
    ensures at + 64 + 32 * j + 4 <= 2 * |log.ring|
    ensures Signature(log, at + 64 + 32 * j) in {ZERO, DESC}
    decreases j - k
  {
    hide Descriptor, Signature, Log.Doubled;
    var d := Descriptor(log, at, length, seqNumber, k, dataAt);
    DescriptorData(log, at, length, seqNumber, k, dataAt);
    if j > k {
      DescriptorSigned(log, at, length, seqNumber, k + 1, count, d.value.1, j);
    }
  }

  lemma {:induction false} DataSigned(log: Log, at: nat, length: nat, seqNumber: nat, k: nat, count: nat,
                                      dataAt: nat, m: nat)
    requires log.Place(at, length) && k <= count && Updates(log, at, length, seqNumber, k, count, dataAt).Some?
    requires m < DataSectors(Updates(log, at, length, seqNumber, k, count, dataAt).value)
    ensures dataAt + SECTOR * m + SECTOR <= 2 * |log.ring| && Signature(log, dataAt + SECTOR * m) == DATA
    decreases count - k
  {
    hide Descriptor, Signature, Log.Doubled;
    var (u, next) := Descriptor(log, at, length, seqNumber, k, dataAt).value;
    DescriptorData(log, at, length, seqNumber, k, dataAt);
    var more := Updates(log, at, length, seqNumber, k + 1, count, next).value;
    assert Updates(log, at, length, seqNumber, k, count, dataAt).value[1..] == more;
    if u.ZeroRange? {
      DataSigned(log, at, length, seqNumber, k + 1, count, next, m);
    } else if m > 0 {
      DataSigned(log, at, length, seqNumber, k + 1, count, next, m - 1);
    }
  }

  lemma DescriptorData(log: Log, at: nat, length: nat, seqNumber: nat, k: nat, dataAt: nat)
    requires log.Place(at, length) && Descriptor(log, at, length, seqNumber, k, dataAt).Some?
    ensures at + 64 + 32 * k + 4 <= 2 * |log.ring| && Signature(log, at + 64 + 32 * k) in {ZERO, DESC}
    ensures var (u, next) := Descriptor(log, at, length, seqNumber, k, dataAt).value;
      if u.ZeroRange? then next == dataAt
      else next == dataAt + SECTOR && next <= 2 * |log.ring| && Signature(log, dataAt) == DATA
  {
    hide ZeroUpdate, DataUpdate, Update.Aligned;
    DescriptorFits(|log.ring|, at, k);
  }

  lemma {:induction false} UpdatesCount(log: Log, at: nat, length: nat, seqNumber: nat, k: nat, count: nat, dataAt: nat)
    requires log.Place(at, length) && k <= count && Updates(log, at, length, seqNumber, k, count, dataAt).Some?
    ensures |Updates(log, at, length, seqNumber, k, count, dataAt).value| == count - k
    decreases count - k
  {
    hide Descriptor;
    if k < count {
      var next := Descriptor(log, at, length, seqNumber, k, dataAt).value.1;
      UpdatesCount(log, at, length, seqNumber, k + 1, count, next);
    }
  }

  /** No entry starts in a sector that another one fills: each begins with a descriptor or is a data
      sector. */
  lemma FilledHoldsNone(log: Log, at: nat, t: nat)
    requires log.Valid() && at < t < |log.ring| && at % SECTOR == 0 && t % SECTOR == 0
    requires EntryAt(log, at).Some? && t < at + Filled(EntryAt(log, at).value)
    ensures EntryAt(log, t) == None
  {
    hide Updates, HeadAt, HeadOk, EntryAt, Signature, DescSectors;
    var h, e := HeadAt(log, at), EntryAt(log, at).value;
    EntryParts(log, at);
    var k, first := (t - at) / SECTOR, DescSectors(h.count);
    SectorsOn(at, t, k);
    UpdatesCount(log, at, h.length, h.seqNumber, 0, h.count, at + SECTOR * first);
    if k < first {
      DescriptorFirst(h.count, k);
      DescriptorSigned(log, at, h.length, h.seqNumber, 0, h.count, at + SECTOR * first, 128 * k - 2);
    } else {
      DataSigned(log, at, h.length, h.seqNumber, 0, h.count, at + SECTOR * first, k - first);
    }
    NotSigned(log, t);
  }

  lemma EntryParts(log: Log, at: nat)
    requires log.Valid() && at < |log.ring| && at % SECTOR == 0 && EntryAt(log, at).Some?
    ensures var h := HeadAt(log, at);
      && log.Place(at, h.length)
      && Updates(log, at, h.length, h.seqNumber, 0, h.count, at + SECTOR * DescSectors(h.count))
         == Some(EntryAt(log, at).value.updates)
  {
    hide Updates, HeadAt, Crc32c.Crc, Crc32c.FieldZeroed;
  }

  lemma SectorsOn(at: nat, t: nat, k: nat)
    requires at < t && at % SECTOR == 0 && t % SECTOR == 0 && k == (t - at) / SECTOR
    ensures t == at + SECTOR * k && k > 0
  {
    var a, b := at / SECTOR, t / SECTOR;
    assert at == SECTOR * a && t == SECTOR * b;
  }

  /** A sector of descriptors after the first begins with one of them. */
  lemma DescriptorFirst(count: nat, k: nat)
    requires 0 < k < DescSectors(count)
    ensures 128 * k - 2 < count
  {
  }

  lemma NotSigned(log: Log, t: nat)
    requires log.Valid() && t < |log.ring| && t % SECTOR == 0
    requires t + 4 <= 2 * |log.ring| && Signature(log, t) in {ZERO, DESC, DATA}
    ensures EntryAt(log, t) == None
  {
    hide Updates, Crc32c.Crc, Crc32c.FieldZeroed;
    assert ZERO[0] != LOGE[0] && DESC[0] != LOGE[0] && DATA[0] != LOGE[0];
  }

  method ReadEntry(log: Log, at: nat) returns (r: Option<LogEntry>)
    requires log.Valid() && at < |log.ring| && at % SECTOR == 0
    ensures r == EntryAt(log, at)
  {
    hide Crc32c.Crc, Crc32c.FieldZeroed, HeadAt;
    var bytes := log.Doubled();
    RoomFor(|log.ring|, at);
    var h := HeadAt(log, at);
    if h.sig != LOGE {
      return None;
    }
    if h.guid != log.guid || h.seqNumber == 0 || h.length % SECTOR != 0 || h.length == 0 || h.length > |log.ring|
       || h.tail % SECTOR != 0 || h.tail >= |log.ring| {
      return None;
    }
    var crc := Crc32c.Crc32cZeroed(bytes[at..at + h.length], 4);
    if crc != h.checksum {
      return None;
    }
    var updates := ReadUpdates(log, at, h.length, h.seqNumber, h.count, at + SECTOR * DescSectors(h.count));
    match updates {
      case None => r := None;
      case Some(us) => r := Some(LogEntry(h.seqNumber, h.tail, h.length, h.flushed, h.last, us));
    }
  }

  /** The loop over an entry's descriptors. */
  method ReadUpdates(log: Log, at: nat, length: nat, seqNumber: nat, count: nat, dataAt0: nat)
    returns (r: Option<seq<Update>>)
    requires log.Place(at, length)
    ensures r == Updates(log, at, length, seqNumber, 0, count, dataAt0)
  {
    hide Descriptor;
    var updates: seq<Update>, dataAt := [], dataAt0;
    ghost var whole := Updates(log, at, length, seqNumber, 0, count, dataAt0);
    if whole.Some? {
      assert [] + whole.value == whole.value;
    }
    for k := 0 to count
      invariant whole == match Updates(log, at, length, seqNumber, k, count, dataAt)
        case None => None
        case Some(us) => Some(updates + us)
    {
      var one := Descriptor(log, at, length, seqNumber, k, dataAt);
      match one {
        case None => return None;
        case Some((u, next)) =>
          ghost var more := Updates(log, at, length, seqNumber, k + 1, count, next);
          if more.Some? {
            assert updates + ([u] + more.value) == (updates + [u]) + more.value;
          }
          updates := updates + [u];
          dataAt := next;
      }
    }
    assert updates + [] == updates;
    r := Some(updates);
  }
}
