/** A writer of log entries: the bytes that the reader of a VHDX log reads back. */
module VhdxWriter {
  import opened Bits
  import opened Prelude
  import opened VhdxOverlay
  import opened VhdxEntry
  import opened VhdxLog
  import Crc32c

  /** What an entry states of itself: its sequence number, the tail of its sequence, its length, and how
      long the file was and is to be. */
  datatype Stated = Stated(number: nat, tail: nat, length: nat, flushed: nat, last: nat) {
    ghost predicate Fits()
    {
      number < Pow2(64) && tail < Pow2(32) && length < Pow2(32) && flushed < Pow2(64) && last < Pow2(64)
    }
  }

  // ---- updates ----

  ghost predicate UpdateFits(u: Update)
  {
    u.Aligned() && u.offset < Pow2(64) && (u.ZeroRange? ==> u.length < Pow2(64))
  }

  ghost predicate AllFit(us: seq<Update>) { AllAligned(us) && forall i :: 0 <= i < |us| ==> UpdateFits(us[i]) }

  /** An update's descriptor: "zero", length and offset; or "desc", the sector's last four bytes, its
      first eight, and the offset. */
  function DescBytes(u: Update, number: nat): (s: seq<byte>)
    requires u.DataSector? ==> |u.content| == 4096
    ensures |s| == 32
  {
    match u
    case ZeroRange(offset, length) =>
      [0x7A, 0x65, 0x72, 0x6F] + Zeros(4) + LeBytes(length, 8) + LeBytes(offset, 8) + LeBytes(number, 8)
    case DataSector(offset, content) =>
      [0x64, 0x65, 0x73, 0x63] + content[4092..] + content[..8] + LeBytes(offset, 8) + LeBytes(number, 8)
  }

  /** Its data sector, if it has one: "data" and the high half of the sequence number in place of the
      first eight bytes, the low half in place of the last four. */
  function DataBytes(u: Update, number: nat): (s: seq<byte>)
    requires u.DataSector? ==> |u.content| == 4096
    ensures |s| == if u.DataSector? then 4096 else 0
  {
    match u
    case ZeroRange(_, _) => []
    case DataSector(_, content) =>
      [0x64, 0x61, 0x74, 0x61] + LeBytes(number / 0x1_0000_0000, 4) + content[8..4092]
      + LeBytes(number % 0x1_0000_0000, 4)
  }

  function AllDescs(us: seq<Update>, number: nat): (s: seq<byte>)
    requires AllAligned(us)
    ensures |s| == 32 * |us|
  {
    if us == [] then [] else DescBytes(us[0], number) + AllDescs(us[1..], number)
  }

  function AllData(us: seq<Update>, number: nat): (s: seq<byte>)
    requires AllAligned(us)
  {
    if us == [] then [] else DataBytes(us[0], number) + AllData(us[1..], number)
  }

  // ---- entries ----

  /** An entry's bytes after its checksum. */
  function AfterSum(st: Stated, count: nat, guid: seq<byte>, body: seq<byte>): (s: seq<byte>)
    requires |guid| == 16
    ensures |s| == 56 + |body|
  {
    LeBytes(st.length, 4) + LeBytes(st.tail, 4) + LeBytes(st.number, 8) + LeBytes(count, 4) + Zeros(4)
    + guid + LeBytes(st.flushed, 8) + LeBytes(st.last, 8) + body
  }

  function SumOf(st: Stated, count: nat, guid: seq<byte>, body: seq<byte>): nat
    requires |guid| == 16
  {
    Crc32c.Crc([0x6C, 0x6F, 0x67, 0x65] + Zeros(4) + AfterSum(st, count, guid, body))
  }

  /** The entry, "loge" and its checksum first. */
  function Written(st: Stated, count: nat, guid: seq<byte>, body: seq<byte>): (s: seq<byte>)
    requires |guid| == 16
    ensures |s| == 64 + |body|
  {
    [0x6C, 0x6F, 0x67, 0x65] + LeBytes(SumOf(st, count, guid, body), 4) + AfterSum(st, count, guid, body)
  }

  // ---- reading them back ----

  lemma SumFits(data: seq<byte>)
    ensures Crc32c.Crc(data) < Pow2(32)
  {
    hide Pow2, Crc32c.Xor;
    Crc32c.PrefixBound(data);
    Crc32c.PolyTop();
    Crc32c.XorBound(Crc32c.Divide(Crc32c.ONES, Crc32c.MessageBits(data)), Crc32c.ONES, 32);
  }

  lemma SumIgnored(st: Stated, count: nat, guid: seq<byte>, body: seq<byte>)
    requires |guid| == 16
    ensures Crc32c.Crc(Crc32c.FieldZeroed(Written(st, count, guid, body), 4)) == SumOf(st, count, guid, body)
  {
    hide Crc32c.Crc, AfterSum, LeBytes;
    assert Crc32c.FieldZeroed(Written(st, count, guid, body), 4)
        == [0x6C, 0x6F, 0x67, 0x65] + Zeros(4) + AfterSum(st, count, guid, body);
  }

  /** Where each field of a written entry is. */
  lemma WrittenParts(st: Stated, count: nat, guid: seq<byte>, body: seq<byte>)
    requires |guid| == 16
    ensures
      var e := Written(st, count, guid, body);
      && e[0..4] == LOGE && e[4..8] == LeBytes(SumOf(st, count, guid, body), 4)
      && e[8..12] == LeBytes(st.length, 4) && e[12..16] == LeBytes(st.tail, 4) && e[16..24] == LeBytes(st.number, 8)
      && e[24..28] == LeBytes(count, 4) && e[32..48] == guid && e[48..56] == LeBytes(st.flushed, 8)
      && e[56..64] == LeBytes(st.last, 8) && e[64..] == body
  {
    hide LeBytes, SumOf;
  }

  lemma HeadRead(log: Log, at: nat, st: Stated, count: nat, body: seq<byte>)
    requires Address(log, at) && st.Fits() && count < Pow2(32) && |body| + 64 == st.length <= |log.ring|
    requires log.Doubled()[at..at + st.length] == Written(st, count, log.guid, body)
    ensures HeadAt(log, at) == Head(LOGE, SumOf(st, count, log.guid, body), st.length, st.tail, st.number, count,
                                    log.guid, st.flushed, st.last)
  {
    hide Pow2, LeBytes, LeValue, SumOf, AfterSum, Written, HeadAt, Log.Doubled;
    var b, n := log.Doubled(), st.length;
    HeadFields(log, at);
    WrittenParts(st, count, log.guid, body);
    SliceSlice(b, at, at + n, 0, 4);
    SliceSlice(b, at, at + n, 4, 8);
    SliceSlice(b, at, at + n, 8, 12);
    SliceSlice(b, at, at + n, 12, 16);
    SliceSlice(b, at, at + n, 16, 24);
    SliceSlice(b, at, at + n, 24, 28);
    SliceSlice(b, at, at + n, 32, 48);
    SliceSlice(b, at, at + n, 48, 56);
    SliceSlice(b, at, at + n, 56, 64);
    SumIs(st, count, log.guid, body);
    LeRoundTrip(SumOf(st, count, log.guid, body), 4);
    LeRoundTrip(st.length, 4);
    LeRoundTrip(st.tail, 4);
    LeRoundTrip(st.number, 8);
    LeRoundTrip(count, 4);
    LeRoundTrip(st.flushed, 8);
    LeRoundTrip(st.last, 8);
  }

  lemma SumIs(st: Stated, count: nat, guid: seq<byte>, body: seq<byte>)
    requires |guid| == 16
    ensures SumOf(st, count, guid, body) < Pow2(32)
  {
    hide Pow2, Crc32c.Crc, AfterSum;
    SumFits([0x6C, 0x6F, 0x67, 0x65] + Zeros(4) + AfterSum(st, count, guid, body));
  }

  /** A written descriptor, and its data sector where the next one is to be, give the update. */
  lemma DescriptorRead(log: Log, at: nat, length: nat, number: nat, k: nat, dataAt: nat, u: Update)
    requires log.Place(at, length) && number < Pow2(64) && UpdateFits(u)
    requires at + 64 + 32 * k + 32 <= 2 * |log.ring|
    requires log.Doubled()[at + 64 + 32 * k..at + 64 + 32 * k + 32] == DescBytes(u, number)
    requires dataAt + |DataBytes(u, number)| <= at + length
    requires log.Doubled()[dataAt..dataAt + |DataBytes(u, number)|] == DataBytes(u, number)
    ensures Descriptor(log, at, length, number, k, dataAt) == Some((u, dataAt + |DataBytes(u, number)|))
  {
    hide Pow2, LeBytes, LeValue, ZeroUpdate, DataUpdate, DescBytes, DataBytes, Log.Doubled;
    var bytes, d := log.Doubled(), at + 64 + 32 * k;
    SliceSlice(bytes, d, d + 32, 0, 4);
    if u.ZeroRange? {
      ZeroRead(bytes, d, number, u);
    } else {
      DataRead(bytes, d, number, dataAt, at + length, u);
    }
  }

  lemma ZeroRead(bytes: seq<byte>, d: nat, number: nat, u: Update)
    requires number < Pow2(64) && UpdateFits(u) && u.ZeroRange? && d + 32 <= |bytes|
    requires bytes[d..d + 32] == DescBytes(u, number)
    ensures DescBytes(u, number)[0..4] == ZERO && ZeroUpdate(bytes, d, number) == Some(u)
    ensures |DataBytes(u, number)| == 0
  {
    hide Pow2, LeBytes, LeValue, ZeroUpdate;
    var e := DescBytes(u, number);
    ZeroUpdateIs(bytes, d, number);
    assert e[8..16] == LeBytes(u.length, 8) && e[16..24] == LeBytes(u.offset, 8) && e[24..32] == LeBytes(number, 8);
    SliceSlice(bytes, d, d + 32, 8, 16);
    SliceSlice(bytes, d, d + 32, 16, 24);
    SliceSlice(bytes, d, d + 32, 24, 32);
    LeRoundTrip(u.length, 8);
    LeRoundTrip(u.offset, 8);
    LeRoundTrip(number, 8);
  }

  lemma DescParts(u: Update, number: nat)
    requires u.DataSector? && |u.content| == 4096
    ensures
      var e := DescBytes(u, number);
      && e[0..4] == DESC && e[4..8] == u.content[4092..] && e[8..16] == u.content[..8]
      && e[16..24] == LeBytes(u.offset, 8) && e[24..32] == LeBytes(number, 8)
    ensures
      var s := DataBytes(u, number);
      && |s| == 4096 && s[0..4] == [0x64, 0x61, 0x74, 0x61] && s[4..8] == LeBytes(number / 0x1_0000_0000, 4)
      && s[8..4092] == u.content[8..4092] && s[4092..4096] == LeBytes(number % 0x1_0000_0000, 4)
  {
    hide LeBytes;
    Parts(DESC, u.content[4092..], u.content[..8], LeBytes(u.offset, 8), LeBytes(number, 8));
    Parts(DATA, LeBytes(number / 0x1_0000_0000, 4), u.content[8..4092], LeBytes(number % 0x1_0000_0000, 4), []);
    assert DataBytes(u, number) == DATA + LeBytes(number / 0x1_0000_0000, 4) + u.content[8..4092]
                                   + LeBytes(number % 0x1_0000_0000, 4) + [];
  }

  lemma Parts(a: seq<byte>, b: seq<byte>, c: seq<byte>, d: seq<byte>, e: seq<byte>)
    ensures
      var s, i, j, k := a + b + c + d + e, |a| + |b|, |a| + |b| + |c|, |a| + |b| + |c| + |d|;
      s[0..|a|] == a && s[|a|..i] == b && s[i..j] == c && s[j..k] == d && s[k..k + |e|] == e
  {
  }

  lemma DataRead(bytes: seq<byte>, d: nat, number: nat, dataAt: nat, end: nat, u: Update)
    requires number < Pow2(64) && UpdateFits(u) && u.DataSector? && d + 32 <= |bytes| && dataAt + 4096 <= end <= |bytes|
    requires bytes[d..d + 32] == DescBytes(u, number) && bytes[dataAt..dataAt + 4096] == DataBytes(u, number)
    ensures DescBytes(u, number)[0..4] == DESC && |DataBytes(u, number)| == 4096
    ensures DataUpdate(bytes, d, number, dataAt, end) == Some(u)
  {
    hide Pow2, LeBytes, LeValue, DataUpdate, DescBytes, DataBytes;
    DescParts(u, number);
    DataUpdateIs(bytes, d, number, dataAt, end);
    DescSlices(bytes, d, u, number);
    SectorSlices(bytes, dataAt, u, number);
    Halves(number);
    LeRoundTrip(u.offset, 8);
    LeRoundTrip(number, 8);
    LeRoundTrip(number / 0x1_0000_0000, 4);
    LeRoundTrip(number % 0x1_0000_0000, 4);
    assert DataUpdate(bytes, d, number, dataAt, end).Some?;
    EqualSectors(DataUpdate(bytes, d, number, dataAt, end).value, u);
  }

  lemma EqualSectors(a: Update, b: Update)
    requires a.DataSector? && b.DataSector? && a.offset == b.offset && |a.content| == |b.content| == 4096
    requires forall k :: 0 <= k < 8 ==> a.content[k] == b.content[k]
    requires forall k :: 8 <= k < 4092 ==> a.content[k] == b.content[k]
    requires forall k :: 4092 <= k < 4096 ==> a.content[k] == b.content[k]
    ensures a == b
  {
  }

  lemma DescSlices(bytes: seq<byte>, d: nat, u: Update, number: nat)
    requires u.DataSector? && |u.content| == 4096 && d + 32 <= |bytes| && bytes[d..d + 32] == DescBytes(u, number)
    ensures bytes[d + 16..d + 24] == LeBytes(u.offset, 8) && bytes[d + 24..d + 32] == LeBytes(number, 8)
    ensures forall k :: 0 <= k < 8 ==> bytes[d + 8 + k] == u.content[k]
    ensures forall k :: 4092 <= k < 4096 ==> bytes[d + 4 + (k - 4092)] == u.content[k]
  {
    hide LeBytes, DescBytes, DataBytes;
    var e := DescBytes(u, number);
    DescParts(u, number);
    SliceSlice(bytes, d, d + 32, 16, 24);
    SliceSlice(bytes, d, d + 32, 24, 32);
    forall k | 0 <= k < 8
      ensures bytes[d + 8 + k] == u.content[k]
    {
      assert bytes[d + 8 + k] == e[8 + k] == e[8..16][k] == u.content[..8][k];
    }
    forall k | 4092 <= k < 4096
      ensures bytes[d + 4 + (k - 4092)] == u.content[k]
    {
      assert bytes[d + 4 + (k - 4092)] == e[4 + (k - 4092)] == e[4..8][k - 4092] == u.content[4092..][k - 4092];
    }
  }

  lemma SectorSlices(bytes: seq<byte>, at: nat, u: Update, number: nat)
    requires u.DataSector? && |u.content| == 4096 && |DataBytes(u, number)| == 4096
    requires at + 4096 <= |bytes| && bytes[at..at + 4096] == DataBytes(u, number)
    ensures bytes[at..at + 4] == [0x64, 0x61, 0x74, 0x61] && bytes[at + 4..at + 8] == LeBytes(number / 0x1_0000_0000, 4)
    ensures bytes[at + 4092..at + 4096] == LeBytes(number % 0x1_0000_0000, 4)
    ensures forall k :: 8 <= k < 4092 ==> bytes[at + k] == u.content[k]
  {
    hide LeBytes, DescBytes, DataBytes;
    var s := DataBytes(u, number);
    DescParts(u, number);
    SliceSlice(bytes, at, at + 4096, 0, 4);
    SliceSlice(bytes, at, at + 4096, 4, 8);
    SliceSlice(bytes, at, at + 4096, 4092, 4096);
    forall k | 8 <= k < 4092
      ensures bytes[at + k] == u.content[k]
    {
      assert bytes[at + k] == s[k] == s[8..4092][k - 8] == u.content[8..4092][k - 8];
    }
  }

  lemma Halves(number: nat)
    requires number < Pow2(64)
    ensures number / 0x1_0000_0000 < Pow2(32) && number % 0x1_0000_0000 < Pow2(32)
  {
    ShlIs32(1);
    ShlOne(32);
    Pow2Plus(32, 32);
    ShlIs32(Pow2(32));
  }

  lemma {:induction false} UpdatesRead(log: Log, at: nat, length: nat, number: nat, us: seq<Update>, k: nat, count: nat,
                                       dataAt: nat)
    requires log.Place(at, length) && number < Pow2(64) && k + |us| == count
    requires AllFit(us)
    requires at + 64 + 32 * count <= 2 * |log.ring|
    requires log.Doubled()[at + 64 + 32 * k..at + 64 + 32 * count] == AllDescs(us, number)
    requires dataAt + |AllData(us, number)| <= at + length
    requires log.Doubled()[dataAt..dataAt + |AllData(us, number)|] == AllData(us, number)
    ensures Updates(log, at, length, number, k, count, dataAt) == Some(us)
    decreases |us|
  {
    hide Pow2, Descriptor, DescBytes, DataBytes, Log.Doubled, AllDescs, AllData, UpdateFits;
    if us != [] {
      var bytes, d, one := log.Doubled(), at + 64 + 32 * k, |DataBytes(us[0], number)|;
      FirstUpdate(us, number);
      TwoParts(bytes, d, DescBytes(us[0], number), AllDescs(us[1..], number));
      TwoParts(bytes, dataAt, DataBytes(us[0], number), AllData(us[1..], number));
      DescriptorRead(log, at, length, number, k, dataAt, us[0]);
      UpdatesRead(log, at, length, number, us[1..], k + 1, count, dataAt + one);
      assert [us[0]] + us[1..] == us;
    }
  }

  lemma FirstUpdate(us: seq<Update>, number: nat)
    requires us != [] && AllFit(us)
    ensures AllFit(us[1..])
    ensures AllDescs(us, number) == DescBytes(us[0], number) + AllDescs(us[1..], number)
    ensures AllData(us, number) == DataBytes(us[0], number) + AllData(us[1..], number)
  {
    hide DescBytes, DataBytes, UpdateFits;
  }

  lemma TwoParts(bytes: seq<byte>, at: nat, a: seq<byte>, b: seq<byte>)
    requires at + |a| + |b| <= |bytes| && bytes[at..at + |a| + |b|] == a + b
    ensures bytes[at..at + |a|] == a && bytes[at + |a|..at + |a| + |b|] == b
  {
    SliceSlice(bytes, at, at + |a| + |b|, 0, |a|);
    SliceSlice(bytes, at, at + |a| + |b|, |a|, |a| + |b|);
    assert (a + b)[0..|a|] == a && (a + b)[|a|..|a| + |b|] == b;
  }

  /** Everything written in an entry is read back: what it states of itself and its updates, each zero
      range and each data sector in full, whatever fills its last descriptor sector and the rest of it. */
  lemma ReadsBack(log: Log, at: nat, st: Stated, us: seq<Update>, pad: seq<byte>, slack: seq<byte>)
    requires Address(log, at) && st.Fits() && st.number > 0 && |us| < Pow2(32)
    requires st.length % 4096 == 0 && 0 < st.length <= |log.ring| && st.tail % 4096 == 0 && st.tail < |log.ring|
    requires AllFit(us)
    requires |pad| < 4096 && (64 + 32 * |us| + |pad|) % 4096 == 0
    requires
      var body := AllDescs(us, st.number) + pad + AllData(us, st.number) + slack;
      |body| + 64 == st.length && log.Doubled()[at..at + st.length] == Written(st, |us|, log.guid, body)
    ensures EntryAt(log, at) == Some(LogEntry(st.number, st.tail, st.length, st.flushed, st.last, us))
  {
    hide Pow2, SumOf, HeadAt, Written, Crc32c.Crc, Crc32c.FieldZeroed, DescSectors, AllDescs, AllData, Log.Doubled,
      Updates;
    var descs, data := AllDescs(us, st.number), AllData(us, st.number);
    var body := descs + pad + data + slack;
    HeadRead(log, at, st, |us|, body);
    SumIgnored(st, |us|, log.guid, body);
    SectorsBefore(|us|, |pad|);
    BodyAt(log, at, st, |us|, descs, pad, data, slack);
    UpdatesRead(log, at, st.length, st.number, us, 0, |us|, at + SECTOR * DescSectors(|us|));
  }

  lemma SectorsBefore(count: nat, pad: nat)
    requires pad < 4096 && (64 + 32 * count + pad) % 4096 == 0
    ensures SECTOR * DescSectors(count) == 64 + 32 * count + pad
  {
  }

  lemma BodyAt(log: Log, at: nat, st: Stated, count: nat, descs: seq<byte>, pad: seq<byte>, data: seq<byte>,
               slack: seq<byte>)
    requires log.Place(at, st.length) && |descs| == 32 * count && |descs + pad + data + slack| + 64 == st.length
    requires log.Doubled()[at..at + st.length] == Written(st, count, log.guid, descs + pad + data + slack)
    ensures at + 64 + 32 * count <= 2 * |log.ring|
    ensures log.Doubled()[at + 64..at + 64 + 32 * count] == descs
    ensures var dataAt := at + 64 + 32 * count + |pad|;
      dataAt + |data| <= at + st.length && log.Doubled()[dataAt..dataAt + |data|] == data
  {
    hide SumOf, Written, Log.Doubled;
    var body := descs + pad + data + slack;
    WrittenParts(st, count, log.guid, body);
    var e := Written(st, count, log.guid, body);
    HeadThen(e, body);
    Regroup(e[..64], descs, pad, data, slack);
    SplitAt(log.Doubled(), at, e[..64], descs, pad, data, slack, e);
  }

  lemma HeadThen(e: seq<byte>, body: seq<byte>)
    requires |e| >= 64 && e[64..] == body
    ensures e == e[..64] + body
  {
  }

  lemma SplitAt(b: seq<byte>, at: nat, head: seq<byte>, descs: seq<byte>, pad: seq<byte>, data: seq<byte>,
                slack: seq<byte>, e: seq<byte>)
    requires e == head + descs + pad + data + slack && at + |e| <= |b| && b[at..at + |e|] == e
    ensures b[at + |head|..at + |head| + |descs|] == descs
    ensures var from := at + |head| + |descs| + |pad|; b[from..from + |data|] == data
  {
    var i, j := |head| + |descs|, |head| + |descs| + |pad|;
    SliceSlice(b, at, at + |e|, |head|, i);
    SliceSlice(b, at, at + |e|, j, j + |data|);
    Parts(head, descs, pad, data, slack);
  }

  lemma Regroup(head: seq<byte>, a: seq<byte>, b: seq<byte>, c: seq<byte>, d: seq<byte>)
    ensures head + (a + b + c + d) == head + a + b + c + d
  {
  }
}
