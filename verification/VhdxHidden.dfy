/** A log whose search passes over a better sequence: an entry that states more than it fills hides
    the entry that starts in its slack. */
module VhdxHidden {
  import opened Bits
  import opened Prelude
  import opened VhdxOverlay
  import opened VhdxEntry
  import opened VhdxLog
  import opened VhdxReplay
  import opened VhdxWriter
  import Crc32c

  /** An entry without descriptors. */
  function Plain(number: nat, tail: nat, length: nat, guid: seq<byte>, body: seq<byte>): (s: seq<byte>)
    requires |guid| == 16
    ensures |s| == 64 + |body|
  {
    Written(Stated(number, tail, length, 0, 0), 0, guid, body)
  }

  lemma PlainRead(log: Log, at: nat, number: nat, tail: nat, length: nat, body: seq<byte>)
    requires Address(log, at) && 0 < number < Pow2(64) && tail < Pow2(32) && length < Pow2(32)
    requires length % SECTOR == 0 && 0 < length <= |log.ring| && tail % SECTOR == 0 && tail < |log.ring|
    requires |body| == length - 64
    requires log.Doubled()[at..at + length] == Plain(number, tail, length, log.guid, body)
    ensures EntryAt(log, at) == Some(LogEntry(number, tail, length, 0, 0, []))
  {
    hide Pow2, EntryAt, Written, Log.Doubled;
    assert [] + body[..4032] + [] + body[4032..] == body;
    ZeroBound();
    ReadsBack(log, at, Stated(number, tail, length, 0, 0), [], body[..4032], body[4032..]);
  }

  lemma ZeroBound()
    ensures 0 < Pow2(32) && 0 < Pow2(64)
  {
  }

  // ---- the example ----

  /** Entry 2, a sequence by itself, of one sector. */
  function Hidden(guid: seq<byte>): seq<byte>
    requires |guid| == 16
  {
    Plain(2, SECTOR, SECTOR, guid, Zeros(SECTOR - 64))
  }

  /** Entry 1 states the whole log as its length and fills one sector; entry 2 is in the next. */
  function Body(guid: seq<byte>): (s: seq<byte>)
    requires |guid| == 16
    ensures |s| == MIB - 64
  {
    Zeros(SECTOR - 64) + Hidden(guid) + Zeros(MIB - 2 * SECTOR)
  }

  function HidingLog(guid: seq<byte>): (log: Log)
    requires |guid| == 16
    ensures log.Valid() && |log.ring| == MIB && log.guid == guid
  {
    Log(Plain(1, 0, MIB, guid, Body(guid)), guid)
  }

  lemma SizesFit()
    ensures MIB < Pow2(32) && 2 < Pow2(64)
    ensures MIB % SECTOR == 0
  {
    hide Pow2;
    Pow2Small();
    Pow2Mono(16, 64);
    Crc32c.PolyTop();
  }

  /** Where the two entries are in the log. */
  lemma HidingBytes(guid: seq<byte>)
    requires |guid| == 16
    ensures var bytes := HidingLog(guid).Doubled();
      && bytes[..MIB] == Plain(1, 0, MIB, guid, Body(guid))
      && bytes[SECTOR..2 * SECTOR] == Hidden(guid) && bytes[2 * SECTOR] == 0
  {
    hide Hidden, Plain;
    var ring, rest := HidingLog(guid).ring, Zeros(MIB - 2 * SECTOR);
    FromBody(1, 0, MIB, guid, Body(guid));
    assert ring[SECTOR..2 * SECTOR] == ring[64..][SECTOR - 64..2 * SECTOR - 64] == Hidden(guid);
    assert ring[2 * SECTOR] == ring[64..][2 * SECTOR - 64] == rest[0];
    assert HidingLog(guid).Doubled()[..MIB] == ring;
    assert HidingLog(guid).Doubled()[SECTOR..2 * SECTOR] == ring[SECTOR..2 * SECTOR];
  }

  lemma FromBody(number: nat, tail: nat, length: nat, guid: seq<byte>, body: seq<byte>)
    requires |guid| == 16
    ensures Plain(number, tail, length, guid, body)[64..] == body
  {
    hide Written;
    WrittenParts(Stated(number, tail, length, 0, 0), 0, guid, body);
  }

  lemma HidingEntries(log: Log)
    requires log.Valid() && |log.ring| == MIB && log == HidingLog(log.guid)
    ensures Address(log, 0) && Address(log, SECTOR) && Address(log, 2 * SECTOR)
    ensures EntryAt(log, 0) == Some(LogEntry(1, 0, MIB, 0, 0, []))
    ensures EntryAt(log, SECTOR) == Some(LogEntry(2, SECTOR, SECTOR, 0, 0, []))
    ensures EntryAt(log, 2 * SECTOR) == None
  {
    hide EntryAt, Pow2, Plain, Log.Doubled, HidingLog;
    HidingBytes(log.guid);
    OuterEntry(log);
    InnerEntry(log);
    Unsigned(log, 2 * SECTOR);
  }

  lemma OuterEntry(log: Log)
    requires log.Valid() && |log.ring| == MIB && log.Doubled()[..MIB] == Plain(1, 0, MIB, log.guid, Body(log.guid))
    ensures EntryAt(log, 0) == Some(LogEntry(1, 0, MIB, 0, 0, []))
  {
    hide EntryAt, Pow2, Plain, Log.Doubled, Body;
    SizesFit();
    assert log.Doubled()[0..0 + MIB] == log.Doubled()[..MIB];
    PlainRead(log, 0, 1, 0, MIB, Body(log.guid));
  }

  lemma InnerEntry(log: Log)
    requires log.Valid() && |log.ring| == MIB && log.Doubled()[SECTOR..2 * SECTOR] == Hidden(log.guid)
    ensures EntryAt(log, SECTOR) == Some(LogEntry(2, SECTOR, SECTOR, 0, 0, []))
  {
    hide EntryAt, Pow2, Plain, Log.Doubled, Zeros;
    SizesFit();
    PlainRead(log, SECTOR, 2, SECTOR, SECTOR, Zeros(SECTOR - 64));
  }

  lemma Unsigned(log: Log, at: nat)
    requires Address(log, at) && log.Doubled()[at] == 0
    ensures EntryAt(log, at) == None
  {
    hide Crc32c.Crc, Updates;
    RoomFor(|log.ring|, at);
    assert log.Doubled()[at..at + 4][0] == 0;
  }

  /** An entry that the next one does not follow is a sequence by itself. */
  lemma Alone(log: Log, at: nat, e: LogEntry)
    requires Address(log, at) && EntryAt(log, at) == Some(e) && Address(log, Next(log, Placed(at, e)))
    requires EntryAt(log, Next(log, Placed(at, e))).None?
             || EntryAt(log, Next(log, Placed(at, e))).value.seqNumber != e.seqNumber + 1
    ensures From(log, at) == [Placed(at, e)]
  {
    hide EntryAt, Next;
    RoomFor(|log.ring|, at);
    assert Chain(log, Next(log, Placed(at, e)), Some(e.seqNumber), Slots(log) - 1) == [];
  }

  /** The search keeps entry 1 and the replay of any file with this log replays it, though entry 2 is a
      valid sequence and has the greater number. */
  lemma HiddenExample(guid: seq<byte>)
    requires |guid| == 16
    ensures var log := HidingLog(guid);
      && Address(log, SECTOR) && ValidSequence(From(log, SECTOR)) && HeadOf(From(log, SECTOR)).seqNumber == 2
      && Active(log) == Some([Placed(0, LogEntry(1, 0, MIB, 0, 0, []))]) && !Greatest(log)
      && forall file: seq<byte>, at: nat | at % MIB == 0 && at + MIB <= |file| && file[at..at + MIB] == log.ring ::
           Outcome(file, guid, at, MIB) == Replayed(Active(log).value)
  {
    hide EntryAt, Plain, Chain, From, HidingLog;
    var log := HidingLog(guid);
    var one, two := LogEntry(1, 0, MIB, 0, 0, []), LogEntry(2, SECTOR, SECTOR, 0, 0, []);
    HidingEntries(log);
    SizesFit();
    assert Next(log, Placed(0, one)) == 0 && Next(log, Placed(SECTOR, two)) == 2 * SECTOR;
    Alone(log, 0, one);
    Alone(log, SECTOR, two);
    assert From(log, 0)[0].at == HeadOf(From(log, 0)).tail;
    assert From(log, SECTOR)[0].at == HeadOf(From(log, SECTOR)).tail;
  }
}
