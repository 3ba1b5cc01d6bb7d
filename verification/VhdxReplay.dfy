/** The loops of `_vhdx_replay`, over the search and the overlay. */
module VhdxReplay {
  import opened Bits
  import opened Prelude
  import opened Division
  import opened VhdxOverlay
  import opened VhdxEntry
  import opened VhdxLog

  const MIB: nat := 0x100000

  // ---- the search ----

  /** The inner loop, with its guard against running round for ever. */
  method Collect(log: Log, tail: nat) returns (sequence: seq<Placed>)
    requires Address(log, tail)
    ensures sequence == From(log, tail)
  {
    hide EntryAt, Next;
    sequence := [];
    var head, number := tail, 0;
    ghost var whole := From(log, tail);
    assert [] + whole == whole;
    var running := true;
    while running
      invariant Address(log, head) && |sequence| <= Slots(log) + 1
      invariant running ==> |sequence| <= Slots(log)
      invariant running ==>
        whole == sequence + Chain(log, head, if sequence == [] then None else Some(number), Slots(log) - |sequence|)
      invariant !running ==> whole == sequence
      decreases Slots(log) + 1 - |sequence|, running
    {
      var found := ReadEntry(log, head);
      if found.None? || (sequence != [] && found.value.seqNumber != number + 1) {
        assert sequence + [] == sequence;
        running := false;
      } else {
        var p := Placed(head, found.value);
        NextAddress(log, p);
        Extend(log, sequence, head, if sequence == [] then None else Some(number), Slots(log) - |sequence|);
        sequence := sequence + [p];
        number := found.value.seqNumber;
        head := Next(log, p);
        if |sequence| > Slots(log) {
          running := false;
        }
      }
    }
  }

  lemma Extend(log: Log, sequence: seq<Placed>, head: nat, after: Option<nat>, room: nat)
    requires Address(log, head) && EntryAt(log, head).Some?
    requires after.Some? ==> EntryAt(log, head).value.seqNumber == after.value + 1
    ensures var p := Placed(head, EntryAt(log, head).value);
      && Address(log, Next(log, p))
      && sequence + Chain(log, head, after, room)
         == (sequence + [p])
            + if room == 0 then [] else Chain(log, Next(log, p), Some(p.entry.seqNumber), room - 1)
  {
    hide EntryAt, Next;
    NextAddress(log, Placed(head, EntryAt(log, head).value));
  }

  method FindActive(log: Log) returns (best: Option<seq<Placed>>)
    requires log.Valid()
    ensures best == Active(log)
  {
    hide EntryAt, Chain, From, Onward;
    best := None;
    var tail, running := 0, true;
    RingStarts(log);
    while running
      invariant Address(log, tail)
      invariant if running then Active(log) == Scan(log, tail, best) else Active(log) == best
      decreases |log.ring| - tail, running
    {
      var sequence := Collect(log, tail);
      GuardNeverFires(log, tail);
      OnwardAddress(log, tail, sequence);
      var valid := sequence != [] && exists i :: 0 <= i < |sequence| && sequence[i].at == HeadOf(sequence).tail;
      OnwardIs(log, tail, sequence);
      if valid && HeadOf(sequence).seqNumber > Number(best) {
        best := Some(sequence);
      }
      var next := if !valid then Mod(tail + SECTOR, |log.ring|) else Next(log, sequence[|sequence| - 1]);
      if next <= tail {
        running := false;
      } else {
        tail := next;
      }
    }
  }

  // ---- the replay ----

  /** The first entry at the head's tail. */
  function StartIndex(c: seq<Placed>, i: nat): (start: nat)
    requires c != [] && i < |c| && exists k :: i <= k < |c| && c[k].at == HeadOf(c).tail
    ensures i <= start < |c| && c[start].at == HeadOf(c).tail
    ensures forall k :: i <= k < start ==> c[k].at != HeadOf(c).tail
    decreases |c| - i
  {
    if c[i].at == HeadOf(c).tail then i else StartIndex(c, i + 1)
  }

  /** The updates of a run of entries, in order. */
  function UpdatesOf(c: seq<Placed>): seq<Update>
  {
    if c == [] then [] else UpdatesOf(c[..|c| - 1]) + c[|c| - 1].entry.updates
  }

  /** How far the entries say the file reaches. */
  function ExtentOf(c: seq<Placed>, extent: nat): nat
  {
    if c == [] then extent else Max(ExtentOf(c[..|c| - 1], extent), c[|c| - 1].entry.last)
  }

  /** The greatest of where it was and the last offset of each entry. */
  lemma {:induction false} ExtentGreatest(c: seq<Placed>, extent: nat)
    ensures ExtentOf(c, extent) >= extent && forall k :: 0 <= k < |c| ==> ExtentOf(c, extent) >= c[k].entry.last
    ensures ExtentOf(c, extent) == extent || exists k :: 0 <= k < |c| && ExtentOf(c, extent) == c[k].entry.last
  {
    if c != [] {
      var n := |c| - 1;
      ExtentGreatest(c[..n], extent);
      assert forall k :: 0 <= k < n ==> c[..n][k] == c[k];
    }
  }

  datatype Replayed = NoReplay | Replayed(entries: seq<Placed>)

  /** What a replay does: nothing when the log's place is impossible, when no sequence is active, or
      when the file is shorter than the head says it was; else the entries from the active
      sequence's tail to its head. A log of no bytes raises, too: the scan divides by its length. */
  function Outcome(file: seq<byte>, guid: seq<byte>, logOffset: nat, logLength: nat): (r: Replayed)
    requires |guid| == 16
    ensures r.Replayed? ==> r.entries != []
  {
    if logLength % MIB != 0 || logOffset % MIB != 0 || logOffset + logLength > |file| || logLength == 0 then NoReplay
    else
      var log := Log(file[logOffset..logOffset + logLength], guid);
      RingValid(log);
      var best := Active(log);
      if best.None? then NoReplay
      else
        ActiveIs(log);
        if |file| < HeadOf(best.value).flushed then NoReplay
        else Replayed(best.value[StartIndex(best.value, 0)..])
  }

  /** A log is replayed exactly when it lies in whole megabytes of the file, holds a valid sequence, and the file is
      at least as long as its head says it was; and then from the entry the head names to the head. */
  lemma ReplayedIff(file: seq<byte>, guid: seq<byte>, logOffset: nat, logLength: nat, log: Log)
    requires |guid| == 16 && 0 < logLength && logOffset + logLength <= |file|
    requires logOffset % 0x100000 == 0 && logLength % 0x100000 == 0
    requires log == Log(file[logOffset..logOffset + logLength], guid)
    ensures log.Valid()
    ensures
      var r, best := Outcome(file, guid, logOffset, logLength), Active(log);
      && (r.Replayed? <==> best.Some? && best.value != [] && best.value[|best.value| - 1].entry.flushed <= |file|)
      && (r.Replayed? ==>
            && 0 < |r.entries| <= |best.value| && r.entries == best.value[|best.value| - |r.entries|..]
            && r.entries[0].at == best.value[|best.value| - 1].entry.tail)
  {
    hide Active, Linked, From, EntryAt;
    RingValid(log);
    ActiveIs(log);
  }

  lemma RingValid(log: Log)
    requires |log.ring| > 0 && |log.ring| % MIB == 0 && |log.guid| == 16
    ensures log.Valid()
  {
    var a := |log.ring| / MIB;
    assert |log.ring| == SECTOR * (256 * a);
  }

  lemma {:induction false} LinkedAligned(log: Log, c: seq<Placed>)
    requires Linked(log, c)
    ensures AllAligned(UpdatesOf(c))
  {
    hide EntryAt, Next;
    if c != [] {
      var p := c[|c| - 1];
      assert EntryAt(log, p.at) == Some(p.entry);
      var less := c[..|c| - 1];
      forall i | 0 <= i < |less| - 1
        ensures Follows(log, less[i], less[i + 1])
      {
        assert Follows(log, c[i], c[i + 1]);
      }
      LinkedAligned(log, less);
    }
  }

  lemma LinkedSuffix(log: Log, c: seq<Placed>, start: nat)
    requires Linked(log, c) && start <= |c|
    ensures Linked(log, c[start..])
  {
    hide EntryAt, Next;
    var rest := c[start..];
    forall i | 0 <= i < |rest| - 1
      ensures Follows(log, rest[i], rest[i + 1])
    {
      assert Follows(log, c[start + i], c[start + i + 1]);
    }
  }

  /** Every update of one entry laid down. */
  method LayAll(f: VhdxFile, us: seq<Update>)
    requires f.Valid() && AllAligned(us)
    modifies f`overlay, f`replayed
    ensures f.Valid() && f.replayed == old(f.replayed) + us
  {
    for i := 0 to |us|
      invariant f.Valid() && f.replayed == old(f.replayed) + us[..i]
    {
      f.Lay(us[i]);
      assert us[..i + 1] == us[..i] + [us[i]];
    }
    assert us[..|us|] == us;
  }

  /** `_vhdx_replay`: the number of entries replayed; afterwards the file reads as the zero-extended
      file with their updates written to it in order. */
  method Replay(f: VhdxFile, guid: seq<byte>, logOffset: nat, logLength: nat) returns (r: Result<nat>)
    requires f.Valid() && |guid| == 16
    modifies f
    ensures f.Valid()
    ensures var outcome := Outcome(f.file, guid, logOffset, logLength);
      if outcome.NoReplay? then r == Raised && f.replayed == old(f.replayed) && f.extent == old(f.extent)
      else
        && r == Ok(|outcome.entries|)
        && f.replayed == old(f.replayed) + UpdatesOf(outcome.entries)
        && f.extent == ExtentOf(outcome.entries, old(f.extent))
  {
    hide Active, From, Linked, EntryAt, Represents, UpdatesOf, ExtentOf, Patched;
    NoneMore(f.extent);
    var size := |f.file|;
    if logLength % MIB != 0 || logOffset % MIB != 0 || logOffset + logLength > size {
      return Raised;
    }
    if logLength == 0 {
      return Raised;
    }
    var log := Log(f.file[logOffset..logOffset + logLength], guid);
    RingValid(log);
    var best := FindActive(log);
    if best.None? {
      return Raised;
    }
    ActiveIs(log);
    var head := HeadOf(best.value);
    if size < head.flushed {
      return Raised;
    }
    var start := StartIndex(best.value, 0);
    var entries := best.value[start..];
    LinkedSuffix(log, best.value, start);
    LinkedAligned(log, entries);
    for i := 0 to |entries|
      invariant f.Valid()
      invariant f.replayed == old(f.replayed) + UpdatesOf(entries[..i])
      invariant f.extent == ExtentOf(entries[..i], old(f.extent))
    {
      OneMore(entries, i, old(f.extent));
      UpdatesAligned(log, entries, i);
      f.extent := Max(f.extent, entries[i].entry.last);
      LayAll(f, entries[i].entry.updates);
    }
    assert entries[..|entries|] == entries;
    r := Ok(|best.value| - start);
  }

  lemma NoneMore(extent: nat)
    ensures UpdatesOf([]) == [] && ExtentOf([], extent) == extent
  {
  }

  lemma OneMore(c: seq<Placed>, i: nat, extent: nat)
    requires i < |c|
    ensures UpdatesOf(c[..i + 1]) == UpdatesOf(c[..i]) + c[i].entry.updates
    ensures ExtentOf(c[..i + 1], extent) == Max(ExtentOf(c[..i], extent), c[i].entry.last)
  {
    assert c[..i + 1][..i] == c[..i];
  }

  lemma UpdatesAligned(log: Log, c: seq<Placed>, i: nat)
    requires Linked(log, c) && i < |c|
    ensures AllAligned(c[i].entry.updates)
  {
    hide Follows;
    assert EntryAt(log, c[i].at) == Some(c[i].entry);
  }
}
