/** The log of a VHDX file (`_vhdx_replay`; section 2.3.3 of [MS-VHDX]): the search of its ring for
    the active sequence of entries, and the replay of that sequence. */
module VhdxLog {
  import opened Prelude
  import opened Division
  import opened VhdxOverlay
  import opened VhdxEntry

  /** An entry and its address in the ring. */
  datatype Placed = Placed(at: nat, entry: LogEntry)

  function Slots(log: Log): nat { |log.ring| / SECTOR }

  ghost predicate Address(log: Log, at: nat) { log.Valid() && at < |log.ring| && at % SECTOR == 0 }

  /** The address after an entry, round the ring. */
  function Next(log: Log, p: Placed): nat
    requires log.ring != []
  {
    Mod(p.at + p.entry.length, |log.ring|)
  }

  lemma NextAddress(log: Log, p: Placed)
    requires Address(log, p.at) && p.entry.length % SECTOR == 0
    ensures Address(log, Next(log, p))
  {
    RingMod(p.at + p.entry.length, |log.ring|);
  }

  lemma RingMod(x: nat, n: nat)
    requires n > 0 && n % SECTOR == 0 && x % SECTOR == 0
    ensures Mod(x, n) % SECTOR == 0
    decreases x
  {
    if x >= n {
      RingMod(x - n, n);
    }
  }

  /** What the inner loop collects from `at`: entries whose numbers rise by one, each where the one
      before it ends, and at most `room` more after the first. */
  function Chain(log: Log, at: nat, after: Option<nat>, room: nat): (c: seq<Placed>)
    requires Address(log, at)
    ensures |c| <= room + 1
    decreases room
  {
    match EntryAt(log, at)
    case None => []
    case Some(e) =>
      if after.Some? && e.seqNumber != after.value + 1 then []
      else
        var p := Placed(at, e);
        NextAddress(log, p);
        if room == 0 then [p] else [p] + Chain(log, Next(log, p), Some(e.seqNumber), room - 1)
  }

  /** Numbers rise by one and entries lie end to end round the ring. */
  ghost predicate Linked(log: Log, c: seq<Placed>)
  {
    && (forall i :: 0 <= i < |c| ==> Address(log, c[i].at) && EntryAt(log, c[i].at) == Some(c[i].entry))
    && (forall i :: 0 <= i < |c| - 1 ==> Follows(log, c[i], c[i + 1]))
  }

  ghost predicate Follows(log: Log, p: Placed, q: Placed)
    requires log.Valid()
  {
    q.entry.seqNumber == p.entry.seqNumber + 1 && q.at == Next(log, p)
  }

  lemma {:induction false} ChainLinked(log: Log, at: nat, after: Option<nat>, room: nat)
    requires Address(log, at)
    ensures var c := Chain(log, at, after, room);
      && Linked(log, c)
      && (c != [] ==> c[0].at == at && (after.Some? ==> c[0].entry.seqNumber == after.value + 1))
    decreases room
  {
    hide EntryAt, Next;
    match EntryAt(log, at)
    case None =>
    case Some(e) =>
      var p := Placed(at, e);
      NextAddress(log, p);
      if room != 0 {
        ChainLinked(log, Next(log, p), Some(e.seqNumber), room - 1);
        var more := Chain(log, Next(log, p), Some(e.seqNumber), room - 1);
        var c := [p] + more;
        forall i | 0 <= i < |c| - 1
          ensures Follows(log, c[i], c[i + 1])
        {
          if i > 0 {
            assert Follows(log, more[i - 1], more[i]);
          }
        }
      }
  }

  lemma {:induction false} NumbersRise(log: Log, c: seq<Placed>, i: nat, j: nat)
    requires Linked(log, c) && i <= j < |c|
    ensures c[j].entry.seqNumber == c[i].entry.seqNumber + (j - i)
    decreases j
  {
    hide EntryAt, Next;
    if i < j {
      NumbersRise(log, c, i, j - 1);
      assert Follows(log, c[j - 1], c[j - 1 + 1]);
    }
  }

  /** Rising numbers mean no address comes twice. */
  lemma AddressesDiffer(log: Log, c: seq<Placed>, i: nat, j: nat)
    requires Linked(log, c) && i < j < |c|
    ensures c[i].at != c[j].at
  {
    hide EntryAt, Next;
    NumbersRise(log, c, i, j);
    assert EntryAt(log, c[i].at) == Some(c[i].entry);
    assert EntryAt(log, c[j].at) == Some(c[j].entry);
  }

  /** The pigeonhole principle: different numbers below `n` are at most `n`. */
  lemma {:induction false} Pigeonhole(s: seq<nat>, n: nat)
    requires forall i :: 0 <= i < |s| ==> s[i] < n
    requires forall i, j :: 0 <= i < j < |s| ==> s[i] != s[j]
    ensures |s| <= n
    decreases n
  {
    assert s != [] ==> s[0] < n;
    if n == 0 {
    } else if exists k :: 0 <= k < |s| && s[k] == n - 1 {
      var k :| 0 <= k < |s| && s[k] == n - 1;
      Pigeonhole(s[..k] + s[k + 1..], n - 1);
    } else {
      Pigeonhole(s, n - 1);
    }
  }

  /** A sequence of entries never fills the ring more than once. */
  lemma LinkedFits(log: Log, c: seq<Placed>)
    requires log.Valid() && Linked(log, c)
    ensures |c| <= Slots(log)
  {
    hide EntryAt, Next;
    var slots := seq(|c|, i requires 0 <= i < |c| => c[i].at / SECTOR);
    forall i | 0 <= i < |slots|
      ensures slots[i] < Slots(log)
    {
      SlotBelow(c[i].at, |log.ring|);
    }
    forall i, j | 0 <= i < j < |slots|
      ensures slots[i] != slots[j]
    {
      AddressesDiffer(log, c, i, j);
      SlotsApart(c[i].at, c[j].at);
    }
    Pigeonhole(slots, Slots(log));
  }

  lemma SlotBelow(at: nat, n: nat)
    requires at < n && at % SECTOR == 0 && n % SECTOR == 0
    ensures at / SECTOR < n / SECTOR
  {
  }

  lemma SlotsApart(a: nat, b: nat)
    requires a % SECTOR == 0 && b % SECTOR == 0 && a != b
    ensures a / SECTOR != b / SECTOR
  {
  }

  /** The whole sequence from an address. The guard on its length never stops it. */
  function From(log: Log, at: nat): seq<Placed>
    requires Address(log, at)
  {
    Chain(log, at, None, Slots(log))
  }

  lemma GuardNeverFires(log: Log, at: nat)
    requires Address(log, at)
    ensures Linked(log, From(log, at)) && |From(log, at)| <= Slots(log)
    ensures From(log, at) != [] ==> From(log, at)[0].at == at
  {
    hide EntryAt, Chain;
    ChainLinked(log, at, None, Slots(log));
    LinkedFits(log, From(log, at));
  }

  /** More room changes nothing for a chain that did not use up what it had. */
  lemma {:induction false} MoreRoom(log: Log, at: nat, after: Option<nat>, room: nat, more: nat)
    requires Address(log, at) && room <= more && |Chain(log, at, after, room)| <= room
    ensures Chain(log, at, after, more) == Chain(log, at, after, room)
    decreases room
  {
    hide EntryAt, Next;
    match EntryAt(log, at)
    case None =>
    case Some(e) =>
      NextAddress(log, Placed(at, e));
      if after.None? || e.seqNumber == after.value + 1 {
        MoreRoom(log, Next(log, Placed(at, e)), Some(e.seqNumber), room - 1, more - 1);
      }
  }

  /** Starting at an entry of a sequence gives the rest of the sequence. */
  lemma {:induction false} Suffix(log: Log, at: nat, after: Option<nat>, room: nat, i: nat)
    requires Address(log, at)
    requires var c := Chain(log, at, after, room); i < |c| <= room && room <= Slots(log)
    ensures var c := Chain(log, at, after, room);
      Address(log, c[i].at) && From(log, c[i].at) == c[i..]
    decreases i
  {
    hide EntryAt, Next;
    var c := Chain(log, at, after, room);
    ChainLinked(log, at, after, room);
    var e := EntryAt(log, at).value;
    NextAddress(log, Placed(at, e));
    if i == 0 {
      FirstAlone(log, at, after, room);
      MoreRoom(log, at, None, room, Slots(log));
    } else {
      var rest := Chain(log, Next(log, Placed(at, e)), Some(e.seqNumber), room - 1);
      Suffix(log, Next(log, Placed(at, e)), Some(e.seqNumber), room - 1, i - 1);
      assert c[i] == rest[i - 1] && c[i..] == rest[i - 1..];
    }
  }

  lemma FirstAlone(log: Log, at: nat, after: Option<nat>, room: nat)
    requires Address(log, at) && Chain(log, at, after, room) != []
    ensures Chain(log, at, None, room) == Chain(log, at, after, room)
  {
    hide EntryAt, Next;
  }

  // ---- the active sequence ----

  function HeadOf(c: seq<Placed>): LogEntry
    requires c != []
  {
    c[|c| - 1].entry
  }

  /** A sequence is valid when it holds the entry its head names as the tail. */
  predicate ValidSequence(c: seq<Placed>)
  {
    c != [] && exists i :: 0 <= i < |c| && c[i].at == HeadOf(c).tail
  }

  function Number(best: Option<seq<Placed>>): nat
  {
    if best.None? || best.value == [] then 0 else HeadOf(best.value).seqNumber
  }

  function Better(c: seq<Placed>, best: Option<seq<Placed>>): Option<seq<Placed>>
  {
    if ValidSequence(c) && HeadOf(c).seqNumber > Number(best) then Some(c) else best
  }

  /** The tail may be any entry of the sequence, its head among them. */
  lemma ValidIff(c: seq<Placed>)
    requires c != []
    ensures ValidSequence(c) <==> c[|c| - 1].entry.tail in seq(|c|, i requires 0 <= i < |c| => c[i].at)
  {
    var ats := seq(|c|, i requires 0 <= i < |c| => c[i].at);
    if ValidSequence(c) {
      var i :| 0 <= i < |c| && c[i].at == HeadOf(c).tail;
      assert ats[i] == HeadOf(c).tail;
    }
  }

  /** A sequence gives way to one whose head has a greater number, and to no other. */
  lemma GivesWay(c: seq<Placed>, best: seq<Placed>)
    requires best != [] && c != best
    ensures Better(c, Some(best)) == Some(c) <==>
      ValidSequence(c) && c[|c| - 1].entry.seqNumber > best[|best| - 1].entry.seqNumber
    ensures Better(c, Some(best)) == Some(c) || Better(c, Some(best)) == Some(best)
  {
  }

  /** Where the scan goes after the sequence from `tail`. */
  function Onward(log: Log, tail: nat, c: seq<Placed>): nat
    requires log.ring != []
  {
    if ValidSequence(c) then Next(log, c[|c| - 1]) else Mod(tail + SECTOR, |log.ring|)
  }

  lemma OnwardIs(log: Log, tail: nat, c: seq<Placed>)
    requires log.ring != []
    ensures ValidSequence(c) ==> c != [] && Onward(log, tail, c) == Next(log, c[|c| - 1])
    ensures !ValidSequence(c) ==> Onward(log, tail, c) == Mod(tail + SECTOR, |log.ring|)
  {
  }

  lemma OnwardAddress(log: Log, tail: nat, c: seq<Placed>)
    requires Address(log, tail) && Linked(log, c)
    ensures Address(log, Onward(log, tail, c))
  {
    hide EntryAt;
    if ValidSequence(c) {
      NextAddress(log, c[|c| - 1]);
    } else {
      RingMod(tail + SECTOR, |log.ring|);
    }
  }

  /** The outer loop from `tail`, until it comes round. */
  function Scan(log: Log, tail: nat, best: Option<seq<Placed>>): Option<seq<Placed>>
    requires Address(log, tail)
    decreases |log.ring| - tail
  {
    var c := From(log, tail);
    GuardNeverFires(log, tail);
    OnwardAddress(log, tail, c);
    var next := Onward(log, tail, c);
    if next <= tail then Better(c, best) else Scan(log, next, Better(c, best))
  }

  /** What the search keeps is a whole sequence of the log, and valid. */
  ghost predicate Kept(log: Log, best: Option<seq<Placed>>)
  {
    best.Some? ==>
      && best.value != [] && Address(log, best.value[0].at)
      && best.value == From(log, best.value[0].at) && Linked(log, best.value) && ValidSequence(best.value)
  }

  lemma {:induction false} ScanKeeps(log: Log, tail: nat, best: Option<seq<Placed>>)
    requires Address(log, tail) && Kept(log, best)
    ensures Kept(log, Scan(log, tail, best)) && Number(Scan(log, tail, best)) >= Number(best)
    decreases |log.ring| - tail
  {
    hide EntryAt, Chain, From, ValidSequence, Onward;
    var c := From(log, tail);
    GuardNeverFires(log, tail);
    OnwardAddress(log, tail, c);
    BetterKeeps(log, tail, best);
    if Onward(log, tail, c) > tail {
      ScanKeeps(log, Onward(log, tail, c), Better(c, best));
    }
  }

  lemma BetterKeeps(log: Log, tail: nat, best: Option<seq<Placed>>)
    requires Address(log, tail) && Kept(log, best)
    ensures var better := Better(From(log, tail), best);
      && Kept(log, better) && Number(better) >= Number(best)
      && (ValidSequence(From(log, tail)) ==> Number(better) >= HeadOf(From(log, tail)).seqNumber)
  {
    hide EntryAt, Chain, From;
    GuardNeverFires(log, tail);
  }

  /** The scan from `tail` comes to `t`. */
  ghost predicate Visits(log: Log, tail: nat, t: nat)
    requires Address(log, tail)
    decreases |log.ring| - tail
  {
    var c := From(log, tail);
    GuardNeverFires(log, tail);
    OnwardAddress(log, tail, c);
    t == tail || (Onward(log, tail, c) > tail && Visits(log, Onward(log, tail, c), t))
  }

  lemma {:induction false} VisitsNext(log: Log, tail: nat, t: nat)
    requires Address(log, tail) && Visits(log, tail, t)
    ensures Address(log, t) && tail <= t && Address(log, Onward(log, t, From(log, t)))
    ensures Onward(log, t, From(log, t)) > t ==> Visits(log, tail, Onward(log, t, From(log, t)))
    decreases |log.ring| - tail
  {
    hide EntryAt, Chain, From, Onward;
    GuardNeverFires(log, tail);
    OnwardAddress(log, tail, From(log, tail));
    if t != tail {
      VisitsNext(log, Onward(log, tail, From(log, tail)), t);
    }
  }

  /** `t` lies in the part of an entry that nothing of it fills, in a valid sequence the scan takes. */
  ghost predicate Slack(log: Log, t: nat)
    requires log.Valid()
  {
    exists v: nat, i: nat :: TakenFrom(log, v) && SlackIn(log, t, v, i)
  }

  ghost predicate TakenFrom(log: Log, v: nat)
    requires log.Valid()
  {
    RingStarts(log);
    Visits(log, 0, v)
  }

  ghost predicate SlackIn(log: Log, t: nat, v: nat, i: nat)
  {
    && Address(log, v) && ValidSequence(From(log, v)) && i < |From(log, v)|
    && var p := From(log, v)[i]; p.at + Filled(p.entry) <= t < p.at + p.entry.length
  }

  lemma RingStarts(log: Log)
    requires log.Valid()
    ensures Address(log, 0)
  {
  }

  /** Where the `i`-th entry of a sequence would start if the ring did not wrap. */
  function Unwrapped(c: seq<Placed>, i: nat): nat
    requires i <= |c| && c != []
  {
    if i == 0 then c[0].at else Unwrapped(c, i - 1) + c[i - 1].entry.length
  }

  lemma {:induction false} UnwrappedAt(log: Log, c: seq<Placed>, i: nat)
    requires log.Valid() && Linked(log, c) && i < |c|
    ensures Mod(Unwrapped(c, i), |log.ring|) == c[i].at
  {
    hide EntryAt, Mod;
    if i == 0 {
      SmallMod(c[0].at, |log.ring|);
    } else {
      UnwrappedAt(log, c, i - 1);
      assert Follows(log, c[i - 1], c[i - 1 + 1]);
      AddMod(Unwrapped(c, i - 1), c[i - 1].entry.length, |log.ring|);
    }
  }

  lemma UnwrappedEnd(log: Log, c: seq<Placed>)
    requires log.Valid() && Linked(log, c) && c != []
    ensures Mod(Unwrapped(c, |c|), |log.ring|) == Next(log, c[|c| - 1])
  {
    hide EntryAt, Linked, Mod;
    var m := |c| - 1;
    UnwrappedAt(log, c, m);
    AddMod(Unwrapped(c, m), c[m].entry.length, |log.ring|);
  }

  lemma SmallMod(x: nat, n: nat)
    requires x < n
    ensures Mod(x, n) == x
  {
  }

  lemma {:induction false} AddMod(x: nat, y: nat, n: nat)
    requires n > 0
    ensures Mod(x + y, n) == Mod(Mod(x, n) + y, n)
  {
    if x >= n {
      AddMod(x - n, y, n);
    }
  }

  /** A position from the start of a sequence to its end lies in one of its entries. */
  lemma {:induction false} InSomeEntry(c: seq<Placed>, n: nat, t: nat) returns (i: nat)
    requires c != [] && n <= |c| && c[0].at <= t < Unwrapped(c, n)
    ensures i < n && Unwrapped(c, i) <= t < Unwrapped(c, i) + c[i].entry.length
  {
    if t < Unwrapped(c, n - 1) {
      i := InSomeEntry(c, n - 1, t);
    } else {
      i := n - 1;
    }
  }

  /** What the scan steps over after a valid sequence is filled by one of its entries, so that no
      entry starts there, or is the start of a rest of it, or is in the slack of one of its entries. */
  lemma SteppedOver(log: Log, v: nat, t: nat)
    requires Address(log, v) && Address(log, t) && v < t && ValidSequence(From(log, v))
    requires t < Onward(log, v, From(log, v)) || Onward(log, v, From(log, v)) <= v
    ensures From(log, t) == [] || HeadOf(From(log, t)) == HeadOf(From(log, v)) || exists i: nat :: SlackIn(log, t, v, i)
  {
    hide EntryAt, Chain, ValidSequence, Unwrapped, Onward, Mod, Filled;
    var c, n := From(log, v), |log.ring|;
    GuardNeverFires(log, v);
    OnwardIs(log, v, c);
    UnwrappedEnd(log, c);
    UnwrappedGrows(log, c, |c|);
    EndReaches(Unwrapped(c, |c|), n, v, Onward(log, v, c), t);
    var i := InSomeEntry(c, |c|, t);
    SmallMod(Unwrapped(c, i), n);
    UnwrappedAt(log, c, i);
    if t == c[i].at {
      Suffix(log, v, None, Slots(log), i);
    } else if t < c[i].at + Filled(c[i].entry) {
      FilledHoldsNone(log, c[i].at, t);
      NoneFrom(log, t);
    } else {
      assert SlackIn(log, t, v, i);
    }
  }

  lemma NoneFrom(log: Log, t: nat)
    requires Address(log, t) && EntryAt(log, t).None?
    ensures From(log, t) == []
  {
    hide EntryAt;
  }

  lemma {:induction false} UnwrappedGrows(log: Log, c: seq<Placed>, i: nat)
    requires Linked(log, c) && c != [] && i <= |c|
    ensures Unwrapped(c, i) >= c[0].at + i
  {
    hide EntryAt;
    if i > 0 {
      UnwrappedGrows(log, c, i - 1);
      assert EntryAt(log, c[i - 1].at) == Some(c[i - 1].entry);
    }
  }

  lemma EndReaches(end: nat, n: nat, v: nat, next: nat, t: nat)
    requires n > 0 && Mod(end, n) == next && v < t < n && (t < next || next <= v)
    requires end > v
    ensures t < end
  {
    if end < n {
      SmallMod(end, n);
    }
  }

  /** No sequence the scan takes outnumbers the one it keeps. */
  lemma {:induction false} ScanTakes(log: Log, tail: nat, best: Option<seq<Placed>>, t: nat)
    requires Address(log, tail) && Kept(log, best)
    requires Visits(log, tail, t) && Address(log, t) && ValidSequence(From(log, t))
    ensures Number(Scan(log, tail, best)) >= HeadOf(From(log, t)).seqNumber
    decreases |log.ring| - tail
  {
    hide EntryAt, Chain, From, ValidSequence, Onward;
    var c := From(log, tail);
    GuardNeverFires(log, tail);
    OnwardAddress(log, tail, c);
    BetterKeeps(log, tail, best);
    var next := Onward(log, tail, c);
    if next > tail {
      ScanKeeps(log, next, Better(c, best));
      if t != tail {
        ScanTakes(log, next, Better(c, best), t);
      }
    }
  }

  /** What it keeps is what it had, or a sequence it takes. */
  lemma {:induction false} ScanTaken(log: Log, tail: nat, best: Option<seq<Placed>>)
    requires Address(log, tail) && Kept(log, best)
    ensures var kept := Scan(log, tail, best);
      kept == best || (kept.Some? && kept.value != [] && Visits(log, tail, kept.value[0].at))
    decreases |log.ring| - tail
  {
    hide EntryAt, Chain, From, ValidSequence, Onward;
    var c := From(log, tail);
    GuardNeverFires(log, tail);
    OnwardAddress(log, tail, c);
    OnwardIs(log, tail, c);
    BetterKeeps(log, tail, best);
    if Onward(log, tail, c) > tail {
      ScanTaken(log, Onward(log, tail, c), Better(c, best));
    }
  }

  /** The scan keeps something when there is a valid sequence anywhere. */
  lemma {:induction false} ScanFinds(log: Log, tail: nat, best: Option<seq<Placed>>, t: nat)
    requires Address(log, tail) && Address(log, t) && tail <= t && Kept(log, best) && ValidSequence(From(log, t))
    ensures Scan(log, tail, best).Some?
    decreases |log.ring| - tail
  {
    hide EntryAt, Chain, From, ValidSequence, Onward;
    var c := From(log, tail);
    GuardNeverFires(log, tail);
    OnwardAddress(log, tail, c);
    OnwardIs(log, tail, c);
    BetterKeeps(log, tail, best);
    var next := Onward(log, tail, c);
    if ValidSequence(c) {
      HeadCounts(log, c);
      if next > tail {
        ScanKeeps(log, next, Better(c, best));
      }
    } else {
      if t > tail {
        NoGap(log, tail, c, t);
        ScanFinds(log, next, Better(c, best), t);
      }
    }
  }

  lemma HeadCounts(log: Log, c: seq<Placed>)
    requires Linked(log, c) && c != []
    ensures HeadOf(c).seqNumber > 0
  {
    assert EntryAt(log, c[|c| - 1].at) == Some(HeadOf(c));
  }

  /** No valid sequence outnumbers the one the scan keeps, except one that starts in the slack of an
      entry of a sequence it took. */
  lemma {:induction false} ScanComplete(log: Log, tail: nat, best: Option<seq<Placed>>, t: nat)
    requires Address(log, tail) && Address(log, t) && tail <= t && Kept(log, best) && TakenFrom(log, tail)
    requires ValidSequence(From(log, t)) && !Slack(log, t)
    ensures Number(Scan(log, tail, best)) >= HeadOf(From(log, t)).seqNumber
    decreases |log.ring| - tail
  {
    hide EntryAt, Chain, From, ValidSequence, Onward, SlackIn, Visits;
    var c := From(log, tail);
    GuardNeverFires(log, tail);
    OnwardAddress(log, tail, c);
    OnwardIs(log, t, From(log, t));
    BetterKeeps(log, tail, best);
    VisitsNext(log, 0, tail);
    var next := Onward(log, tail, c);
    if next > tail {
      ScanKeeps(log, next, Better(c, best));
    }
    if tail == t {
    } else if next > tail && next <= t {
      ScanComplete(log, next, Better(c, best), t);
    } else if ValidSequence(c) {
      SteppedOver(log, tail, t);
    } else {
      NoGap(log, tail, c, t);
    }
  }

  lemma NoGap(log: Log, tail: nat, c: seq<Placed>, t: nat)
    requires Address(log, tail) && Address(log, t) && tail < t && !ValidSequence(c)
    ensures tail < Onward(log, tail, c) <= t
  {
    hide ValidSequence;
    var a, b, n := tail / SECTOR, t / SECTOR, |log.ring|;
    assert tail == SECTOR * a && t == SECTOR * b;
    assert tail + SECTOR <= t;
    SmallMod(tail + SECTOR, n);
  }

  /** The search of the whole ring. */
  function Active(log: Log): Option<seq<Placed>>
    requires log.Valid()
  {
    RingStarts(log);
    Scan(log, 0, None)
  }

  /** The active sequence: numbered one by one, end to end round the ring, with the entry its head
      names as tail. There is one exactly when the log holds a valid sequence; the scan took it, and
      none that it took, nor any that starts outside the slack of those, outnumbers it. */
  lemma ActiveIs(log: Log)
    requires log.Valid()
    ensures Kept(log, Active(log))
    ensures Active(log).Some? ==> |Active(log).value| <= Slots(log) && TakenFrom(log, Active(log).value[0].at)
    ensures Active(log).Some? <==> exists t: nat :: Address(log, t) && ValidSequence(From(log, t))
    ensures forall t: nat | Address(log, t) && ValidSequence(From(log, t)) && (TakenFrom(log, t) || !Slack(log, t)) ::
      Number(Active(log)) >= HeadOf(From(log, t)).seqNumber
  {
    hide EntryAt, Chain, From, Scan, ValidSequence, Slack, Visits;
    RingStarts(log);
    ScanKeeps(log, 0, None);
    ScanTaken(log, 0, None);
    StartTaken(log);
    if Active(log).Some? {
      LinkedFits(log, Active(log).value);
    }
    forall t: nat | Address(log, t) && ValidSequence(From(log, t))
      ensures Active(log).Some? && From(log, t) != []
      ensures TakenFrom(log, t) || !Slack(log, t) ==> Number(Active(log)) >= HeadOf(From(log, t)).seqNumber
    {
      OnwardIs(log, t, From(log, t));
      ScanFinds(log, 0, None, t);
      if TakenFrom(log, t) {
        ScanTakes(log, 0, None, t);
      } else if !Slack(log, t) {
        ScanComplete(log, 0, None, t);
      }
    }
  }

  lemma StartTaken(log: Log)
    requires log.Valid()
    ensures TakenFrom(log, 0)
  {
    hide EntryAt, Chain, From, Onward;
  }

  /** The active sequence has the greatest head number of every valid sequence in the log. */
  ghost predicate Greatest(log: Log)
    requires log.Valid()
  {
    forall t: nat | Address(log, t) && ValidSequence(From(log, t)) ::
      HeadOf(From(log, t)).seqNumber <= Number(Active(log))
  }

  /** It has exactly when no sequence that starts in the slack of an entry the scan took outnumbers
      those it took: nothing else is ever passed over. */
  lemma GreatestIff(log: Log)
    requires log.Valid()
    ensures Greatest(log) <==>
      forall t: nat | Address(log, t) && Slack(log, t) && ValidSequence(From(log, t)) ::
        exists v: nat :: TakenFrom(log, v) && Address(log, v) && ValidSequence(From(log, v))
          && HeadOf(From(log, t)).seqNumber <= HeadOf(From(log, v)).seqNumber
  {
    hide EntryAt, Chain, From, Scan, ValidSequence, Slack, Visits;
    ActiveIs(log);
  }

  /** No entry states more than its header, descriptors and data sectors fill, as the format has it. */
  ghost predicate Snug(log: Log)
  {
    forall at: nat | Address(log, at) && EntryAt(log, at).Some? ::
      EntryAt(log, at).value.length <= Filled(EntryAt(log, at).value)
  }

  /** Then nothing can be passed over. */
  lemma SnugGreatest(log: Log)
    requires log.Valid() && Snug(log)
    ensures Greatest(log)
  {
    hide EntryAt, Chain, From, Scan, ValidSequence, Visits, Filled;
    ActiveIs(log);
    forall t: nat | Address(log, t)
      ensures !Slack(log, t)
    {
      if v: nat, i: nat :| TakenFrom(log, v) && SlackIn(log, t, v, i) {
        SlackNotSnug(log, t, v, i);
        assert false;
      }
    }
  }

  lemma SlackNotSnug(log: Log, t: nat, v: nat, i: nat)
    requires SlackIn(log, t, v, i)
    ensures !Snug(log)
  {
    hide EntryAt, Chain, From, ValidSequence, Filled;
    GuardNeverFires(log, v);
    var p := From(log, v)[i];
    assert EntryAt(log, p.at) == Some(p.entry);
  }
}
