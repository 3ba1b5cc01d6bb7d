/** An AFF4 map stream (`_Aff4Map`; section 4 of the AFF4 Standard v1.0a): ranges of the image, each read
    from a place in a target, and a gap stream between them. */
module Aff4Map {
  import opened Bits
  import opened Prelude
  import opened PaddedSpans
  import opened Sorting

  datatype Entry = Entry(start: nat, length: nat, targetOffset: nat, target: nat) {
    function End(): nat { start + length }

    predicate Holds(i: nat) { start <= i < End() }

    predicate Apart(e: Entry) { End() <= e.start || e.End() <= start }
  }

  /** Python's order of the four fields. */
  predicate EntryLe(a: Entry, b: Entry)
  {
    if a.start != b.start then a.start < b.start
    else if a.length != b.length then a.length < b.length
    else if a.targetOffset != b.targetOffset then a.targetOffset < b.targetOffset
    else a.target <= b.target
  }

  /** A stream a range is read from, by its bytes. */
  type Reader = nat -> byte

  function ReadAt(r: Reader, offset: nat, n: nat): (s: seq<byte>)
    ensures |s| == n && forall k :: 0 <= k < n ==> s[k] == r(offset + k)
  {
    seq(n, k requires 0 <= k < n => r(offset + k))
  }

  datatype Aff4Map = Aff4Map(size: nat, entries: seq<Entry>, targets: seq<Reader>, names: seq<string>, gap: Reader,
                             gapName: string)
  {
    /** As a map that opened is. */
    ghost predicate Valid()
    {
      && InLine(entries) && |names| == |targets|
      && (forall k :: 0 <= k < |entries| ==> entries[k].target < |targets|)
    }

    /** The byte a range gives a position it holds. */
    function FromRange(k: nat, i: nat): byte
      requires k < |entries| && entries[k].target < |targets| && entries[k].Holds(i)
    {
      targets[entries[k].target](entries[k].targetOffset + i - entries[k].start)
    }

    /** Byte `i` of the image: the covering range's, or the gap stream's. */
    function ByteAt(i: nat): byte
      requires forall k :: 0 <= k < |entries| ==> entries[k].target < |targets|
    {
      var k := Covering(entries, i);
      if k < |entries| then FromRange(k, i) else gap(i)
    }

    /** `bisect.bisect_right` of the starts: how many ranges start at or before `offset`. */
    function StartsBy(offset: nat): (at: nat)
      ensures at <= |entries|
      ensures forall k :: 0 <= k < at ==> entries[k].start <= offset
      ensures at < |entries| ==> entries[at].start > offset
    {
      CountStarts(entries, offset)
    }

    /** `data` is what the image holds from `at` on. */
    ghost predicate Shows(at: nat, data: seq<byte>)
      requires forall k :: 0 <= k < |entries| ==> entries[k].target < |targets|
    {
      forall k :: 0 <= k < |data| ==> data[k] == ByteAt(at + k)
    }

    /** The first `i` ranges end at or before a position. */
    ghost predicate Passed(i: nat, at: nat)
      requires i <= |entries|
    {
      forall k :: 0 <= k < i ==> entries[k].End() <= at
    }

    lemma StillPassed(i: nat, at: nat, later: nat)
      requires i <= |entries| && Passed(i, at) && at <= later
      ensures Passed(i, later)
    {
    }

    lemma JustPassed(i: nat, at: nat)
      requires i < |entries| && Passed(i, at)
      ensures entries[i].End() <= at ==> Passed(i + 1, at)
    {
    }

    lemma Starts(offset: nat)
      requires Valid()
      ensures forall k :: 0 <= k < |entries| ==> entries[k].target < |targets|
      ensures var i := Max(0, StartsBy(offset) - 1); i <= |entries| && Passed(i, offset) && Shows(offset, [])
    {
      var i := Max(0, StartsBy(offset) - 1);
      assert forall k :: 0 <= k < i ==> entries[k].End() <= entries[i].start;
    }

    lemma TargetListed(i: nat)
      requires Valid() && i < |entries|
      ensures entries[i].target < |targets| && entries[i].length > 0
    {
    }

    /** A stretch of the gap stream before the `i`-th range, or after the last. */
    lemma GapStep(offset: nat, out: seq<byte>, i: nat, at: nat, piece: seq<byte>)
      requires Valid() && i <= |entries| && Passed(i, at) && Shows(offset, out) && at == offset + |out|
      requires piece == ReadAt(gap, at, |piece|) && (i < |entries| ==> at + |piece| <= entries[i].start)
      ensures Shows(offset, out + piece) && Passed(i, at + |piece|)
    {
      hide ByteAt, Shows, InLine, Passed;
      GapBytes(i, at, piece);
      ShowsJoined(offset, out, piece);
      StillPassed(i, at, at + |piece|);
    }

    /** A stretch of the `i`-th range. */
    lemma RangeStep(offset: nat, out: seq<byte>, i: nat, at: nat, piece: seq<byte>)
      requires Valid() && i < |entries| && Passed(i, at) && Shows(offset, out) && at == offset + |out|
      requires entries[i].start <= at && at + |piece| <= entries[i].End()
      requires piece == ReadAt(targets[entries[i].target], entries[i].targetOffset + at - entries[i].start, |piece|)
      ensures Shows(offset, out + piece) && Passed(i, at + |piece|)
      ensures at + |piece| == entries[i].End() ==> Passed(i + 1, at + |piece|)
    {
      hide ByteAt, Shows, InLine, Passed;
      RangeBytes(i, at, piece);
      ShowsJoined(offset, out, piece);
      StillPassed(i, at, at + |piece|);
      JustPassed(i, at + |piece|);
    }

    /** `read_at`. */
    method Read(offset: nat, n: nat) returns (out: seq<byte>)
      requires Valid()
      ensures |out| == Max(0, Min(offset + n, size) - offset)
      ensures Shows(offset, out)
    {
      hide ByteAt, Shows, InLine, Passed, Valid, StartsBy;
      Starts(offset);
      out := [];
      var at, end := offset, Min(offset + n, size);
      var i := Max(0, StartsBy(offset) - 1);
      while at < end
        invariant offset <= at && (at <= end || at == offset) && 0 <= i <= |entries|
        invariant at < end ==> Passed(i, at)
        invariant |out| == at - offset && Shows(offset, out)
        decreases |entries| - i + (end - at)
      {
        if i == |entries| || at < entries[i].start {
          var stop := if i == |entries| then end else Min(end, entries[i].start);
          var piece := ReadAt(gap, at, stop - at);
          GapStep(offset, out, i, at, piece);
          out := out + piece;
          at := stop;
        } else {
          var e := entries[i];
          TargetListed(i);
          if at < e.End() {
            var take := Min(end, e.End()) - at;
            var piece := ReadAt(targets[e.target], e.targetOffset + at - e.start, take);
            RangeStep(offset, out, i, at, piece);
            out := out + piece;
            at := at + take;
          } else {
            JustPassed(i, at);
          }
          i := i + 1;
        }
      }
    }

    lemma ShowsJoined(offset: nat, out: seq<byte>, piece: seq<byte>)
      requires Valid() && Shows(offset, out) && Shows(offset + |out|, piece)
      ensures Shows(offset, out + piece)
    {
      hide Aff4Map.ByteAt;
      var at := offset + |out|;
      forall k | 0 <= k < |out + piece|
        ensures (out + piece)[k] == ByteAt(offset + k)
      {
        if k >= |out| {
          assert (out + piece)[k] == piece[k - |out|] == ByteAt(at + (k - |out|));
        }
      }
    }

    lemma GapBytes(i: nat, at: nat, piece: seq<byte>)
      requires Valid() && i <= |entries| && piece == ReadAt(gap, at, |piece|)
      requires Passed(i, at)
      requires i < |entries| ==> at + |piece| <= entries[i].start
      ensures Shows(at, piece)
    {
      forall k | 0 <= k < |piece|
        ensures piece[k] == ByteAt(at + k)
      {
        Uncovered(entries, i, at + k);
      }
    }

    lemma RangeBytes(i: nat, at: nat, piece: seq<byte>)
      requires Valid() && i < |entries| && entries[i].start <= at && at + |piece| <= entries[i].End()
      requires piece == ReadAt(targets[entries[i].target], entries[i].targetOffset + at - entries[i].start, |piece|)
      ensures Shows(at, piece)
    {
      forall k | 0 <= k < |piece|
        ensures piece[k] == ByteAt(at + k)
      {
        OnlyCovering(entries, i, at + k);
      }
    }
  }

  function CountStarts(entries: seq<Entry>, offset: nat): (at: nat)
    ensures at <= |entries|
    ensures (forall k :: 0 <= k < at ==> entries[k].start <= offset) && (at < |entries| ==> entries[at].start > offset)
  {
    if entries == [] || entries[0].start > offset then 0
    else
      var rest := CountStarts(entries[1..], offset);
      assert forall k :: 1 <= k < |entries| ==> entries[k] == entries[1..][k - 1];
      1 + rest
  }

  /** The first range that holds a position, or their number. */
  function Covering(entries: seq<Entry>, i: nat): (k: nat)
    ensures k <= |entries| && (k < |entries| ==> entries[k].Holds(i)) && forall j :: 0 <= j < k ==> !entries[j].Holds(i)
  {
    if entries == [] || entries[0].Holds(i) then 0
    else
      var k := Covering(entries[1..], i);
      assert forall j :: 1 <= j < |entries| ==> entries[j] == entries[1..][j - 1];
      1 + k
  }

  /** Ranges in order, none empty, none overlapping another. */
  ghost predicate InLine(entries: seq<Entry>)
  {
    && (forall k :: 0 <= k < |entries| ==> entries[k].length > 0)
    && (forall j, k :: 0 <= j < k < |entries| ==> entries[j].End() <= entries[k].start)
  }

  lemma Uncovered(entries: seq<Entry>, i: nat, p: nat)
    requires InLine(entries) && i <= |entries|
    requires forall k :: 0 <= k < i ==> entries[k].End() <= p
    requires i < |entries| ==> p < entries[i].start
    ensures Covering(entries, p) == |entries|
  {
    assert forall k :: i < k < |entries| ==> entries[i].End() <= entries[k].start;
  }

  lemma OnlyCovering(entries: seq<Entry>, i: nat, p: nat)
    requires InLine(entries) && i < |entries| && entries[i].Holds(p)
    ensures Covering(entries, p) == i
  {
  }

  // ---- opening a map ----

  /** What a map records: ranges that hold something, apart from each other, each once. */
  ghost predicate Disjoint(m: multiset<Entry>)
  {
    forall e, f :: e in m && f in m ==> if e == f then m[e] == 1 else e.Apart(f)
  }

  function Nonempty(raw: seq<Entry>): (r: seq<Entry>)
    ensures forall e :: e in r <==> e in raw && e.length > 0
  {
    if raw == [] then []
    else
      var rest := Nonempty(raw[1..]);
      assert raw == [raw[0]] + raw[1..];
      if raw[0].length > 0 then [raw[0]] + rest else rest
  }

  predicate Overlapping(entries: seq<Entry>)
  {
    exists k :: 0 <= k < |entries| - 1 && entries[k].End() > NextStart(entries, k)
  }

  function NextStart(entries: seq<Entry>, k: nat): nat
    requires k + 1 < |entries|
  {
    entries[k + 1].start
  }

  predicate Unlisted(entries: seq<Entry>, targets: nat) { exists e :: e in entries && e.target >= targets }

  /** The ranges of the map's file, in order; an error where neighbours overlap or a target is not listed. */
  function Open(raw: seq<Entry>, targets: nat): Result<seq<Entry>>
  {
    var entries := Sorted(Nonempty(raw), EntryLe);
    if Overlapping(entries) then Raised
    else if Unlisted(entries, targets) then Raised
    else Ok(entries)
  }

  /** Where the map's size is not recorded, the furthest any range reaches. */
  function Furthest(entries: seq<Entry>): nat
  {
    if entries == [] then 0 else Max(Furthest(entries[..|entries| - 1]), entries[|entries| - 1].End())
  }

  /** So all ranges lie inside a map whose size is not recorded. */
  lemma {:induction false} FurthestHolds(entries: seq<Entry>, k: nat)
    requires k < |entries|
    ensures entries[k].End() <= Furthest(entries)
    decreases |entries|
  {
    if k < |entries| - 1 {
      FurthestHolds(entries[..|entries| - 1], k);
    }
  }

  lemma EntryOrder()
    ensures TotalOrder(EntryLe)
  {
  }

  lemma {:induction false} NeighboursApart(entries: seq<Entry>, j: nat, k: nat)
    requires !Overlapping(entries) && j < k < |entries|
    ensures entries[j].End() <= entries[k].start
    decreases k
  {
    assert entries[k - 1].End() <= NextStart(entries, k - 1);
    if j < k - 1 {
      NeighboursApart(entries, j, k - 1);
    }
  }

  /** In an ordered list, looking at neighbours is enough. */
  lemma NeighboursEnough(entries: seq<Entry>)
    requires InOrder(entries, EntryLe) && forall k :: 0 <= k < |entries| ==> entries[k].length > 0
    ensures !Overlapping(entries) <==> Disjoint(multiset(entries))
    ensures !Overlapping(entries) ==> InLine(entries)
  {
    if Overlapping(entries) {
      var k :| 0 <= k < |entries| - 1 && entries[k].End() > NextStart(entries, k);
      OverlapNotDisjoint(entries, k);
    } else {
      forall j, k | 0 <= j < k < |entries|
        ensures entries[j].End() <= entries[k].start
      {
        NeighboursApart(entries, j, k);
      }
      InLineDisjoint(entries);
    }
  }

  /** A map opens if and only if all its ranges are apart from each other and their targets are
      listed, and then it has them in line. */
  lemma OpensIff(raw: seq<Entry>, targets: nat)
    ensures Open(raw, targets).Ok? <==> Disjoint(multiset(Nonempty(raw))) && !Unlisted(Nonempty(raw), targets)
    ensures Open(raw, targets).Ok? ==>
      InLine(Open(raw, targets).value) && multiset(Open(raw, targets).value) == multiset(Nonempty(raw))
  {
    hide Overlapping, InLine, InOrder, Sorted, Nonempty, Disjoint;
    var some := Nonempty(raw);
    var entries := Sorted(some, EntryLe);
    EntryOrder();
    SortedInOrder(some, EntryLe);
    SortedMembers(some, EntryLe);
    assert Unlisted(entries, targets) <==> Unlisted(some, targets);
    assert forall k :: 0 <= k < |entries| ==> entries[k] in some;
    NeighboursEnough(entries);
  }

  lemma InLineDisjoint(entries: seq<Entry>)
    requires InLine(entries)
    ensures Disjoint(multiset(entries))
  {
    forall e, f | e in multiset(entries) && f in multiset(entries)
      ensures if e == f then multiset(entries)[e] == 1 else e.Apart(f)
    {
      assert e in entries && f in entries;
      if e == f {
        OnceEach(entries, e);
      }
    }
  }

  lemma OverlapNotDisjoint(entries: seq<Entry>, k: nat)
    requires InOrder(entries, EntryLe) && k + 1 < |entries| && entries[k].End() > NextStart(entries, k)
    requires forall j :: 0 <= j < |entries| ==> entries[j].length > 0
    ensures !Disjoint(multiset(entries))
  {
    var e, f := entries[k], entries[k + 1];
    assert e in multiset(entries) && f in multiset(entries);
    if e == f {
      Twice(entries, k, k + 1);
    }
  }

  // ---- coverage ----

  /** A Python dictionary of totals, in the order its keys were put in. */
  type Totals = seq<(string, nat)>

  /** Python's `d[key] = d.get(key, 0) + n`. */
  function Add(d: Totals, key: string, n: nat): Totals
  {
    if d == [] then [(key, n)]
    else if d[0].0 == key then [(key, d[0].1 + n)] + d[1..]
    else [d[0]] + Add(d[1..], key, n)
  }

  /** Python's `d[key] = n`. */
  function Put(d: Totals, key: string, n: nat): Totals
  {
    if d == [] then [(key, n)]
    else if d[0].0 == key then [(key, n)] + d[1..]
    else [d[0]] + Put(d[1..], key, n)
  }

  function TotalOf(d: Totals, key: string): nat
  {
    if d == [] then 0 else (if d[0].0 == key then d[0].1 else 0) + TotalOf(d[1..], key)
  }

  function SumOf(d: Totals): nat
  {
    if d == [] then 0 else d[0].1 + SumOf(d[1..])
  }

  predicate HasKey(d: Totals, key: string) { exists k :: 0 <= k < |d| && d[k].0 == key }

  lemma HasKeyTail(d: Totals, key: string)
    requires d != []
    ensures HasKey(d, key) <==> d[0].0 == key || HasKey(d[1..], key)
  {
    if k :| 0 <= k < |d| && d[k].0 == key {
      assert k > 0 ==> d[1..][k - 1].0 == key;
    }
    if k :| 0 <= k < |d[1..]| && d[1..][k].0 == key {
      assert d[k + 1].0 == key;
    }
  }

  lemma {:induction false} AddTotals(d: Totals, key: string, n: nat, other: string)
    ensures TotalOf(Add(d, key, n), other) == TotalOf(d, other) + (if other == key then n else 0)
    ensures SumOf(Add(d, key, n)) == SumOf(d) + n
    ensures HasKey(Add(d, key, n), other) <==> other == key || HasKey(d, other)
  {
    HasKeyTail(Add(d, key, n), other);
    if d != [] {
      hide HasKey;
      AddTotals(d[1..], key, n, other);
      HasKeyTail(d, other);
    }
  }

  /** No key comes twice, as in a dictionary. */
  ghost predicate Distinct(d: Totals) { forall j, k :: 0 <= j < k < |d| ==> d[j].0 != d[k].0 }

  lemma {:induction false} NoKeyNoTotal(d: Totals, key: string)
    requires !HasKey(d, key)
    ensures TotalOf(d, key) == 0
  {
    if d != [] {
      HasKeyTail(d, key);
      NoKeyNoTotal(d[1..], key);
    }
  }

  lemma DistinctHead(d: Totals)
    requires d != [] && Distinct(d)
    ensures Distinct(d[1..]) && !HasKey(d[1..], d[0].0)
  {
  }

  lemma {:induction false} AddDistinct(d: Totals, key: string, n: nat)
    requires Distinct(d)
    ensures Distinct(Add(d, key, n))
  {
    if d != [] {
      DistinctHead(d);
      AddDistinct(d[1..], key, n);
      AddTotals(d[1..], key, n, d[0].0);
      DistinctCons(d[0], if d[0].0 == key then d[1..] else Add(d[1..], key, n));
    }
  }

  lemma DistinctCons(head: (string, nat), d: Totals)
    requires Distinct(d) && !HasKey(d, head.0)
    ensures Distinct([head] + d) && Distinct([(head.0, 0)] + d)
    ensures forall n: nat :: Distinct([(head.0, n)] + d)
  {
  }

  /** Putting a total replaces the one under the same key. */
  lemma {:induction false} PutTotals(d: Totals, key: string, n: nat, other: string)
    requires Distinct(d)
    ensures TotalOf(Put(d, key, n), other) == if other == key then n else TotalOf(d, other)
    ensures SumOf(Put(d, key, n)) + TotalOf(d, key) == SumOf(d) + n
  {
    if d != [] {
      DistinctHead(d);
      if d[0].0 == key {
        NoKeyNoTotal(d[1..], key);
      } else {
        PutTotals(d[1..], key, n, other);
      }
    }
  }

  /** The ranges read from targets of one name, or all of them, as spans. */
  function SpansOf(entries: seq<Entry>, names: seq<string>, key: Option<string>): seq<Span>
    requires forall k :: 0 <= k < |entries| ==> entries[k].target < |names|
  {
    if entries == [] then []
    else
      var e := entries[|entries| - 1];
      SpansOf(entries[..|entries| - 1], names, key) +
      (if key.None? || names[e.target] == key.value then [Span(e.start, e.End())] else [])
  }

  /** The bytes those ranges hold in all. */
  function LengthOf(entries: seq<Entry>, names: seq<string>, key: Option<string>): nat
    requires forall k :: 0 <= k < |entries| ==> entries[k].target < |names|
  {
    if entries == [] then 0
    else
      var e := entries[|entries| - 1];
      LengthOf(entries[..|entries| - 1], names, key)
      + (if key.None? || names[e.target] == key.value then e.length else 0)
  }

  /** In line, ranges of one name are spans in order. */
  lemma {:induction false} SpansOrdered(entries: seq<Entry>, names: seq<string>, key: Option<string>)
    requires InLine(entries) && forall k :: 0 <= k < |entries| ==> entries[k].target < |names|
    ensures var zs := SpansOf(entries, names, key);
      && Ordered(zs)
      && (entries != [] ==> forall k :: 0 <= k < |zs| ==> zs[k].high <= entries[|entries| - 1].End())
  {
    if entries != [] {
      var n := |entries| - 1;
      var fewer := entries[..n];
      SpansOrdered(fewer, names, key);
      if n > 0 {
        assert fewer[n - 1].End() <= entries[n].start;
      }
      var before, s := SpansOf(fewer, names, key), Span(entries[n].start, entries[n].End());
      var picked := key.None? || names[entries[n].target] == key.value;
      assert SpansOf(entries, names, key) == if picked then before + [s] else before;
      hide Ordered, InLine, SpansOf;
      AppendOrdered(before, s, entries, fewer);
    }
  }

  lemma AppendOrdered(zs: seq<Span>, s: Span, entries: seq<Entry>, fewer: seq<Entry>)
    requires Ordered(zs) && InLine(entries) && entries != [] && fewer == entries[..|entries| - 1]
    requires s == Span(entries[|entries| - 1].start, entries[|entries| - 1].End())
    requires forall k :: 0 <= k < |zs| ==> fewer != [] && zs[k].high <= fewer[|fewer| - 1].End()
    ensures Ordered(zs + [s]) && forall k :: 0 <= k < |zs| ==> zs[k].high <= s.low < s.high
  {
    if fewer != [] {
      assert fewer[|fewer| - 1].End() <= entries[|entries| - 1].start;
    }
  }

  /** Inside the map, they hold what those ranges do. */
  lemma {:induction false} SpansLength(entries: seq<Entry>, names: seq<string>, key: Option<string>, size: nat)
    requires forall k :: 0 <= k < |entries| ==> entries[k].target < |names| && entries[k].End() <= size
    ensures Overlaps(SpansOf(entries, names, key), 0, size) == LengthOf(entries, names, key)
  {
    if entries != [] {
      var n := |entries| - 1;
      SpansLength(entries[..n], names, key, size);
      assert Overlap(Span(entries[n].start, entries[n].End()), 0, size) == entries[n].length;
      hide Overlap;
      var before, zs := SpansOf(entries[..n], names, key), SpansOf(entries, names, key);
      if key.None? || names[entries[n].target] == key.value {
        assert zs[..|zs| - 1] == before;
      } else {
        assert zs == before;
      }
    }
  }

  lemma {:induction false} SpansHold(entries: seq<Entry>, names: seq<string>, key: Option<string>, i: nat)
    requires forall k :: 0 <= k < |entries| ==> entries[k].target < |names|
    ensures InSpans(SpansOf(entries, names, key), i) <==>
      exists k :: 0 <= k < |entries| && entries[k].Holds(i) && (key.None? || names[entries[k].target] == key.value)
  {
    if entries != [] {
      var n := |entries| - 1;
      var fewer, e := entries[..n], entries[n];
      SpansHold(fewer, names, key, i);
      var before := SpansOf(fewer, names, key);
      var last := if key.None? || names[e.target] == key.value then [Span(e.start, e.End())] else [];
      InJoined(before, last, i);
      if k :| 0 <= k < n && fewer[k].Holds(i) && (key.None? || names[fewer[k].target] == key.value) {
        assert entries[k].Holds(i);
      }
      if k :| 0 <= k < |entries| && entries[k].Holds(i) && (key.None? || names[entries[k].target] == key.value) {
        if k < n {
          assert fewer[k].Holds(i);
        }
      }
      if e.Holds(i) && last != [] {
        assert last[0].Holds(i);
      }
    }
  }

  lemma InJoined(a: seq<Span>, b: seq<Span>, i: nat)
    ensures InSpans(a + b, i) <==> InSpans(a, i) || InSpans(b, i)
  {
    if k :| 0 <= k < |a| && a[k].Holds(i) {
      assert (a + b)[k].Holds(i);
    }
    if k :| 0 <= k < |b| && b[k].Holds(i) {
      assert (a + b)[|a| + k].Holds(i);
    }
    if k :| 0 <= k < |a + b| && (a + b)[k].Holds(i) {
      assert if k < |a| then a[k].Holds(i) else b[k - |a|].Holds(i);
    }
  }

  /** Where a position's byte is read from, as the totals name it. */
  function SourceName(m: Aff4Map, i: nat): string
    requires forall k :: 0 <= k < |m.entries| ==> m.entries[k].target < |m.names|
  {
    var k := Covering(m.entries, i);
    if k < |m.entries| then m.names[m.entries[k].target] else m.gapName
  }

  /** A position that a range holds is read from that range's target, as far past the range's offset there as
      past its start; every other one from the gap stream, where it is. */
  lemma BytePlace(m: Aff4Map, i: nat)
    requires m.Valid()
    ensures forall k :: 0 <= k < |m.entries| && m.entries[k].start <= i < m.entries[k].start + m.entries[k].length ==>
      var e := m.entries[k];
      m.ByteAt(i) == m.targets[e.target](e.targetOffset + (i - e.start)) && SourceName(m, i) == m.names[e.target]
    ensures
      (forall k :: 0 <= k < |m.entries| ==>
         i < m.entries[k].start || m.entries[k].start + m.entries[k].length <= i)
      ==> m.ByteAt(i) == m.gap(i) && SourceName(m, i) == m.gapName
  {
    hide Covering;
    forall k | 0 <= k < |m.entries| && m.entries[k].start <= i < m.entries[k].start + m.entries[k].length
      ensures Covering(m.entries, i) == k
    {
      OnlyCovering(m.entries, k, i);
    }
  }

  /** How many of the first `n` positions are read from there. */
  function CountFrom(m: Aff4Map, key: string, n: nat): nat
    requires forall k :: 0 <= k < |m.entries| ==> m.entries[k].target < |m.names|
  {
    if n == 0 then 0 else CountFrom(m, key, n - 1) + (if SourceName(m, n - 1) == key then 1 else 0)
  }

  lemma {:induction false} CountNamed(m: Aff4Map, key: string, n: nat)
    requires m.Valid() && key != m.gapName
    ensures CountFrom(m, key, n) == CountIn(SpansOf(m.entries, m.names, Some(key)), 0, n)
  {
    hide Covering, InSpans, SpansOf;
    if n > 0 {
      CountNamed(m, key, n - 1);
      SpansHold(m.entries, m.names, Some(key), n - 1);
      var k := Covering(m.entries, n - 1);
      if j :| 0 <= j < |m.entries| && m.entries[j].Holds(n - 1) && m.names[m.entries[j].target] == key {
        OnlyCovering(m.entries, j, n - 1);
      }
    }
  }

  /** A position is read from the gaps' label exactly when no range holds it, or one of that name. */
  lemma GapAt(m: Aff4Map, i: nat)
    requires m.Valid()
    ensures SourceName(m, i) == m.gapName <==>
      !InSpans(SpansOf(m.entries, m.names, None), i) || InSpans(SpansOf(m.entries, m.names, Some(m.gapName)), i)
    ensures InSpans(SpansOf(m.entries, m.names, Some(m.gapName)), i) ==> InSpans(SpansOf(m.entries, m.names, None), i)
  {
    hide Covering, InSpans, SpansOf;
    SpansHold(m.entries, m.names, None, i);
    SpansHold(m.entries, m.names, Some(m.gapName), i);
    var k := Covering(m.entries, i);
    if j :| 0 <= j < |m.entries| && m.entries[j].Holds(i) {
      OnlyCovering(m.entries, j, i);
    }
  }

  lemma {:induction false} CountGap(m: Aff4Map, n: nat)
    requires m.Valid()
    ensures CountFrom(m, m.gapName, n) + CountIn(SpansOf(m.entries, m.names, None), 0, n)
         == n + CountIn(SpansOf(m.entries, m.names, Some(m.gapName)), 0, n)
  {
    hide SourceName, InSpans, SpansOf;
    if n > 0 {
      CountGap(m, n - 1);
      GapAt(m, n - 1);
    }
  }

  /** The bytes of the map's ranges under one name, and in all. */
  function Named(m: Aff4Map, key: string): nat
    requires m.Valid()
  {
    LengthOf(m.entries, m.names, Some(key))
  }

  function Covered(m: Aff4Map): nat
    requires m.Valid()
  {
    LengthOf(m.entries, m.names, None)
  }

  ghost predicate Inside(m: Aff4Map) { forall k :: 0 <= k < |m.entries| ==> m.entries[k].End() <= m.size }

  /** Ranges inside the map hold, name by name, just the positions read from there; the gap's label
      besides has the positions no range holds. */
  lemma LengthsCount(m: Aff4Map, key: string)
    requires m.Valid() && Inside(m)
    ensures key != m.gapName ==> Named(m, key) == CountFrom(m, key, m.size)
    ensures Covered(m) + CountFrom(m, m.gapName, m.size) == m.size + Named(m, m.gapName)
  {
    hide SpansOf, LengthOf, CountFrom, CountIn;
    SpansCount(m, Some(key));
    SpansCount(m, Some(m.gapName));
    SpansCount(m, None);
    if key != m.gapName {
      CountNamed(m, key, m.size);
    }
    CountGap(m, m.size);
  }

  lemma SpansCount(m: Aff4Map, key: Option<string>)
    requires m.Valid() && Inside(m)
    ensures LengthOf(m.entries, m.names, key) == CountIn(SpansOf(m.entries, m.names, key), 0, m.size)
  {
    hide SpansOf, LengthOf, CountIn;
    SpansOrdered(m.entries, m.names, key);
    SpansLength(m.entries, m.names, key, m.size);
    OverlapsCount(SpansOf(m.entries, m.names, key), 0, m.size);
  }

  /** The totals of the first `n` ranges, under their targets' names. */
  ghost predicate Tallied(m: Aff4Map, d: Totals, n: nat)
    requires m.Valid() && n <= |m.entries|
  {
    && SumOf(d) == LengthOf(m.entries[..n], m.names, None) && Distinct(d)
    && forall key :: TotalOf(d, key) == LengthOf(m.entries[..n], m.names, Some(key))
  }

  lemma TallyNext(m: Aff4Map, d: Totals, n: nat)
    requires m.Valid() && n < |m.entries| && Tallied(m, d, n)
    ensures LengthOf(m.entries[..n + 1], m.names, None) == LengthOf(m.entries[..n], m.names, None) + m.entries[n].length
    ensures Tallied(m, Add(d, m.names[m.entries[n].target], m.entries[n].length), n + 1)
  {
    hide HasKey, Distinct;
    var e := m.entries[n];
    assert m.entries[..n + 1][..n] == m.entries[..n];
    AddDistinct(d, m.names[e.target], e.length);
    AddTotals(d, m.names[e.target], e.length, m.gapName);
    forall key
      ensures TotalOf(Add(d, m.names[e.target], e.length), key) == LengthOf(m.entries[..n + 1], m.names, Some(key))
    {
      AddTotals(d, m.names[e.target], e.length, key);
    }
  }

  /** A range is read from a target that has the gap's label for its name, and there is a gap to put
      under that label. */
  ghost predicate Overwritten(m: Aff4Map)
    requires m.Valid()
  {
    m.size > Covered(m) && exists k :: 0 <= k < |m.entries| && m.names[m.entries[k].target] == m.gapName
  }

  lemma {:induction false} SomeNamed(entries: seq<Entry>, names: seq<string>, key: string)
    requires forall k :: 0 <= k < |entries| ==> entries[k].target < |names| && entries[k].length > 0
    ensures LengthOf(entries, names, Some(key)) > 0 <==>
      exists k :: 0 <= k < |entries| && names[entries[k].target] == key
  {
    if entries != [] {
      var n := |entries| - 1;
      SomeNamed(entries[..n], names, key);
      if k :| 0 <= k < n && names[entries[..n][k].target] == key {
        assert names[entries[k].target] == key;
      }
      if k :| 0 <= k < |entries| && names[entries[k].target] == key {
        assert k < n ==> names[entries[..n][k].target] == key;
      }
    }
  }

  /** Totals that are right: they sum to the size, and each is the positions read from there. */
  ghost predicate Right(m: Aff4Map, d: Totals)
    requires m.Valid()
  {
    SumOf(d) == m.size && forall key :: TotalOf(d, key) == CountFrom(m, key, m.size)
  }

  /** What `coverage` gives, in all and under each name. */
  ghost predicate Totalled(m: Aff4Map, d: Totals)
    requires m.Valid()
  {
    && SumOf(d) == (if m.size > Covered(m) then m.size - Named(m, m.gapName) else Covered(m))
    && forall key ::
         TotalOf(d, key) == if key == m.gapName && m.size > Covered(m) then m.size - Covered(m) else Named(m, key)
  }

  lemma NamedAtMost(m: Aff4Map, d: Totals)
    requires m.Valid() && Tallied(m, d, |m.entries|)
    ensures SumOf(d) == Covered(m) && forall key :: TotalOf(d, key) == Named(m, key) <= Covered(m)
  {
    hide LengthOf;
    assert m.entries[..|m.entries|] == m.entries;
    forall key
      ensures TotalOf(d, key) <= SumOf(d)
    {
      TotalAtMost(d, key);
    }
  }

  lemma {:induction false} TotalAtMost(d: Totals, key: string)
    ensures TotalOf(d, key) <= SumOf(d)
  {
    if d != [] {
      TotalAtMost(d[1..], key);
    }
  }

  lemma TalliesTotal(m: Aff4Map, named: Totals, d: Totals)
    requires m.Valid() && Tallied(m, named, |m.entries|)
    requires d == if m.size > Covered(m) then Put(named, m.gapName, m.size - Covered(m)) else named
    ensures Totalled(m, d)
  {
    hide LengthOf, Covered, Named, Distinct, SumOf, TotalOf, Put;
    NamedAtMost(m, named);
    if m.size > Covered(m) {
      PutTotals(named, m.gapName, m.size - Covered(m), m.gapName);
      forall key
        ensures TotalOf(d, key) == if key == m.gapName then m.size - Covered(m) else Named(m, key)
      {
        PutTotals(named, m.gapName, m.size - Covered(m), key);
      }
    }
  }

  lemma {:induction false} CountInAtMost(zs: seq<Span>, hi: nat)
    ensures CountIn(zs, 0, hi) <= hi
  {
    if hi > 0 {
      CountInAtMost(zs, hi - 1);
    }
  }

  /** For a map whose ranges lie inside it, the totals are right exactly when none is overwritten. */
  lemma RightIff(m: Aff4Map, d: Totals)
    requires m.Valid() && Inside(m) && Totalled(m, d)
    ensures Right(m, d) <==> !Overwritten(m)
  {
    hide LengthOf, CountFrom, SumOf, TotalOf, CountIn, SpansOf;
    SomeNamed(m.entries, m.names, m.gapName);
    LengthsCount(m, m.gapName);
    SpansCount(m, None);
    CountInAtMost(SpansOf(m.entries, m.names, None), m.size);
    assert Overwritten(m) <==> m.size > Covered(m) && Named(m, m.gapName) > 0;
    forall key
      ensures key != m.gapName ==> Named(m, key) == CountFrom(m, key, m.size)
    {
      LengthsCount(m, key);
    }
  }

  /** `coverage`: the bytes of the image by where they come from. */
  method Coverage(m: Aff4Map) returns (totals: Totals)
    requires m.Valid()
    ensures Totalled(m, totals)
    ensures Inside(m) ==> (Right(m, totals) <==> !Overwritten(m))
  {
    hide Tallied, LengthOf, Totalled, Right, Overwritten, Inside;
    totals := [];
    var covered := 0;
    TallyNone(m);
    for k := 0 to |m.entries|
      invariant covered == LengthOf(m.entries[..k], m.names, None) && Tallied(m, totals, k)
    {
      var e := m.entries[k];
      TallyNext(m, totals, k);
      totals := Add(totals, m.names[e.target], e.length);
      covered := covered + e.length;
    }
    assert m.entries[..|m.entries|] == m.entries;
    ghost var named := totals;
    if m.size > covered {
      totals := Put(totals, m.gapName, m.size - covered);
    }
    TalliesTotal(m, named, totals);
    if Inside(m) {
      RightIff(m, totals);
    }
  }

  lemma TallyNone(m: Aff4Map)
    requires m.Valid()
    ensures Tallied(m, [], 0) && LengthOf(m.entries[..0], m.names, None) == 0
  {
  }
}
