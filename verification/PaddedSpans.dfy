/** The ordered list of byte ranges that are zeros put where a unit's data ran out: entering one
    (`_note_padded`) and counting how much of a read lies in them (`_count_padded_zeros`). */
module PaddedSpans {
  import opened Prelude

  datatype Span = Span(low: nat, high: nat) {
    predicate Holds(i: int) { low <= i < high }

    /** Python's order of pairs. */
    predicate Before(s: Span) { low < s.low || (low == s.low && high < s.high) }

    predicate Apart(s: Span) { high <= s.low || s.high <= low }
  }

  /** In order, none empty, none twice, none overlapping another. */
  ghost predicate Ordered(zs: seq<Span>)
  {
    && (forall k :: 0 <= k < |zs| ==> zs[k].low < zs[k].high)
    && (forall j, k :: 0 <= j < k < |zs| ==> zs[j].high <= zs[k].low)
  }

  predicate InSpans(zs: seq<Span>, i: int) { exists k :: 0 <= k < |zs| && zs[k].Holds(i) }

  // ---- bisection, as the library's answer on an ordered list ----

  /** `bisect.bisect_left`: how many entries come before `s`. */
  function BisectLeft(zs: seq<Span>, s: Span): (at: nat)
    ensures at <= |zs| && (forall k :: 0 <= k < at ==> zs[k].Before(s)) && (at < |zs| ==> !zs[at].Before(s))
  {
    if zs == [] || !zs[0].Before(s) then 0
    else
      var rest := BisectLeft(zs[1..], s);
      assert forall k :: 1 <= k < |zs| ==> zs[k] == zs[1..][k - 1];
      1 + rest
  }

  /** `bisect.bisect_right` of a start with an infinite end: how many entries start at or before it. */
  function BisectRight(zs: seq<Span>, start: nat): (at: nat)
    ensures at <= |zs| && (forall k :: 0 <= k < at ==> zs[k].low <= start) && (at < |zs| ==> zs[at].low > start)
  {
    if zs == [] || zs[0].low > start then 0
    else
      var rest := BisectRight(zs[1..], start);
      assert forall k :: 1 <= k < |zs| ==> zs[k] == zs[1..][k - 1];
      1 + rest
  }

  // ---- entering a span ----

  /** A span that is one of the list or apart from all of them. */
  ghost predicate Fits(zs: seq<Span>, s: Span) { forall k :: 0 <= k < |zs| ==> zs[k] == s || zs[k].Apart(s) }

  function Noted(zs: seq<Span>, s: Span): seq<Span>
  {
    if s.high <= s.low then zs
    else
      var at := BisectLeft(zs, s);
      if at == |zs| || zs[at] != s then zs[..at] + [s] + zs[at..] else zs
  }

  /** The list gains the span and nothing else. */
  lemma NotedMembers(zs: seq<Span>, s: Span)
    ensures forall t :: t in Noted(zs, s) <==> t in zs || (t == s && s.low < s.high)
  {
    var at := BisectLeft(zs, s);
    assert zs == zs[..at] + zs[at..];
  }

  lemma InsertOrdered(zs: seq<Span>, at: nat, s: Span, next: seq<Span>)
    requires Ordered(zs) && at <= |zs| && s.low < s.high && next == zs[..at] + [s] + zs[at..]
    requires at > 0 ==> zs[at - 1].high <= s.low
    requires at < |zs| ==> s.high <= zs[at].low
    ensures Ordered(next)
  {
    forall k | 0 <= k < |next|
      ensures next[k].low < next[k].high
    {
      assert next[k] == if k < at then zs[k] else if k == at then s else zs[k - 1];
    }
    forall j, k | 0 <= j < k < |next|
      ensures next[j].high <= next[k].low
    {
      assert next[j] == if j < at then zs[j] else if j == at then s else zs[j - 1];
      assert next[k] == if k < at then zs[k] else if k == at then s else zs[k - 1];
      InsertPair(zs, at, s, j, k);
    }
  }

  lemma InsertPair(zs: seq<Span>, at: nat, s: Span, j: nat, k: nat)
    requires Ordered(zs) && j < k <= |zs| && at <= |zs| && s.low < s.high
    requires at > 0 ==> zs[at - 1].high <= s.low
    requires at < |zs| ==> s.high <= zs[at].low
    ensures
      var a := if j < at then zs[j] else if j == at then s else zs[j - 1];
      var b := if k < at then zs[k] else if k == at then s else zs[k - 1];
      a.high <= b.low
  {
  }

  /** The list stays in order. */
  lemma NotedOrdered(zs: seq<Span>, s: Span)
    requires Ordered(zs) && (s.low < s.high ==> Fits(zs, s))
    ensures Ordered(Noted(zs, s))
  {
    var at := BisectLeft(zs, s);
    if s.low < s.high && (at == |zs| || zs[at] != s) {
      if at > 0 {
        assert zs[at - 1].Before(s);
      }
      hide Ordered;
      InsertOrdered(zs, at, s, Noted(zs, s));
    }
  }

  // ---- counting ----

  /** How many positions from `lo` to `hi` a span holds. */
  function Overlap(s: Span, lo: nat, hi: nat): nat
  {
    var low, high := Max(lo, s.low), Min(hi, s.high);
    if high > low then high - low else 0
  }

  function Overlaps(zs: seq<Span>, lo: nat, hi: nat): nat
  {
    if zs == [] then 0 else Overlaps(zs[..|zs| - 1], lo, hi) + Overlap(zs[|zs| - 1], lo, hi)
  }

  /** The positions from `lo` to `hi` that some span holds, one by one. */
  function CountIn(zs: seq<Span>, lo: nat, hi: nat): nat
  {
    if hi <= lo then 0 else CountIn(zs, lo, hi - 1) + (if InSpans(zs, hi - 1) then 1 else 0)
  }

  lemma {:induction false} OverlapsNone(zs: seq<Span>, lo: nat)
    ensures Overlaps(zs, lo, lo) == 0
  {
    if zs != [] {
      OverlapsNone(zs[..|zs| - 1], lo);
    }
  }

  lemma {:induction false} OverlapsNext(zs: seq<Span>, lo: nat, hi: nat)
    requires Ordered(zs) && lo < hi
    ensures Overlaps(zs, lo, hi) == Overlaps(zs, lo, hi - 1) + (if InSpans(zs, hi - 1) then 1 else 0)
  {
    if zs != [] {
      var n := |zs| - 1;
      OverlapsNext(zs[..n], lo, hi);
      assert forall k :: 0 <= k < n ==> zs[..n][k] == zs[k];
      if InSpans(zs[..n], hi - 1) {
        var k :| 0 <= k < n && zs[..n][k].Holds(hi - 1);
        assert zs[k].Holds(hi - 1) && zs[k].high <= zs[n].low;
      } else if zs[n].Holds(hi - 1) {
        assert InSpans(zs, hi - 1);
      } else {
        assert !InSpans(zs, hi - 1);
      }
    }
  }

  /** Adding up the overlaps counts each position once. */
  lemma {:induction false} OverlapsCount(zs: seq<Span>, lo: nat, hi: nat)
    requires Ordered(zs)
    ensures lo <= hi ==> Overlaps(zs, lo, hi) == CountIn(zs, lo, hi)
    decreases hi
  {
    if hi == lo {
      OverlapsNone(zs, lo);
    } else if lo < hi {
      OverlapsNext(zs, lo, hi);
      OverlapsCount(zs, lo, hi - 1);
    }
  }

  /** Spans outside the range add nothing. */
  lemma {:induction false} OverlapsOutside(zs: seq<Span>, from: nat, to: nat, lo: nat, hi: nat)
    requires from <= to <= |zs|
    requires forall k :: from <= k < to ==> zs[k].high <= lo || hi <= zs[k].low
    ensures Overlaps(zs[..to], lo, hi) == Overlaps(zs[..from], lo, hi)
  {
    if from < to {
      assert zs[..to][..to - 1] == zs[..to - 1];
      OverlapsOutside(zs, from, to - 1, lo, hi);
    }
  }

  /** No span before the last that starts at or before a range reaches into it. */
  lemma EarlierMissed(zs: seq<Span>, start: nat, end: nat, at: nat)
    requires Ordered(zs) && at == Max(BisectRight(zs, start) - 1, 0)
    ensures Overlaps(zs[..at], start, end) == 0
  {
    hide Overlap, Overlaps;
    if at > 0 {
      assert zs[at].low <= start;
    }
    OverlapsOutside(zs, 0, at, start, end);
    NoneOverlap(start, end);
    assert zs[..0] == [];
  }

  lemma NoneOverlap(start: nat, end: nat)
    ensures Overlaps([], start, end) == 0
  {
  }

  /** From the first span that starts at or after its end on, none does. */
  lemma LaterMissed(zs: seq<Span>, start: nat, end: nat, at: nat)
    requires Ordered(zs) && at <= |zs| && (at < |zs| ==> zs[at].low >= end)
    ensures Overlaps(zs, start, end) == Overlaps(zs[..at], start, end)
  {
    OverlapsOutside(zs, at, |zs|, start, end);
    assert zs[..|zs|] == zs;
  }

  lemma OverlapsAppend(zs: seq<Span>, at: nat, lo: nat, hi: nat)
    requires at < |zs|
    ensures Overlaps(zs[..at + 1], lo, hi) == Overlaps(zs[..at], lo, hi) + Overlap(zs[at], lo, hi)
  {
    assert zs[..at + 1][..at] == zs[..at];
  }

  lemma NothingCounted(lo: nat, hi: nat)
    requires lo <= hi
    ensures CountIn([], lo, hi) == 0
  {
    OverlapsCount([], lo, hi);
  }
}
