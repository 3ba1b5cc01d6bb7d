/** Two rewritings of intervals: zeroing a region but for the ranges to keep (`_zero` of
    tools/luks_zero_unused.py), and merging reads into runs of clusters (`cluster_runs` of
    tools/make_refs_fixture.py). */
module Intervals {
  import opened Bits
  import opened Prelude
  import opened Division
  import opened Sorting

  type Range = (int, int)

  predicate In(r: Range, i: int) { r.0 <= i < r.1 }

  predicate InSome(rs: seq<Range>, i: int) { exists k :: 0 <= k < |rs| && In(rs[k], i) }

  lemma InSomeOf(rs: seq<Range>, i: int, r: Range)
    requires r in rs && In(r, i)
    ensures InSome(rs, i)
  {
  }

  // ---- zeroing all but what is kept ----

  /** The bytes from `start` to `end` outside every kept range, and no others, are zero. */
  function Cleared(s: seq<byte>, start: nat, end: nat, keep: seq<Range>): (r: seq<byte>)
    ensures |r| == |s|
    ensures forall i :: 0 <= i < |s| ==> r[i] == if start <= i < end && !InSome(keep, i) then 0 else s[i]
  {
    seq<byte>(|s|, i requires 0 <= i < |s| => if start <= i < end && !InSome(keep, i) then 0 else s[i])
  }

  /** How far the start and the first `k` ranges reach. */
  function Reach(start: int, rs: seq<Range>, k: nat): int
    requires k <= |rs|
  {
    if k == 0 then start else Max(Reach(start, rs, k - 1), rs[k - 1].1)
  }

  /** Past the end, a kept range starts beyond the reach of the start and of those sorted before it. */
  predicate GapPastEnd(start: int, end: int, rs: seq<Range>, k: nat)
    requires k < |rs|
  {
    end < Reach(start, rs, k) < rs[k].0
  }

  /** One of the first `k` ranges does. */
  predicate GapAmong(start: int, end: int, rs: seq<Range>, k: nat)
    requires k <= |rs|
  {
    exists j :: 0 <= j < k && GapPastEnd(start, end, rs, j)
  }

  lemma GapNext(start: int, end: int, rs: seq<Range>, k: nat)
    requires k < |rs|
    ensures GapAmong(start, end, rs, k + 1) <==> GapAmong(start, end, rs, k) || end < Reach(start, rs, k) < rs[k].0
    ensures GapAmong(start, end, rs, k + 1) ==> GapAmong(start, end, rs, |rs|)
  {
    if end < Reach(start, rs, k) < rs[k].0 {
      assert GapPastEnd(start, end, rs, k);
    }
  }

  lemma {:induction false} ReachBounds(start: int, rs: seq<Range>, k: nat)
    requires k <= |rs|
    ensures start <= Reach(start, rs, k) && forall j :: 0 <= j < k ==> rs[j].1 <= Reach(start, rs, k)
  {
    if k > 0 {
      ReachBounds(start, rs, k - 1);
    }
  }

  lemma {:induction false} ReachAtMost(start: int, rs: seq<Range>, k: nat, p: int)
    requires k <= |rs| && start <= p && forall j :: 0 <= j < k ==> rs[j].1 <= p
    ensures Reach(start, rs, k) <= p
  {
    if k > 0 {
      ReachAtMost(start, rs, k - 1, p);
    }
  }

  /** Some of the first `k` ranges start after `i`, so what comes before them has been dealt with. */
  predicate Passed(rs: seq<Range>, k: nat, i: int)
    requires k <= |rs|
  {
    exists j :: 0 <= j < k && rs[j].0 > i
  }

  /** The bytes dealt with by the first `k` ranges are cleared, the others as they were. */
  ghost predicate ClearedTo(now: seq<byte>, was: seq<byte>, start: nat, end: nat, rs: seq<Range>, k: nat)
    requires k <= |rs|
  {
    && |now| == |was|
    && forall i :: 0 <= i < |was| ==>
         now[i] == if start <= i < end && !InSome(rs, i) && Passed(rs, k, i) then 0 else was[i]
  }

  /** One range of the sorted list: the stretch before it, if any, is what is newly dealt with. */
  lemma ClearNext(now: seq<byte>, was: seq<byte>, start: nat, end: nat, rs: seq<Range>, k: nat, next: seq<byte>)
    requires InOrder(rs, PairLe) && k < |rs| && ClearedTo(now, was, start, end, rs, k)
    requires |next| == |now|
    requires forall i :: 0 <= i < |now| ==>
      next[i] == if Reach(start, rs, k) <= i < Min(rs[k].0, end) then 0 else now[i]
    ensures ClearedTo(next, was, start, end, rs, k + 1)
  {
    ReachBounds(start, rs, k);
    forall i | 0 <= i < |was|
      ensures next[i] == if start <= i < end && !InSome(rs, i) && Passed(rs, k + 1, i) then 0 else was[i]
    {
      NewlyCleared(start, rs, k, i);
    }
  }

  lemma NewlyCleared(start: nat, rs: seq<Range>, k: nat, i: int)
    requires InOrder(rs, PairLe) && k < |rs|
    ensures Passed(rs, k + 1, i) <==> Passed(rs, k, i) || rs[k].0 > i
    ensures Reach(start, rs, k) <= i < rs[k].0 ==> !InSome(rs, i) && start <= i
    ensures start <= i < rs[k].0 && !InSome(rs, i) && !Passed(rs, k, i) ==> Reach(start, rs, k) <= i
  {
    ReachBounds(start, rs, k);
    if Reach(start, rs, k) <= i < rs[k].0 {
      forall j | 0 <= j < |rs|
        ensures !In(rs[j], i)
      {
        if j > k {
          assert PairLe(rs[k], rs[j]);
        }
      }
    }
    if start <= i < rs[k].0 && !InSome(rs, i) && !Passed(rs, k, i) {
      forall j | 0 <= j < k
        ensures rs[j].1 <= i
      {
        assert rs[j].0 <= i && !In(rs[j], i);
      }
      ReachAtMost(start, rs, k, i);
    }
  }

  ghost predicate SameMembers(a: seq<Range>, b: seq<Range>) { forall x :: x in a <==> x in b }

  /** After the last range only what lies beyond its reach is left. */
  lemma LeftLast(start: nat, rs: seq<Range>, i: int)
    ensures Reach(start, rs, |rs|) <= i ==> !InSome(rs, i) && start <= i
    ensures start <= i && !InSome(rs, i) && !Passed(rs, |rs|, i) ==> Reach(start, rs, |rs|) <= i
  {
    ReachBounds(start, rs, |rs|);
    if start <= i && !InSome(rs, i) && !Passed(rs, |rs|, i) {
      forall j | 0 <= j < |rs|
        ensures rs[j].1 <= i
      {
        assert rs[j].0 <= i && !In(rs[j], i);
      }
      ReachAtMost(start, rs, |rs|, i);
    }
  }

  lemma ClearLast(now: seq<byte>, was: seq<byte>, start: nat, end: nat, keep: seq<Range>, rs: seq<Range>,
                  next: seq<byte>)
    requires ClearedTo(now, was, start, end, rs, |rs|) && |next| == |now|
    requires SameMembers(rs, keep)
    requires forall i :: 0 <= i < |now| ==> next[i] == if Reach(start, rs, |rs|) <= i < end then 0 else now[i]
    ensures next == Cleared(was, start, end, keep)
  {
    forall i | 0 <= i < |was|
      ensures next[i] == if start <= i < end && !InSome(keep, i) then 0 else was[i]
    {
      SameRanges(rs, keep, i);
      LeftLast(start, rs, i);
    }
  }

  lemma SameRanges(a: seq<Range>, b: seq<Range>, i: int)
    requires SameMembers(a, b)
    ensures InSome(a, i) <==> InSome(b, i)
  {
    if k :| 0 <= k < |a| && In(a[k], i) {
      InSomeOf(b, i, a[k]);
    }
    if k :| 0 <= k < |b| && In(b[k], i) {
      InSomeOf(a, i, b[k]);
    }
  }

  /** A range that starts past the end leaves nothing undone. */
  lemma ClearDone(now: seq<byte>, was: seq<byte>, start: nat, end: nat, keep: seq<Range>, rs: seq<Range>, k: nat)
    requires InOrder(rs, PairLe) && SameMembers(rs, keep)
    requires k < |rs| && ClearedTo(now, was, start, end, rs, k)
    requires end < Reach(start, rs, k) < rs[k].0
    ensures now == Cleared(was, start, end, keep)
  {
    ClearNext(now, was, start, end, rs, k, now);
    forall i | 0 <= i < |was|
      ensures now[i] == if start <= i < end && !InSome(keep, i) then 0 else was[i]
    {
      SameRanges(rs, keep, i);
      assert i < end ==> Passed(rs, k + 1, i);
    }
  }

  // ---- past the end of the buffer ----

  /** Python's `s[a:b] = bytes(b - a)`: past its end the buffer grows, and a slice that starts past it
      goes on its end. */
  function Blanked(s: seq<byte>, a: nat, b: nat): (r: seq<byte>)
    requires a <= b
    ensures |r| == if a <= |s| then Max(|s|, b) else |s| + (b - a)
    ensures forall i :: 0 <= i < |s| ==> r[i] == if a <= i < b then 0 else s[i]
    ensures forall i :: |s| <= i < |r| ==> r[i] == 0
  {
    s[..Min(a, |s|)] + Zeros(b - a) + s[Min(b, |s|)..]
  }

  /** How many numbers from `lo` to `hi` are so. */
  function CountOf(p: int -> bool, lo: int, hi: int): nat
    decreases hi - lo
  {
    if hi <= lo then 0 else CountOf(p, lo, hi - 1) + (if p(hi - 1) then 1 else 0)
  }

  lemma {:induction false} CountAdded(p: int -> bool, q: int -> bool, a: int, b: int, lo: int, hi: int)
    requires forall i :: lo <= i < hi ==> (q(i) <==> p(i) || a <= i < b) && !(p(i) && a <= i < b)
    ensures CountOf(q, lo, hi) == CountOf(p, lo, hi) + Max(0, Min(b, hi) - Max(a, lo))
    decreases hi - lo
  {
    if lo < hi {
      CountAdded(p, q, a, b, lo, hi - 1);
    }
  }

  lemma {:induction false} CountBelow(p: int -> bool, lo: int, mid: int, hi: int)
    requires lo <= mid && forall i :: mid <= i < hi ==> !p(i)
    ensures CountOf(p, lo, hi) <= mid - lo
    decreases hi - lo
  {
    if lo < hi {
      CountBelow(p, lo, mid, hi - 1);
      if hi <= mid {
        CountAtMost(p, lo, hi);
      }
    }
  }

  lemma {:induction false} CountAtMost(p: int -> bool, lo: int, hi: int)
    requires lo <= hi
    ensures CountOf(p, lo, hi) <= hi - lo
    decreases hi - lo
  {
    if lo < hi {
      CountAtMost(p, lo, hi - 1);
    }
  }

  /** A position to clear that the first `k` ranges have dealt with. */
  function Dealt(start: nat, rs: seq<Range>, k: nat): int -> bool
    requires k <= |rs|
  {
    i => start <= i && !InSome(rs, i) && Passed(rs, k, i)
  }

  /** A position to clear. */
  function Free(start: nat, rs: seq<Range>): int -> bool { i => start <= i && !InSome(rs, i) }

  /** No range ends before it starts. */
  ghost predicate Upright(rs: seq<Range>) { forall k :: 0 <= k < |rs| ==> rs[k].0 <= rs[k].1 }

  /** With such ranges what is dealt with lies below their reach. */
  lemma DealtBelow(start: nat, rs: seq<Range>, k: nat, i: int)
    requires Upright(rs) && k <= |rs| && Dealt(start, rs, k)(i)
    ensures i < Reach(start, rs, k)
  {
    ReachBounds(start, rs, k);
  }

  /** The length of the buffer after the first `k` ranges: the region past its end adds a byte for
      each position dealt with there. */
  ghost predicate Grown(n: nat, was: nat, start: nat, end: nat, rs: seq<Range>, k: nat)
    requires k <= |rs|
  {
    was <= n && (end <= was || Upright(rs) ==> n == was + CountOf(Dealt(start, rs, k), was, end))
  }

  lemma GrownNext(s: seq<byte>, was: nat, start: nat, end: nat, rs: seq<Range>, k: nat)
    requires InOrder(rs, PairLe) && k < |rs| && Grown(|s|, was, start, end, rs, k)
    requires rs[k].0 > Reach(start, rs, k) ==> 0 <= Reach(start, rs, k) <= Min(rs[k].0, end)
    ensures Grown(if rs[k].0 > Reach(start, rs, k) then |Blanked(s, Reach(start, rs, k), Min(rs[k].0, end))| else |s|,
                  was, start, end, rs, k + 1)
  {
    hide Reach, InSome, Passed, InOrder, Blanked;
    var a := Reach(start, rs, k);
    if end > was && Upright(rs) {
      var p, q := Dealt(start, rs, k), Dealt(start, rs, k + 1);
      forall i | was <= i < end
        ensures (q(i) <==> p(i) || a <= i < rs[k].0) && !(p(i) && a <= i < rs[k].0)
      {
        NewlyCleared(start, rs, k, i);
        if p(i) {
          DealtBelow(start, rs, k, i);
        }
      }
      CountAdded(p, q, a, rs[k].0, was, end);
      DealtCount(start, rs, k, was, end);
    }
  }

  lemma DealtCount(start: nat, rs: seq<Range>, k: nat, lo: int, hi: int)
    requires Upright(rs) && k <= |rs|
    ensures CountOf(Dealt(start, rs, k), lo, hi) <= Max(0, Reach(start, rs, k) - lo)
  {
    hide Reach, InSome, Passed;
    var mid := Max(lo, Reach(start, rs, k));
    forall i | mid <= i < hi
      ensures !Dealt(start, rs, k)(i)
    {
      if Dealt(start, rs, k)(i) {
        DealtBelow(start, rs, k, i);
      }
    }
    CountBelow(Dealt(start, rs, k), lo, mid, hi);
  }

  lemma FreeSame(start: nat, keep: seq<Range>, rs: seq<Range>, lo: int, hi: int)
    requires SameMembers(rs, keep)
    ensures Upright(rs) <==> Upright(keep)
    ensures CountOf(Free(start, rs), lo, hi) == CountOf(Free(start, keep), lo, hi)
  {
    UprightSame(rs, keep);
    UprightSame(keep, rs);
    forall i | lo <= i < hi
      ensures Free(start, keep)(i) <==> Free(start, rs)(i)
    {
      SameRanges(rs, keep, i);
    }
    CountAdded(Free(start, rs), Free(start, keep), 0, 0, lo, hi);
  }

  lemma UprightSame(a: seq<Range>, b: seq<Range>)
    requires SameMembers(a, b)
    ensures Upright(a) ==> Upright(b)
  {
    forall k | 0 <= k < |b| && Upright(a)
      ensures b[k].0 <= b[k].1
    {
      assert b[k] in a;
    }
  }

  lemma GrownLast(s: seq<byte>, was: nat, start: nat, end: nat, rs: seq<Range>, at: nat)
    requires at == Reach(start, rs, |rs|) && Grown(|s|, was, start, end, rs, |rs|)
    ensures var n := if end > at then |Blanked(s, at, end)| else |s|;
      was <= n && (end <= was || Upright(rs) ==> n == was + CountOf(Free(start, rs), was, end))
  {
    hide Reach, InSome, Passed, Blanked;
    if end > was && Upright(rs) {
      var p, q := Dealt(start, rs, |rs|), Free(start, rs);
      forall i | was <= i < end
        ensures (q(i) <==> p(i) || at <= i < end) && !(p(i) && at <= i < end)
      {
        LeftLast(start, rs, i);
        if p(i) {
          DealtBelow(start, rs, |rs|, i);
        }
      }
      CountAdded(p, q, at, end, was, end);
      DealtCount(start, rs, |rs|, was, end);
    }
  }

  lemma GrownDone(n: nat, was: nat, start: nat, end: nat, rs: seq<Range>, k: nat)
    requires InOrder(rs, PairLe) && k < |rs| && Grown(n, was, start, end, rs, k)
    requires end < Reach(start, rs, k) < rs[k].0
    ensures end <= was || Upright(rs) ==> n == was + CountOf(Free(start, rs), was, end)
  {
    hide Reach, InSome, Passed, InOrder;
    if end > was && Upright(rs) {
      var p, q := Dealt(start, rs, k), Free(start, rs);
      forall i | was <= i < end
        ensures q(i) <==> p(i)
      {
        NewlyCleared(start, rs, k, i);
      }
      CountAdded(p, q, 0, 0, was, end);
    }
  }

  // ---- the loop ----

  ghost predicate ZerosFrom(s: seq<byte>, from: nat) { forall i :: from <= i < |s| ==> s[i] == 0 }

  /** The first `k` ranges are dealt with, and none of them left a gap past the end. */
  ghost predicate ZeroedTo(now: seq<byte>, was: seq<byte>, start: nat, end: nat, rs: seq<Range>, k: nat, at: int)
    requires k <= |rs|
  {
    && at == Reach(start, rs, k) && 0 <= at && InOrder(rs, PairLe) && !GapAmong(start, end, rs, k)
    && Grown(|now|, |was|, start, end, rs, k) && ZerosFrom(now, |was|)
    && ClearedTo(now[..|was|], was, start, end, rs, k)
  }

  /** The region is cleared; past its own end the buffer has gained zeros, one for each position of the
      region there outside the kept ranges (when none of those ends before it starts). */
  ghost predicate Zeroed(now: seq<byte>, was: seq<byte>, start: nat, end: nat, keep: seq<Range>)
  {
    && |was| <= |now| && now[..|was|] == Cleared(was, start, end, keep) && ZerosFrom(now, |was|)
    && (end <= |was| || Upright(keep) ==> |now| == |was| + CountOf(Free(start, keep), |was|, end))
  }

  /** `_zero`: in place, even when it raises, which is when the ranges leave a gap past the end. */
  method Zero(buf: ByteArray, start: nat, end: nat, keep: seq<Range>) returns (r: Result<()>)
    modifies buf
    ensures Zeroed(buf.data, old(buf.data), start, end, keep)
    ensures end <= |old(buf.data)| ==> buf.data == Cleared(old(buf.data), start, end, keep)
    ensures r.Raised? <==> GapAmong(start, end, Sorted(keep, PairLe), |Sorted(keep, PairLe)|)
  {
    hide Cleared, Blanked, GapAmong, Sorted, ZeroedTo, Zeroed;
    var rs := Sorted(keep, PairLe);
    ghost var was := buf.data;
    NothingZeroed(was, start, end, keep);
    var at: int, k := start, 0;
    while k < |rs|
      invariant k <= |rs| && at >= 0 && ZeroedTo(buf.data, was, start, end, rs, k, at)
    {
      var (low, high) := rs[k];
      ZeroStep(buf.data, was, start, end, keep, rs, k, at);
      if low > at {
        if Min(low, end) < at {
          Finish(buf.data, was, start, end, keep);
          return Raised;
        }
        buf.data := Blanked(buf.data, at, Min(low, end));
      }
      at := Max(at, high);
      k := k + 1;
    }
    ZeroEnd(buf.data, was, start, end, keep, rs, at);
    if end > at {
      buf.data := Blanked(buf.data, at, end);
    }
    Finish(buf.data, was, start, end, keep);
    r := Ok(());
  }

  lemma Finish(now: seq<byte>, was: seq<byte>, start: nat, end: nat, keep: seq<Range>)
    requires Zeroed(now, was, start, end, keep)
    ensures end <= |was| ==> now == Cleared(was, start, end, keep)
  {
  }

  lemma NothingZeroed(was: seq<byte>, start: nat, end: nat, keep: seq<Range>)
    ensures ZeroedTo(was, was, start, end, Sorted(keep, PairLe), 0, start)
  {
    hide InSome;
    PairOrder();
    SortedInOrder(keep, PairLe);
    var rs := Sorted(keep, PairLe);
    assert was[..|was|] == was;
    NoneDealt(start, rs, |was|, end);
  }

  lemma {:induction false} NoneDealt(start: nat, rs: seq<Range>, lo: int, hi: int)
    ensures CountOf(Dealt(start, rs, 0), lo, hi) == 0
    decreases hi - lo
  {
    if lo < hi {
      NoneDealt(start, rs, lo, hi - 1);
    }
  }

  lemma ZeroStep(now: seq<byte>, was: seq<byte>, start: nat, end: nat, keep: seq<Range>, rs: seq<Range>, k: nat,
                 at: nat)
    requires k < |rs| && rs == Sorted(keep, PairLe) && ZeroedTo(now, was, start, end, rs, k, at)
    ensures
      var (low, high) := rs[k];
      if low > at && Min(low, end) < at then Zeroed(now, was, start, end, keep) && GapAmong(start, end, rs, |rs|)
      else
        ZeroedTo(if low > at then Blanked(now, at, Min(low, end)) else now, was, start, end, rs, k + 1, Max(at, high))
  {
    hide Cleared, ClearedTo, Reach, Blanked, GapAmong, Sorted, InOrder, PairLe, Grown, Upright, CountOf, Free,
      SameMembers;
    GapNext(start, end, rs, k);
    GrownAtLeast(|now|, |was|, start, end, rs, k);
    if rs[k].0 > at && Min(rs[k].0, end) < at {
      KeepMembers(keep, rs);
      ClearDone(now[..|was|], was, start, end, keep, rs, k);
      GrownDone(|now|, |was|, start, end, rs, k);
      FreeSame(start, keep, rs, |was|, end);
    } else {
      var next := if rs[k].0 > at then Blanked(now, at, Min(rs[k].0, end)) else now;
      ClearStep(now, was, start, end, rs, k, at, next);
      GrownNext(now, |was|, start, end, rs, k);
    }
  }

  lemma KeepMembers(keep: seq<Range>, rs: seq<Range>)
    requires rs == Sorted(keep, PairLe)
    ensures SameMembers(rs, keep)
  {
    hide Sorted, PairLe;
    SortedMembers(keep, PairLe);
  }

  lemma GrownAtLeast(n: nat, was: nat, start: nat, end: nat, rs: seq<Range>, k: nat)
    requires k <= |rs| && Grown(n, was, start, end, rs, k)
    ensures was <= n
  {
  }

  lemma ZeroEnd(now: seq<byte>, was: seq<byte>, start: nat, end: nat, keep: seq<Range>, rs: seq<Range>, at: nat)
    requires rs == Sorted(keep, PairLe) && ZeroedTo(now, was, start, end, rs, |rs|, at)
    ensures Zeroed(if end > at then Blanked(now, at, end) else now, was, start, end, keep)
    ensures !GapAmong(start, end, rs, |rs|)
  {
    hide Cleared, ClearedTo, Reach, Blanked, GapAmong, Sorted, InOrder, PairLe, Grown, Upright, CountOf, Free,
      SameMembers;
    KeepMembers(keep, rs);
    GrownAtLeast(|now|, |was|, start, end, rs, |rs|);
    ClearEnd(now, was, start, end, keep, rs, at, if end > at then Blanked(now, at, end) else now);
    GrownLast(now, |was|, start, end, rs, at);
    FreeSame(start, keep, rs, |was|, end);
  }

  lemma BlankedParts(s: seq<byte>, from: nat, a: nat, b: nat)
    requires a <= b && from <= |s| && ZerosFrom(s, from)
    ensures var r := Blanked(s, a, b);
      && from <= |r| && ZerosFrom(r, from)
      && forall i :: 0 <= i < from ==> r[..from][i] == if a <= i < b then 0 else s[..from][i]
  {
  }

  lemma ClearStep(now: seq<byte>, was: seq<byte>, start: nat, end: nat, rs: seq<Range>, k: nat, at: nat,
                  next: seq<byte>)
    requires InOrder(rs, PairLe) && k < |rs| && |was| <= |now| && ClearedTo(now[..|was|], was, start, end, rs, k)
    requires at == Reach(start, rs, k) && ZerosFrom(now, |was|) && (rs[k].0 > at ==> at <= Min(rs[k].0, end))
    requires next == if rs[k].0 > at then Blanked(now, at, Min(rs[k].0, end)) else now
    ensures |was| <= |next| && ClearedTo(next[..|was|], was, start, end, rs, k + 1) && ZerosFrom(next, |was|)
    ensures Max(at, rs[k].1) == Reach(start, rs, k + 1)
  {
    hide ClearedTo, InOrder, Blanked;
    if rs[k].0 > at {
      BlankedParts(now, |was|, at, Min(rs[k].0, end));
    }
    ClearNext(now[..|was|], was, start, end, rs, k, next[..|was|]);
  }

  lemma ClearEnd(now: seq<byte>, was: seq<byte>, start: nat, end: nat, keep: seq<Range>, rs: seq<Range>, at: nat,
                 next: seq<byte>)
    requires |was| <= |now| && ClearedTo(now[..|was|], was, start, end, rs, |rs|) && SameMembers(rs, keep)
    requires at == Reach(start, rs, |rs|) && ZerosFrom(now, |was|)
    requires next == if end > at then Blanked(now, at, end) else now
    ensures |was| <= |next| && next[..|was|] == Cleared(was, start, end, keep) && ZerosFrom(next, |was|)
  {
    hide ClearedTo, SameMembers, Cleared, Blanked;
    if end > at {
      BlankedParts(now, |was|, at, end);
    }
    ClearLast(now[..|was|], was, start, end, keep, rs, next[..|was|]);
  }

  /** Ranges that end inside the region leave no gap past it. */
  lemma KeptInside(start: int, end: int, rs: seq<Range>)
    requires start <= end && forall k :: 0 <= k < |rs| ==> rs[k].1 <= end
    ensures !GapAmong(start, end, rs, |rs|)
  {
    forall k | 0 <= k < |rs|
      ensures !GapPastEnd(start, end, rs, k)
    {
      ReachAtMost(start, rs, k, end);
    }
  }

  /** Two ranges past the end, apart from each other, do: the second makes it ask for a negative count
      of zero bytes. */
  lemma GapExample()
    ensures var rs := Sorted([(20, 30), (40, 50)], PairLe); |rs| == 2 && GapAmong(0, 10, rs, 2)
  {
    var rs := Sorted([(20, 30), (40, 50)], PairLe);
    assert [(20, 30), (40, 50)][1..] == [(40, 50)] && Sorted([(40, 50)], PairLe) == [(40, 50)];
    assert rs == [(20, 30), (40, 50)];
    assert Reach(0, rs, 1) == 30;
    assert GapPastEnd(0, 10, rs, 1);
  }

  /** Eight bytes, cleared from the second to the seventh but for two that are kept. */
  lemma ClearExample()
    ensures Cleared([1, 2, 3, 4, 5, 6, 7, 8], 2, 7, [(3, 5)]) == [1, 2, 0, 4, 5, 0, 0, 8]
  {
    forall i
      ensures InSome([(3, 5)], i) <==> 3 <= i < 5
    {
      if 3 <= i < 5 {
        InSomeOf([(3, 5)], i, (3, 5));
      }
    }
  }

  // ---- runs of clusters ----

  /** A read rounded out to whole clusters, and cut to the size. */
  function Rounded(read: (int, nat), cluster: nat, size: nat): (r: Range)
    requires cluster > 0 && 0 <= read.0
  {
    (Div(read.0, cluster) * cluster, Min(size, CeilDiv(read.0 + read.1, cluster) * cluster))
  }

  /** The rounded reads that start inside the size, in order of reading. */
  function Spans(ranges: seq<(int, nat)>, cluster: nat, size: nat): seq<Range>
    requires cluster > 0
  {
    if ranges == [] then []
    else
      var n := |ranges| - 1;
      Spans(ranges[..n], cluster, size) + (if 0 <= ranges[n].0 < size then [Rounded(ranges[n], cluster, size)] else [])
  }

  /** Four reads in clusters of 16 of a size of 90: one starts before it and one past it. */
  lemma RoundExample()
    ensures Spans([(5, 30), (-1, 4), (70, 40), (90, 2)], 16, 90) == [(0, 48), (64, 90)]
  {
    hide Div;
    var r: seq<(int, nat)> := [(5, 30), (-1, 4), (70, 40), (90, 2)];
    DivUnique(5, 16, 0, 5);
    DivUnique(34, 16, 2, 2);
    DivUnique(70, 16, 4, 6);
    DivUnique(109, 16, 6, 13);
    assert Rounded((5, 30), 16, 90) == (0, 48) && Rounded((70, 40), 16, 90) == (64, 90);
    hide Rounded;
    assert |r[..0]| == 0 && Spans(r[..0], 16, 90) == [];
    OneSpan(r, 0, 16, 90);
    OneSpan(r, 1, 16, 90);
    OneSpan(r, 2, 16, 90);
    OneSpan(r, 3, 16, 90);
    assert r[..4] == r;
  }

  lemma OneSpan(ranges: seq<(int, nat)>, k: nat, cluster: nat, size: nat)
    requires cluster > 0 && k < |ranges|
    ensures Spans(ranges[..k + 1], cluster, size) ==
      Spans(ranges[..k], cluster, size)
      + (if 0 <= ranges[k].0 < size then [Rounded(ranges[k], cluster, size)] else [])
  {
    hide Rounded;
    assert ranges[..k + 1][..k] == ranges[..k];
  }

  /** Runs with a gap before each but the first. */
  ghost predicate Gapped(runs: seq<Range>)
  {
    && (forall k :: 0 <= k < |runs| ==> runs[k].0 <= runs[k].1)
    && (forall j, k :: 0 <= j < k < |runs| ==> runs[j].1 < runs[k].0)
  }

  /** Two lists of ranges hold the same positions. */
  ghost predicate SameUnion(a: seq<Range>, b: seq<Range>) { forall i: int :: InSome(a, i) <==> InSome(b, i) }

  /** Adding a range that starts no earlier than the last run: it extends that run or comes after it. */
  lemma Merged(runs: seq<Range>, spans: seq<Range>, k: nat, next: seq<Range>)
    requires k < |spans| && InOrder(spans, PairLe) && spans[k].0 <= spans[k].1
    requires Gapped(runs) && SameUnion(runs, spans[..k])
    requires runs == [] <==> k == 0
    requires forall j :: 0 <= j < |runs| ==> runs[j].0 <= spans[k].0
    requires
      var a, b, n := spans[k].0, spans[k].1, |runs| - 1;
      next == if runs != [] && a <= runs[n].1 then runs[n := (runs[n].0, Max(runs[n].1, b))] else runs + [(a, b)]
    ensures Gapped(next) && SameUnion(next, spans[..k + 1])
    ensures next != [] && forall j :: 0 <= j < |next| ==> next[j].0 <= spans[k].0
  {
    var a, b, n := spans[k].0, spans[k].1, |runs| - 1;
    forall i: int
      ensures InSome(next, i) <==> InSome(spans[..k + 1], i)
    {
      assert spans[..k + 1] == spans[..k] + [(a, b)];
      InJoined(spans[..k], [(a, b)], i);
      if runs != [] && a <= runs[n].1 {
        assert runs == runs[..n] + [runs[n]];
        assert next == runs[..n] + [(runs[n].0, Max(runs[n].1, b))];
        InJoined(runs[..n], [runs[n]], i);
        InJoined(runs[..n], [(runs[n].0, Max(runs[n].1, b))], i);
      } else {
        InJoined(runs, [(a, b)], i);
      }
      assert [(a, b)][0] == (a, b);
    }
  }

  lemma InJoined(a: seq<Range>, b: seq<Range>, i: int)
    ensures InSome(a + b, i) <==> InSome(a, i) || InSome(b, i)
    ensures |b| == 1 ==> (InSome(b, i) <==> In(b[0], i))
  {
    if k :| 0 <= k < |a| && In(a[k], i) {
      assert In((a + b)[k], i);
    }
    if k :| 0 <= k < |b| && In(b[k], i) {
      assert In((a + b)[|a| + k], i);
    }
    if k :| 0 <= k < |a + b| && In((a + b)[k], i) {
      assert if k < |a| then In(a[k], i) else In(b[k - |a|], i);
    }
  }

  lemma SpansProper(ranges: seq<(int, nat)>, cluster: nat, size: nat, r: Range)
    requires cluster > 0 && r in Spans(ranges, cluster, size)
    ensures 0 <= r.0 <= r.1 <= size
  {
    hide Div, Mod, CeilDiv;
    var n := |ranges| - 1;
    if r in Spans(ranges[..n], cluster, size) {
      SpansProper(ranges[..n], cluster, size, r);
    } else {
      RoundedProper(ranges[n], cluster, size);
    }
  }

  lemma RoundedProper(read: (int, nat), cluster: nat, size: nat)
    requires cluster > 0 && 0 <= read.0 < size
    ensures var r := Rounded(read, cluster, size); 0 <= r.0 <= read.0 && r.0 <= r.1 <= size
  {
    hide Div, Mod;
    DivParts(read.0, cluster);
    CeilCovers(read.0 + read.1, cluster);
  }

  lemma CeilCovers(x: nat, n: nat)
    requires n > 0
    ensures x <= CeilDiv(x, n) * n < x + n
  {
    hide Div, Mod;
    if x > 0 {
      DivParts(x - 1, n);
      Distribute(Div(x - 1, n), 1, n);
    }
  }

  /** Python's `[[a, b - a] for a, b in runs]`. */
  function Lengths(runs: seq<Range>): (out: seq<(int, int)>)
    ensures |out| == |runs| && forall k :: 0 <= k < |runs| ==> out[k] == (runs[k].0, runs[k].1 - runs[k].0)
  {
    seq(|runs|, k requires 0 <= k < |runs| => (runs[k].0, runs[k].1 - runs[k].0))
  }

  /** The ranges that starts and lengths stand for. */
  function Ends(out: seq<(int, int)>): (runs: seq<Range>)
    ensures |runs| == |out| && forall k :: 0 <= k < |out| ==> runs[k] == (out[k].0, out[k].0 + out[k].1)
  {
    seq(|out|, k requires 0 <= k < |out| => (out[k].0, out[k].0 + out[k].1))
  }

  /** `cluster_runs`: the rounded reads merged where they meet, as starts and lengths. */
  method ClusterRuns(ranges: seq<(int, nat)>, cluster: nat, size: nat) returns (out: seq<(int, int)>)
    requires cluster > 0
    ensures Gapped(Ends(out)) && SameUnion(Ends(out), Spans(ranges, cluster, size))
  {
    hide Sorted, Spans, MergedTo, SameUnion, InOrder, PairLe, Gapped, Lengths, Ends;
    var spans := Sorted(Spans(ranges, cluster, size), PairLe);
    SpansSorted(ranges, cluster, size);
    var merged: seq<Range>, k := [], 0;
    NothingMerged(spans);
    while k < |spans|
      invariant k <= |spans| && MergedTo(merged, spans, k)
    {
      var (a, b) := spans[k];
      ghost var before := merged;
      var n := |merged| - 1;
      if merged != [] && a <= merged[n].1 {
        merged := merged[n := (merged[n].0, Max(merged[n].1, b))];
      } else {
        merged := merged + [(a, b)];
      }
      MergeStep(before, spans, k, merged);
      k := k + 1;
    }
    AllMerged(merged, spans, Spans(ranges, cluster, size));
    LengthsEnd(merged);
    out := Lengths(merged);
  }

  lemma LengthsEnd(runs: seq<Range>)
    ensures Ends(Lengths(runs)) == runs
  {
  }

  /** The runs so far: what the first `k` spans come to, none starting after the next span. */
  ghost predicate MergedTo(runs: seq<Range>, spans: seq<Range>, k: nat)
    requires k <= |spans|
  {
    && Gapped(runs) && SameUnion(runs, spans[..k]) && (runs == [] <==> k == 0)
    && (k < |spans| ==> forall j :: 0 <= j < |runs| ==> runs[j].0 <= spans[k].0)
  }

  lemma MergeStep(runs: seq<Range>, spans: seq<Range>, k: nat, next: seq<Range>)
    requires k < |spans| && InOrder(spans, PairLe) && spans[k].0 <= spans[k].1 && MergedTo(runs, spans, k)
    requires
      var a, b, n := spans[k].0, spans[k].1, |runs| - 1;
      next == if runs != [] && a <= runs[n].1 then runs[n := (runs[n].0, Max(runs[n].1, b))] else runs + [(a, b)]
    ensures MergedTo(next, spans, k + 1)
  {
    hide Gapped, SameUnion;
    Merged(runs, spans, k, next);
    assert k + 1 < |spans| ==> PairLe(spans[k], spans[k + 1]);
  }

  lemma SpansSorted(ranges: seq<(int, nat)>, cluster: nat, size: nat)
    requires cluster > 0
    ensures
      var spans := Sorted(Spans(ranges, cluster, size), PairLe);
      && InOrder(spans, PairLe) && SameUnion(spans, Spans(ranges, cluster, size))
      && forall k :: 0 <= k < |spans| ==> spans[k].0 <= spans[k].1
  {
    hide Sorted, Spans, InOrder, SameUnion;
    var spans := Sorted(Spans(ranges, cluster, size), PairLe);
    PairOrder();
    SortedInOrder(Spans(ranges, cluster, size), PairLe);
    SortedMembers(Spans(ranges, cluster, size), PairLe);
    SameUnionOf(spans, Spans(ranges, cluster, size));
    forall k | 0 <= k < |spans|
      ensures spans[k].0 <= spans[k].1
    {
      assert spans[k] in spans;
      SpansProper(ranges, cluster, size, spans[k]);
    }
  }

  lemma AllMerged(runs: seq<Range>, spans: seq<Range>, rounded: seq<Range>)
    requires MergedTo(runs, spans, |spans|) && SameUnion(spans, rounded)
    ensures Gapped(runs) && SameUnion(runs, rounded)
  {
    hide InSome;
    assert spans[..|spans|] == spans;
  }

  lemma NothingMerged(spans: seq<Range>)
    ensures MergedTo([], spans, 0)
  {
  }

  lemma SameUnionOf(a: seq<Range>, b: seq<Range>)
    requires SameMembers(a, b)
    ensures SameUnion(a, b)
  {
    forall i: int
      ensures InSome(a, i) <==> InSome(b, i)
    {
      SameRanges(a, b, i);
    }
  }

  /** A rounded read holds the positions, inside the size, of the clusters from its first to its last. */
  lemma InRounded(read: (int, nat), cluster: nat, size: nat, i: nat)
    requires cluster > 0 && 0 <= read.0 < size && read.1 > 0
    ensures In(Rounded(read, cluster, size), i) <==>
      i < size && Div(read.0, cluster) <= Div(i, cluster) <= Div(read.0 + read.1 - 1, cluster)
  {
    hide Div, Mod;
    var first, last, q := Div(read.0, cluster), Div(read.0 + read.1 - 1, cluster), Div(i, cluster);
    DivParts(i, cluster);
    StartsBefore(first, q, cluster, i);
    StartsBefore(last + 1, q, cluster, i);
  }

  lemma StartsBefore(run: nat, q: nat, n: nat, i: nat)
    requires n > 0 && q * n <= i < q * n + n
    ensures run * n <= i <==> run <= q
  {
    Apart(q, run, n);
    Apart(run, q, n);
  }

  /** Some position from `low` to `high` lies in the cluster of `i`. */
  ghost predicate Touches(low: nat, high: nat, i: nat, n: nat)
    requires n > 0
  {
    exists p: nat :: low <= p <= high && Div(p, n) == Div(i, n)
  }

  lemma TouchesIff(low: nat, high: nat, i: nat, n: nat)
    requires n > 0 && low <= high
    ensures Touches(low, high, i, n) <==> Div(low, n) <= Div(i, n) <= Div(high, n)
  {
    hide Div;
    if p: nat :| low <= p <= high && Div(p, n) == Div(i, n) {
      DivMono(low, p, n);
      DivMono(p, high, n);
    } else if Div(low, n) <= Div(i, n) <= Div(high, n) {
      Between(low, high, i, n);
    }
  }

  lemma Between(low: nat, high: nat, i: nat, n: nat)
    requires n > 0 && low <= high && Div(low, n) <= Div(i, n) <= Div(high, n)
    ensures Touches(low, high, i, n)
  {
    hide Div;
    if i < low {
      DivMono(i, low, n);
      assert Div(low, n) == Div(i, n);
    } else if high < i {
      DivMono(high, i, n);
      assert Div(high, n) == Div(i, n);
    }
  }

  /** A read that starts inside the size and holds something comes to the positions, inside the size,
      of the clusters it touches. */
  lemma RoundedTouches(read: (int, nat), cluster: nat, size: nat, i: nat)
    requires cluster > 0 && 0 <= read.0 < size && read.1 > 0
    ensures In(Rounded(read, cluster, size), i) <==>
      i < size && Touches(read.0, read.0 + read.1 - 1, i, cluster)
  {
    hide Div, Rounded, Touches;
    InRounded(read, cluster, size, i);
    TouchesIff(read.0, read.0 + read.1 - 1, i, cluster);
  }
}
