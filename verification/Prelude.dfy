/** What the modelled Python takes from its own library: optional values, a call that returns or
    raises, a growing `bytearray`, runs of zero bytes, and `sum`. */
module Prelude {
  import opened Bits

  datatype Option<+T> = None | Some(value: T)

  /** A call that returns a value or raises. The wording of an error is not modelled. */
  datatype Result<+T> = Ok(value: T) | Raised {
    predicate IsFailure() { Raised? }
    function PropagateFailure<U>(): Result<U>
      requires Raised?
    {
      Raised
    }
    function Extract(): T
      requires Ok?
    {
      value
    }
  }

  /** A Python `bytearray`, which callers share and decoders append to. */
  class ByteArray {
    var data: seq<byte>

    constructor (initial: seq<byte>)
      ensures data == initial
    {
      data := initial;
    }
  }

  function Zeros(n: nat): (s: seq<byte>)
    ensures |s| == n && forall i :: 0 <= i < n ==> s[i] == 0
  {
    seq(n, _ => 0)
  }

  /** Python's `s[a:b] = piece`, for a piece of the same length. */
  function Splice<T>(s: seq<T>, a: nat, b: nat, piece: seq<T>): (r: seq<T>)
    requires a <= b <= |s| && |piece| == b - a
    ensures |r| == |s| && forall i :: 0 <= i < |s| ==> r[i] == if a <= i < b then piece[i - a] else s[i]
  {
    s[..a] + piece + s[b..]
  }

  function Max(a: int, b: int): int { if a < b then b else a }

  function Min(a: int, b: int): int { if a < b then a else b }

  lemma SliceSlice<T>(s: seq<T>, from: nat, to: nat, a: nat, b: nat)
    requires from <= to <= |s| && a <= b <= to - from
    ensures s[from..to][a..b] == s[from + a..from + b]
  {
    forall k | 0 <= k < b - a
      ensures s[from..to][a..b][k] == s[from + a..from + b][k]
    {
      assert s[from..to][a + k] == s[from + a + k];
    }
  }

  lemma AppendNext<T>(before: seq<T>, s: seq<T>, j: nat)
    requires j < |s|
    ensures before + s[..j + 1] == (before + s[..j]) + [s[j]]
  {
  }

  function Sum(s: seq<nat>): nat
  {
    if s == [] then 0 else Sum(s[..|s| - 1]) + s[|s| - 1]
  }

  lemma {:induction false} SumPrefix(s: seq<nat>, i: nat)
    requires i <= |s|
    ensures Sum(s[..i]) <= Sum(s)
    ensures i < |s| ==> Sum(s[..i]) + s[i] <= Sum(s)
    decreases |s| - i
  {
    if i < |s| {
      assert s[..i + 1][..i] == s[..i];
      SumPrefix(s, i + 1);
    } else {
      assert s[..i] == s;
    }
  }
}
