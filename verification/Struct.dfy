/** Python's `struct` for little-endian unsigned fields, given by their widths in bytes. */
module Struct {
  import opened Bits

  function Width(widths: seq<nat>): nat
  {
    if widths == [] then 0 else widths[0] + Width(widths[1..])
  }

  /** `struct.unpack_from`. */
  function Unpack(s: seq<byte>, widths: seq<nat>): (values: seq<nat>)
    requires Width(widths) <= |s|
    ensures |values| == |widths|
  {
    if widths == [] then [] else [LeValue(s[..widths[0]])] + Unpack(s[widths[0]..], widths[1..])
  }

  /** `struct.pack`, for values that fit their fields. */
  function Pack(values: seq<nat>, widths: seq<nat>): (s: seq<byte>)
    requires |values| == |widths|
    ensures |s| == Width(widths)
  {
    if widths == [] then [] else LeBytes(values[0], widths[0]) + Pack(values[1..], widths[1..])
  }

  ghost predicate Fits(values: seq<nat>, widths: seq<nat>)
  {
    |values| == |widths| && forall i :: 0 <= i < |values| ==> values[i] < Pow2(8 * widths[i])
  }

  lemma {:induction false} UnpackPack(values: seq<nat>, widths: seq<nat>, rest: seq<byte>)
    requires Fits(values, widths)
    ensures Unpack(Pack(values, widths) + rest, widths) == values
  {
    hide LeBytes, LeValue, Pow2;
    if widths != [] {
      var head, more := LeBytes(values[0], widths[0]), Pack(values[1..], widths[1..]);
      var s := Pack(values, widths) + rest;
      assert s == head + (more + rest);
      assert s[..widths[0]] == head && s[widths[0]..] == more + rest;
      LeRoundTrip(values[0], widths[0]);
      UnpackPack(values[1..], widths[1..], rest);
      assert [values[0]] + values[1..] == values;
    }
  }

  lemma {:induction false} UnpackBound(s: seq<byte>, widths: seq<nat>)
    requires Width(widths) <= |s|
    ensures Fits(Unpack(s, widths), widths)
  {
    if widths != [] {
      LeValueBound(s[..widths[0]]);
      UnpackBound(s[widths[0]..], widths[1..]);
      forall i | 0 <= i < |widths|
        ensures Unpack(s, widths)[i] < Pow2(8 * widths[i])
      {
        if i > 0 {
          assert Unpack(s, widths)[i] == Unpack(s[widths[0]..], widths[1..])[i - 1];
        }
      }
    }
  }

  /** Each field is the number in its own bytes. */
  lemma {:induction false} UnpackAt(s: seq<byte>, widths: seq<nat>, i: nat)
    requires Width(widths) <= |s| && i < |widths|
    ensures Width(widths[..i]) + widths[i] <= |s|
    ensures Unpack(s, widths)[i] == LeValue(s[Width(widths[..i])..Width(widths[..i]) + widths[i]])
  {
    hide LeValue;
    var w := widths[0];
    if i == 0 {
      assert s[0..w] == s[..w];
    } else {
      var at := Width(widths[1..][..i - 1]);
      UnpackAt(s[w..], widths[1..], i - 1);
      assert widths[..i][1..] == widths[1..][..i - 1];
      assert s[w..][at..at + widths[i]] == s[w + at..w + at + widths[i]];
    }
  }

  /** What unpacks from a prefix unpacks from the whole. */
  lemma {:induction false} UnpackPrefix(s: seq<byte>, rest: seq<byte>, widths: seq<nat>)
    requires Width(widths) <= |s|
    ensures Unpack(s + rest, widths) == Unpack(s, widths)
  {
    if widths != [] {
      var w := widths[0];
      assert (s + rest)[..w] == s[..w] && (s + rest)[w..] == s[w..] + rest;
      UnpackPrefix(s[w..], rest, widths[1..]);
    }
  }

  /** `n` fields of the same width. */
  function Same(w: nat, n: nat): (widths: seq<nat>)
    ensures |widths| == n && forall i :: 0 <= i < n ==> widths[i] == w
  {
    seq(n, _ => w)
  }

  lemma {:induction false} SameWidth(w: nat, n: nat)
    ensures Width(Same(w, n)) == w * n
  {
    if n != 0 {
      assert Same(w, n)[1..] == Same(w, n - 1);
      SameWidth(w, n - 1);
      assert w + w * (n - 1) == w * n;
    }
  }

  /** A signed 32-bit field. */
  function Signed32(v: nat): int { if v < 0x8000_0000 then v else v - 0x1_0000_0000 }

  function Unsigned32(v: int): (u: nat)
    requires -0x8000_0000 <= v < 0x8000_0000
    ensures Signed32(u) == v && u < 0x1_0000_0000
  {
    if v >= 0 then v else v + 0x1_0000_0000
  }
}
