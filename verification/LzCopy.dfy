/** Match copies (`_copy_match`): a block copy or a tiled pattern, with the meaning of copying one
    byte at a time. */
module LzCopy {
  import opened Bits
  import opened Prelude
  import opened Division

  /** The byte-at-a-time meaning: every new byte is the one `dist` before it. */
  function CopyBytes(out: seq<byte>, dist: nat, length: nat): (r: seq<byte>)
    requires 0 < dist <= |out|
    ensures |r| == |out| + length && out <= r
    decreases length
  {
    if length == 0 then out else CopyBytes(out + [out[|out| - dist]], dist, length - 1)
  }

  /** A sequence that goes on from `out` with period `dist`. */
  ghost predicate Continues(out: seq<byte>, dist: nat, r: seq<byte>)
    requires 0 < dist <= |out|
  {
    out <= r && forall i :: |out| <= i < |r| ==> Repeats(r, dist, i)
  }

  ghost predicate Repeats(r: seq<byte>, dist: nat, i: nat)
    requires dist <= i < |r|
  {
    r[i] == r[i - dist]
  }

  lemma {:induction false} CopyContinues(out: seq<byte>, dist: nat, length: nat)
    requires 0 < dist <= |out|
    ensures Continues(out, dist, CopyBytes(out, dist, length))
    decreases length
  {
    if length != 0 {
      var next := out + [out[|out| - dist]];
      CopyContinues(next, dist, length - 1);
      var r := CopyBytes(out, dist, length);
      assert next <= r && r[|out|] == next[|out|];
      assert Repeats(r, dist, |out|);
    }
  }

  lemma {:induction false} ContinuesUnique(out: seq<byte>, dist: nat, a: seq<byte>, b: seq<byte>)
    requires 0 < dist <= |out| && |a| == |b|
    requires Continues(out, dist, a) && Continues(out, dist, b)
    ensures a == b
  {
    var i := |out|;
    while i < |a|
      invariant |out| <= i <= |a|
      invariant forall k :: 0 <= k < i ==> a[k] == b[k]
    {
      assert Repeats(a, dist, i) && Repeats(b, dist, i);
      i := i + 1;
    }
  }

  /** Python's `pat * reps`. */
  function Repeat(pat: seq<byte>, reps: nat): (r: seq<byte>)
    ensures |r| == reps * |pat|
  {
    if reps == 0 then [] else pat + Repeat(pat, reps - 1)
  }

  lemma {:induction false} RepeatAt(pat: seq<byte>, reps: nat, rem: nat, i: nat)
    requires rem <= |pat| && i < reps * |pat| + rem
    ensures var t := Repeat(pat, reps) + pat[..rem]; t[i] == if i < |pat| then pat[i] else t[i - |pat|]
  {
    if reps != 0 {
      var t, u := Repeat(pat, reps) + pat[..rem], Repeat(pat, reps - 1) + pat[..rem];
      assert t == pat + u;
      if i >= |pat| {
        RepeatAt(pat, reps - 1, rem, i - |pat|);
        if i - |pat| < |pat| {
          assert t[i - |pat|] == pat[i - |pat|];
        } else {
          assert t[i - |pat|] == u[i - |pat| - |pat|];
        }
      }
    }
  }

  /** The two ways the code copies both mean the byte recurrence. */
  lemma BlockCopy(out: seq<byte>, dist: nat, length: nat)
    requires 0 < dist <= |out| && length <= dist
    ensures out + out[|out| - dist..|out| - dist + length] == CopyBytes(out, dist, length)
  {
    CopyContinues(out, dist, length);
    ContinuesUnique(out, dist, out + out[|out| - dist..|out| - dist + length], CopyBytes(out, dist, length));
  }

  lemma TiledCopy(out: seq<byte>, dist: nat, reps: nat, rem: nat)
    requires 0 < dist <= |out| && rem < dist
    ensures var pat := out[|out| - dist..];
      out + (Repeat(pat, reps) + pat[..rem]) == CopyBytes(out, dist, reps * dist + rem)
  {
    var pat := out[|out| - dist..];
    var t := Repeat(pat, reps) + pat[..rem];
    forall i | |out| <= i < |out| + |t|
      ensures Repeats(out + t, dist, i)
    {
      RepeatAt(pat, reps, rem, i - |out|);
    }
    CopyContinues(out, dist, reps * dist + rem);
    ContinuesUnique(out, dist, out + t, CopyBytes(out, dist, reps * dist + rem));
  }

  method CopyMatch(out: ByteArray, dist: int, length: nat) returns (r: Result<()>)
    modifies out
    ensures r.Ok? <==> 0 < dist <= |old(out.data)|
    ensures r.Ok? ==> out.data == CopyBytes(old(out.data), dist, length)
    ensures r.Raised? ==> out.data == old(out.data)
  {
    hide CopyBytes, Repeat, Div, Mod;
    if dist <= 0 || dist > |out.data| {
      return Raised;
    }
    var start := |out.data| - dist;
    if dist >= length {
      BlockCopy(out.data, dist, length);
      out.data := out.data + out.data[start..start + length];
    } else {
      var pat := out.data[start..];
      var reps, rem := Div(length, dist), Mod(length, dist);
      DivParts(length, dist);
      TiledCopy(out.data, dist, reps, rem);
      out.data := out.data + (Repeat(pat, reps) + pat[..rem]);
    }
    r := Ok(());
  }
}
