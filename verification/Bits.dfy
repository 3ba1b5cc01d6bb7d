/** Shifts, little-endian numbers and bit strings over Python's unbounded integers.

    `x << n` is `Shl(x, n)`, `x >> n` is `Shr(x, n)` and `x & ((1 << n) - 1)` is `Low(x, n)`;
    `|` of two numbers with no bit in common is their sum. The shifts are defined one bit at a
    time, which keeps every proof about them linear. */
module Bits {

  type byte = n: nat | n < 256

  function Shl(x: nat, n: nat): nat
  {
    if n == 0 then x else 2 * Shl(x, n - 1)
  }

  function Shr(x: nat, n: nat): nat
  {
    if n == 0 then x else Shr(x / 2, n - 1)
  }

  function Low(x: nat, n: nat): nat
  {
    if n == 0 then 0 else x % 2 + 2 * Low(x / 2, n - 1)
  }

  function Pow2(n: nat): (p: nat)
    ensures p > 0
  {
    if n == 0 then 1 else 2 * Pow2(n - 1)
  }

  lemma {:induction false} ShlOne(n: nat)
    ensures Shl(1, n) == Pow2(n)
  {
    if n != 0 {
      ShlOne(n - 1);
    }
  }

  lemma {:induction false} ShlZero(n: nat)
    ensures Shl(0, n) == 0
  {
    if n != 0 {
      ShlZero(n - 1);
    }
  }

  lemma {:induction false} ShlPlus(x: nat, y: nat, n: nat)
    ensures Shl(x + y, n) == Shl(x, n) + Shl(y, n)
  {
    if n != 0 {
      ShlPlus(x, y, n - 1);
    }
  }

  lemma {:induction false} ShlShl(x: nat, m: nat, n: nat)
    ensures Shl(Shl(x, m), n) == Shl(x, m + n)
  {
    if n != 0 {
      ShlShl(x, m, n - 1);
    }
  }

  lemma ShlMono(x: nat, y: nat, n: nat)
    requires x <= y
    ensures Shl(x, n) <= Shl(y, n)
    ensures x < y ==> Shl(x, n) + Pow2(n) <= Shl(y, n)
  {
    ShlPlus(x, y - x, n);
    if x < y {
      ShlPlus(1, y - x - 1, n);
      ShlOne(n);
    }
  }

  lemma {:induction false} Pow2Plus(m: nat, n: nat)
    ensures Pow2(m + n) == Shl(Pow2(m), n)
  {
    ShlOne(m);
    ShlShl(1, m, n);
    ShlOne(m + n);
  }

  lemma Pow2Next(n: nat)
    ensures Pow2(n + 1) == 2 * Pow2(n)
  {
  }

  lemma {:induction false} Pow2Mono(a: nat, b: nat)
    requires a <= b
    ensures Pow2(a) <= Pow2(b)
  {
    if a < b {
      Pow2Mono(a, b - 1);
    }
  }

  lemma Pow2Small()
    ensures Pow2(0) == 1 && Pow2(1) == 2 && Pow2(2) == 4 && Pow2(3) == 8 && Pow2(4) == 16
    ensures Pow2(5) == 32 && Pow2(6) == 64 && Pow2(7) == 128 && Pow2(8) == 256
    ensures Pow2(9) == 512 && Pow2(10) == 1024 && Pow2(11) == 2048 && Pow2(12) == 4096
    ensures Pow2(13) == 8192 && Pow2(14) == 16384 && Pow2(15) == 32768 && Pow2(16) == 65536
  {
    assert Pow2(4) == 16;
    assert Pow2(8) == 256;
    assert Pow2(12) == 4096;
  }

  /** A number is its high part shifted back up, plus its low part. */
  lemma {:induction false} Split(x: nat, n: nat)
    ensures x == Shl(Shr(x, n), n) + Low(x, n)
    ensures Low(x, n) < Pow2(n)
  {
    if n != 0 {
      Split(x / 2, n - 1);
    }
  }

  /** The converse: shifting and adding a small low part can be taken apart again. */
  lemma {:induction false} Join(v: nat, r: nat, n: nat)
    requires r < Pow2(n)
    ensures Shr(Shl(v, n) + r, n) == v
    ensures Low(Shl(v, n) + r, n) == r
  {
    if n != 0 {
      var x := Shl(v, n) + r;
      assert x / 2 == Shl(v, n - 1) + r / 2;
      Join(v, r / 2, n - 1);
    }
  }

  /** Adding a multiple of `2^n` changes none of the low `n` bits. */
  lemma {:induction false} LowPrefix(y: nat, c: nat, n: nat, m: nat)
    requires m <= n
    ensures Low(Shl(y, n) + c, m) == Low(c, m)
  {
    if m != 0 {
      assert (Shl(y, n) + c) / 2 == Shl(y, n - 1) + c / 2;
      LowPrefix(y, c / 2, n - 1, m - 1);
    }
  }

  lemma {:induction false} ShrPrefix(y: nat, c: nat, n: nat, m: nat)
    requires m <= n
    ensures Shr(Shl(y, n) + c, m) == Shl(y, n - m) + Shr(c, m)
  {
    if m != 0 {
      assert (Shl(y, n) + c) / 2 == Shl(y, n - 1) + c / 2;
      ShrPrefix(y, c / 2, n - 1, m - 1);
    }
  }

  lemma ShrBound(x: nat, m: nat, n: nat)
    requires x < Pow2(m + n)
    ensures Shr(x, n) < Pow2(m)
  {
    Split(x, n);
    Pow2Plus(m, n);
    if Shr(x, n) >= Pow2(m) {
      ShlMono(Pow2(m), Shr(x, n), n);
    }
  }

  lemma ShlBound(v: nat, r: nat, m: nat, n: nat)
    requires v < Pow2(m) && r < Pow2(n)
    ensures Shl(v, n) + r < Pow2(m + n)
  {
    ShlMono(v, Pow2(m), n);
    Pow2Plus(m, n);
  }

  /** Python's `int.bit_length`. */
  function BitLength(n: nat): (b: nat)
    ensures n > 0 ==> b > 0
  {
    if n == 0 then 0 else 1 + BitLength(n / 2)
  }

  lemma {:induction false} BitLengthBounds(n: nat)
    requires n > 0
    ensures Pow2(BitLength(n) - 1) <= n < Pow2(BitLength(n))
  {
    if n > 1 {
      BitLengthBounds(n / 2);
    }
  }

  lemma {:induction false} BitLengthMono(a: nat, b: nat)
    requires a <= b
    ensures BitLength(a) <= BitLength(b)
  {
    if a != 0 {
      BitLengthMono(a / 2, b / 2);
    }
  }

  lemma {:induction false} BitLengthPow2(n: nat)
    ensures BitLength(Pow2(n)) == n + 1
  {
    if n != 0 {
      BitLengthPow2(n - 1);
    }
  }

  // ---- little-endian numbers ----

  /** Python's `int.from_bytes(s, "little")`. */
  function LeValue(s: seq<byte>): (v: nat)
  {
    if s == [] then 0 else s[0] + 256 * LeValue(s[1..])
  }

  /** Python's `v.to_bytes(n, "little")`, for `v` below 256 to the `n`. */
  function LeBytes(v: nat, n: nat): (s: seq<byte>)
    ensures |s| == n
  {
    if n == 0 then [] else [v % 256] + LeBytes(v / 256, n - 1)
  }

  lemma ShlTimes256(y: nat)
    ensures Shl(y, 8) == 256 * y
  {
    assert Shl(y, 1) == 2 * Shl(y, 0);
    assert Shl(y, 3) == 4 * Shl(y, 1);
    assert Shl(y, 5) == 4 * Shl(y, 3);
    assert Shl(y, 7) == 4 * Shl(y, 5);
  }

  lemma Byte8(x: nat, n: nat)
    ensures Shl(x, 8 * (n + 1)) == 256 * Shl(x, 8 * n)
    ensures Pow2(8 * (n + 1)) == 256 * Pow2(8 * n)
  {
    ShlShl(x, 8 * n, 8);
    ShlTimes256(Shl(x, 8 * n));
    Pow2Plus(8 * n, 8);
    ShlTimes256(Pow2(8 * n));
  }

  lemma {:induction false} LeValueBound(s: seq<byte>)
    ensures LeValue(s) < Pow2(8 * |s|)
  {
    if s != [] {
      LeValueBound(s[1..]);
      Byte8(0, |s| - 1);
    }
  }

  lemma {:induction false} LeValueConcat(a: seq<byte>, b: seq<byte>)
    ensures LeValue(a + b) == LeValue(a) + Shl(LeValue(b), 8 * |a|)
  {
    if a == [] {
      assert a + b == b;
    } else {
      assert (a + b)[1..] == a[1..] + b;
      LeValueConcat(a[1..], b);
      Byte8(LeValue(b), |a| - 1);
    }
  }

  lemma {:induction false} LeRoundTrip(v: nat, n: nat)
    requires v < Pow2(8 * n)
    ensures LeValue(LeBytes(v, n)) == v
  {
    if n != 0 {
      Byte8(0, n - 1);
      LeRoundTrip(v / 256, n - 1);
    }
  }

  // ---- bit strings ----

  /** The number `value` written in `len` bits, read from its top bit downwards. */
  datatype BitString = BitString(value: nat, len: nat) {
    ghost predicate Valid() { value < Pow2(len) }

    /** The top `n` bits. */
    function Top(n: nat): nat
      requires n <= len
    {
      Shr(value, len - n)
    }

    /** What is left below the top `n` bits. */
    function Rest(n: nat): BitString
      requires n <= len
    {
      BitString(Low(value, len - n), len - n)
    }

    /** `v` written in `n` bits on top of this string. */
    function Push(v: nat, n: nat): BitString { BitString(Shl(v, len) + value, len + n) }

    /** This string on top of `low`. */
    function Above(low: BitString): BitString {
      BitString(Shl(value, low.len) + low.value, low.len + len)
    }
  }

  lemma PushValid(b: BitString, v: nat, n: nat)
    requires b.Valid() && v < Pow2(n)
    ensures b.Push(v, n).Valid()
  {
    ShlBound(v, b.value, n, b.len);
  }

  /** Taking off the top undoes pushing on the top. */
  lemma PushPull(b: BitString, v: nat, n: nat)
    requires b.Valid()
    ensures b.Push(v, n).Top(n) == v && b.Push(v, n).Rest(n) == b
  {
    Join(v, b.value, b.len);
  }

  /** Pushing back what was taken off the top gives the string again. */
  lemma PullPush(b: BitString, n: nat)
    requires b.Valid() && n <= b.len
    ensures b.Rest(n).Valid() && b.Top(n) < Pow2(n)
    ensures b == b.Rest(n).Push(b.Top(n), n)
  {
    Split(b.value, b.len - n);
    ShrBound(b.value, n, b.len - n);
  }

  lemma PushAbove(b: BitString, low: BitString, v: nat, n: nat)
    ensures b.Push(v, n).Above(low) == b.Above(low).Push(v, n)
  {
    ShlPlus(Shl(v, b.len), b.value, low.len);
    ShlShl(v, b.len, low.len);
  }

  lemma AboveAbove(a: BitString, b: BitString, c: BitString)
    ensures a.Above(b).Above(c) == a.Above(b.Above(c))
  {
    ShlPlus(Shl(a.value, b.len), b.value, c.len);
    ShlShl(a.value, b.len, c.len);
  }

  lemma AboveValid(b: BitString, low: BitString)
    requires b.Valid() && low.Valid()
    ensures b.Above(low).Valid()
  {
    ShlBound(b.value, low.value, b.len, low.len);
  }

  lemma ValidAbove(b: BitString, low: BitString)
    requires b.Above(low).Valid()
    ensures b.Valid()
  {
    if !b.Valid() {
      ShlMono(Pow2(b.len), b.value, low.len);
      Pow2Plus(b.len, low.len);
    }
  }

  lemma TakeAbove(b: BitString, low: BitString, n: nat)
    requires b.Valid() && low.Valid() && n <= b.len
    ensures b.Above(low).Top(n) == b.Top(n) && b.Above(low).Rest(n) == b.Rest(n).Above(low)
  {
    PullPush(b, n);
    PushAbove(b.Rest(n), low, b.Top(n), n);
    AboveValid(b.Rest(n), low);
    PushPull(b.Rest(n).Above(low), b.Top(n), n);
  }
}
