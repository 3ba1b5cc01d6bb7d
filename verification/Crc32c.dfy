/** CRC-32C (section 12.1 of RFC 3720): the table-driven form (`_crc32c`), the division it stands
    for, one message bit at a time, and what that division detects. */
module Crc32c {
  import opened Bits
  import opened Prelude

  // ---- exclusive or ----

  /** Python's `a ^ b`. */
  function Xor(a: nat, b: nat): nat
  {
    if a == 0 then b else if b == 0 then a else (if a % 2 == b % 2 then 0 else 1) + 2 * Xor(a / 2, b / 2)
  }

  lemma XorHalf(a: nat, b: nat)
    ensures Xor(a, b) % 2 == (if a % 2 == b % 2 then 0 else 1) && Xor(a, b) / 2 == Xor(a / 2, b / 2)
  {
    XorUnfold(a, b);
    if a == 0 || b == 0 {
      XorNothing(a);
      XorNothing(b);
      XorNothing(a / 2);
      XorNothing(b / 2);
    } else {
      hide Xor;
      TwiceHalf(Xor(a / 2, b / 2), if a % 2 == b % 2 then 0 else 1);
    }
  }

  lemma XorUnfold(a: nat, b: nat)
    ensures a != 0 && b != 0 ==> Xor(a, b) == (if a % 2 == b % 2 then 0 else 1) + 2 * Xor(a / 2, b / 2)
  {
  }

  lemma XorNothing(a: nat)
    ensures Xor(0, a) == a && Xor(a, 0) == a
  {
  }

  lemma TwiceHalf(h: nat, bit: nat)
    requires bit < 2
    ensures (bit + 2 * h) % 2 == bit && (bit + 2 * h) / 2 == h
  {
  }

  lemma {:induction false} XorComm(a: nat, b: nat)
    ensures Xor(a, b) == Xor(b, a)
  {
    if a != 0 && b != 0 {
      XorComm(a / 2, b / 2);
    }
  }

  lemma Halves(x: nat, y: nat)
    requires x % 2 == y % 2 && x / 2 == y / 2
    ensures x == y
  {
  }

  lemma {:induction false} XorAssoc(a: nat, b: nat, c: nat)
    ensures Xor(Xor(a, b), c) == Xor(a, Xor(b, c))
    decreases a + b + c
  {
    if a != 0 && b != 0 && c != 0 {
      XorHalf(a, b);
      XorHalf(b, c);
      XorHalf(Xor(a, b), c);
      XorHalf(a, Xor(b, c));
      XorAssoc(a / 2, b / 2, c / 2);
      Halves(Xor(Xor(a, b), c), Xor(a, Xor(b, c)));
    }
  }

  lemma {:induction false} XorSelf(a: nat)
    ensures Xor(a, a) == 0
  {
    if a != 0 {
      XorSelf(a / 2);
    }
  }

  /** Adding the same number to both sides can be taken off again. */
  lemma XorCancel(a: nat, b: nat, c: nat)
    requires Xor(a, c) == Xor(b, c)
    ensures a == b
  {
    XorAssoc(a, c, c);
    XorAssoc(b, c, c);
    XorSelf(c);
    XorComm(a, 0);
    XorComm(b, 0);
  }

  lemma {:induction false} XorBound(a: nat, b: nat, n: nat)
    requires a < Pow2(n) && b < Pow2(n)
    ensures Xor(a, b) < Pow2(n)
    decreases n
  {
    if a != 0 && b != 0 {
      XorBound(a / 2, b / 2, n - 1);
    }
  }

  lemma {:induction false} XorFields(a: nat, b: nat, n: nat)
    ensures Shr(Xor(a, b), n) == Xor(Shr(a, n), Shr(b, n)) && Low(Xor(a, b), n) == Xor(Low(a, n), Low(b, n))
    decreases n
  {
    hide Xor;
    if n == 0 {
      XorSelf(0);
    } else {
      XorHalf(a, b);
      XorFields(a / 2, b / 2, n - 1);
      var x, y := Low(a, n), Low(b, n);
      LowHalves(a, n);
      LowHalves(b, n);
      LowHalves(Xor(a, b), n);
      XorHalf(x, y);
      Halves(Low(Xor(a, b), n), Xor(x, y));
    }
  }

  lemma LowHalves(a: nat, n: nat)
    requires n > 0
    ensures Low(a, n) % 2 == a % 2 && Low(a, n) / 2 == Low(a / 2, n - 1)
  {
  }

  /** Where no bit meets another, adding is exclusive or. */
  lemma {:induction false} XorDisjoint(h: nat, l: nat, n: nat)
    requires l < Pow2(n)
    ensures Xor(Shl(h, n), l) == Shl(h, n) + l
    decreases n
  {
    if n == 0 {
      XorComm(h, 0);
    } else {
      XorDisjoint(h, l / 2, n - 1);
      XorHalf(Shl(h, n), l);
    }
  }

  // ---- division ----

  const POLY: nat := 0x82F63B78

  /** One step of dividing by the reflected polynomial: the low bit goes out. */
  function Shift(c: nat): nat { if c % 2 == 1 then Xor(c / 2, POLY) else c / 2 }

  function Shifts(c: nat, n: nat): nat
    decreases n
  {
    if n == 0 then c else Shifts(Shift(c), n - 1)
  }

  /** The bits of a number, lowest first. */
  function BitsOf(x: nat, n: nat): (bits: seq<bool>)
    ensures |bits| == n
  {
    if n == 0 then [] else [x % 2 == 1] + BitsOf(x / 2, n - 1)
  }

  function MessageBits(data: seq<byte>): seq<bool>
  {
    if data == [] then [] else BitsOf(data[0], 8) + MessageBits(data[1..])
  }

  /** The remainder after dividing in message bits, one at a time. */
  function Divide(c: nat, bits: seq<bool>): nat
    decreases |bits|
  {
    if bits == [] then c else Divide(Shift(Xor(c, if bits[0] then 1 else 0)), bits[1..])
  }

  const ONES: nat := 0xFFFFFFFF

  /** The CRC: all ones before, all bits turned over after. */
  function Crc(data: seq<byte>): nat { Xor(Divide(ONES, MessageBits(data)), ONES) }

  lemma ShiftLinear(a: nat, b: nat)
    ensures Shift(Xor(a, b)) == Xor(Shift(a), Shift(b))
  {
    hide Xor;
    XorHalf(a, b);
    var x, y := a / 2, b / 2;
    if a % 2 == 1 && b % 2 == 1 {
      XorAssoc(x, POLY, Xor(y, POLY));
      XorComm(y, POLY);
      XorAssoc(POLY, POLY, y);
      XorSelf(POLY);
      XorNothing(y);
    } else if a % 2 == 1 {
      XorAssoc(x, POLY, y);
      XorComm(POLY, y);
      XorAssoc(x, y, POLY);
    } else if b % 2 == 1 {
      XorAssoc(x, y, POLY);
    }
  }

  lemma {:induction false} ShiftsLinear(a: nat, b: nat, n: nat)
    ensures Shifts(Xor(a, b), n) == Xor(Shifts(a, n), Shifts(b, n))
    decreases n
  {
    hide Xor, Shift;
    if n != 0 {
      ShiftLinear(a, b);
      ShiftsLinear(Shift(a), Shift(b), n - 1);
    }
  }

  lemma {:induction false} ShiftsUp(h: nat, n: nat)
    ensures Shifts(Shl(h, n), n) == h
    decreases n
  {
    if n != 0 {
      assert Shift(Shl(h, n)) == Shl(h, n - 1);
      ShiftsUp(h, n - 1);
    }
  }

  lemma {:induction false} ShiftsShifts(c: nat, m: nat, n: nat)
    ensures Shifts(Shifts(c, m), n) == Shifts(c, m + n)
    decreases m
  {
    if m != 0 {
      ShiftsShifts(Shift(c), m - 1, n);
    }
  }

  /** Dividing in bits one by one is adding them all and then taking as many steps. */
  lemma {:induction false} DivideBits(c: nat, x: nat, n: nat)
    requires x < Pow2(n)
    ensures Divide(c, BitsOf(x, n)) == Shifts(Xor(c, x), n)
    decreases n
  {
    hide Xor, Shift;
    if n == 0 {
      XorNothing(c);
    } else {
      var bit := if x % 2 == 1 then 1 else 0;
      DivideBits(Shift(Xor(c, bit)), x / 2, n - 1);
      assert BitsOf(x, n)[1..] == BitsOf(x / 2, n - 1);
      OneBit(c, x);
    }
  }

  lemma OneBit(c: nat, x: nat)
    ensures Xor(Shift(Xor(c, x % 2)), x / 2) == Shift(Xor(c, x))
  {
    hide Shift;
    XorDisjoint(x / 2, x % 2, 1);
    assert Shl(x / 2, 1) == 2 * (x / 2);
    XorComm(2 * (x / 2), x % 2);
    XorAssoc(c, x % 2, 2 * (x / 2));
    ShiftLinear(Xor(c, x % 2), 2 * (x / 2));
    ShiftEven(x / 2);
  }

  lemma ShiftEven(h: nat)
    ensures Shift(2 * h) == h
  {
  }

  lemma {:induction false} DivideConcat(c: nat, a: seq<bool>, b: seq<bool>)
    ensures Divide(c, a + b) == Divide(Divide(c, a), b)
    decreases |a|
  {
    if a == [] {
      assert a + b == b;
    } else {
      assert (a + b)[1..] == a[1..] + b;
      DivideConcat(Shift(Xor(c, if a[0] then 1 else 0)), a[1..], b);
    }
  }

  lemma {:induction false} MessageConcat(a: seq<byte>, b: seq<byte>)
    ensures MessageBits(a + b) == MessageBits(a) + MessageBits(b)
  {
    if a == [] {
      assert a + b == b;
    } else {
      assert (a + b)[1..] == a[1..] + b;
      MessageConcat(a[1..], b);
    }
  }

  /** The division in closed form: the whole message added to the start as one number, and one step
      for each of its bits. */
  lemma {:induction false} DivideMessage(c: nat, data: seq<byte>)
    ensures Divide(c, MessageBits(data)) == Shifts(Xor(c, LeValue(data)), 8 * |data|)
    decreases |data|
  {
    hide Xor, Shift, Shl, BitsOf, Pow2;
    if data == [] {
      XorNothing(c);
    } else {
      var x, rest := data[0], data[1..];
      DivideConcat(c, BitsOf(x, 8), MessageBits(rest));
      Pow2Small();
      DivideBits(c, x, 8);
      DivideMessage(Shifts(Xor(c, x), 8), rest);
      var up := LeValue(rest);
      ShlTimes256(up);
      XorDisjoint(up, x, 8);
      XorComm(Shl(up, 8), x);
      XorAssoc(c, x, Shl(up, 8));
      ShiftsLinear(Xor(c, x), Shl(up, 8), 8);
      ShiftsUp(up, 8);
      ShiftsShifts(Xor(c, LeValue(data)), 8, 8 * |rest|);
    }
  }

  /** The CRC in numbers: what is left of the message with its first 32 bits turned over, turned over. */
  lemma CrcNumbers(data: seq<byte>)
    ensures Crc(data) == Xor(Shifts(Xor(0xFFFFFFFF, LeValue(data)), 8 * |data|), 0xFFFFFFFF)
  {
    hide Xor, Shift, LeValue;
    DivideMessage(0xFFFFFFFF, data);
  }

  /** The polynomial x^32 + x^28 + x^27 + x^26 + x^25 + x^23 + x^22 + x^20 + x^19 + x^18 + x^14 + x^13 + x^11
      + x^10 + x^9 + x^8 + x^6 + 1 of RFC 3720 is what a step adds when a one goes out, its constant term in the
      highest of 32 bits and its second highest power in the fourth lowest. */
  lemma PolyPowers()
    ensures
      var t, f := true, false;
      BitsOf(Shift(1), 32) == [f, f, f, t, t, t, t, f, t, t, f, t, t, t, f, f]
                             + [f, t, t, f, t, t, t, t, f, t, f, f, f, f, f, t]
    ensures forall c: nat :: Shift(2 * c) == c && Shift(2 * c + 1) == Xor(c, Shift(1))
  {
    hide Xor, BitsOf;
    XorNothing(0x82F63B78);
    PolyBits();
    forall c: nat
      ensures Shift(2 * c) == c && Shift(2 * c + 1) == Xor(c, 0x82F63B78)
    {
      TwiceHalf(c, 0);
      TwiceHalf(c, 1);
    }
  }

  lemma BitAfter(h: nat, bit: nat, n: nat)
    requires bit < 2
    ensures BitsOf(2 * h + bit, n + 1) == [bit == 1] + BitsOf(h, n)
  {
  }

  lemma NibbleBits(h: nat, a: nat, b: nat, c: nat, d: nat, n: nat, more: seq<bool>)
    requires a < 2 && b < 2 && c < 2 && d < 2 && BitsOf(h, n) == more
    ensures BitsOf(16 * h + 8 * d + 4 * c + 2 * b + a, n + 4) == [a == 1, b == 1, c == 1, d == 1] + more
  {
    hide BitsOf;
    BitAfter(h, d, n);
    BitAfter(2 * h + d, c, n + 1);
    BitAfter(4 * h + 2 * d + c, b, n + 2);
    BitAfter(8 * h + 4 * d + 2 * c + b, a, n + 3);
  }

  lemma PolyBits()
    ensures
      var t, f := true, false;
      BitsOf(0x82F63B78, 32) == [f, f, f, t, t, t, t, f, t, t, f, t, t, t, f, f]
                               + [f, t, t, f, t, t, t, t, f, t, f, f, f, f, f, t]
  {
    hide BitsOf;
    var t, f := true, false;
    HighBits();
    var high := [f, t, t, f, t, t, t, t, f, t, f, f, f, f, f, t];
    NibbleBits(0x82F6, 1, 1, 0, 0, 16, high);
    NibbleBits(0x82F63, 1, 1, 0, 1, 20, [t, t, f, f] + high);
    NibbleBits(0x82F63B, 1, 1, 1, 0, 24, [t, t, f, t] + ([t, t, f, f] + high));
    NibbleBits(0x82F63B7, 0, 0, 0, 1, 28, [t, t, t, f] + ([t, t, f, t] + ([t, t, f, f] + high)));
    Grouped([f, f, f, t], [t, t, t, f], [t, t, f, t], [t, t, f, f], high);
    assert [f, f, f, t] + [t, t, t, f] + [t, t, f, t] + [t, t, f, f]
        == [f, f, f, t, t, t, t, f, t, t, f, t, t, t, f, f];
  }

  lemma Grouped(a: seq<bool>, b: seq<bool>, c: seq<bool>, d: seq<bool>, e: seq<bool>)
    ensures a + (b + (c + (d + e))) == a + b + c + d + e
  {
  }

  lemma HighBits()
    ensures
      var t, f := true, false;
      BitsOf(0x82F6, 16) == [f, t, t, f, t, t, t, t, f, t, f, f, f, f, f, t]
  {
    hide BitsOf;
    var t, f := true, false;
    NoBits();
    NibbleBits(0, 0, 0, 0, 1, 0, []);
    NibbleBits(0x8, 0, 1, 0, 0, 4, [f, f, f, t]);
    NibbleBits(0x82, 1, 1, 1, 1, 8, [f, t, f, f] + [f, f, f, t]);
    NibbleBits(0x82F, 0, 1, 1, 0, 12, [t, t, t, t] + ([f, t, f, f] + [f, f, f, t]));
  }

  lemma NoBits()
    ensures BitsOf(0, 0) == []
  {
  }

  // ---- the table ----

  /** `_crc32c_table`: what eight steps make of each byte. */
  method Table() returns (table: seq<nat>)
    ensures |table| == 256 && forall i :: 0 <= i < 256 ==> table[i] == Shifts(i, 8)
  {
    hide Xor;
    table := [];
    for i := 0 to 256
      invariant |table| == i && forall k :: 0 <= k < i ==> table[k] == Shifts(k, 8)
    {
      var c: nat := i;
      for k := 0 to 8
        invariant Shifts(c, 8 - k) == Shifts(i, 8)
      {
        c := if c % 2 == 1 then Xor(c / 2, POLY) else c / 2;
      }
      table := table + [c];
    }
  }

  /** One look-up is one byte divided in. */
  lemma TableStep(c: nat, x: byte)
    ensures var y := Xor(c, x);
      && Low(y, 8) < 256
      && Divide(c, BitsOf(x, 8)) == Xor(Shifts(Low(y, 8), 8), Shr(c, 8))
  {
    hide Xor, Shift, Shl, BitsOf, Pow2, Shr, Low;
    var y := Xor(c, x);
    Pow2Small();
    DivideBits(c, x, 8);
    Split(y, 8);
    XorDisjoint(Shr(y, 8), Low(y, 8), 8);
    ShiftsLinear(Shl(Shr(y, 8), 8), Low(y, 8), 8);
    ShiftsUp(Shr(y, 8), 8);
    XorFields(c, x, 8);
    NoHighBits(x);
    XorNothing(Shr(c, 8));
    XorComm(Shr(y, 8), Shifts(Low(y, 8), 8));
  }

  lemma NoHighBits(x: byte)
    ensures Shr(x, 8) == 0
  {
    Pow2Small();
    ShlZero(8);
    Join(0, x, 8);
  }

  /** `_crc32c`, a byte at a time through the table. */
  method Crc32c(data: seq<byte>) returns (r: nat)
    ensures r == Crc(data)
  {
    hide Xor, Shift, Divide, Shifts, BitsOf, Shr, Low;
    var crc := ONES;
    var table := Table();
    assert data[..0] == [];
    StartsAt(ONES);
    for i := 0 to |data|
      invariant crc == Divide(ONES, MessageBits(data[..i]))
    {
      var x := data[i];
      TableStep(crc, x);
      NextByte(data, i);
      crc := Xor(table[Low(Xor(crc, x), 8)], Shr(crc, 8));
    }
    assert data[..|data|] == data;
    r := Xor(crc, ONES);
  }

  lemma StartsAt(c: nat)
    ensures Divide(c, MessageBits([])) == c
  {
  }

  lemma NextByte(data: seq<byte>, i: nat)
    requires i < |data|
    ensures Divide(ONES, MessageBits(data[..i + 1])) == Divide(Divide(ONES, MessageBits(data[..i])), BitsOf(data[i], 8))
  {
    hide Divide, BitsOf;
    assert data[..i + 1] == data[..i] + [data[i]];
    MessageConcat(data[..i], [data[i]]);
    assert MessageBits([data[i]]) == BitsOf(data[i], 8) + MessageBits([]) == BitsOf(data[i], 8);
    DivideConcat(ONES, MessageBits(data[..i]), BitsOf(data[i], 8));
  }

  // ---- what it detects ----

  lemma PolyTop()
    ensures Pow2(31) <= POLY < Pow2(32) && ONES < Pow2(32)
  {
    Pow2Small();
    Pow2Plus(15, 16);
    ShlShl(32768, 8, 8);
    ShlTimes256(32768);
    ShlTimes256(8388608);
    assert Pow2(32) == 2 * Pow2(31);
  }

  /** Because the polynomial's top bit is set, no two 32-bit remainders step to the same one. */
  lemma ShiftInjective(a: nat, b: nat)
    requires a < Pow2(32) && b < Pow2(32) && Shift(a) == Shift(b)
    ensures a == b
  {
    hide Xor, Pow2;
    PolyTop();
    Halves32();
    if a % 2 == b % 2 {
      if a % 2 == 1 {
        XorCancel(a / 2, b / 2, POLY);
      }
    } else {
      var odd, even := if a % 2 == 1 then a / 2 else b / 2, if a % 2 == 1 then b / 2 else a / 2;
      XorComm(odd, POLY);
      XorAssoc(POLY, odd, odd);
      XorSelf(odd);
      XorNothing(POLY);
      XorBound(even, odd, 31);
    }
  }

  lemma Halves32()
    ensures Pow2(32) == 2 * Pow2(31)
  {
  }

  lemma ShiftBound(a: nat)
    requires a < Pow2(32)
    ensures Shift(a) < Pow2(32)
  {
    hide Xor, Pow2;
    PolyTop();
    XorBound(a / 2, POLY, 32);
  }

  lemma {:induction false} ShiftsInjective(a: nat, b: nat, n: nat)
    requires a < Pow2(32) && b < Pow2(32) && Shifts(a, n) == Shifts(b, n)
    ensures a == b
    decreases n
  {
    hide Shift, Pow2;
    if n != 0 {
      ShiftBound(a);
      ShiftBound(b);
      ShiftsInjective(Shift(a), Shift(b), n - 1);
      ShiftInjective(a, b);
    }
  }

  lemma {:induction false} ShiftsBound(a: nat, n: nat)
    requires a < Pow2(32)
    ensures Shifts(a, n) < Pow2(32)
    decreases n
  {
    hide Shift, Pow2;
    if n != 0 {
      ShiftBound(a);
      ShiftsBound(Shift(a), n - 1);
    }
  }

  /** Up to four bytes, dividing in different ones, or from different remainders, never agrees on
      both. */
  lemma WindowInjective(c: nat, d: nat, a: seq<byte>, b: seq<byte>)
    requires c < Pow2(32) && d < Pow2(32) && |a| == |b| <= 4
    ensures Divide(c, MessageBits(a)) < Pow2(32)
    ensures Divide(c, MessageBits(a)) == Divide(d, MessageBits(b)) ==> Xor(c, LeValue(a)) == Xor(d, LeValue(b))
  {
    hide Xor, Shift, Pow2, LeValue, Shifts, Divide, MessageBits;
    DivideMessage(c, a);
    DivideMessage(d, b);
    LeValueBound(a);
    LeValueBound(b);
    Pow2Mono(8 * |a|, 32);
    XorBound(c, LeValue(a), 32);
    XorBound(d, LeValue(b), 32);
    ShiftsBound(Xor(c, LeValue(a)), 8 * |a|);
    if Divide(c, MessageBits(a)) == Divide(d, MessageBits(b)) {
      ShiftsInjective(Xor(c, LeValue(a)), Xor(d, LeValue(b)), 8 * |a|);
    }
  }

  lemma {:induction false} LeInjective(a: seq<byte>, b: seq<byte>)
    requires |a| == |b| && LeValue(a) == LeValue(b)
    ensures a == b
  {
    if a != [] {
      assert LeValue(a) % 256 == a[0] && LeValue(b) % 256 == b[0];
      LeInjective(a[1..], b[1..]);
    }
  }

  /** Different remainders stay different through the same bytes. */
  lemma {:induction false} TailKeepsApart(c: nat, d: nat, rest: seq<byte>)
    requires c < Pow2(32) && d < Pow2(32) && c != d
    ensures Divide(c, MessageBits(rest)) != Divide(d, MessageBits(rest))
    decreases |rest|
  {
    hide Xor, Shift, Pow2, BitsOf;
    if rest != [] {
      var x := [rest[0]];
      assert MessageBits(x) == BitsOf(rest[0], 8) + MessageBits([]) == BitsOf(rest[0], 8);
      WindowInjective(c, d, x, x);
      WindowInjective(d, c, x, x);
      DivideConcat(c, BitsOf(rest[0], 8), MessageBits(rest[1..]));
      DivideConcat(d, BitsOf(rest[0], 8), MessageBits(rest[1..]));
      var c1, d1 := Divide(c, MessageBits(x)), Divide(d, MessageBits(x));
      if c1 == d1 {
        XorCancel(c, d, LeValue(x));
      }
      TailKeepsApart(c1, d1, rest[1..]);
    }
  }

  /** Any change confined to four bytes in a row changes the CRC. */
  lemma BurstDetected(before: seq<byte>, a: seq<byte>, b: seq<byte>, after: seq<byte>)
    requires |a| == |b| <= 4 && a != b
    ensures Crc(before + a + after) != Crc(before + b + after)
  {
    hide Xor, Shift, Pow2, Divide, MessageBits, LeValue, Shifts;
    var c := Divide(ONES, MessageBits(before));
    PrefixBound(before);
    WindowInjective(c, c, a, b);
    WindowInjective(c, c, b, a);
    var x, y := Divide(c, MessageBits(a)), Divide(c, MessageBits(b));
    if x == y {
      XorComm(c, LeValue(a));
      XorComm(c, LeValue(b));
      XorCancel(LeValue(a), LeValue(b), c);
      LeInjective(a, b);
    }
    TailKeepsApart(x, y, after);
    ThreeParts(before, a, after);
    ThreeParts(before, b, after);
    if Crc(before + a + after) == Crc(before + b + after) {
      XorCancel(Divide(x, MessageBits(after)), Divide(y, MessageBits(after)), ONES);
    }
  }

  lemma ThreeParts(before: seq<byte>, a: seq<byte>, after: seq<byte>)
    ensures Divide(ONES, MessageBits(before + a + after)) ==
      Divide(Divide(Divide(ONES, MessageBits(before)), MessageBits(a)), MessageBits(after))
  {
    hide Divide, MessageBits;
    MessageConcat(before + a, after);
    MessageConcat(before, a);
    DivideConcat(ONES, MessageBits(before) + MessageBits(a), MessageBits(after));
    DivideConcat(ONES, MessageBits(before), MessageBits(a));
  }

  lemma {:induction false} PrefixBound(data: seq<byte>)
    ensures Divide(ONES, MessageBits(data)) < Pow2(32)
  {
    hide Xor, Shift, Pow2, Divide, BitsOf;
    if data == [] {
      PolyTop();
      StartsAt(ONES);
    } else {
      var i := |data| - 1;
      PrefixBound(data[..i]);
      NextByte(data, i);
      assert data[..i + 1] == data;
      WindowInjective(Divide(ONES, MessageBits(data[..i])), 0, [data[i]], [data[i]]);
      assert MessageBits([data[i]]) == BitsOf(data[i], 8) + MessageBits([]) == BitsOf(data[i], 8);
      PowPositive();
    }
  }

  lemma PowPositive()
    ensures 0 < Pow2(32)
  {
  }

  // ---- the CRC of data that holds its own CRC ----

  /** The data with the four bytes at `at` taken as zero. */
  function FieldZeroed(data: seq<byte>, at: nat): seq<byte>
  {
    data[..Min(at, |data|)] + Zeros(4) + data[Min(at + 4, |data|)..]
  }

  /** `_crc32c_zeroed`. */
  method Crc32cZeroed(data: seq<byte>, at: nat) returns (r: nat)
    ensures r == Crc(FieldZeroed(data, at))
  {
    r := Crc32c(data[..Min(at, |data|)] + Zeros(4) + data[Min(at + 4, |data|)..]);
  }

  /** Writing the checksum into its own field does not change it, and any other change confined to
      four bytes in a row shows. */
  lemma ZeroedDetects(data: seq<byte>, at: nat, field: seq<byte>, from: nat, b: seq<byte>)
    requires at + 4 <= |data| && |field| == 4 && |b| <= 4
    requires from + |b| <= |data| && (from + |b| <= at || at + 4 <= from)
    ensures Crc(FieldZeroed(data[..at] + field + data[at + 4..], at)) == Crc(FieldZeroed(data, at))
    ensures data[from..from + |b|] != b ==>
      Crc(FieldZeroed(data[..from] + b + data[from + |b|..], at)) != Crc(FieldZeroed(data, at))
  {
    hide Crc, FieldZeroed;
    FieldIgnored(data, at, field);
    if data[from..from + |b|] != b {
      var z := FieldZeroed(data, at);
      BesideField(data, at, from, data[from..from + |b|]);
      assert data[..from] + data[from..from + |b|] + data[from + |b|..] == data;
      BesideField(data, at, from, b);
      BurstDetected(z[..from], data[from..from + |b|], b, z[from + |b|..]);
    }
  }

  lemma FieldIgnored(data: seq<byte>, at: nat, field: seq<byte>)
    requires at + 4 <= |data| && |field| == 4
    ensures FieldZeroed(data[..at] + field + data[at + 4..], at) == FieldZeroed(data, at)
  {
  }

  lemma ZeroedAt(data: seq<byte>, at: nat)
    requires at + 4 <= |data|
    ensures |FieldZeroed(data, at)| == |data|
    ensures forall k :: 0 <= k < |data| ==> FieldZeroed(data, at)[k] == if at <= k < at + 4 then 0 else data[k]
  {
  }

  lemma BesideField(data: seq<byte>, at: nat, from: nat, b: seq<byte>)
    requires at + 4 <= |data| && from + |b| <= |data| && (from + |b| <= at || at + 4 <= from)
    ensures |FieldZeroed(data, at)| == |data|
    ensures
      var z := FieldZeroed(data, at);
      FieldZeroed(data[..from] + b + data[from + |b|..], at) == z[..from] + b + z[from + |b|..]
  {
    hide FieldZeroed;
    var z, changed := FieldZeroed(data, at), data[..from] + b + data[from + |b|..];
    ZeroedAt(data, at);
    ZeroedAt(changed, at);
    var x, y := FieldZeroed(changed, at), z[..from] + b + z[from + |b|..];
    forall k | 0 <= k < |data|
      ensures x[k] == y[k]
    {
      assert changed[k] == if from <= k < from + |b| then b[k - from] else data[k];
    }
    assert x == y;
  }
}
