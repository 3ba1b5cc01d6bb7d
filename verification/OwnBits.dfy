/** Which literals a stream gives whatever bits lie below its own. The reader of `_lzfse_block` loads on past
    its payload, into the bytes before it; what it loads makes a difference only where a literal pulls it. */
module OwnBits {
  import opened Bits
  import opened Prelude
  import opened FseTable
  import opened LzfseTables
  import Lit = LzfseLiterals

  // ---- pulls from a stream's own bits ----

  /** What a literal pulls is there, if its state has a symbol at all. */
  ghost predicate Holds(table: Table, state: nat, b: BitString)
    requires state < |table|
  {
    table[state].Some? ==> table[state].value.bits <= b.len
  }

  /** One literal of such a stream: its byte, its next state, and the bits left. */
  function Pull(table: Table, state: nat, b: BitString): (r: Result<(byte, nat, BitString)>)
    requires Closed(LIT_LOG, LIT_SYMBOLS, table) && state < |table| && b.Valid() && Holds(table, state, b)
    ensures r.Ok? ==> r.value.1 < Pow2(LIT_LOG) && r.value.2.Valid()
  {
    match table[state]
    case None => Raised
    case Some(c) =>
      assert CellFits(LIT_LOG, LIT_SYMBOLS, c);
      PullPush(b, c.bits);
      Ok((c.sym, c.delta + b.Top(c.bits), b.Rest(c.bits)))
  }

  /** The decoder's literal is that one, over whatever lies below. */
  lemma PullAbove(table: Table, state: nat, b: BitString, low: BitString)
    requires Closed(LIT_LOG, LIT_SYMBOLS, table) && state < |table| && b.Valid() && Holds(table, state, b)
    requires low.Valid() && low.len >= 10
    ensures b.Above(low).Valid()
    ensures Lit.Literal(table, state, b.Above(low)) ==
      match Pull(table, state, b)
      case Raised => Raised
      case Ok((sym, next, rest)) => Ok((sym, next, rest.Above(low)))
  {
    hide Pow2, Shl, BitString.Top, BitString.Rest;
    AboveValid(b, low);
    if table[state].Some? {
      assert CellFits(LIT_LOG, LIT_SYMBOLS, table[state].value);
      TakeAbove(b, low, table[state].value.bits);
    }
  }

  /** The first `n` literals pull none but the bits of `b`. */
  ghost predicate Own(table: Table, states: seq<nat>, b: BitString, n: nat)
    requires Closed(LIT_LOG, LIT_SYMBOLS, table) && Lit.InRange(states) && b.Valid()
    decreases n
  {
    n > 0 ==>
      && Holds(table, states[0], b)
      && match Pull(table, states[0], b)
         case Raised => true
         case Ok((_, next, rest)) => Own(table, states[1..] + [next], rest, n - 1)
  }

  lemma {:induction false} OwnFewer(table: Table, states: seq<nat>, b: BitString, n: nat, m: nat)
    requires Closed(LIT_LOG, LIT_SYMBOLS, table) && Lit.InRange(states) && b.Valid()
    requires Own(table, states, b, n) && m <= n
    ensures Own(table, states, b, m)
    decreases m
  {
    hide Pow2, Pull, CellFits, Holds;
    if m > 0 && Pull(table, states[0], b).Ok? {
      var (_, next, rest) := Pull(table, states[0], b).value;
      OwnFewer(table, states[1..] + [next], rest, n - 1, m - 1);
    }
  }

  /** Those literals. */
  function Read(table: Table, states: seq<nat>, b: BitString, n: nat): (r: Result<Lit.Literals>)
    requires Closed(LIT_LOG, LIT_SYMBOLS, table) && Lit.InRange(states) && b.Valid() && Own(table, states, b, n)
    ensures r.Ok? ==> |r.value.lits| == n && Lit.InRange(r.value.states) && r.value.rest.Valid()
    decreases n
  {
    if n == 0 then Ok(Lit.Literals([], states, b))
    else
      var one :- Pull(table, states[0], b);
      var more :- Read(table, states[1..] + [one.1], one.2, n - 1);
      Ok(more.(lits := [one.0] + more.lits))
  }

  /** The decoder reads them, with their states, whatever at least 56 bits lie below: all its flushes
      succeed, and what they load from there stays there. */
  lemma {:induction false} DecodeAbove(table: Table, states: seq<nat>, b: BitString, low: BitString, groups: nat,
                                       k: nat)
    requires Closed(LIT_LOG, LIT_SYMBOLS, table) && Lit.InRange(states) && b.Valid() && k < 4
    requires low.Valid() && low.len >= 56 && Own(table, states, b, 4 * groups + k)
    ensures b.Above(low).Valid()
    ensures Lit.Decode(table, states, b.Above(low), groups, k) ==
      match Read(table, states, b, 4 * groups + k)
      case Raised => Raised
      case Ok(l) => Ok(l.(rest := l.rest.Above(low)))
    decreases groups, k
  {
    hide Pow2, Shl, Pull, Lit.Literal, CellFits;
    AboveValid(b, low);
    if k > 0 || groups > 0 {
      PullAbove(table, states[0], b, low);
      match Pull(table, states[0], b)
      case Raised =>
      case Ok((_, next, rest)) =>
        if k == 0 {
          DecodeAbove(table, states[1..] + [next], rest, low, groups - 1, 3);
        } else {
          DecodeAbove(table, states[1..] + [next], rest, low, groups, k - 1);
        }
    }
  }

  // ---- the last group ----

  /** The bytes of states that take their turn before any of them comes again. */
  function Front(table: Table, states: seq<nat>): (r: Result<seq<byte>>)
    requires Closed(LIT_LOG, LIT_SYMBOLS, table) && forall i :: 0 <= i < |states| ==> states[i] < |table|
    ensures r.Ok? ==> |r.value| == |states|
  {
    if states == [] then Ok([])
    else
      match table[states[0]]
      case None => Raised
      case Some(c) =>
        assert CellFits(LIT_LOG, LIT_SYMBOLS, c);
        var more :- Front(table, states[1..]);
        Ok([c.sym] + more)
  }

  /** The literals alone. */
  function LitsOf(r: Result<Lit.Literals>): Result<seq<byte>> { if r.Raised? then Raised else Ok(r.value.lits) }

  /** The last four literals are those of the four states, whatever they pull. */
  lemma {:induction false} FrontDecodes(table: Table, states: seq<nat>, b: BitString, groups: nat, k: nat)
    requires Closed(LIT_LOG, LIT_SYMBOLS, table) && Lit.InRange(states) && b.Valid() && k < 4
    requires 4 * groups + k <= 4 && b.len >= if k == 0 then 56 else 10 * k
    ensures LitsOf(Lit.Decode(table, states, b, groups, k)) == Front(table, states[..4 * groups + k])
    decreases groups, k
  {
    hide Pow2;
    var n := 4 * groups + k;
    if n > 0 && Lit.Literal(table, states[0], b).Ok? {
      var (_, next, rest) := Lit.Literal(table, states[0], b).value;
      var queue := states[1..] + [next];
      assert queue[..n - 1] == states[..n][1..];
      if n > 1 {
        FrontDecodes(table, queue, rest, 0, n - 1);
      }
    }
  }

  /** The literals of `groups` groups of four whose earlier groups pull none but the bits of `b`. */
  function Literals(table: Table, states: seq<nat>, b: BitString, n: nat): (r: Result<seq<byte>>)
    requires Closed(LIT_LOG, LIT_SYMBOLS, table) && Lit.InRange(states) && b.Valid()
    requires n >= 4 && Own(table, states, b, n - 4)
  {
    var l :- Read(table, states, b, n - 4);
    var last :- Front(table, l.states);
    Ok(l.lits + last)
  }

  /** The literals are decided by those bits: what the last group pulls only chooses states that no
      literal comes from. */
  lemma {:induction false} LiteralsAbove(table: Table, states: seq<nat>, b: BitString, low: BitString, groups: nat,
                                         k: nat)
    requires Closed(LIT_LOG, LIT_SYMBOLS, table) && Lit.InRange(states) && b.Valid() && k < 4
    requires low.Valid() && low.len >= 56 && 4 * groups + k >= 4 && Own(table, states, b, 4 * groups + k - 4)
    ensures b.Above(low).Valid()
    ensures LitsOf(Lit.Decode(table, states, b.Above(low), groups, k)) == Literals(table, states, b, 4 * groups + k)
    decreases groups, k
  {
    hide Pow2, Shl, Pull, Lit.Literal, CellFits, Front;
    AboveValid(b, low);
    var n := 4 * groups + k;
    if n == 4 {
      FrontDecodes(table, states, b.Above(low), 1, 0);
      assert states[..4] == states;
      assert Literals(table, states, b, 4) == Front(table, states) by {
        if Front(table, states).Ok? {
          assert [] + Front(table, states).value == Front(table, states).value;
        }
      }
    } else {
      PullAbove(table, states[0], b, low);
      match Pull(table, states[0], b)
      case Raised =>
      case Ok((sym, next, rest)) =>
        var queue := states[1..] + [next];
        if k == 0 {
          LiteralsAbove(table, queue, rest, low, groups - 1, 3);
        } else {
          LiteralsAbove(table, queue, rest, low, groups, k - 1);
        }
        LiteralsStep(table, states, b, n);
    }
  }

  lemma LiteralsStep(table: Table, states: seq<nat>, b: BitString, n: nat)
    requires Closed(LIT_LOG, LIT_SYMBOLS, table) && Lit.InRange(states) && b.Valid()
    requires n > 4 && Own(table, states, b, n - 4) && Pull(table, states[0], b).Ok?
    ensures var (sym, next, rest) := Pull(table, states[0], b).value;
      Literals(table, states, b, n) ==
        match Literals(table, states[1..] + [next], rest, n - 1)
        case Raised => Raised
        case Ok(lits) => Ok([sym] + lits)
  {
    hide Pow2, Pull, CellFits, Front;
    var (sym, next, rest) := Pull(table, states[0], b).value;
    var l := Read(table, states[1..] + [next], rest, n - 5);
    if l.Ok? && Front(table, l.value.states).Ok? {
      assert [sym] + l.value.lits + Front(table, l.value.states).value
          == [sym] + (l.value.lits + Front(table, l.value.states).value);
    }
  }

  // ---- no other bits will do ----

  /** Bits that may lie below `b`: a header, and whatever comes before it. */
  ghost predicate Lies(b: BitString, low: BitString)
  {
    low.Valid() && low.len >= 56 && b.Above(low).Valid()
  }

  /** Both raise, or both give the same literals and end in the same states. */
  ghost predicate Alike(a: Result<Lit.Literals>, b: Result<Lit.Literals>)
  {
    if a.Raised? then b.Raised? else b.Ok? && b.value.lits == a.value.lits && b.value.states == a.value.states
  }

  /** The literals and final states are the same, whatever lies below. */
  ghost predicate Settled(table: Table, states: seq<nat>, b: BitString, groups: nat)
    requires Closed(LIT_LOG, LIT_SYMBOLS, table) && Lit.InRange(states) && b.Valid()
  {
    forall low1: BitString, low2: BitString | Lies(b, low1) && Lies(b, low2) ::
      Alike(Lit.Decode(table, states, b.Above(low1), groups, 0), Lit.Decode(table, states, b.Above(low2), groups, 0))
  }

  /** Whatever lies below, a state without a symbol is reached, or the bits run out. */
  ghost predicate Hopeless(table: Table, states: seq<nat>, b: BitString, groups: nat)
    requires Closed(LIT_LOG, LIT_SYMBOLS, table) && Lit.InRange(states) && b.Valid()
  {
    forall low: BitString | Lies(b, low) :: Lit.Decode(table, states, b.Above(low), groups, 0).Raised?
  }

  /** Literals that do not keep to `b` leave less than lies below it. */
  lemma {:induction false} PullsMore(table: Table, states: seq<nat>, b: BitString, low: BitString, groups: nat, k: nat)
    requires Closed(LIT_LOG, LIT_SYMBOLS, table) && Lit.InRange(states) && b.Valid() && k < 4
    requires low.Valid() && low.len >= 10 && b.Above(low).Valid() && b.len + low.len >= 10 * k
    requires !Own(table, states, b, 4 * groups + k)
    ensures var r := Lit.Decode(table, states, b.Above(low), groups, k); r.Ok? ==> r.value.rest.len < low.len
    decreases groups, k
  {
    hide Pow2, Shl, Pull, Lit.Literal, CellFits;
    var r := Lit.Decode(table, states, b.Above(low), groups, k);
    if r.Ok? {
      if Holds(table, states[0], b) {
        PullAbove(table, states[0], b, low);
        var (_, next, rest) := Pull(table, states[0], b).value;
        AboveValid(rest, low);
        if k == 0 {
          PullsMore(table, states[1..] + [next], rest, low, groups - 1, 3);
        } else {
          PullsMore(table, states[1..] + [next], rest, low, groups, k - 1);
        }
      } else {
        PulledBelow(table, states[0], b.Above(low), low.len);
        var (_, next, rest) := Lit.Literal(table, states[0], b.Above(low)).value;
        if k == 0 {
          RestShrinks(table, states[1..] + [next], rest, groups - 1, 3);
        } else {
          RestShrinks(table, states[1..] + [next], rest, groups, k - 1);
        }
      }
    }
  }

  lemma PulledBelow(table: Table, state: nat, b: BitString, below: nat)
    requires Closed(LIT_LOG, LIT_SYMBOLS, table) && state < |table| && b.Valid() && b.len >= 10 && below <= b.len
    requires table[state].Some? && table[state].value.bits > b.len - below
    ensures Lit.Literal(table, state, b).Ok? && Lit.Literal(table, state, b).value.2.len < below
  {
    assert CellFits(LIT_LOG, LIT_SYMBOLS, table[state].value);
  }

  lemma {:induction false} RestShrinks(table: Table, states: seq<nat>, b: BitString, groups: nat, k: nat)
    requires Closed(LIT_LOG, LIT_SYMBOLS, table) && Lit.InRange(states) && b.Valid() && k < 4 && b.len >= 10 * k
    ensures var r := Lit.Decode(table, states, b, groups, k); r.Ok? ==> r.value.rest.len <= b.len
    decreases groups, k
  {
    hide Pow2, Lit.Literal, CellFits;
    if (k > 0 || groups > 0) && Lit.Decode(table, states, b, groups, k).Ok? {
      var (_, next, rest) := Lit.Literal(table, states[0], b).value;
      if k == 0 {
        RestShrinks(table, states[1..] + [next], rest, groups - 1, 3);
      } else {
        RestShrinks(table, states[1..] + [next], rest, groups, k - 1);
      }
    }
  }

  /** Sixty-four bits, all zero but perhaps the first. */
  function Led(bit: nat): BitString { BitString(bit, 1).Above(BitString(0, 63)) }

  lemma LedTop(b: BitString, bit: nat)
    requires b.Valid() && bit < 2
    ensures Lies(b, Led(bit)) && b.Above(Led(bit)).Top(b.len + 1) == 2 * b.value + bit
  {
    hide Pow2, Shl, Shr, Low;
    OneBit(b.value, bit);
    AboveValid(BitString(bit, 1), BitString(0, 63));
    AboveValid(b, Led(bit));
    AboveAbove(b, BitString(bit, 1), BitString(0, 63));
    var more := b.Above(BitString(bit, 1));
    AboveValid(b, BitString(bit, 1));
    TakeAbove(more, BitString(0, 63), b.len + 1);
    Unshifted(more.value);
  }

  lemma OneBit(v: nat, bit: nat)
    requires bit < 2
    ensures bit < Pow2(1) && Shl(v, 1) + bit == 2 * v + bit && 0 < Pow2(63)
  {
    assert Shl(v, 1) == 2 * Shl(v, 0);
    assert Pow2(1) == 2 * Pow2(0);
  }

  lemma Unshifted(v: nat)
    ensures Shr(v, 0) == v
  {
  }

  /** From the same literals and final states the same bits were pulled. */
  lemma SamePulled(freqs: seq<nat>, states: seq<nat>, b1: BitString, b2: BitString, groups: nat, n: nat)
    requires |freqs| == LIT_SYMBOLS && Sum(freqs) <= Pow2(LIT_LOG) && Lit.InRange(states) && b1.Valid() && b2.Valid()
    requires Closed(LIT_LOG, LIT_SYMBOLS, Spread(LIT_LOG, freqs))
    requires var r1, r2 := Lit.Decode(Spread(LIT_LOG, freqs), states, b1, groups, 0),
                           Lit.Decode(Spread(LIT_LOG, freqs), states, b2, groups, 0);
      r1.Ok? && r2.Ok? && Alike(r1, r2) && r1.value.rest.len + n <= b1.len
    requires n <= b1.len && n <= b2.len
    ensures b1.Top(n) == b2.Top(n)
  {
    hide Pow2, Spread, Sum, Lit.Decode, Lit.Encode, Shl, Shr;
    var l1, l2 := Lit.Decode(Spread(LIT_LOG, freqs), states, b1, groups, 0).value,
                  Lit.Decode(Spread(LIT_LOG, freqs), states, b2, groups, 0).value;
    Lit.DecodeEncode(freqs, states, b1, groups, 0);
    Lit.DecodeEncode(freqs, states, b2, groups, 0);
    var none := BitString(0, 0);
    var e := Lit.Encode(freqs, l1.lits, l1.states, none);
    Lit.EncodeAbove(freqs, l1.lits, l1.states, none, l1.rest);
    Lit.EncodeAbove(freqs, l1.lits, l1.states, none, l2.rest);
    NoneAbove(l1.rest);
    NoneAbove(l2.rest);
    ValidAbove(e.1, l1.rest);
    TakeAbove(e.1, l1.rest, n);
    TakeAbove(e.1, l2.rest, n);
  }

  lemma NoneAbove(b: BitString)
    ensures BitString(0, 0).Above(b) == b
  {
    ShlZero(b.len);
  }

  /** No state of the table is without a symbol: its frequencies sum to the state count. */
  ghost predicate NoneUnowned(table: Table) { forall s :: 0 <= s < |table| ==> table[s].Some? }

  lemma {:induction false} OwnedDecodes(table: Table, states: seq<nat>, b: BitString, groups: nat, k: nat)
    requires Closed(LIT_LOG, LIT_SYMBOLS, table) && NoneUnowned(table) && Lit.InRange(states) && b.Valid() && k < 4
    requires b.len >= 56 + 40 * groups + 10 * k
    ensures Lit.Decode(table, states, b, groups, k).Ok?
    decreases groups, k
  {
    hide Pow2;
    if groups + k > 0 {
      var one := Lit.Literal(table, states[0], b).value;
      if k == 0 {
        OwnedDecodes(table, states[1..] + [one.1], one.2, groups - 1, 3);
      } else {
        OwnedDecodes(table, states[1..] + [one.1], one.2, groups, k - 1);
      }
    }
  }

  lemma OwnedHopes(table: Table, states: seq<nat>, b: BitString, groups: nat)
    requires Closed(LIT_LOG, LIT_SYMBOLS, table) && NoneUnowned(table) && Lit.InRange(states) && b.Valid()
    ensures !Hopeless(table, states, b, groups)
  {
    hide Pow2, Lit.Decode, Closed, NoneUnowned, Shl;
    var low := BitString(0, 56 + 40 * groups);
    AboveValid(b, low);
    assert Lies(b, low);
    OwnedDecodes(table, states, b.Above(low), groups, 0);
  }

  /** Nothing less will do: the literals and the states they end in are the same whatever lies below if
      and only if no literal pulls it, or all is lost anyway, which it never is in a table with no
      unowned state. */
  lemma OwnIff(freqs: seq<nat>, states: seq<nat>, b: BitString, groups: nat)
    requires |freqs| == LIT_SYMBOLS && Sum(freqs) <= Pow2(LIT_LOG) && Lit.InRange(states) && b.Valid()
    ensures Closed(LIT_LOG, LIT_SYMBOLS, Spread(LIT_LOG, freqs))
    ensures var table := Spread(LIT_LOG, freqs);
      && (Settled(table, states, b, groups) <==>
            Own(table, states, b, 4 * groups) || Hopeless(table, states, b, groups))
      && (NoneUnowned(table) ==> !Hopeless(table, states, b, groups))
  {
    hide Pow2, Spread, Sum, Lit.Decode, Closed, Own, Lies, NoneUnowned, Read;
    SpreadClosed(LIT_LOG, freqs);
    var table := Spread(LIT_LOG, freqs);
    if Own(table, states, b, 4 * groups) {
      OwnSettles(table, states, b, groups);
    } else if Settled(table, states, b, groups) && !Hopeless(table, states, b, groups) {
      NotSettled(freqs, states, b, groups);
    }
    if NoneUnowned(table) {
      OwnedHopes(table, states, b, groups);
    }
  }

  lemma OwnSettles(table: Table, states: seq<nat>, b: BitString, groups: nat)
    requires Closed(LIT_LOG, LIT_SYMBOLS, table) && Lit.InRange(states) && b.Valid()
    requires Own(table, states, b, 4 * groups)
    ensures Settled(table, states, b, groups)
  {
    hide Pow2, Lit.Decode, Closed, Own, Read;
    forall low1: BitString, low2: BitString | Lies(b, low1) && Lies(b, low2)
      ensures Alike(Lit.Decode(table, states, b.Above(low1), groups, 0),
                    Lit.Decode(table, states, b.Above(low2), groups, 0))
    {
      DecodeAbove(table, states, b, low1, groups, 0);
      DecodeAbove(table, states, b, low2, groups, 0);
    }
  }

  lemma NotSettled(freqs: seq<nat>, states: seq<nat>, b: BitString, groups: nat)
    requires |freqs| == LIT_SYMBOLS && Sum(freqs) <= Pow2(LIT_LOG) && Lit.InRange(states) && b.Valid()
    requires Closed(LIT_LOG, LIT_SYMBOLS, Spread(LIT_LOG, freqs))
    requires var table := Spread(LIT_LOG, freqs);
      !Own(table, states, b, 4 * groups) && !Hopeless(table, states, b, groups)
    ensures !Settled(Spread(LIT_LOG, freqs), states, b, groups)
  {
    hide Pow2, Spread, Sum, Lit.Decode, Closed, Own, BitString.Above;
    var table := Spread(LIT_LOG, freqs);
    LedTop(b, 0);
    LedTop(b, 1);
    if Settled(table, states, b, groups) {
      var low: BitString :| Lies(b, low) && Lit.Decode(table, states, b.Above(low), groups, 0).Ok?;
      var b0, b1 := b.Above(Led(0)), b.Above(Led(1));
      assert Lit.Decode(table, states, b0, groups, 0).Ok? && Lit.Decode(table, states, b1, groups, 0).Ok?;
      PullsMore(table, states, b, Led(0), groups, 0);
      LedLength(b);
      SamePulled(freqs, states, b0, b1, groups, b.len + 1);
      assert false;
    }
  }

  lemma LedLength(b: BitString)
    ensures forall bit :: Led(bit).len == 64 && b.Above(Led(bit)).len == b.len + 64
  {
  }

  // ---- what an encoder writes ----

  /** Literals written over any bits, or none, pull only what was written for them. */
  lemma {:induction false} EncodeOwn(freqs: seq<nat>, lits: seq<byte>, final: seq<nat>, rest: BitString)
    requires Lit.Codable(freqs, lits) && Lit.InRange(final) && rest.Valid()
    ensures Closed(LIT_LOG, LIT_SYMBOLS, Spread(LIT_LOG, freqs))
    ensures var e := Lit.Encode(freqs, lits, final, rest);
      e.1.Valid() && Own(Spread(LIT_LOG, freqs), e.0, e.1, |lits|)
    decreases |lits|
  {
    hide Pow2, Spread, Sum, Lit.PushLiteral, Pull, Holds, Closed;
    SpreadClosed(LIT_LOG, freqs);
    Lit.EncodeValid(freqs, lits, final, rest);
    if lits != [] {
      EncodeOwn(freqs, lits[1..], final, rest);
      var e := Lit.Encode(freqs, lits[1..], final, rest);
      assert lits[0] in lits;
      PushPulled(freqs, lits[0], e.0[3], e.1);
      var p := Lit.PushLiteral(freqs, lits[0], e.0[3], e.1);
      assert [p.0, e.0[0], e.0[1], e.0[2]][1..] + [e.0[3]] == e.0;
    }
  }

  lemma PushPulled(freqs: seq<nat>, sym: byte, next: nat, b: BitString)
    requires Lit.Codable(freqs, [sym]) && next < Pow2(LIT_LOG) && b.Valid()
    ensures Closed(LIT_LOG, LIT_SYMBOLS, Spread(LIT_LOG, freqs))
    ensures var p, table := Lit.PushLiteral(freqs, sym, next, b), Spread(LIT_LOG, freqs);
      p.1.Valid() && Holds(table, p.0, p.1) && Pull(table, p.0, p.1) == Ok((sym, next, b))
  {
    hide Pow2, Sum, CellBefore, StateBefore, Spread, BitString.Top, BitString.Rest, Shl;
    assert sym in [sym];
    SpreadClosed(LIT_LOG, freqs);
    StepRoundTrip(LIT_LOG, freqs, sym, next);
    var cell := CellBefore(LIT_LOG, freqs, sym, next);
    PushValid(b, next - cell.delta, cell.bits);
    PushPull(b, next - cell.delta, cell.bits);
  }
}
