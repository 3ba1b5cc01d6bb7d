/** The LZVN opcode machine (`lzvn_decompress`), the instructions it reads, and the encoder that
    writes them. */
module Lzvn {
  import opened Bits
  import opened Prelude
  import opened LzCopy

  datatype Kind = KindSmlD | KindMedD | KindLrgD | KindPreD | KindSmlM | KindLrgM | KindSmlL | KindLrgL
                | KindNop | KindEos | KindUdef

  function KindOf(opc: byte): Kind
  {
    if opc >= 0xF0 then (if opc == 0xF0 then KindLrgM else KindSmlM)
    else if opc >= 0xE0 then (if opc == 0xE0 then KindLrgL else KindSmlL)
    else if 0x70 <= opc < 0x80 || 0xD0 <= opc < 0xE0 then KindUdef
    else if 0xA0 <= opc < 0xC0 then KindMedD
    else if opc % 8 == 7 then KindLrgD
    else if opc % 8 == 6 then
      if opc == 0x06 then KindEos
      else if opc == 0x0E || opc == 0x16 then KindNop
      else if opc < 0x40 then KindUdef else KindPreD
    else KindSmlD
  }

  method LzvnKinds() returns (kinds: seq<Kind>)
    ensures |kinds| == 256 && forall opc: byte :: kinds[opc] == KindOf(opc)
  {
    kinds := [];
    for opc := 0 to 256
      invariant |kinds| == opc && forall k: byte :: k < opc ==> kinds[k] == KindOf(k)
    {
      var kind;
      if opc >= 0xF0 {
        kind := if opc == 0xF0 then KindLrgM else KindSmlM;
      } else if opc >= 0xE0 {
        kind := if opc == 0xE0 then KindLrgL else KindSmlL;
      } else if 0x70 <= opc < 0x80 || 0xD0 <= opc < 0xE0 {
        kind := KindUdef;
      } else if 0xA0 <= opc < 0xC0 {
        kind := KindMedD;
      } else if opc % 8 == 7 {
        kind := KindLrgD;
      } else if opc % 8 == 6 {
        kind := match opc {
          case 0x06 => KindEos
          case 0x0E => KindNop
          case 0x16 => KindNop
          case _ => if opc < 0x40 then KindUdef else KindPreD
        };
      } else {
        kind := KindSmlD;
      }
      kinds := kinds + [kind];
    }
  }

  // ---- instructions ----

  /** An instruction: literals, a match of `len` bytes, and the distance it sets or keeps. */
  datatype Op =
    | SmlD(lits: seq<byte>, len: nat, dist: nat)
    | MedD(lits: seq<byte>, len: nat, dist: nat)
    | LrgD(lits: seq<byte>, len: nat, dist: nat)
    | PreD(lits: seq<byte>, len: nat)
    | SmlM(len: nat)
    | LrgM(len: nat)
    | SmlL(lits: seq<byte>)
    | LrgL(lits: seq<byte>)
    | Nop(second: bool)
  {
    /** The instruction has an encoding. */
    predicate Valid()
    {
      match this
      case SmlD(lits, len, dist) => Header(|lits|, len) && dist < 0x600
      case MedD(lits, len, dist) => |lits| <= 3 && 3 <= len <= 34 && dist < 0x4000
      case LrgD(lits, len, dist) => Header(|lits|, len) && dist < 0x10000
      case PreD(lits, len) => Header(|lits|, len) && |lits| >= 1
      case SmlM(len) => 1 <= len <= 15
      case LrgM(len) => 16 <= len <= 271
      case SmlL(lits) => 1 <= |lits| <= 15
      case LrgL(lits) => 16 <= |lits| <= 271
      case Nop(_) => true
    }

    function Literals(): seq<byte>
    {
      if SmlM? || LrgM? || Nop? then [] else lits
    }

    function Length(): nat
    {
      if SmlL? || LrgL? || Nop? then 0 else len
    }

    /** The distance in force after `before`. */
    function Distance(before: nat): nat
    {
      if SmlD? || MedD? || LrgD? then dist else before
    }

    function Encode(): (s: seq<byte>)
      requires Valid()
      ensures |s| >= 1 && |s| <= 3 + 271
    {
      match this
      case SmlD(lits, len, dist) => [|lits| * 64 + (len - 3) * 8 + dist / 256, dist % 256] + lits
      case MedD(lits, len, dist) =>
        var word := (len - 3) % 4 + 4 * dist;
        [0xA0 + |lits| * 8 + (len - 3) / 4, word % 256, word / 256] + lits
      case LrgD(lits, len, dist) => [|lits| * 64 + (len - 3) * 8 + 7, dist % 256, dist / 256] + lits
      case PreD(lits, len) => [|lits| * 64 + (len - 3) * 8 + 6] + lits
      case SmlM(len) => [0xF0 + len]
      case LrgM(len) => [0xF0, len - 16]
      case SmlL(lits) => [0xE0 + |lits|] + lits
      case LrgL(lits) => [0xE0, |lits| - 16] + lits
      case Nop(second) => [if second then 0x16 else 0x0E]
    }
  }

  /** The literal counts and match lengths an opcode of the form LLMMMxxx can hold: the others are
      taken by the medium distances, the single-purpose opcodes and the undefined ones. */
  predicate Header(lit: nat, len: nat)
  {
    && 3 <= len <= 10 && lit <= 3
    && (lit == 1 ==> len < 9) && (lit == 2 ==> len < 7) && (lit == 3 ==> len < 5)
  }

  datatype Item = Item(op: Op, size: nat) | End

  // The fields of an opcode LLMMMDDD.
  function Top2(opc: byte): nat { opc / 64 }
  function Mid3(opc: byte): nat { opc / 8 % 8 }
  function Low3(opc: byte): nat { opc % 8 }

  /** Two bytes of `s`, low byte first. */
  function Word(s: seq<byte>, at: nat): (w: nat)
    requires at + 1 < |s|
    ensures w < 0x10000
  {
    s[at] as int + 256 * s[at + 1] as int
  }

  function ParseSmlD(s: seq<byte>): Result<Item>
    requires s != []
  {
    var lit := Top2(s[0]);
    if |s| <= 2 + lit then Raised
    else Ok(Item(SmlD(s[2..2 + lit], Mid3(s[0]) + 3, Low3(s[0]) * 256 + s[1] as int), 2 + lit))
  }

  function ParseMedD(s: seq<byte>): Result<Item>
    requires s != []
  {
    var lit := s[0] / 8 % 4;
    if |s| <= 3 + lit then Raised
    else
      var word := Word(s, 1);
      Ok(Item(MedD(s[3..3 + lit], Low3(s[0]) * 4 + word % 4 + 3, word / 4), 3 + lit))
  }

  function ParseLrgD(s: seq<byte>): Result<Item>
    requires s != []
  {
    var lit := Top2(s[0]);
    if |s| <= 3 + lit then Raised else Ok(Item(LrgD(s[3..3 + lit], Mid3(s[0]) + 3, Word(s, 1)), 3 + lit))
  }

  function ParsePreD(s: seq<byte>): Result<Item>
    requires s != []
  {
    var lit := Top2(s[0]);
    if |s| <= 1 + lit then Raised else Ok(Item(PreD(s[1..1 + lit], Mid3(s[0]) + 3), 1 + lit))
  }

  function ParseMatchOnly(s: seq<byte>): Result<Item>
    requires s != []
  {
    if s[0] != 0xF0 then (if |s| <= 1 then Raised else Ok(Item(SmlM(s[0] % 16), 1)))
    else if |s| <= 2 then Raised else Ok(Item(LrgM(s[1] as int + 16), 2))
  }

  function ParseLiterals(s: seq<byte>): Result<Item>
    requires s != []
  {
    if s[0] != 0xE0 then
      var lit := s[0] % 16;
      if |s| <= 1 + lit then Raised else Ok(Item(SmlL(s[1..1 + lit]), 1 + lit))
    else if |s| <= 2 then Raised
    else
      var lit := s[1] as int + 16;
      if |s| <= 2 + lit then Raised else Ok(Item(LrgL(s[2..2 + lit]), 2 + lit))
  }

  /** The instruction at the start of `s`, or the end-of-stream marker. */
  function Parse(s: seq<byte>): Result<Item>
  {
    if s == [] then Raised
    else
      match KindOf(s[0])
      case KindSmlD => ParseSmlD(s)
      case KindMedD => ParseMedD(s)
      case KindLrgD => ParseLrgD(s)
      case KindPreD => ParsePreD(s)
      case KindSmlM => ParseMatchOnly(s)
      case KindLrgM => ParseMatchOnly(s)
      case KindSmlL => ParseLiterals(s)
      case KindLrgL => ParseLiterals(s)
      case KindNop => if |s| <= 1 then Raised else Ok(Item(Nop(s[0] == 0x16), 1))
      case KindEos => if |s| < 8 then Raised else Ok(End)
      case KindUdef => Raised
  }

  lemma HeaderFields(lit: nat, m: nat, low: nat)
    requires lit <= 3 && m < 8 && low < 8
    ensures var opc := lit * 64 + m * 8 + low;
      opc < 256 && Top2(opc) == lit && Mid3(opc) == m && Low3(opc) == low
  {
    var opc := lit * 64 + m * 8 + low;
    assert opc == 8 * (8 * lit + m) + low;
    assert opc / 8 == 8 * lit + m;
  }

  lemma KindByLow(opc: byte, lit: nat, len: nat, low: nat)
    requires Header(lit, len) && low < 8 && (low == 6 ==> lit >= 1)
    requires opc == lit * 64 + (len - 3) * 8 + low && opc % 8 == low
    ensures KindOf(opc) == if low == 7 then KindLrgD else if low == 6 then KindPreD else KindSmlD
  {
  }

  /** An opcode with literals, a length and low bits in range has the kind its low bits say. */
  lemma HeaderKind(lit: nat, len: nat, low: nat)
    requires Header(lit, len) && low < 8 && (low == 6 ==> lit >= 1)
    ensures var opc := lit * 64 + (len - 3) * 8 + low;
      && opc < 256 && Top2(opc) == lit && Mid3(opc) == len - 3 && Low3(opc) == low
      && KindOf(opc) == if low == 7 then KindLrgD else if low == 6 then KindPreD else KindSmlD
  {
    hide KindOf, Top2, Mid3;
    HeaderFields(lit, len - 3, low);
    KindByLow(lit * 64 + (len - 3) * 8 + low, lit, len, low);
  }

  /** The converse. */
  lemma KindHeader(opc: byte)
    requires KindOf(opc) in {KindSmlD, KindLrgD, KindPreD}
    ensures Header(Top2(opc), Mid3(opc) + 3)
    ensures opc == Top2(opc) * 64 + Mid3(opc) * 8 + Low3(opc) && Low3(opc) < 8
    ensures KindOf(opc) == if Low3(opc) == 7 then KindLrgD else if Low3(opc) == 6 then KindPreD else KindSmlD
    ensures Low3(opc) == 6 ==> Top2(opc) >= 1
  {
  }

  lemma WordBytes(w: nat)
    requires w < 0x10000
    ensures w / 256 < 256 && w % 256 + 256 * (w / 256) == w
  {
  }

  /** Reading back what was encoded. */
  lemma ParseEncode(op: Op, rest: seq<byte>)
    requires op.Valid() && rest != []
    ensures Parse(op.Encode() + rest) == Ok(Item(op, |op.Encode()|))
  {
    if op.MedD? {
      ParseEncodeMedium(op, rest);
    } else if op.SmlD? || op.LrgD? || op.PreD? {
      ParseEncodeHeader(op, rest);
    } else {
      ParseEncodeSingle(op, rest);
    }
  }

  lemma ParseEncodeHeader(op: Op, rest: seq<byte>)
    requires op.Valid() && rest != [] && (op.SmlD? || op.LrgD? || op.PreD?)
    ensures Parse(op.Encode() + rest) == Ok(Item(op, |op.Encode()|))
  {
    hide Top2, Mid3, Low3, KindOf, Header, ParseMedD, ParseLiterals, ParseMatchOnly;
    var s := op.Encode() + rest;
    match op
    case SmlD(lits, len, dist) =>
      HeaderKind(|lits|, len, dist / 256);
      WordBytes(dist);
      assert s[2..2 + |lits|] == lits;
    case LrgD(lits, len, dist) =>
      HeaderKind(|lits|, len, 7);
      WordBytes(dist);
      assert s[3..3 + |lits|] == lits;
    case PreD(lits, len) =>
      HeaderKind(|lits|, len, 6);
      assert s[1..1 + |lits|] == lits;
  }

  /** An opcode of a medium distance. */
  lemma MediumKind(lit: nat, high: nat)
    requires lit <= 3 && high < 8
    ensures var opc := 0xA0 + lit * 8 + high;
      opc < 256 && KindOf(opc) == KindMedD && opc / 8 % 4 == lit && Low3(opc) == high
  {
  }

  lemma MediumWord(m: nat, dist: nat)
    requires m < 32 && dist < 0x4000
    ensures var word := m % 4 + 4 * dist;
      word < 0x10000 && word % 4 == m % 4 && word / 4 == dist && m / 4 * 4 + word % 4 == m && m / 4 < 8
  {
  }

  lemma ParseEncodeMedium(op: Op, rest: seq<byte>)
    requires op.Valid() && rest != [] && op.MedD?
    ensures Parse(op.Encode() + rest) == Ok(Item(op, |op.Encode()|))
  {
    hide KindOf, Top2, Mid3, Low3, ParseSmlD, ParseLrgD, ParsePreD, ParseMatchOnly, ParseLiterals;
    var s, lit, m := op.Encode() + rest, |op.lits|, op.len - 3;
    var word := m % 4 + 4 * op.dist;
    MediumWord(m, op.dist);
    MediumKind(lit, m / 4);
    WordBytes(word);
    assert s == [0xA0 + lit * 8 + m / 4, word % 256, word / 256] + op.lits + rest;
    assert s[3..3 + lit] == op.lits;
  }

  lemma ParseEncodeSingle(op: Op, rest: seq<byte>)
    requires op.Valid() && rest != [] && !(op.SmlD? || op.LrgD? || op.PreD? || op.MedD?)
    ensures Parse(op.Encode() + rest) == Ok(Item(op, |op.Encode()|))
  {
    var s := op.Encode() + rest;
    match op
    case SmlM(len) =>
    case LrgM(len) =>
    case SmlL(lits) => assert s[1..1 + |lits|] == lits;
    case LrgL(lits) => assert s[2..2 + |lits|] == lits;
    case Nop(_) =>
  }

  /** The other way round: an instruction the machine reads is one the encoder would have written,
      byte for byte. */
  lemma EncodeParse(s: seq<byte>)
    requires Parse(s).Ok? && Parse(s).value.Item?
    ensures var item := Parse(s).value;
      0 < item.size < |s| && item.op.Valid() && item.op.Encode() == s[..item.size]
  {
    var kind := KindOf(s[0]);
    if kind == KindSmlD || kind == KindLrgD || kind == KindPreD {
      EncodeParseHeader(s);
    } else if kind == KindMedD {
      EncodeParseMedium(s);
    }
  }

  lemma EncodeParseHeader(s: seq<byte>)
    requires s != [] && KindOf(s[0]) in {KindSmlD, KindLrgD, KindPreD} && Parse(s).Ok?
    ensures Parse(s).value.Item?
    ensures var item := Parse(s).value;
      0 < item.size < |s| && item.op.Valid() && item.op.Encode() == s[..item.size]
  {
    hide Top2, Mid3, Low3, KindOf, Header, ParseMedD, ParseLiterals, ParseMatchOnly;
    KindHeader(s[0]);
    var kind, lit := KindOf(s[0]), Top2(s[0]);
    if kind == KindSmlD {
      assert s[..2 + lit] == [s[0], s[1]] + s[2..2 + lit];
    } else if kind == KindLrgD {
      assert s[..3 + lit] == [s[0], s[1], s[2]] + s[3..3 + lit];
    } else {
      assert s[..1 + lit] == [s[0]] + s[1..1 + lit];
    }
  }

  lemma MediumByte(opc: byte)
    requires KindOf(opc) == KindMedD
    ensures opc == 0xA0 + opc / 8 % 4 * 8 + Low3(opc) && Low3(opc) < 8
  {
  }

  lemma WordParts(s: seq<byte>)
    requires |s| >= 3
    ensures Word(s, 1) < 0x10000 && Word(s, 1) % 256 == s[1] && Word(s, 1) / 256 == s[2]
  {
  }

  lemma MediumParts(high: nat, word: nat)
    requires high < 8 && word < 0x10000
    ensures var m := high * 4 + word % 4;
      m < 32 && m / 4 == high && m % 4 == word % 4 && word / 4 < 0x4000 && m % 4 + 4 * (word / 4) == word
  {
  }

  lemma EncodeParseMedium(s: seq<byte>)
    requires s != [] && KindOf(s[0]) == KindMedD && Parse(s).Ok?
    ensures Parse(s).value.Item?
    ensures var item := Parse(s).value;
      0 < item.size < |s| && item.op.Valid() && item.op.Encode() == s[..item.size]
  {
    hide Top2, Mid3, Low3, KindOf, Word, ParseSmlD, ParseLrgD, ParsePreD, ParseMatchOnly, ParseLiterals;
    var lit := s[0] / 8 % 4;
    MediumByte(s[0]);
    WordParts(s);
    MediumParts(Low3(s[0]), Word(s, 1));
    assert s[..3 + lit] == [s[0], s[1], s[2]] + s[3..3 + lit];
  }

  // ---- what instructions write ----

  datatype Output = Output(dist: nat, out: seq<byte>)

  /** The first half of an instruction: its distance comes into force and its literals are written,
      unless literals and match together would pass `cap`. */
  function Begin(op: Op, o: Output, cap: nat): Result<Output>
  {
    if !op.Nop? && |o.out| + |op.Literals()| + op.Length() > cap then Raised
    else Ok(Output(op.Distance(o.dist), o.out + op.Literals()))
  }

  /** The second half: its match, which may not reach before the output. */
  function Finish(length: nat, o: Output): Result<Output>
  {
    if length == 0 then Ok(o)
    else if o.dist == 0 || o.dist > |o.out| then Raised
    else Ok(Output(o.dist, CopyBytes(o.out, o.dist, length)))
  }

  function Perform(op: Op, o: Output, cap: nat): (r: Result<Output>)
    ensures r.Ok? ==> o.out <= r.value.out
    ensures r.Ok? ==> |r.value.out| == |o.out| + |op.Literals()| + op.Length()
    ensures r.Ok? ==> |r.value.out| <= Max(|o.out|, cap)
  {
    var begun := Begin(op, o, cap);
    if begun.Raised? then Raised else Finish(op.Length(), begun.value)
  }

  function PerformAll(ops: seq<Op>, o: Output, cap: nat): (r: Result<Output>)
    ensures r.Ok? ==> o.out <= r.value.out
    ensures r.Ok? ==> |r.value.out| <= Max(|o.out|, cap)
    decreases |ops|
  {
    if ops == [] then Ok(o)
    else
      var next :- Perform(ops[0], o, cap);
      PerformAll(ops[1..], next, cap)
  }

  /** The machine on `s`: the output, and what follows the end-of-stream marker. */
  function Run(s: seq<byte>, o: Output, cap: nat): (r: Result<(seq<byte>, seq<byte>)>)
    ensures r.Ok? ==> o.out <= r.value.0 && |r.value.0| <= Max(|o.out|, cap)
    ensures r.Ok? ==> |r.value.1| + 8 <= |s| && r.value.1 == s[|s| - |r.value.1|..]
    decreases |s|
  {
    var item := Parse(s);
    if item.Raised? then Raised
    else if item.value.End? then
      EndIs(s);
      Ok((o.out, s[8..]))
    else
      EncodeParse(s);
      var next :- Perform(item.value.op, o, cap);
      Run(s[item.value.size..], next, cap)
  }

  /** An instruction's literals follow the output, and then byte after byte the one so far before it. Only an
      opcode that carries a distance sets it: after literals alone, a match alone or nothing the last one
      stays in force. */
  lemma OpEffect(op: Op, o: Output, cap: nat)
    ensures
      var r, lits := Perform(op, o, cap), op.Literals();
      var dist := match op
        case SmlD(_, _, d) => d
        case MedD(_, _, d) => d
        case LrgD(_, _, d) => d
        case _ => o.dist;
      && (r.Ok? <==>
            && (op.Nop? || |o.out| + |lits| + op.Length() <= cap)
            && (op.Length() > 0 ==> 0 < dist <= |o.out| + |lits|))
      && (r.Ok? ==>
            && r.value.dist == dist && |r.value.out| == |o.out| + |lits| + op.Length()
            && (forall k :: 0 <= k < |o.out| ==> r.value.out[k] == o.out[k])
            && (forall k :: |o.out| <= k < |o.out| + |lits| ==> r.value.out[k] == lits[k - |o.out|])
            && (forall k :: |o.out| + |lits| <= k < |r.value.out| ==> r.value.out[k] == r.value.out[k - dist]))
  {
    hide CopyBytes, Op.Encode, Op.Valid;
    var r, out := Perform(op, o, cap), o.out + op.Literals();
    if r.Ok? && op.Length() > 0 {
      var dist := r.value.dist;
      CopyContinues(out, dist, op.Length());
      forall k | |out| <= k < |r.value.out|
        ensures r.value.out[k] == r.value.out[k - dist]
      {
        assert Repeats(r.value.out, dist, k);
      }
      assert out <= r.value.out;
    }
  }

  // ---- whole streams ----

  ghost predicate AllValid(ops: seq<Op>) { forall i :: 0 <= i < |ops| ==> ops[i].Valid() }

  /** An instruction list and the end-of-stream marker, whose last seven bytes are ignored. */
  function EncodeStream(ops: seq<Op>, tail: seq<byte>): (s: seq<byte>)
    requires AllValid(ops) && |tail| == 7
    ensures |s| >= 8
  {
    if ops == [] then [0x06] + tail else ops[0].Encode() + EncodeStream(ops[1..], tail)
  }

  /** Decoding an encoded list does exactly what the list does, and raises exactly when it does. */
  lemma {:induction false} StreamRoundTrip(ops: seq<Op>, tail: seq<byte>, after: seq<byte>, o: Output, cap: nat)
    requires AllValid(ops) && |tail| == 7
    ensures Run(EncodeStream(ops, tail) + after, o, cap) ==
      (match PerformAll(ops, o, cap) case Raised => Raised case Ok(end) => Ok((end.out, after)))
    decreases |ops|
  {
    var s := EncodeStream(ops, tail) + after;
    if ops == [] {
      assert s[8..] == after;
    } else {
      var rest := EncodeStream(ops[1..], tail) + after;
      assert s == ops[0].Encode() + rest;
      ParseEncode(ops[0], rest);
      assert s[|ops[0].Encode()|..] == rest;
      var next := Perform(ops[0], o, cap);
      if next.Ok? {
        StreamRoundTrip(ops[1..], tail, after, next.value, cap);
      }
    }
  }

  /** One instruction of a run. */
  lemma RunOne(s: seq<byte>, o: Output, cap: nat)
    requires Run(s, o, cap).Ok? && Parse(s) != Ok(End)
    ensures Parse(s).Ok? && Parse(s).value.Item?
    ensures var item := Parse(s).value;
      && 0 < item.size < |s| && item.op.Valid() && item.op.Encode() == s[..item.size]
      && Perform(item.op, o, cap).Ok?
      && Run(s, o, cap) == Run(s[item.size..], Perform(item.op, o, cap).value, cap)
  {
    hide Perform, Parse, KindOf, Op.Valid, Op.Encode;
    EncodeParse(s);
  }

  lemma RunEnd(s: seq<byte>, o: Output, cap: nat)
    requires Parse(s) == Ok(End)
    ensures |s| >= 8 && s == EncodeStream([], s[1..8]) + s[8..] && Run(s, o, cap) == Ok((o.out, s[8..]))
  {
    hide Parse, KindOf;
    EndIs(s);
  }

  lemma StreamOne(op: Op, ops: seq<Op>, tail: seq<byte>, o: Output, cap: nat)
    requires op.Valid() && AllValid(ops) && |tail| == 7 && Perform(op, o, cap).Ok?
    ensures AllValid([op] + ops) && EncodeStream([op] + ops, tail) == op.Encode() + EncodeStream(ops, tail)
    ensures PerformAll([op] + ops, o, cap) == PerformAll(ops, Perform(op, o, cap).value, cap)
  {
    hide Perform, Op.Valid, Op.Encode;
    assert ([op] + ops)[1..] == ops;
  }

  lemma Joined(s: seq<byte>, size: nat, head: seq<byte>, more: seq<byte>, after: seq<byte>)
    requires size <= |s| && s[..size] == head && s[size..] == more + after
    ensures s == (head + more) + after
  {
    assert s == s[..size] + s[size..];
  }

  /** The list so far and what is left make up the stream, and do what the machine does. */
  ghost predicate Stands(s: seq<byte>, o: Output, cap: nat, ops: seq<Op>, tail: seq<byte>)
  {
    var run := Run(s, o, cap);
    && run.Ok? && AllValid(ops) && |tail| == 7 && s == EncodeStream(ops, tail) + run.value.1
    && PerformAll(ops, o, cap).Ok? && PerformAll(ops, o, cap).value.out == run.value.0
  }

  lemma StandsOne(s: seq<byte>, o: Output, cap: nat, more: seq<Op>, tail: seq<byte>)
    requires Run(s, o, cap).Ok? && Parse(s).Ok? && Parse(s).value.Item?
    requires var item := Parse(s).value;
      && 0 < item.size < |s| && item.op.Valid() && item.op.Encode() == s[..item.size] && Perform(item.op, o, cap).Ok?
      && Run(s, o, cap) == Run(s[item.size..], Perform(item.op, o, cap).value, cap)
      && Stands(s[item.size..], Perform(item.op, o, cap).value, cap, more, tail)
    ensures Stands(s, o, cap, [Parse(s).value.op] + more, tail)
  {
    hide Perform, Parse, Op.Valid, Op.Encode, Run, EncodeStream, PerformAll, AllValid;
    var item := Parse(s).value;
    StreamOne(item.op, more, tail, o, cap);
    Joined(s, item.size, item.op.Encode(), EncodeStream(more, tail), Run(s, o, cap).value.1);
  }

  /** Every stream the machine accepts is the encoding of an instruction list that does what the
      machine did. */
  lemma {:induction false} StreamParses(s: seq<byte>, o: Output, cap: nat) returns (ops: seq<Op>, tail: seq<byte>)
    requires Run(s, o, cap).Ok?
    ensures AllValid(ops) && |tail| == 7 && s == EncodeStream(ops, tail) + Run(s, o, cap).value.1
    ensures PerformAll(ops, o, cap).Ok? && PerformAll(ops, o, cap).value.out == Run(s, o, cap).value.0
    decreases |s|
  {
    hide Perform, Parse, Op.Valid, Op.Encode, Run, EncodeStream;
    if Parse(s) == Ok(End) {
      RunEnd(s, o, cap);
      ops, tail := [], s[1..8];
    } else {
      hide PerformAll, AllValid;
      RunOne(s, o, cap);
      var item := Parse(s).value;
      var more, t := StreamParses(s[item.size..], Perform(item.op, o, cap).value, cap);
      StandsOne(s, o, cap, more, t);
      ops, tail := [item.op] + more, t;
    }
  }

  lemma EndIs(s: seq<byte>)
    requires Parse(s) == Ok(End)
    ensures |s| >= 8 && s[0] == 0x06
  {
  }

  // ---- the loop ----

  /** What an opcode's branch hands on: the offset after it, the distance, and the match to copy. */
  datatype Branch = Branch(pos: nat, dist: nat, length: nat)

  /** A branch did the first half of the instruction at `src[pos..n]`. */
  ghost predicate Begun(src: seq<byte>, pos: nat, n: nat, o: Output, cap: nat, r: Result<Branch>, out: seq<byte>)
    requires pos <= n <= |src|
  {
    var p := Parse(src[pos..n]);
    if r.Raised? then
      p.Raised? || (p.value.Item? && Begin(p.value.op, o, cap).Raised?)
    else
      && p.Ok? && p.value.Item? && r.value.pos == pos + p.value.size && r.value.length == p.value.op.Length()
      && Begin(p.value.op, o, cap) == Ok(Output(r.value.dist, out))
  }

  /** The length and distance such an opcode gives, from an instruction that is all there. */
  predicate DistanceFields(s: seq<byte>, length: nat, dist0: nat, dist: nat)
    requires s != [] && (KindOf(s[0]).KindPreD? || |s| > 2)
  {
    match KindOf(s[0])
    case KindSmlD => length == Mid3(s[0]) + 3 && dist == Low3(s[0]) * 256 + s[1] as int
    case KindMedD => length == Low3(s[0]) * 4 + Word(s, 1) % 4 + 3 && dist == Word(s, 1) / 4
    case KindLrgD => length == Mid3(s[0]) + 3 && dist == Word(s, 1)
    case _ => length == Mid3(s[0]) + 3 && dist == dist0
  }

  /** What the fields of such an opcode parse to. */
  lemma DistanceParsed(s: seq<byte>, lit: nat, oplen: nat, length: nat, dist0: nat, dist: nat)
    requires s != [] && KindOf(s[0]) in {KindSmlD, KindMedD, KindLrgD, KindPreD}
    requires lit == if KindOf(s[0]).KindMedD? then s[0] / 8 % 4 else Top2(s[0])
    requires oplen == if KindOf(s[0]).KindSmlD? then 2 else if KindOf(s[0]).KindPreD? then 1 else 3
    ensures |s| <= oplen + lit ==> Parse(s).Raised?
    ensures |s| > oplen + lit && DistanceFields(s, length, dist0, dist) ==>
      var p := Parse(s);
      && p.Ok? && p.value.Item? && p.value.size == oplen + lit && p.value.op.Length() == length
      && p.value.op.Literals() == s[oplen..oplen + lit] && p.value.op.Distance(dist0) == dist && !p.value.op.Nop?
  {
    hide KindOf, Top2, Mid3, Low3, Word;
  }

  /** What the branch below hands on, once it has its fields. */
  lemma DistanceDone(src: seq<byte>, pos: nat, n: nat, lit: nat, oplen: nat, length: nat, dist0: nat, dist: nat,
                     before: seq<byte>, cap: nat)
    requires pos < n <= |src| && KindOf(src[pos]) in {KindSmlD, KindMedD, KindLrgD, KindPreD}
    requires lit == if KindOf(src[pos]).KindMedD? then src[pos] / 8 % 4 else Top2(src[pos])
    requires oplen == if KindOf(src[pos]).KindSmlD? then 2 else if KindOf(src[pos]).KindPreD? then 1 else 3
    requires oplen + lit < n - pos && DistanceFields(src[pos..n], length, dist0, dist)
    ensures
      var fits := |before| + lit + length <= cap;
      Begun(src, pos, n, Output(dist0, before), cap,
            if fits then Ok(Branch(pos + oplen + lit, dist, length)) else Raised,
            if fits then before + src[pos + oplen..pos + oplen + lit] else before)
  {
    hide KindOf, Top2, Mid3, Low3, Parse, Op.Length, Op.Literals, Op.Distance, DistanceFields;
    DistanceParsed(src[pos..n], lit, oplen, length, dist0, dist);
    SliceSlice(src, pos, n, oplen, oplen + lit);
  }

  lemma DistanceShort(src: seq<byte>, pos: nat, n: nat, lit: nat, oplen: nat, dist0: nat, before: seq<byte>, cap: nat)
    requires pos < n <= |src| && KindOf(src[pos]) in {KindSmlD, KindMedD, KindLrgD, KindPreD}
    requires lit == if KindOf(src[pos]).KindMedD? then src[pos] / 8 % 4 else Top2(src[pos])
    requires oplen == if KindOf(src[pos]).KindSmlD? then 2 else if KindOf(src[pos]).KindPreD? then 1 else 3
    requires oplen + lit >= n - pos
    ensures Begun(src, pos, n, Output(dist0, before), cap, Raised, before)
  {
    hide KindOf, Top2, Mid3, Low3, Parse;
    DistanceParsed(src[pos..n], lit, oplen, 0, dist0, dist0);
  }

  /** The branch of the opcodes that set or keep a distance. */
  method DistanceBranch(src: seq<byte>, pos0: nat, n: nat, kind: Kind, dist0: nat, out: ByteArray, cap: nat)
    returns (r: Result<Branch>)
    requires pos0 < n <= |src| && kind == KindOf(src[pos0]) && kind in {KindSmlD, KindMedD, KindLrgD, KindPreD}
    modifies out
    ensures Begun(src, pos0, n, Output(dist0, old(out.data)), cap, r, out.data)
    ensures old(out.data) <= out.data
    ensures if r.Raised? then out.data == old(out.data) else |out.data| + r.value.length <= cap
  {
    hide KindOf, Top2, Mid3, Low3, Begun;
    var pos, dist, opc := pos0, dist0, src[pos0];
    ghost var before := out.data;
    var lit, length, oplen := 0, 0, 0;
    if kind.KindSmlD? {
      lit, length, oplen := Top2(opc), Mid3(opc) + 3, 2;
    } else if kind.KindMedD? {
      lit, oplen := opc / 8 % 4, 3;
    } else if kind.KindLrgD? {
      lit, length, oplen := Top2(opc), Mid3(opc) + 3, 3;
    } else {
      lit, length, oplen := Top2(opc), Mid3(opc) + 3, 1;
    }
    if n - pos <= oplen + lit {
      DistanceShort(src, pos, n, lit, oplen, dist0, before, cap);
      return Raised;
    }
    if kind.KindSmlD? {
      dist := Low3(opc) * 256 + src[pos + 1] as int;
    } else if kind.KindMedD? {
      var word := Word(src, pos + 1);
      length := Low3(opc) * 4 + word % 4 + 3;
      dist := word / 4;
    } else if kind.KindLrgD? {
      dist := Word(src, pos + 1);
    }
    DistanceDone(src, pos, n, lit, oplen, length, dist0, dist, before, cap);
    pos := pos + oplen;
    if |out.data| + lit + length > cap {
      return Raised;
    }
    if lit != 0 {
      out.data := out.data + src[pos..pos + lit];
      pos := pos + lit;
    }
    assert out.data == before + src[pos0 + oplen..pos0 + oplen + lit];
    r := Ok(Branch(pos, dist, length));
  }

  /** The branch of the match-only opcodes. */
  method MatchBranch(src: seq<byte>, pos: nat, n: nat, kind: Kind, dist: nat, out: ByteArray, cap: nat)
    returns (r: Result<Branch>)
    requires pos < n <= |src| && kind == KindOf(src[pos]) && kind in {KindSmlM, KindLrgM}
    ensures Begun(src, pos, n, Output(dist, out.data), cap, r, out.data)
    ensures r.Ok? ==> |out.data| + r.value.length <= cap
  {
    var opc := src[pos];
    ghost var s := src[pos..n];
    assert s[0] == opc && |s| == n - pos;
    var oplen := if kind.KindSmlM? then 1 else 2;
    if n - pos <= oplen {
      return Raised;
    }
    var length := if kind.KindSmlM? then opc % 16 else src[pos + 1] as int + 16;
    if |out.data| + length > cap {
      return Raised;
    }
    assert out.data + [] == out.data;
    r := Ok(Branch(pos + oplen, dist, length));
  }

  /** The branch of the literal-only opcodes. */
  method LiteralBranch(src: seq<byte>, pos: nat, n: nat, kind: Kind, dist: nat, out: ByteArray, cap: nat)
    returns (r: Result<Branch>)
    requires pos < n <= |src| && kind == KindOf(src[pos]) && kind in {KindSmlL, KindLrgL}
    modifies out
    ensures Begun(src, pos, n, Output(dist, old(out.data)), cap, r, out.data)
    ensures old(out.data) <= out.data
    ensures if r.Raised? then out.data == old(out.data) else |out.data| + r.value.length <= cap
  {
    var opc := src[pos];
    ghost var s := src[pos..n];
    assert s[0] == opc && |s| == n - pos;
    var lit, oplen: nat := opc % 16, 1;
    if kind.KindLrgL? {
      if n - pos <= 2 {
        return Raised;
      }
      lit, oplen := src[pos + 1] as int + 16, 2;
    }
    if n - pos <= oplen + lit {
      return Raised;
    }
    if |out.data| + lit > cap {
      return Raised;
    }
    SliceSlice(src, pos, n, oplen, oplen + lit);
    out.data := out.data + src[pos + oplen..pos + oplen + lit];
    r := Ok(Branch(pos + oplen + lit, dist, 0));
  }

  /** What one opcode makes of the rest of the run. */
  lemma RunStep(src: seq<byte>, pos: nat, n: nat, o: Output, cap: nat)
    requires pos < n <= |src|
    ensures var p := Parse(src[pos..n]);
      && (p.Raised? ==> Run(src[pos..n], o, cap).Raised?)
      && (p.Ok? && p.value.Item? ==>
            && pos < pos + p.value.size < n
            && var begun := Begin(p.value.op, o, cap);
            && (begun.Raised? ==> Run(src[pos..n], o, cap).Raised?)
            && (begun.Ok? ==>
                  var next := Finish(p.value.op.Length(), begun.value);
                  && (next.Raised? ==> Run(src[pos..n], o, cap).Raised?)
                  && (next.Ok? ==> Run(src[pos..n], o, cap) == Run(src[pos + p.value.size..n], next.value, cap))))
  {
    hide Begin, Finish, Parse;
    var s := src[pos..n];
    var p := Parse(s);
    if p.Ok? && p.value.Item? {
      EncodeParse(s);
      assert s[p.value.size..] == src[pos + p.value.size..n];
    }
  }

  /** The branches of all opcodes but the end-of-stream marker. */
  method Dispatch(src: seq<byte>, pos: nat, n: nat, kind: Kind, dist: nat, out: ByteArray, cap: nat)
    returns (r: Result<Branch>)
    requires pos < n <= |src| && kind == KindOf(src[pos]) && !kind.KindEos? && |out.data| <= cap
    modifies out
    ensures Begun(src, pos, n, Output(dist, old(out.data)), cap, r, out.data)
    ensures old(out.data) <= out.data
    ensures if r.Raised? then out.data == old(out.data) else |out.data| + r.value.length <= cap
  {
    hide KindOf, Parse, Begun;
    if kind.KindSmlD? || kind.KindMedD? || kind.KindLrgD? || kind.KindPreD? {
      r := DistanceBranch(src, pos, n, kind, dist, out, cap);
    } else if kind.KindSmlM? || kind.KindLrgM? {
      r := MatchBranch(src, pos, n, kind, dist, out, cap);
    } else if kind.KindSmlL? || kind.KindLrgL? {
      r := LiteralBranch(src, pos, n, kind, dist, out, cap);
    } else if kind.KindNop? {
      NopIs(src, pos, n, Output(dist, out.data), cap);
      r := if n - pos <= 1 then Raised else Ok(Branch(pos + 1, dist, 0));
    } else {
      UdefIs(src, pos, n, Output(dist, out.data), cap);
      r := Raised;
    }
  }

  /** What a run makes of a branch. */
  lemma RunBranch(src: seq<byte>, pos: nat, n: nat, o: Output, cap: nat, r: Result<Branch>, out: seq<byte>)
    requires pos < n <= |src| && Begun(src, pos, n, o, cap, r, out)
    ensures r.Raised? ==> Run(src[pos..n], o, cap).Raised?
    ensures r.Ok? ==>
      var next, length := Output(r.value.dist, out), r.value.length;
      && pos < r.value.pos < n
      && (length == 0 ==> Run(src[pos..n], o, cap) == Run(src[r.value.pos..n], next, cap))
      && (length != 0 && (next.dist == 0 || next.dist > |out|) ==> Run(src[pos..n], o, cap).Raised?)
      && (length != 0 && 0 < next.dist <= |out| ==>
            Run(src[pos..n], o, cap)
            == Run(src[r.value.pos..n], Output(next.dist, CopyBytes(out, next.dist, length)), cap))
  {
    hide Begin, Finish, Parse, Run, CopyBytes;
    RunStep(src, pos, n, o, cap);
    if r.Ok? {
      FinishIs(r.value.length, Output(r.value.dist, out));
    }
  }

  /** `lzvn_decompress`: the machine over `src[start..end]`, appending to `out`; the result is the
      offset past the marker. */
  method LzvnDecompress(src: seq<byte>, limit: nat, out: ByteArray, start: nat, end: nat) returns (r: Result<nat>)
    requires start <= end <= |src|
    modifies out
    ensures old(out.data) <= out.data && |out.data| <= |old(out.data)| + limit
    ensures var run := Run(src[start..end], Output(0, old(out.data)), |old(out.data)| + limit);
      && (r.Ok? <==> run.Ok?)
      && (r.Ok? ==> out.data == run.value.0 && r.value == end - |run.value.1|)
  {
    hide Begun, KindOf, Run, CopyBytes, Parse;
    var kindOf := LzvnKinds();
    var n := end;
    var pos, cap := start, |out.data| + limit;
    var dist: nat := 0;
    ghost var run := Run(src[start..end], Output(0, out.data), cap);
    while true
      invariant start <= pos <= n && old(out.data) <= out.data && |out.data| <= cap
      invariant run == Run(src[pos..n], Output(dist, out.data), cap)
      decreases n - pos
    {
      if pos >= n {
        RunNothing(Output(dist, out.data), cap);
        return Raised;
      }
      ghost var before := Output(dist, out.data);
      var kind := kindOf[src[pos]];
      if kind.KindEos? {
        EosIs(src, pos, n, before, cap);
        return if n - pos < 8 then Raised else Ok(pos + 8);
      }
      var branch := Dispatch(src, pos, n, kind, dist, out, cap);
      RunBranch(src, pos, n, before, cap, branch, out.data);
      if branch.Raised? {
        return Raised;
      }
      pos, dist := branch.value.pos, branch.value.dist;
      if branch.value.length != 0 {
        if dist == 0 || dist > |out.data| {
          return Raised;
        }
        var copied := CopyMatch(out, dist, branch.value.length);
        if copied.Raised? {
          assert false;
        }
      }
    }
  }

  lemma FinishIs(length: nat, o: Output)
    ensures length == 0 ==> Finish(length, o) == Ok(o)
    ensures length != 0 && (o.dist == 0 || o.dist > |o.out|) ==> Finish(length, o) == Raised
    ensures length != 0 && 0 < o.dist <= |o.out| ==>
      Finish(length, o) == Ok(Output(o.dist, CopyBytes(o.out, o.dist, length)))
  {
  }

  lemma RunNothing(o: Output, cap: nat)
    ensures Run([], o, cap) == Raised
  {
  }

  lemma NopIs(src: seq<byte>, pos: nat, n: nat, o: Output, cap: nat)
    requires pos < n <= |src| && KindOf(src[pos]) == KindNop
    ensures Begun(src, pos, n, o, cap, if n - pos <= 1 then Raised else Ok(Branch(pos + 1, o.dist, 0)), o.out)
  {
    assert src[pos..n][0] == src[pos] && o.out + [] == o.out;
  }

  lemma EosIs(src: seq<byte>, pos: nat, n: nat, o: Output, cap: nat)
    requires pos < n <= |src| && KindOf(src[pos]) == KindEos
    ensures Run(src[pos..n], o, cap) == if n - pos < 8 then Raised else Ok((o.out, src[pos + 8..n]))
  {
    assert src[pos..n][0] == src[pos];
    if n - pos >= 8 {
      assert src[pos..n][8..] == src[pos + 8..n];
    }
  }

  lemma UdefIs(src: seq<byte>, pos: nat, n: nat, o: Output, cap: nat)
    requires pos < n <= |src| && KindOf(src[pos]) == KindUdef
    ensures Begun(src, pos, n, o, cap, Raised, o.out)
  {
    assert src[pos..n][0] == src[pos];
  }
}
