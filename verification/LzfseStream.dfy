/** An LZFSE stream (`lzfse_decompress`): raw, LZVN and compressed blocks up to the end marker. */
module LzfseStream {
  import opened Bits
  import opened Prelude
  import opened Struct
  import opened LzfseHeader
  import opened LzfseBlock
  import opened LzfseEncode
  import Lzvn
  import M = LzfseMatches

  const MAGIC_END: seq<byte> := [0x62, 0x76, 0x78, 0x24]
  const MAGIC_RAW: seq<byte> := [0x62, 0x76, 0x78, 0x2D]
  const MAGIC_LZVN: seq<byte> := [0x62, 0x76, 0x78, 0x6E]

  const U32: seq<nat> := [4]
  const U32_U32: seq<nat> := [4, 4]

  lemma U32Widths()
    ensures Width(U32) == 4 && Width(U32_U32) == 8
  {
    WidthsOf3(4, 4, 4);
  }

  // ---- one block ----

  function RawBlock(src: seq<byte>, pos: nat, out: seq<byte>, limit: nat): (r: Result<(seq<byte>, nat)>)
    requires pos + 4 <= |src|
    ensures r.Ok? ==> out <= r.value.0 && |r.value.0| <= limit && pos < r.value.1 <= |src|
  {
    if pos + 8 > |src| then Raised
    else
      U32Widths();
      var raw := Unpack(src[pos + 4..], U32)[0];
      if pos + 8 + raw > |src| || |out| + raw > limit then Raised
      else Ok((out + src[pos + 8..pos + 8 + raw], pos + 8 + raw))
  }

  function LzvnBlock(src: seq<byte>, pos: nat, out: seq<byte>, limit: nat): (r: Result<(seq<byte>, nat)>)
    requires pos + 4 <= |src|
    ensures r.Ok? ==> out <= r.value.0 && |r.value.0| <= limit && pos < r.value.1 <= |src|
  {
    if pos + 12 > |src| then Raised
    else
      U32Widths();
      var f := Unpack(src[pos + 4..], U32_U32);
      var end := pos + 12 + f[1];
      if end > |src| || |out| + f[0] > limit then Raised
      else
        var run := Lzvn.Run(src[pos + 12..end], Lzvn.Output(0, out), |out| + f[0]);
        if run.Raised? || run.value.1 != [] || |run.value.0| - |out| != f[0] then Raised
        else Ok((run.value.0, end))
  }

  function OneBlock(src: seq<byte>, pos: nat, out: seq<byte>, limit: nat): (r: Result<(seq<byte>, nat)>)
    requires pos + 4 <= |src|
    ensures r.Ok? ==> out <= r.value.0 && |r.value.0| <= limit && pos < r.value.1 <= |src|
  {
    var magic := src[pos..pos + 4];
    if magic == MAGIC_RAW then RawBlock(src, pos, out, limit)
    else if magic == MAGIC_LZVN then LzvnBlock(src, pos, out, limit)
    else if magic == MAGIC_V1 || magic == MAGIC_V2 then
      Block(src, pos, out, limit, magic == MAGIC_V2)
    else Raised
  }

  /** Blocks up to the end marker; what follows it is not read. */
  function Decompress(src: seq<byte>, pos: nat, out: seq<byte>, limit: nat): (r: Result<seq<byte>>)
    requires pos <= |src|
    ensures r.Ok? ==> out <= r.value && |r.value| <= Max(|out|, limit)
    decreases |src| - pos
  {
    if pos + 4 > |src| then Raised
    else if src[pos..pos + 4] == MAGIC_END then Ok(out)
    else
      var block := OneBlock(src, pos, out, limit);
      if block.Raised? then Raised else Decompress(src, block.value.1, block.value.0, limit)
  }

  /** One turn at a block that is not the end marker. */
  lemma DecompressStep(src: seq<byte>, pos: nat, out: seq<byte>, limit: nat)
    requires pos + 4 <= |src| && src[pos..pos + 4] != MAGIC_END
    ensures Decompress(src, pos, out, limit) ==
      var block := OneBlock(src, pos, out, limit);
      if block.Raised? then Raised else Decompress(src, block.value.1, block.value.0, limit)
  {
    hide OneBlock;
  }

  method DecodeRaw(src: seq<byte>, pos: nat, out: ByteArray, limit: nat) returns (r: Result<nat>)
    requires pos + 4 <= |src|
    modifies out
    ensures RawBlock(src, pos, old(out.data), limit) == if r.Ok? then Ok((out.data, r.value)) else Raised
  {
    if pos + 8 > |src| {
      return Raised;
    }
    U32Widths();
    var raw := Unpack(src[pos + 4..], U32)[0];
    if pos + 8 + raw > |src| {
      return Raised;
    }
    if |out.data| + raw > limit {
      return Raised;
    }
    out.data := out.data + src[pos + 8..pos + 8 + raw];
    r := Ok(pos + 8 + raw);
  }

  method DecodeLzvn(src: seq<byte>, pos0: nat, out: ByteArray, limit: nat) returns (r: Result<nat>)
    requires pos0 + 4 <= |src|
    modifies out
    ensures LzvnBlock(src, pos0, old(out.data), limit) == if r.Ok? then Ok((out.data, r.value)) else Raised
  {
    hide Lzvn.Run;
    if pos0 + 12 > |src| {
      return Raised;
    }
    U32Widths();
    var f := Unpack(src[pos0 + 4..], U32_U32);
    var raw, payload, pos := f[0], f[1], pos0 + 12;
    if pos + payload > |src| {
      return Raised;
    }
    if |out.data| + raw > limit {
      return Raised;
    }
    var before := |out.data|;
    var after := Lzvn.LzvnDecompress(src, raw, out, pos, pos + payload);
    if after.Raised? {
      return Raised;
    }
    if after.value != pos + payload || |out.data| - before != raw {
      return Raised;
    }
    r := Ok(after.value);
  }

  method LzfseDecompress(src: seq<byte>, limit: nat) returns (r: Result<seq<byte>>)
    ensures r == Decompress(src, 0, [], limit)
  {
    hide Block, RawBlock, LzvnBlock, Decompress;
    var out := new ByteArray([]);
    var pos, n := 0, |src|;
    while true
      invariant pos <= n
      invariant Decompress(src, 0, [], limit) == Decompress(src, pos, out.data, limit)
      decreases n - pos
    {
      if pos + 4 > n {
        CutShort(src, pos, out.data, limit);
        return Raised;
      }
      var magic := src[pos..pos + 4];
      if magic == MAGIC_END {
        CutShort(src, pos, out.data, limit);
        return Ok(out.data);
      }
      DecompressStep(src, pos, out.data, limit);
      var after;
      if magic == MAGIC_RAW {
        after := DecodeRaw(src, pos, out, limit);
      } else if magic == MAGIC_LZVN {
        after := DecodeLzvn(src, pos, out, limit);
      } else if magic == MAGIC_V1 || magic == MAGIC_V2 {
        after := DecodeBlock(src, pos, out, limit, magic == MAGIC_V2);
      } else {
        return Raised;
      }
      if after.Raised? {
        return Raised;
      }
      pos := after.value;
    }
  }

  lemma CutShort(src: seq<byte>, pos: nat, out: seq<byte>, limit: nat)
    requires pos <= |src|
    ensures pos + 4 > |src| ==> Decompress(src, pos, out, limit) == Raised
    ensures pos + 4 <= |src| && src[pos..pos + 4] == MAGIC_END ==> Decompress(src, pos, out, limit) == Ok(out)
  {
    hide OneBlock;
  }

  // ---- whole streams ----

  /** A block to encode: raw bytes, a list of LZVN instructions, or compressed content under either
      header. */
  datatype Piece =
    | RawPiece(bytes: seq<byte>)
    | LzvnPiece(ops: seq<Lzvn.Op>, tail: seq<byte>)
    | LzfsePiece(content: Content, v2: bool)
  {
    ghost predicate Valid()
    {
      match this
      case RawPiece(bytes) => |bytes| < Pow2(32)
      case LzvnPiece(ops, tail) =>
        && Lzvn.AllValid(ops) && |tail| == 7
        && OpsLength(ops) < Pow2(32) && |Lzvn.EncodeStream(ops, tail)| < Pow2(32)
      case LzfsePiece(content, _) => content.Valid()
    }

    ghost function Encode(): seq<byte>
      requires Valid()
    {
      match this
      case RawPiece(bytes) => MAGIC_RAW + Pack([|bytes|], U32) + bytes
      case LzvnPiece(ops, tail) =>
        MAGIC_LZVN + Pack([OpsLength(ops), |Lzvn.EncodeStream(ops, tail)|], U32_U32) + Lzvn.EncodeStream(ops, tail)
      case LzfsePiece(content, v2) => EncodeBlock(content, v2)
    }

    /** What the block adds to the output, or that it cannot be performed within the limit. */
    function Meaning(out: seq<byte>, limit: nat): (r: Result<seq<byte>>)
    {
      match this
      case RawPiece(bytes) => if |out| + |bytes| > limit then Raised else Ok(out + bytes)
      case LzvnPiece(ops, _) =>
        if |out| + OpsLength(ops) > limit then Raised
        else
          var o := Lzvn.PerformAll(ops, Lzvn.Output(0, out), |out| + OpsLength(ops));
          if o.Raised? then Raised else Ok(o.value.out)
      case LzfsePiece(content, _) =>
        var o := M.Execute(content.matches, content.lits, M.Output(0, -1, out), limit);
        if o.Raised? then Raised else Ok(o.value.out)
    }
  }

  /** How many bytes a list of LZVN instructions writes. */
  function OpsLength(ops: seq<Lzvn.Op>): nat
  {
    if ops == [] then 0 else |ops[0].Literals()| + ops[0].Length() + OpsLength(ops[1..])
  }

  lemma {:induction false} PerformAllWrites(ops: seq<Lzvn.Op>, o: Lzvn.Output, cap: nat)
    ensures var r := Lzvn.PerformAll(ops, o, cap);
      r.Ok? ==> |r.value.out| == |o.out| + OpsLength(ops)
    decreases |ops|
  {
    if ops != [] {
      var next := Lzvn.Perform(ops[0], o, cap);
      if next.Ok? {
        PerformAllWrites(ops[1..], next.value, cap);
      }
    }
  }

  lemma RawRoundTrip(pre: seq<byte>, bytes: seq<byte>, post: seq<byte>, out: seq<byte>, limit: nat)
    requires |bytes| < Pow2(32)
    ensures var e := MAGIC_RAW + Pack([|bytes|], U32) + bytes;
      RawBlock(pre + e + post, |pre|, out, limit) ==
        if |out| + |bytes| > limit then Raised else Ok((out + bytes, |pre| + |e|))
  {
    hide Pow2, Unpack, Pack, Width;
    U32Widths();
    var e := MAGIC_RAW + Pack([|bytes|], U32) + bytes;
    var src := pre + e + post;
    assert src[|pre| + 4..] == Pack([|bytes|], U32) + (bytes + post);
    assert Fits([|bytes|], U32);
    UnpackPack([|bytes|], U32, bytes + post);
    assert src[|pre| + 8..|pre| + 8 + |bytes|] == bytes;
  }

  lemma LzvnRoundTrip(pre: seq<byte>, ops: seq<Lzvn.Op>, tail: seq<byte>, post: seq<byte>, out: seq<byte>, limit: nat)
    requires LzvnPiece(ops, tail).Valid()
    ensures LzvnBlock(pre + LzvnPiece(ops, tail).Encode() + post, |pre|, out, limit) ==
      match LzvnPiece(ops, tail).Meaning(out, limit)
      case Raised => Raised
      case Ok(o) => Ok((o, |pre| + |LzvnPiece(ops, tail).Encode()|))
  {
    hide Pow2, Unpack, Pack, Width, Lzvn.Run, Lzvn.PerformAll, Lzvn.EncodeStream, OpsLength, Lzvn.AllValid;
    U32Widths();
    var body := Lzvn.EncodeStream(ops, tail);
    var raw := OpsLength(ops);
    var src := pre + LzvnPiece(ops, tail).Encode() + post;
    assert src[|pre| + 4..] == Pack([raw, |body|], U32_U32) + (body + post);
    assert Fits([raw, |body|], U32_U32);
    UnpackPack([raw, |body|], U32_U32, body + post);
    assert src[|pre| + 12..|pre| + 12 + |body|] == body;
    Lzvn.StreamRoundTrip(ops, tail, [], Lzvn.Output(0, out), |out| + raw);
    assert body + [] == body;
    PerformAllWrites(ops, Lzvn.Output(0, out), |out| + raw);
  }

  lemma BlockMagic(c: Content, v2: bool)
    requires c.Valid()
    ensures |EncodeBlock(c, v2)| >= 4 && EncodeBlock(c, v2)[..4] == if v2 then MAGIC_V2 else MAGIC_V1
  {
    hide HeadBytes, Bytes, LitCode, LmdCode, Content.Valid, Content.Coded;
    ValidCoded(c);
    assert EncodeBlock(c, v2)[..4] == HeadBytes(c, v2)[..4];
  }

  lemma MagicOf(p: Piece)
    requires p.Valid()
    ensures |p.Encode()| >= 4 && p.Encode()[..4] == Magic(p) != MAGIC_END
  {
    hide Pack, Pow2, Lzvn.EncodeStream, OpsLength, EncodeBlock;
    if p.LzfsePiece? {
      BlockMagic(p.content, p.v2);
    }
  }

  function Magic(p: Piece): seq<byte>
  {
    match p
    case RawPiece(_) => MAGIC_RAW
    case LzvnPiece(_, _) => MAGIC_LZVN
    case LzfsePiece(_, v2) => if v2 then MAGIC_V2 else MAGIC_V1
  }

  lemma PieceRoundTrip(pre: seq<byte>, p: Piece, post: seq<byte>, out: seq<byte>, limit: nat)
    requires p.Valid() && |out| <= limit
    ensures |p.Encode()| >= 4
    ensures OneBlock(pre + p.Encode() + post, |pre|, out, limit) ==
      match p.Meaning(out, limit) case Raised => Raised case Ok(o) => Ok((o, |pre| + |p.Encode()|))
  {
    hide RawBlock, LzvnBlock, Block, EncodeBlock, Pack, M.Execute, Lzvn.EncodeStream, Pow2, Content.Valid,
      Lzvn.PerformAll, OpsLength, Lzvn.AllValid;
    var src := pre + p.Encode() + post;
    MagicOf(p);
    assert src[|pre|..|pre| + 4] == p.Encode()[..4];
    match p
    case RawPiece(bytes) => RawRoundTrip(pre, bytes, post, out, limit);
    case LzvnPiece(ops, tail) => LzvnRoundTrip(pre, ops, tail, post, out, limit);
    case LzfsePiece(content, v2) => BlockRoundTrip(pre, content, v2, post, out, limit);
  }

  ghost predicate AllValid(ps: seq<Piece>) { forall i :: 0 <= i < |ps| ==> ps[i].Valid() }

  ghost function EncodeAll(ps: seq<Piece>): seq<byte>
    requires AllValid(ps)
  {
    if ps == [] then [] else ps[0].Encode() + EncodeAll(ps[1..])
  }

  function MeaningAll(ps: seq<Piece>, out: seq<byte>, limit: nat): Result<seq<byte>>
    decreases |ps|
  {
    if ps == [] then Ok(out)
    else
      var next := ps[0].Meaning(out, limit);
      if next.Raised? then Raised else MeaningAll(ps[1..], next.value, limit)
  }

  /** Decompressing from an encoded block goes on after it with what it means. */
  lemma PieceStep(pre: seq<byte>, p: Piece, rest: seq<byte>, out: seq<byte>, limit: nat)
    requires p.Valid() && |out| <= limit
    ensures var src, next := pre + p.Encode() + rest, p.Meaning(out, limit);
      Decompress(src, |pre|, out, limit) ==
        if next.Raised? then Raised else Decompress(src, |pre + p.Encode()|, next.value, limit)
    ensures p.Meaning(out, limit).Ok? ==> |p.Meaning(out, limit).value| <= limit
  {
    hide OneBlock, Decompress, Piece.Encode, Piece.Meaning, Piece.Valid, Magic;
    var src := pre + p.Encode() + rest;
    PieceRoundTrip(pre, p, rest, out, limit);
    MagicOf(p);
    assert src[|pre|..|pre| + 4] == p.Encode()[..4];
    DecompressStep(src, |pre|, out, limit);
    if p.Meaning(out, limit).Ok? {
      OneBlockBound(src, |pre|, out, limit);
    }
  }

  /** A stream of encoded blocks and the end marker decompresses to what its blocks mean in turn, and
      raises exactly when one of them does. */
  lemma {:induction false} StreamRoundTrip(pre: seq<byte>, ps: seq<Piece>, post: seq<byte>, out: seq<byte>, limit: nat)
    requires AllValid(ps) && |out| <= limit
    ensures Decompress(pre + EncodeAll(ps) + MAGIC_END + post, |pre|, out, limit) == MeaningAll(ps, out, limit)
    decreases |ps|
  {
    hide Decompress, Piece.Encode, Piece.Meaning, Piece.Valid;
    var src := pre + EncodeAll(ps) + MAGIC_END + post;
    if ps == [] {
      assert src[|pre|..|pre| + 4] == MAGIC_END;
      CutShort(src, |pre|, out, limit);
    } else {
      var rest := EncodeAll(ps[1..]) + MAGIC_END + post;
      assert src == pre + ps[0].Encode() + rest;
      PieceStep(pre, ps[0], rest, out, limit);
      var next := ps[0].Meaning(out, limit);
      if next.Ok? {
        StreamRoundTrip(pre + ps[0].Encode(), ps[1..], post, next.value, limit);
        assert src == (pre + ps[0].Encode()) + EncodeAll(ps[1..]) + MAGIC_END + post;
      }
    }
  }

  lemma OneBlockBound(src: seq<byte>, pos: nat, out: seq<byte>, limit: nat)
    requires pos + 4 <= |src| && OneBlock(src, pos, out, limit).Ok?
    ensures |OneBlock(src, pos, out, limit).value.0| <= limit
  {
  }
}
