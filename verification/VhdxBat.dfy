/** The arithmetic of a VHDX block allocation table (section 2.5 of [MS-VHDX]): payload entries, a
    sector bitmap entry after each `ratio` of them. */
module VhdxBat {
  import opened Bits
  import opened Division

  const PER_CHUNK: nat := 0x800000        // sectors one bitmap block describes, 2^23
  const MIN_BLOCK: nat := 0x100000
  const MAX_BLOCK: nat := 0x10000000

  /** A number with one bit set. */
  predicate PowerOfTwo(n: nat) { n > 0 && n == Pow2(BitLength(n) - 1) }

  /** The block and sector sizes the reader accepts. */
  predicate Sizes(block: nat, logical: nat)
  {
    PowerOfTwo(block) && MIN_BLOCK <= block <= MAX_BLOCK && (logical == 512 || logical == 4096)
  }

  function Ratio(block: nat, logical: nat): nat
    requires block > 0
  {
    Div(PER_CHUNK * logical, block)
  }

  lemma LargePowers()
    ensures Pow2(20) == 0x100000 && Pow2(21) == 0x200000 && Pow2(22) == 0x400000 && Pow2(23) == 0x800000
    ensures Pow2(24) == 0x1000000 && Pow2(25) == 0x2000000 && Pow2(26) == 0x4000000 && Pow2(27) == 0x8000000
    ensures Pow2(28) == 0x10000000
  {
    Pow2Small();
    assert Pow2(18) == 4 * Pow2(16);
    assert Pow2(20) == 4 * Pow2(18);
    assert Pow2(22) == 4 * Pow2(20);
    assert Pow2(24) == 4 * Pow2(22);
    assert Pow2(26) == 4 * Pow2(24);
    assert Pow2(28) == 4 * Pow2(26);
  }

  lemma BlockIs(block: nat)
    requires PowerOfTwo(block) && MIN_BLOCK <= block <= MAX_BLOCK
    ensures block in {0x100000, 0x200000, 0x400000, 0x800000, 0x1000000, 0x2000000, 0x4000000, 0x8000000, 0x10000000}
  {
    hide Pow2, BitLength;
    var k := BitLength(block) - 1;
    LargePowers();
    if k < 20 {
      Pow2Mono(k + 1, 20);
      Below(k);
    } else if k > 28 {
      Pow2Mono(29, k);
      Above();
    }
  }

  /** The division that gives the ratio leaves no remainder. */
  lemma RatioExact(block: nat, logical: nat)
    requires Sizes(block, logical)
    ensures Ratio(block, logical) > 0 && Ratio(block, logical) * block == PER_CHUNK * logical
    ensures block % MIN_BLOCK == 0 && block % logical == 0
  {
    hide Pow2, BitLength, PowerOfTwo, Div;
    BlockIs(block);
    DivIsQuotient(PER_CHUNK * logical, block);
  }

  lemma Below(k: nat)
    ensures Pow2(k + 1) == 2 * Pow2(k)
  {
  }

  lemma Above()
    ensures Pow2(29) == 2 * Pow2(28)
  {
  }

  // ---- indices ----

  function PayloadIndex(ratio: nat, i: nat): nat
    requires ratio > 0
  {
    i + Div(i, ratio)
  }

  function BitmapIndex(ratio: nat, c: nat): nat { c * (ratio + 1) + ratio }

  lemma PayloadRow(ratio: nat, i: nat)
    requires ratio > 0
    ensures PayloadIndex(ratio, i) == Div(i, ratio) * (ratio + 1) + Mod(i, ratio)
    ensures Div(PayloadIndex(ratio, i), ratio + 1) == Div(i, ratio)
    ensures Mod(PayloadIndex(ratio, i), ratio + 1) == Mod(i, ratio)
  {
    hide Div, Mod;
    DivParts(i, ratio);
    var q := Div(i, ratio);
    assert q * (ratio + 1) == q * ratio + q;
    DivUnique(PayloadIndex(ratio, i), ratio + 1, q, Mod(i, ratio));
  }

  lemma BitmapRow(ratio: nat, c: nat)
    ensures Div(BitmapIndex(ratio, c), ratio + 1) == c && Mod(BitmapIndex(ratio, c), ratio + 1) == ratio
  {
    hide Div, Mod;
    DivUnique(BitmapIndex(ratio, c), ratio + 1, c, ratio);
  }

  /** Different blocks have different entries, and none of them is a bitmap's. */
  lemma IndicesApart(ratio: nat, i: nat, j: nat, c: nat, d: nat)
    requires ratio > 0
    ensures i < j ==> PayloadIndex(ratio, i) < PayloadIndex(ratio, j)
    ensures c < d ==> BitmapIndex(ratio, c) < BitmapIndex(ratio, d)
    ensures PayloadIndex(ratio, i) != BitmapIndex(ratio, c)
  {
    hide Div, Mod;
    if i < j {
      DivMono(i, j, ratio);
    }
    Apart(c, d, ratio + 1);
    PayloadRow(ratio, i);
    BitmapRow(ratio, c);
  }

  /** Every entry of whole rows is a block's or a bitmap's. */
  lemma IndicesCover(ratio: nat, k: nat)
    requires ratio > 0
    ensures var c, r := Div(k, ratio + 1), Mod(k, ratio + 1);
      if r == ratio then k == BitmapIndex(ratio, c)
      else k == PayloadIndex(ratio, c * ratio + r) && Div(c * ratio + r, ratio) == c
  {
    hide Div, Mod;
    var c, r := Div(k, ratio + 1), Mod(k, ratio + 1);
    DivParts(k, ratio + 1);
    if r < ratio {
      DivUnique(c * ratio + r, ratio, c, r);
      assert c * (ratio + 1) == c * ratio + c;
    }
  }

  /** How many entries the table must hold for `payload` blocks. */
  function Entries(payload: nat, ratio: nat, hasParent: bool): nat
    requires ratio > 0 && payload > 0
  {
    if hasParent then CeilDiv(payload, ratio) * (ratio + 1) else payload + Div(payload - 1, ratio)
  }

  /** The table holds an entry for each block, and for each block's bitmap when the disk has a parent;
      without a parent its last entry is the last block's. */
  lemma IndicesFit(payload: nat, ratio: nat, hasParent: bool, i: nat)
    requires ratio > 0 && i < payload
    ensures PayloadIndex(ratio, i) < Entries(payload, ratio, hasParent)
    ensures hasParent ==> BitmapIndex(ratio, Div(i, ratio)) < Entries(payload, ratio, hasParent)
    ensures !hasParent ==> PayloadIndex(ratio, payload - 1) + 1 == Entries(payload, ratio, hasParent)
  {
    hide Div, Mod;
    DivMono(i, payload - 1, ratio);
    if hasParent {
      BelowCeil(i, payload, ratio);
      Apart(Div(i, ratio), CeilDiv(payload, ratio), ratio + 1);
      PayloadRow(ratio, i);
    }
  }

  /** A byte's sector lies in the bitmap of its own block's row, so no bitmap of a partly present
      block is another row's. */
  lemma SameRow(block: nat, logical: nat, i: nat)
    requires Sizes(block, logical)
    ensures Ratio(block, logical) > 0
    ensures Div(Div(i, logical), PER_CHUNK) == Div(Div(i, block), Ratio(block, logical))
  {
    hide Pow2, Div, Mod;
    var ratio := Ratio(block, logical);
    RatioExact(block, logical);
    DivDiv(i, logical, PER_CHUNK);
    DivDiv(i, block, ratio);
    Commute(ratio, block, logical);
  }

  lemma Commute(ratio: nat, block: nat, logical: nat)
    requires ratio * block == PER_CHUNK * logical
    ensures block * ratio == logical * PER_CHUNK
  {
  }
}
