/** Shifts and masks as products, quotients and remainders by a power of two. */
module BitArithmetic {
  import opened Bits
  import opened Division

  lemma {:induction false} ShlIs(x: nat, n: nat)
    ensures Shl(x, n) == Pow2(n) * x
  {
    if n > 0 {
      ShlIs(x, n - 1);
      assert 2 * (Pow2(n - 1) * x) == 2 * Pow2(n - 1) * x;
    }
  }

  lemma ShrIs(x: nat, n: nat)
    ensures Shr(x, n) == x / Pow2(n) && Low(x, n) == x % Pow2(n)
  {
    hide Shl, Shr, Low, Pow2, Div, Mod;
    Split(x, n);
    ShlIs(Shr(x, n), n);
    Times(Shr(x, n), Pow2(n));
    DivUnique(x, Pow2(n), Shr(x, n), Low(x, n));
    DivIsQuotient(x, Pow2(n));
  }

  lemma Times(a: nat, b: nat)
    ensures a * b == b * a
  {
  }

  lemma LowOne(x: nat)
    ensures Low(x, 1) == x % 2 && Shr(x, 0) == x
  {
    assert Low(x / 2, 0) == 0;
  }

  lemma LowThree(x: nat)
    ensures Low(x, 3) == x % 8
  {
    hide Pow2, Low;
    Pow2Small();
    ShrIs(x, 3);
  }
}
