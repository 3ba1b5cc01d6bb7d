/** Quotients and remainders by a variable, defined by repeated subtraction so that what uses them
    stays linear; `DivIsQuotient` says they are Python's `//` and `%` on naturals. */
module Division {

  function Div(x: nat, n: nat): nat
    requires n > 0
  {
    if x < n then 0 else 1 + Div(x - n, n)
  }

  function Mod(x: nat, n: nat): (r: nat)
    requires n > 0
    ensures r < n
  {
    if x < n then x else Mod(x - n, n)
  }

  lemma Distribute(q: nat, p: nat, n: nat)
    ensures (q + p) * n == q * n + p * n
  {
  }

  lemma Apart(q: nat, p: nat, n: nat)
    ensures q < p ==> q * n + n <= p * n
    ensures q <= p ==> q * n <= p * n
  {
    if q < p {
      Distribute(q, p - q, n);
      Distribute(1, p - q - 1, n);
    }
  }

  lemma {:induction false} DivParts(x: nat, n: nat)
    requires n > 0
    ensures x == Div(x, n) * n + Mod(x, n)
  {
    if x >= n {
      DivParts(x - n, n);
      Distribute(1, Div(x - n, n), n);
    }
  }

  /** A quotient and a remainder below the divisor are the only ones. */
  lemma DivUnique(x: nat, n: nat, q: nat, r: nat)
    requires n > 0 && x == q * n + r && r < n
    ensures Div(x, n) == q && Mod(x, n) == r
  {
    hide Div, Mod;
    DivParts(x, n);
    Apart(q, Div(x, n), n);
    Apart(Div(x, n), q, n);
  }

  lemma DivIsQuotient(x: nat, n: nat)
    requires n > 0
    ensures Div(x, n) == x / n && Mod(x, n) == x % n
  {
    hide Div, Mod;
    assert x == x / n * n + x % n;
    DivUnique(x, n, x / n, x % n);
  }

  /** Dividing twice is dividing by the product. */
  lemma DivDiv(x: nat, m: nat, n: nat)
    requires m > 0 && n > 0
    ensures m * n > 0 && Div(Div(x, m), n) == Div(x, m * n)
  {
    hide Div, Mod;
    var q, r := Div(x, m), Mod(x, m);
    var p, s := Div(q, n), Mod(q, n);
    DivParts(x, m);
    DivParts(q, n);
    ProductPositive(m, n);
    Apart(s, n, m);
    Regroup(p, n, s, m);
    Swap(m, n);
    OneDivision(x, r, m, p, m * n, s * m);
  }

  lemma OneDivision(x: nat, r: nat, m: nat, p: nat, mn: nat, sm: nat)
    requires mn > 0 && r < m && sm + m <= mn && x == p * mn + sm + r
    ensures Div(x, mn) == p
  {
    hide Div, Mod;
    DivUnique(x, mn, p, sm + r);
  }

  lemma Swap(m: nat, n: nat)
    ensures m * n == n * m
  {
  }

  lemma ProductPositive(m: nat, n: nat)
    requires m > 0 && n > 0
    ensures m * n > 0
  {
  }

  lemma Regroup(p: nat, n: nat, s: nat, m: nat)
    ensures (p * n + s) * m == p * (m * n) + s * m
  {
  }

  /** A position inside the `n`-th run of `m` falls in the block of `m * k` that run is in. */
  lemma RunInBlock(n: nat, m: nat, k: nat, r: nat)
    requires m > 0 && k > 0 && r < m
    ensures m * k > 0
    ensures Div(n * m + r, m * k) == Div(n * m, m * k)
    ensures Mod(n * m + r, m * k) == Mod(n * m, m * k) + r
  {
    hide Div, Mod;
    ProductPositive(m, k);
    DivParts(n, k);
    Apart(Mod(n, k), k, m);
    Regroup(Div(n, k), k, Mod(n, k), m);
    Swap(m, k);
    DivUnique(n * m + r, m * k, Div(n, k), Mod(n, k) * m + r);
    DivUnique(n * m, m * k, Div(n, k), Mod(n, k) * m);
  }

  /** What lies in the runs from `s` up to `e` has its quotient there. */
  lemma DivBetween(x: nat, n: nat, s: nat, e: nat)
    requires n > 0 && s * n <= x < e * n
    ensures s <= Div(x, n) < e
  {
    hide Div, Mod;
    DivParts(x, n);
    Apart(e, Div(x, n), n);
    Apart(Div(x, n), s, n);
  }

  /** Whole runs come off a dividend. */
  lemma DivShift(p: nat, x: nat, n: nat)
    requires n > 0
    ensures Div(p * n + x, n) == p + Div(x, n)
  {
    hide Div, Mod;
    DivParts(x, n);
    Distribute(p, Div(x, n), n);
    DivUnique(p * n + x, n, p + Div(x, n), Mod(x, n));
  }

  lemma {:induction false} DivMono(x: nat, y: nat, n: nat)
    requires n > 0 && x <= y
    ensures Div(x, n) <= Div(y, n)
  {
    if x >= n {
      DivMono(x - n, y - n, n);
    }
  }

  /** How many runs of `n` cover `x`. */
  function CeilDiv(x: nat, n: nat): nat
    requires n > 0
  {
    if x == 0 then 0 else Div(x - 1, n) + 1
  }

  lemma BelowCeil(i: nat, x: nat, n: nat)
    requires n > 0 && i < x
    ensures Div(i, n) < CeilDiv(x, n)
  {
    DivMono(i, x - 1, n);
  }
}
