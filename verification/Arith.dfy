/** Division, remainders and powers of two by their defining bounds. */
module Arith {

  function Quotient(n: nat, d: nat): nat
    requires d > 0
  {
    n / d
  }

  lemma MulMono(a: nat, b: nat, d: nat)
    requires a <= b
    ensures a * d <= b * d
  {
  }

  lemma DivMod(n: nat, d: nat)
    requires d > 0
    ensures n / d >= 0 && n == n / d * d + n % d && 0 <= n % d < d
  {
  }

  /** The quotient is the only number whose multiple of `d` fits under `n` with less than `d` to spare. */
  lemma QuotientBounds(n: nat, d: nat, q: nat)
    requires d > 0
    ensures Quotient(n, d) == q <==> q * d <= n < (q + 1) * d
  {
    var k := Quotient(n, d);
    DivMod(n, d);
    if q * d <= n < (q + 1) * d {
      if k < q { MulMono(k + 1, q, d); } else if k > q { MulMono(q + 1, k, d); }
    }
  }

  lemma QuotientUnique(n: nat, d: nat, q: nat, r: nat)
    requires d > 0 && n == q * d + r && r < d
    ensures Quotient(n, d) == q && n % d == r
  {
    QuotientBounds(n, d, q);
    DivMod(n, d);
  }

  lemma QuotientMono(m: nat, n: nat, d: nat)
    requires d > 0 && m <= n
    ensures Quotient(m, d) <= Quotient(n, d)
  {
    var p, q := Quotient(m, d), Quotient(n, d);
    QuotientBounds(m, d, p);
    QuotientBounds(n, d, q);
    if q < p { MulMono(q + 1, p, d); }
  }

  function Pow2(i: nat): (p: nat)
    ensures p > 0
  {
    if i == 0 then 1 else 2 * Pow2(i - 1)
  }

  lemma Pow2Zero()
    ensures Pow2(0) == 1
  {
  }

  lemma Pow2Next(i: nat)
    requires i > 0
    ensures Pow2(i) == 2 * Pow2(i - 1)
  {
  }

  lemma MulTwice(a: nat, b: nat)
    ensures a * (2 * b) == 2 * (a * b)
  {
  }

  lemma {:induction false} Pow2Sum(i: nat, j: nat)
    ensures Pow2(i + j) == Pow2(i) * Pow2(j)
    decreases j
  {
    hide Pow2;
    if j == 0 {
      Pow2Zero();
    } else {
      Pow2Sum(i, j - 1);
      Pow2Next(i + j);
      Pow2Next(j);
      MulTwice(Pow2(i), Pow2(j - 1));
    }
  }

  lemma Pow2At16()
    ensures Pow2(16) == 0x1_0000
  {
    assert Pow2(4) == 16;
    Pow2Sum(4, 4);
    Pow2Sum(8, 8);
  }

  lemma Pow2At64()
    ensures Pow2(32) == 0x1_0000_0000 && Pow2(64) == 0x1_0000_0000_0000_0000
  {
    hide Pow2;
    Pow2At16();
    Pow2Sum(16, 16);
    Pow2Sum(32, 32);
  }
}
