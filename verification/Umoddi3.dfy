/** The 64-bit remainder helper of 32-bit targets: shift-and-subtract, one bit of the dividend at a time. */
module Umoddi3 {
  import opened Arith
  import opened Bytes

  /** `n >> i`: the bits of `n` read once bit `i` has been reached. */
  function Shifted(n: nat, i: nat): nat { Quotient(n, Pow2(i)) }

  lemma HalfOf(n: nat, a: nat)
    requires a > 0
    ensures Quotient(n, a) / 2 == Quotient(n, 2 * a)
  {
    var k, q := Quotient(n, a), Quotient(n, a) / 2;
    QuotientBounds(n, a, k);
    MulMono(2 * q, k, a);
    MulMono(k + 1, 2 * q + 2, a);
    assert q * (2 * a) == (2 * q) * a && (q + 1) * (2 * a) == (2 * q + 2) * a;
    QuotientBounds(n, 2 * a, q);
  }

  /** Reading one more bit doubles the prefix and adds the bit. */
  lemma NextPrefix(n: nat, i: nat)
    ensures Shifted(n, i) == 2 * Shifted(n, i + 1) + Shifted(n, i) % 2
  {
    HalfOf(n, Pow2(i));
  }

  lemma NoBitsAbove(n: nat, i: nat)
    requires n < Pow2(i)
    ensures Shifted(n, i) == 0
  {
    QuotientBounds(n, Pow2(i), 0);
  }

  lemma PrefixBelow(n: nat, i: nat)
    ensures Shifted(n, i) <= n
  {
    var p, q := Pow2(i), Shifted(n, i);
    QuotientBounds(n, p, q);
    MulMono(1, p, q);
  }

  lemma AllBits(n: nat)
    ensures Shifted(n, 0) == n
  {
    QuotientBounds(n, 1, n);
  }

  /** One round keeps the remainder of the prefix read so far, and the shift loses no bit. */
  lemma Round(prefix: nat, bit: nat, d: nat, r: nat)
    requires d > 0 && bit < 2 && 2 * prefix + bit < TWO64 && r == prefix % d
    ensures 2 * r + bit < TWO64 && r < d
    ensures (2 * prefix + bit) % d == if 2 * r + bit >= d then 2 * r + bit - d else 2 * r + bit
  {
    DivMod(prefix, d);
    var q := Quotient(prefix, d);
    var x := 2 * r + bit;
    MulMono(0, q, d);
    assert 2 * prefix + bit == (2 * q) * d + x;
    if x >= d {
      assert (2 * q + 1) * d == (2 * q) * d + d;
      QuotientUnique(2 * prefix + bit, d, 2 * q + 1, x - d);
    } else {
      QuotientUnique(2 * prefix + bit, d, 2 * q, x);
    }
  }

  /** A round on bit `i`: the shift fits 64 bits, and what it leaves is the remainder of the longer prefix. */
  lemma Bring(n: nat, i: nat, d: nat, r: nat)
    requires n < TWO64 && d > 0 && r == Shifted(n, i + 1) % d
    ensures var x := 2 * r % TWO64 + Shifted(n, i) % 2; Shifted(n, i) % d == if x >= d then x - d else x
  {
    hide Shifted;
    NextPrefix(n, i);
    PrefixBelow(n, i);
    Round(Shifted(n, i + 1), Shifted(n, i) % 2, d, r);
  }

  /** `__umoddi3`: the 64-bit loop computes the remainder for every divisor, also above 2^63; zero yields zero. */
  method Umod(n: nat, d: nat) returns (r: nat)
    requires n < TWO64 && d < TWO64
    ensures d == 0 ==> r == 0
    ensures d != 0 ==> r == n % d
  {
    hide Shifted, Pow2;
    if d == 0 { return 0; }
    r := 0;
    Pow2At64();
    NoBitsAbove(n, 64);
    var i := 64;
    while i > 0
      invariant 0 <= i <= 64 && r == Shifted(n, i) % d
    {
      i := i - 1;
      var bit := Shifted(n, i) % 2;
      Bring(n, i, d, r);
      r := 2 * r % TWO64 + bit;
      if r >= d { r := r - d; }
    }
    AllBits(n);
  }
}
