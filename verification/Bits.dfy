/** 64-bit words as sets of bits. The laws of single words are proved on bit vectors; everything else uses only them. */
module Bits {

  function And(a: bv64, b: bv64): bv64 { a & b }

  function Or(a: bv64, b: bv64): bv64 { a | b }

  function Twice(a: bv64): bv64 { a << 1 }

  function Half(a: bv64): bv64 { a >> 1 }

  /** `1ULL << f` */
  function Bit(f: nat): bv64
    requires f < 64
  {
    if f == 0 then 1 else Twice(Bit(f - 1))
  }

  predicate Test(w: bv64, f: nat)
    requires f < 64
  {
    And(w, Bit(f)) != 0
  }

  // ------------------------------------------------------------------ laws of bit vectors

  lemma AndAnd(a: bv64, b: bv64, m: bv64)
    ensures And(And(a, b), m) == And(And(a, m), And(b, m))
  {
  }

  lemma AndOr(a: bv64, b: bv64, m: bv64)
    ensures And(Or(a, b), m) == Or(And(a, m), And(b, m))
  {
    assert (a | b) & m == (a & m) | (b & m);
  }

  lemma Zeros(a: bv64, b: bv64)
    ensures And(a, 0) == 0 && And(0, a) == 0 && And(a, a) == a && Or(0, 0) == 0 && And(a, b) == And(b, a)
    ensures And(a, 0xFFFF_FFFF_FFFF_FFFF) == a
  {
  }

  lemma OrZero(a: bv64, b: bv64)
    requires Or(a, b) == 0
    ensures a == 0 && b == 0
  {
  }

  lemma TwiceLaws(a: bv64, b: bv64)
    ensures And(Twice(a), Twice(b)) == Twice(And(a, b)) && And(1, Twice(a)) == 0 && Twice(0) == 0
  {
  }

  lemma HalfLaws(w: bv64, m: bv64)
    ensures And(w, Twice(m)) == Twice(And(Half(w), m))
  {
  }

  lemma LowestBit(w: bv64)
    ensures And(w, 1) == 0 || And(w, 1) == 1
  {
  }

  lemma OrTwice(a: bv64, b: bv64)
    ensures Or(Or(Twice(a), 1), Twice(b)) == Or(Twice(Or(a, b)), 1) && Or(0, 1) == 1 && Twice(0) == 0
  {
  }

  // ----------------------------------------------------------------------- bits as a set

  lemma NextBit(f: nat)
    requires f < 63
    ensures Bit(f + 1) == Twice(Bit(f))
  {
  }

  lemma FirstBit()
    ensures Bit(0) == 1
  {
  }

  lemma LowerBits()
    ensures Bit(32) == 0x1_0000_0000
  {
    assert Bit(8) == 0x100;
    assert Bit(16) == 0x1_0000;
    assert Bit(24) == 0x100_0000;
  }

  lemma TopBit()
    ensures Bit(63) == 0x8000_0000_0000_0000
  {
    LowerBits();
    assert Bit(40) == 0x100_0000_0000;
    assert Bit(48) == 0x1_0000_0000_0000;
    assert Bit(56) == 0x100_0000_0000_0000;
  }

  lemma {:induction false} BitNotZero(f: nat)
    requires f < 64
    ensures Bit(f) != 0
    decreases 63 - f
  {
    hide Bit, Twice;
    if f == 63 {
      TopBit();
    } else {
      BitNotZero(f + 1);
      NextBit(f);
      TwiceLaws(0, 0);
    }
  }

  /** A word has all of a single bit or none of it. */
  lemma {:induction false} AllOrNone(w: bv64, f: nat)
    requires f < 64
    ensures And(w, Bit(f)) == 0 || And(w, Bit(f)) == Bit(f)
    decreases f
  {
    hide Bit, And, Twice, Half;
    if f == 0 {
      FirstBit();
      LowestBit(w);
    } else {
      NextBit(f - 1);
      HalfLaws(w, Bit(f - 1));
      AllOrNone(Half(w), f - 1);
      TwiceLaws(0, 0);
    }
  }

  lemma OneBit(w: bv64, f: nat)
    requires f < 64
    ensures (And(w, Bit(f)) == 0 || And(w, Bit(f)) == Bit(f)) && Bit(f) != 0
  {
    hide Bit, And;
    AllOrNone(w, f);
    BitNotZero(f);
  }

  lemma AndTest(a: bv64, b: bv64, f: nat)
    requires f < 64
    ensures Test(And(a, b), f) <==> Test(a, f) && Test(b, f)
  {
    hide Bit, And;
    OneBit(a, f);
    OneBit(b, f);
    AndAnd(a, b, Bit(f));
    Zeros(Bit(f), And(a, Bit(f)));
    Zeros(And(b, Bit(f)), 0);
  }

  lemma OrTest(a: bv64, b: bv64, f: nat)
    requires f < 64
    ensures Test(Or(a, b), f) <==> Test(a, f) || Test(b, f)
  {
    hide Bit, And, Or;
    AndOr(a, b, Bit(f));
    Zeros(0, 0);
    if And(Or(a, b), Bit(f)) == 0 { OrZero(And(a, Bit(f)), And(b, Bit(f))); }
  }

  lemma {:induction false} BitsApart(f: nat, g: nat)
    requires f < g < 64
    ensures And(Bit(f), Bit(g)) == 0
  {
    hide Bit, And, Twice;
    NextBit(g - 1);
    if f == 0 {
      FirstBit();
      TwiceLaws(Bit(g - 1), 0);
    } else {
      BitsApart(f - 1, g - 1);
      NextBit(f - 1);
      TwiceLaws(Bit(f - 1), Bit(g - 1));
    }
  }

  lemma BitTest(f: nat, g: nat)
    requires f < 64 && g < 64
    ensures (Test(Bit(f), g) <==> f == g) && !Test(0, g)
  {
    hide Bit, And;
    Zeros(Bit(f), Bit(g));
    Zeros(Bit(g), 0);
    OneBit(Bit(f), f);
    if f < g { BitsApart(f, g); } else if g < f { BitsApart(g, f); }
  }

  /** The word with exactly the lowest `n` bits set. */
  function Low(n: nat): bv64
    requires n <= 64
  {
    if n == 0 then 0 else Or(Low(n - 1), Bit(n - 1))
  }

  function Ones(n: nat): bv64 { if n == 0 then 0 else Or(Twice(Ones(n - 1)), 1) }

  lemma {:induction false} LowIsOnes(n: nat)
    requires n <= 64
    ensures Low(n) == Ones(n)
  {
    hide Bit, Or, Twice;
    FirstBit();
    OrTwice(0, 0);
    if n == 1 {
      assert Low(1) == Or(Low(0), Bit(0)) && Ones(1) == Or(Twice(Ones(0)), 1);
    } else if n > 1 {
      LowIsOnes(n - 1);
      LowIsOnes(n - 2);
      NextBit(n - 2);
      OrTwice(Ones(n - 2), Bit(n - 2));
    }
  }

  lemma OnesFull()
    ensures Ones(64) == 0xFFFF_FFFF_FFFF_FFFF
  {
    assert Ones(8) == 0xFF;
    assert Ones(16) == 0xFFFF;
    assert Ones(24) == 0xFF_FFFF;
    assert Ones(32) == 0xFFFF_FFFF;
    assert Ones(40) == 0xFF_FFFF_FFFF;
    assert Ones(48) == 0xFFFF_FFFF_FFFF;
    assert Ones(56) == 0xFF_FFFF_FFFF_FFFF;
  }

  lemma LowSplit(a: bv64, n: nat)
    requires 0 < n <= 64
    ensures And(a, Low(n)) == Or(And(a, Low(n - 1)), And(a, Bit(n - 1)))
  {
    hide Bit, And, Or;
    AndOr(Low(n - 1), Bit(n - 1), a);
    Zeros(a, Low(n - 1));
    Zeros(a, Bit(n - 1));
    Zeros(a, Low(n));
  }

  lemma {:induction false} SameBelow(a: bv64, b: bv64, n: nat)
    requires n <= 64 && forall f :: 0 <= f < n ==> (Test(a, f) <==> Test(b, f))
    ensures And(a, Low(n)) == And(b, Low(n))
  {
    hide Bit, And, Or;
    if n == 0 {
      Zeros(a, 0);
      Zeros(b, 0);
    } else {
      SameBelow(a, b, n - 1);
      LowSplit(a, n);
      LowSplit(b, n);
      OneBit(a, n - 1);
      OneBit(b, n - 1);
      assert Test(a, n - 1) <==> Test(b, n - 1);
    }
  }

  /** Words with the same bits are equal. */
  lemma SameBits(a: bv64, b: bv64)
    requires forall f :: 0 <= f < 64 ==> (Test(a, f) <==> Test(b, f))
    ensures a == b
  {
    hide Test, Low, Ones, And;
    SameBelow(a, b, 64);
    LowIsOnes(64);
    OnesFull();
    Zeros(a, 0);
    Zeros(b, 0);
  }
}
