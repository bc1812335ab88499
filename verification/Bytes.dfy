/** Byte strings, fixed-width integer codecs and bounded C-string scanning. */
module Bytes {

  type byte = b: int | 0 <= b < 0x100

  const TWO32: nat := 0x1_0000_0000
  const TWO64: nat := 0x1_0000_0000_0000_0000

  predicate U64(x: int) { 0 <= x < TWO64 }

  datatype Option<+T> = None | Some(value: T)

  /** The bytes `x` stand in `s` at position `p`. */
  predicate At(s: seq<byte>, p: nat, x: seq<byte>) {
    p + |x| <= |s| && s[p..p + |x|] == x
  }

  lemma AtSplit(s: seq<byte>, p: nat, x: seq<byte>, y: seq<byte>)
    requires At(s, p, x + y)
    ensures At(s, p, x) && At(s, p + |x|, y)
  {
    assert s[p..p + |x|] == (x + y)[..|x|];
    assert s[p + |x|..p + |x| + |y|] == (x + y)[|x|..];
  }

  lemma AtIndex(s: seq<byte>, p: nat, x: seq<byte>, i: nat)
    requires At(s, p, x) && i < |x|
    ensures s[p + i] == x[i]
  {
    assert s[p..p + |x|][i] == x[i];
  }

  lemma AtSlice(s: seq<byte>, p: nat, x: seq<byte>, i: nat, j: nat)
    requires At(s, p, x) && i <= j <= |x|
    ensures p + j <= |s| && s[p + i..p + j] == x[i..j]
  {
    forall k | 0 <= k < j - i ensures s[p + i..p + j][k] == x[i..j][k] { AtIndex(s, p, x, i + k); }
  }

  function Zeros(n: nat): (s: seq<byte>)
    ensures |s| == n && forall i :: 0 <= i < n ==> s[i] == 0
  {
    seq(n, i => 0)
  }

  /** How many zero bytes bring `n` to a multiple of four. */
  function Pad4(n: nat): (k: nat)
    ensures k < 4 && (n + k) % 4 == 0
  {
    (4 - n % 4) % 4
  }

  // ---------------------------------------------------------------- big endian

  function Be32(s: seq<byte>, i: nat): (v: nat)
    requires i + 4 <= |s|
    ensures v < TWO32
  {
    (s[i] as int) * 0x100_0000 + (s[i + 1] as int) * 0x1_0000 + (s[i + 2] as int) * 0x100 + s[i + 3]
  }

  function Be64(s: seq<byte>, i: nat): (v: nat)
    requires i + 8 <= |s|
    ensures v < TWO64
  {
    Be32(s, i) * TWO32 + Be32(s, i + 4)
  }

  function PutBe32(v: nat): (s: seq<byte>)
    ensures |s| == 4
  {
    [v / 0x100_0000 % 0x100, v / 0x1_0000 % 0x100, v / 0x100 % 0x100, v % 0x100]
  }

  function PutBe64(v: nat): (s: seq<byte>)
    ensures |s| == 8
  {
    PutBe32(v / TWO32) + PutBe32(v % TWO32)
  }

  lemma Digits(v: nat)
    requires v < TWO32
    ensures v == v / 0x100_0000 % 0x100 * 0x100_0000 + v / 0x1_0000 % 0x100 * 0x1_0000
                 + v / 0x100 % 0x100 * 0x100 + v % 0x100
  {
    var a, b, c := v / 0x100, v / 0x1_0000, v / 0x100_0000;
    assert v == a * 0x100 + v % 0x100;
    assert a == b * 0x100 + a % 0x100;
    assert b == c * 0x100 + b % 0x100;
    assert c < 0x100;
  }

  lemma GetPutBe32(s: seq<byte>, p: nat, v: nat)
    requires At(s, p, PutBe32(v)) && v < TWO32
    ensures Be32(s, p) == v
  {
    Digits(v);
    var x := PutBe32(v);
    AtIndex(s, p, x, 0);
    AtIndex(s, p, x, 1);
    AtIndex(s, p, x, 2);
    AtIndex(s, p, x, 3);
  }

  lemma GetPutBe64(s: seq<byte>, p: nat, v: nat)
    requires At(s, p, PutBe64(v)) && v < TWO64
    ensures Be64(s, p) == v
  {
    AtSplit(s, p, PutBe32(v / TWO32), PutBe32(v % TWO32));
    GetPutBe32(s, p, v / TWO32);
    GetPutBe32(s, p + 4, v % TWO32);
  }

  /** Reading from a slice is reading from the whole. */
  lemma Be32Slice(s: seq<byte>, p: nat, x: seq<byte>, i: nat)
    requires At(s, p, x) && i + 4 <= |x|
    ensures Be32(s, p + i) == Be32(x, i)
  {
    AtIndex(s, p, x, i);
    AtIndex(s, p, x, i + 1);
    AtIndex(s, p, x, i + 2);
    AtIndex(s, p, x, i + 3);
  }

  // ------------------------------------------------------------- little endian

  function Le32(s: seq<byte>, i: nat): (v: nat)
    requires i + 4 <= |s|
    ensures v < TWO32
  {
    s[i] + (s[i + 1] as int) * 0x100 + (s[i + 2] as int) * 0x1_0000 + (s[i + 3] as int) * 0x100_0000
  }

  function PutLe32(v: nat): (s: seq<byte>)
    ensures |s| == 4
  {
    [v % 0x100, v / 0x100 % 0x100, v / 0x1_0000 % 0x100, v / 0x100_0000 % 0x100]
  }

  lemma GetPutLe32(s: seq<byte>, p: nat, v: nat)
    requires At(s, p, PutLe32(v)) && v < TWO32
    ensures Le32(s, p) == v
  {
    Digits(v);
    var x := PutLe32(v);
    AtIndex(s, p, x, 0);
    AtIndex(s, p, x, 1);
    AtIndex(s, p, x, 2);
    AtIndex(s, p, x, 3);
  }

  // ------------------------------------------------------------------ C strings

  /** The bytes of an ASCII literal. */
  function Ascii(s: string): (r: seq<byte>)
    ensures |r| == |s| && forall i :: 0 <= i < |s| ==> r[i] == s[i] as int % 0x100
  {
    seq(|s|, i requires 0 <= i < |s| => s[i] as int % 0x100)
  }

  predicate NoNul(s: seq<byte>) {
    forall i :: 0 <= i < |s| ==> s[i] != 0
  }

  /** Outcome of a bounded search for the terminating NUL: its distance, no NUL
      within the bound, or a read past the end of the underlying bytes. */
  datatype Scan = Len(n: nat) | Unterminated | Outside

  function Strnlen(s: seq<byte>, i: nat, max: nat): (r: Scan)
    ensures r.Len? ==> r.n < max && i + r.n < |s| && s[i + r.n] == 0 && forall k :: i <= k < i + r.n ==> s[k] != 0
    decreases max
  {
    if max == 0 then Unterminated
    else if i >= |s| then Outside
    else if s[i] == 0 then Len(0)
    else
      match Strnlen(s, i + 1, max - 1)
      case Len(n) => Len(n + 1)
      case Unterminated => Unterminated
      case Outside => Outside
  }

  /** A terminated string is measured exactly, whatever bytes surround it. */
  lemma {:induction false} StrnlenOf(s: seq<byte>, i: nat, max: nat, x: seq<byte>)
    requires NoNul(x) && At(s, i, x + [0]) && |x| < max
    ensures Strnlen(s, i, max) == Len(|x|)
    decreases |x|
  {
    AtIndex(s, i, x + [0], 0);
    if x != [] {
      assert x + [0] == [x[0]] + (x[1..] + [0]);
      AtSplit(s, i, [x[0]], x[1..] + [0]);
      StrnlenOf(s, i + 1, max - 1, x[1..]);
    }
  }

  /** Inside a block the scan sees only the block. */
  lemma {:induction false} StrnlenSlice(s: seq<byte>, p: nat, x: seq<byte>, i: nat)
    requires At(s, p, x) && i <= |x|
    ensures Strnlen(s, p + i, |x| - i) == Strnlen(x, i, |x| - i)
    ensures Strnlen(x, i, |x| - i) != Outside
    decreases |x| - i
  {
    if i < |x| {
      AtIndex(s, p, x, i);
      StrnlenSlice(s, p, x, i + 1);
    }
  }
}
