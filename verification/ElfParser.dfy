/** Reading ELF headers (System V gABI, Program Header chapter): the image summary and the counting and
    extracting passes over the program-header table. */
module ElfParser {
  import opened Arith
  import opened Bytes

  const EM_ARM := 40
  const EM_X86_64 := 62
  const EM_AARCH64 := 183
  const EM_RISCV := 243
  const PT_LOAD := 1
  const INT_MAX := 0x7FFF_FFFF

  function Le16(s: seq<byte>, i: nat): (v: nat)
    requires i + 2 <= |s|
    ensures v < 0x1_0000
  {
    s[i] + (s[i + 1] as int) * 0x100
  }

  function Le64(s: seq<byte>, i: nat): (v: nat)
    requires i + 8 <= |s|
    ensures v < TWO64
  {
    Le32(s, i) + Le32(s, i + 4) * TWO32
  }

  /** Bitwise and. */
  function And(a: nat, b: nat): nat {
    if a == 0 || b == 0 then 0 else 2 * And(a / 2, b / 2) + (a % 2) * (b % 2)
  }

  lemma AndBit0(f: nat)
    ensures And(f, 1) == f % 2
  {
  }

  lemma AndBit1(f: nat)
    ensures And(f, 2) == 2 * (f / 2 % 2)
  {
    AndBit0(f / 2);
  }

  lemma AndBit2(f: nat)
    ensures And(f, 4) == 4 * (f / 4 % 2)
  {
    AndBit1(f / 2);
  }

  lemma AndZero()
    ensures And(0, 0) == 0
  {
  }

  lemma AndStep(a: nat, b: nat)
    requires a > 0 && b > 0
    ensures And(a, b) == 2 * And(a / 2, b / 2) + (a % 2) * (b % 2)
  {
  }

  lemma {:induction false} AndSelf(a: nat)
    ensures And(a, a) == a
  {
    hide And;
    if a == 0 {
      AndZero();
    } else {
      AndStep(a, a);
      AndSelf(a / 2);
      assert (a % 2) * (a % 2) == a % 2;
    }
  }

  ghost predicate IsPow2(a: nat) { exists k: nat :: Pow2(k) == a }

  /** The usual bit trick: exactly the powers of two share no bit with their predecessor. */
  lemma {:induction false} BitTrick(a: nat)
    requires a > 0
    ensures And(a, a - 1) == 0 <==> IsPow2(a)
    decreases a
  {
    if a == 1 {
      assert Pow2(0) == 1;
    } else if a % 2 == 1 {
      AndSelf(a / 2);
    } else {
      BitTrick(a / 2);
      assert (a - 1) / 2 == a / 2 - 1;
      if IsPow2(a) {
        var k: nat :| Pow2(k) == a;
        assert k > 0 && Pow2(k - 1) == a / 2;
      }
      if IsPow2(a / 2) {
        var k: nat :| Pow2(k) == a / 2;
        assert Pow2(k + 1) == a;
      }
    }
  }

  // ------------------------------------------------------------------------ summary

  datatype ParseError =
    | InvalidMagic | UnsupportedClass | UnsupportedEndianness | InvalidVersion | BufferTooSmall | Malformed

  datatype Summary = Summary(entry: nat, phnum: nat, phoff: nat, phentsize: nat)

  /** A result, an error status, or arithmetic that C leaves undefined. */
  datatype Outcome<+T> = Value(value: T) | Error(error: ParseError) | Undefined

  predicate Is32(bytes: seq<byte>)
    requires |bytes| >= 16
  {
    bytes[4] == 1
  }

  function PhdrSize(bytes: seq<byte>): nat
    requires |bytes| >= 16
  {
    if Is32(bytes) then 32 else 56
  }

  function RawSummary(bytes: seq<byte>): Summary
    requires |bytes| >= 64 || (|bytes| >= 52 && Is32(bytes))
  {
    if Is32(bytes)
    then Summary(Le32(bytes, 24), Le16(bytes, 44), Le32(bytes, 28), Le16(bytes, 42))
    else Summary(Le64(bytes, 24), Le16(bytes, 56), Le64(bytes, 32), Le16(bytes, 54))
  }

  /** `elf_parse_image` */
  function ParseImage(bytes: seq<byte>): Outcome<Summary> {
    if |bytes| < 16 then Error(BufferTooSmall)
    else if bytes[0] != 0x7f || bytes[1] != 'E' as int || bytes[2] != 'L' as int || bytes[3] != 'F' as int then
      Error(InvalidMagic)
    else if bytes[4] != 1 && bytes[4] != 2 then Error(UnsupportedClass)
    else if bytes[5] != 1 then Error(UnsupportedEndianness)
    else if bytes[6] != 1 then Error(InvalidVersion)
    else if |bytes| < (if Is32(bytes) then 52 else 64) then Error(BufferTooSmall)
    else if Le32(bytes, 20) != 1 then Error(InvalidVersion)
    else if Le16(bytes, 16) != 2 && Le16(bytes, 16) != 3 then Error(Malformed)
    else
      var s := RawSummary(bytes);
      if s.phentsize < PhdrSize(bytes) then Error(Malformed)
      else if s.phoff > |bytes| || s.phentsize * s.phnum > |bytes| - s.phoff then Error(Malformed)
      else Value(s)
  }

  // ------------------------------------------------------------------ program headers

  datatype Phdr = Phdr(kind: nat, offset: nat, vaddr: nat, paddr: nat, filesz: nat, memsz: nat, flags: nat, align: nat)

  function ReadPhdr(bytes: seq<byte>, at: nat): Phdr
    requires |bytes| >= 16 && at + PhdrSize(bytes) <= |bytes|
  {
    if Is32(bytes)
    then Phdr(Le32(bytes, at), Le32(bytes, at + 4), Le32(bytes, at + 8), Le32(bytes, at + 12), Le32(bytes, at + 16),
              Le32(bytes, at + 20), Le32(bytes, at + 24), Le32(bytes, at + 28))
    else Phdr(Le32(bytes, at), Le64(bytes, at + 8), Le64(bytes, at + 16), Le64(bytes, at + 24), Le64(bytes, at + 32),
              Le64(bytes, at + 40), Le32(bytes, at + 4), Le64(bytes, at + 48))
  }

  /** The table lies in the image, so every header of an accepted image can be read. */
  lemma HeaderInside(bytes: seq<byte>, i: nat)
    requires ParseImage(bytes).Value? && i < ParseImage(bytes).value.phnum
    ensures var s := ParseImage(bytes).value;
            && |bytes| >= 16 && i * s.phentsize + PhdrSize(bytes) <= s.phnum * s.phentsize
            && s.phoff + i * s.phentsize + PhdrSize(bytes) <= |bytes|
  {
    var s := ParseImage(bytes).value;
    MulMono(i + 1, s.phnum, s.phentsize);
    assert (i + 1) * s.phentsize == i * s.phentsize + s.phentsize;
    assert s.phentsize * s.phnum == s.phnum * s.phentsize;
  }

  /** Where entry `i` of the table starts. */
  function HeaderAt(s: Summary, i: nat): nat { s.phoff + i * s.phentsize }

  function Header(bytes: seq<byte>, i: nat): Phdr
    requires ParseImage(bytes).Value? && i < ParseImage(bytes).value.phnum
  {
    HeaderInside(bytes, i);
    ReadPhdr(bytes, HeaderAt(ParseImage(bytes).value, i))
  }

  /** The PT_LOAD headers among the first `n`, in table order. */
  function Loads(bytes: seq<byte>, n: nat): seq<Phdr>
    requires ParseImage(bytes).Value? && n <= ParseImage(bytes).value.phnum
  {
    if n == 0 then []
    else
      var h := Header(bytes, n - 1);
      Loads(bytes, n - 1) + if h.kind == PT_LOAD then [h] else []
  }

  function AllLoads(bytes: seq<byte>): seq<Phdr>
    requires ParseImage(bytes).Value?
  {
    Loads(bytes, ParseImage(bytes).value.phnum)
  }

  /** Every listed header is a PT_LOAD entry of the table, in table order, and none is left out. */
  lemma {:induction false} LoadsAreTheLoadHeaders(bytes: seq<byte>, n: nat, i: nat)
    requires ParseImage(bytes).Value? && i < n <= ParseImage(bytes).value.phnum
    ensures Header(bytes, i).kind == PT_LOAD <==>
            |Loads(bytes, i + 1)| == |Loads(bytes, i)| + 1
    ensures Header(bytes, i).kind == PT_LOAD ==>
            |Loads(bytes, i)| < |Loads(bytes, n)| && Loads(bytes, n)[|Loads(bytes, i)|] == Header(bytes, i)
    decreases n
  {
    hide Header;
    if i < n - 1 { LoadsAreTheLoadHeaders(bytes, n - 1, i); }
  }

  /** `i * phentsize` is computed in `int`: from 2^31 on it is undefined. */
  predicate Overflows(s: Summary, i: nat) { i * s.phentsize > INT_MAX }

  /** Whether some entry's offset overflows, that is, whether the last one's does. */
  predicate TableOverflows(s: Summary) { s.phnum > 0 && Overflows(s, s.phnum - 1) }

  lemma NoOverflowBelow(s: Summary, i: nat)
    requires i < s.phnum && !TableOverflows(s)
    ensures !Overflows(s, i)
  {
    MulMono(i, s.phnum - 1, s.phentsize);
  }

  /** Images below 2 GiB never overflow. */
  lemma SmallImageNeverOverflows(bytes: seq<byte>)
    requires ParseImage(bytes).Value? && |bytes| <= INT_MAX
    ensures !TableOverflows(ParseImage(bytes).value)
  {
    var s := ParseImage(bytes).value;
    if s.phnum > 0 { HeaderInside(bytes, s.phnum - 1); }
  }

  lemma ParseIsDefined(bytes: seq<byte>)
    ensures ParseImage(bytes) != Undefined
  {
  }

  lemma LastOverflows(s: Summary, i: nat)
    requires i < s.phnum && Overflows(s, i)
    ensures TableOverflows(s)
  {
    MulMono(i, s.phnum - 1, s.phentsize);
  }

  lemma NoneOverflows(s: Summary)
    requires s.phnum > 0 ==> !Overflows(s, s.phnum - 1)
    ensures !TableOverflows(s)
  {
  }

  /** `elf_get_load_segment_count` */
  method CountLoads(bytes: seq<byte>) returns (r: Outcome<nat>)
    ensures match ParseImage(bytes)
            case Value(s) => r == if TableOverflows(s) then Undefined else Value(|AllLoads(bytes)|)
            case Error(e) => r == Error(e)
            case Undefined => false
  {
    hide ReadPhdr, ParseImage, Overflows, TableOverflows;
    var parsed := ParseImage(bytes);
    ParseIsDefined(bytes);
    if !parsed.Value? { return Error(parsed.error); }
    var s := parsed.value;
    var count, i := 0, 0;
    while i < s.phnum
      invariant 0 <= i <= s.phnum && count == |Loads(bytes, i)|
      invariant i > 0 ==> !Overflows(s, i - 1)
    {
      if Overflows(s, i) {
        LastOverflows(s, i);
        return Undefined;
      }
      HeaderInside(bytes, i);
      var h := ReadPhdr(bytes, s.phoff + i * s.phentsize);
      if h.kind == PT_LOAD { count := count + 1; }
      i := i + 1;
    }
    NoneOverflows(s);
    r := Value(count);
  }

  datatype Segment = Segment(vaddr: nat, paddr: nat, offset: nat, filesz: nat, memsz: nat, flags: nat, align: nat)

  /** The stored alignment keeps 32 bits. */
  function ToSegment(h: Phdr): Segment {
    Segment(h.vaddr, h.paddr, h.offset, h.filesz, h.memsz, h.flags, h.align % TWO32)
  }

  function ToSegments(hs: seq<Phdr>): (r: seq<Segment>)
    ensures |r| == |hs| && forall i :: 0 <= i < |hs| ==> r[i] == ToSegment(hs[i])
  {
    seq(|hs|, i requires 0 <= i < |hs| => ToSegment(hs[i]))
  }

  /** The checks the extracting pass makes on a PT_LOAD header. */
  predicate LoadOk(h: Phdr, size: nat) {
    && h.offset <= size && h.filesz <= size - h.offset && h.filesz <= h.memsz
    && (h.align > 1 ==> And(h.align, h.align - 1) == 0 && h.vaddr % h.align == h.offset % h.align)
  }

  predicate LoadsOk(hs: seq<Phdr>, size: nat) { forall i :: 0 <= i < |hs| ==> LoadOk(hs[i], size) }

  lemma LoadsOkNone(size: nat)
    ensures LoadsOk([], size)
  {
  }

  lemma LoadsOkAppend(hs: seq<Phdr>, h: Phdr, size: nat)
    requires LoadsOk(hs, size) && LoadOk(h, size)
    ensures LoadsOk(hs + [h], size)
  {
  }

  lemma BadLoad(hs: seq<Phdr>, size: nat, i: nat)
    requires i < |hs| && !LoadOk(hs[i], size)
    ensures !LoadsOk(hs, size)
  {
  }

  /** The headers the extracting pass stores: the first ones, up to the capacity. */
  function Kept(hs: seq<Phdr>, capacity: nat): seq<Phdr> { if |hs| <= capacity then hs else hs[..capacity] }

  ghost predicate OverflowAt(bytes: seq<byte>, capacity: nat, i: nat)
    requires ParseImage(bytes).Value? && i < ParseImage(bytes).value.phnum
  {
    Overflows(ParseImage(bytes).value, i) && |Loads(bytes, i)| < capacity && LoadsOk(Loads(bytes, i), |bytes|)
  }

  /** The extracting pass comes to an entry whose offset overflows: neither a bad header nor a full table stops it
      before. */
  ghost predicate ReachesOverflow(bytes: seq<byte>, capacity: nat)
    requires ParseImage(bytes).Value?
  {
    exists i :: 0 <= i < ParseImage(bytes).value.phnum && OverflowAt(bytes, capacity, i)
  }

  /** An overflow lies behind every entry that does not overflow. */
  lemma OverflowsLater(s: Summary, i: nat, k: nat)
    requires !Overflows(s, i) && Overflows(s, k)
    ensures k > i
  {
    if k <= i { MulMono(k, i, s.phentsize); }
  }

  /** A bad header met within the capacity makes the kept headers bad, and no overflow is reached. */
  lemma BadLoadStops(bytes: seq<byte>, capacity: nat, i: nat)
    requires ParseImage(bytes).Value? && i < ParseImage(bytes).value.phnum && !Overflows(ParseImage(bytes).value, i)
    requires Header(bytes, i).kind == PT_LOAD && !LoadOk(Header(bytes, i), |bytes|) && |Loads(bytes, i)| < capacity
    ensures !LoadsOk(Kept(AllLoads(bytes), capacity), |bytes|) && !ReachesOverflow(bytes, capacity)
  {
    hide Header, Overflows, ParseImage, LoadOk;
    var s, at := ParseImage(bytes).value, |Loads(bytes, i)|;
    LoadsAreTheLoadHeaders(bytes, s.phnum, i);
    BadLoad(Kept(AllLoads(bytes), capacity), |bytes|, at);
    forall k | 0 <= k < s.phnum ensures !OverflowAt(bytes, capacity, k) {
      if Overflows(s, k) {
        OverflowsLater(s, i, k);
        LoadsAreTheLoadHeaders(bytes, k, i);
        BadLoad(Loads(bytes, k), |bytes|, at);
      }
    }
  }

  lemma {:induction false} LoadsGrow(bytes: seq<byte>, i: nat, n: nat)
    requires ParseImage(bytes).Value? && i <= n <= ParseImage(bytes).value.phnum
    ensures Loads(bytes, i) <= Loads(bytes, n)
    decreases n - i
  {
    hide Header;
    if i < n { LoadsGrow(bytes, i + 1, n); }
  }

  /** Where the loop ends, what it holds is what is kept, and no overflow is reached. */
  lemma KeptAtEnd(bytes: seq<byte>, capacity: nat, i: nat)
    requires ParseImage(bytes).Value? && i <= ParseImage(bytes).value.phnum && |Loads(bytes, i)| <= capacity
    requires i < ParseImage(bytes).value.phnum ==> |Loads(bytes, i)| == capacity
    requires i > 0 ==> !Overflows(ParseImage(bytes).value, i - 1)
    ensures Kept(AllLoads(bytes), capacity) == Loads(bytes, i) && !ReachesOverflow(bytes, capacity)
  {
    hide Header, Overflows, ParseImage, LoadsOk;
    var s := ParseImage(bytes).value;
    LoadsGrow(bytes, i, s.phnum);
    forall k | 0 <= k < s.phnum ensures !OverflowAt(bytes, capacity, k) {
      if Overflows(s, k) {
        if i > 0 { OverflowsLater(s, i - 1, k); }
        LoadsGrow(bytes, i, k);
      }
    }
  }

  /** `elf_extract_load_segments` for any capacity. */
  method ExtractLoads(bytes: seq<byte>, capacity: nat) returns (r: Outcome<seq<Segment>>)
    ensures match ParseImage(bytes)
            case Value(s) =>
              r == if ReachesOverflow(bytes, capacity) then Undefined
                   else if LoadsOk(Kept(AllLoads(bytes), capacity), |bytes|)
                   then Value(ToSegments(Kept(AllLoads(bytes), capacity)))
                   else Error(Malformed)
            case Error(e) => r == Error(e)
            case Undefined => false
  {
    hide ReadPhdr, LoadOk, ParseImage, Overflows, LoadsOk;
    var parsed := ParseImage(bytes);
    ParseIsDefined(bytes);
    if !parsed.Value? { return Error(parsed.error); }
    var s := parsed.value;
    LoadsOkNone(|bytes|);
    var segments, i := [], 0;
    while i < s.phnum
      invariant 0 <= i <= s.phnum && segments == ToSegments(Loads(bytes, i)) && LoadsOk(Loads(bytes, i), |bytes|)
      invariant |segments| <= capacity && (i > 0 ==> !Overflows(s, i - 1))
    {
      if |segments| >= capacity { break; }
      if Overflows(s, i) {
        assert OverflowAt(bytes, capacity, i);
        return Undefined;
      }
      HeaderInside(bytes, i);
      var h := ReadPhdr(bytes, s.phoff + i * s.phentsize);
      if h.kind == PT_LOAD {
        if !LoadOk(h, |bytes|) {
          BadLoadStops(bytes, capacity, i);
          return Error(Malformed);
        }
        assert Loads(bytes, i + 1) == Loads(bytes, i) + [h];
        LoadsOkAppend(Loads(bytes, i), h, |bytes|);
        segments := segments + [ToSegment(h)];
      } else {
        assert Loads(bytes, i + 1) == Loads(bytes, i);
      }
      i := i + 1;
    }
    KeptAtEnd(bytes, capacity, i);
    r := Value(segments);
  }

  /** A table without overflow is never cut off by one. */
  lemma NothingToReach(bytes: seq<byte>, capacity: nat)
    requires ParseImage(bytes).Value? && !TableOverflows(ParseImage(bytes).value)
    ensures !ReachesOverflow(bytes, capacity)
  {
    hide ParseImage, Overflows, LoadsOk;
    var s := ParseImage(bytes).value;
    forall k | 0 <= k < s.phnum ensures !OverflowAt(bytes, capacity, k) { NoOverflowBelow(s, k); }
  }
}
