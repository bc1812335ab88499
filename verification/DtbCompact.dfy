/** The packager's devicetree compactor: it drops the padding behind the last block and rewrites the
    header's total size, and no reader can tell. */
module DtbCompact {
  import opened Bytes
  import opened Devicetree
  import opened FdtReader
  import opened FdtRefinement

  /** End of the reservation block: just past its first all-zero entry that lies inside the blob. */
  function ReserveEnd(data: seq<byte>, off: nat, total: nat): (r: Option<nat>)
    requires total <= |data|
    ensures r.Some? ==> off + 16 <= r.value <= total
    decreases total - off
  {
    if off + 16 > total then None
    else if Be64(data, off) == 0 && Be64(data, off + 8) == 0 then Some(off + 16)
    else ReserveEnd(data, off + 16, total)
  }

  function Max(a: nat, b: nat): nat { if a >= b then a else b }

  /** The size the blocks need, when the header, the reservation block and the layout are valid. */
  function CompactSize(data: seq<byte>): Option<nat> {
    if |data| < HEADER_SIZE then None
    else
      var total := Be32(data, 4);
      if Be32(data, 0) != FDT_MAGIC || total < HEADER_SIZE || total > |data| then None
      else
        match ReserveEnd(data, Be32(data, 16), total)
        case None => None
        case Some(e) =>
          var size := Max(Max(HEADER_SIZE, e),
                          Max(Be32(data, 8) + Be32(data, 36), Be32(data, 12) + Be32(data, 32)));
          if size > total then None else Some(size)
  }

  function Compact(data: seq<byte>): Option<seq<byte>> {
    match CompactSize(data)
    case None => None
    case Some(size) => Some(data[..4] + PutBe32(size) + data[8..size])
  }

  /** `_compact_qemu_dtb` between reading and writing the file; `None` is its RuntimeError. */
  method CompactQemuDtb(data: seq<byte>) returns (r: Option<seq<byte>>)
    ensures r == Compact(data)
  {
    if |data| < HEADER_SIZE { return None; }
    var total := Be32(data, 4);
    if Be32(data, 0) != FDT_MAGIC || total < HEADER_SIZE || total > |data| { return None; }
    var reserveEnd, found := Be32(data, 16), false;
    while reserveEnd + 16 <= total && !found
      invariant found ==> ReserveEnd(data, Be32(data, 16), total) == Some(reserveEnd)
      invariant !found ==> ReserveEnd(data, Be32(data, 16), total) == ReserveEnd(data, reserveEnd, total)
      decreases total - reserveEnd, !found
    {
      found := Be64(data, reserveEnd) == 0 && Be64(data, reserveEnd + 8) == 0;
      reserveEnd := reserveEnd + 16;
    }
    if !found { return None; }
    var size := Max(Max(HEADER_SIZE, reserveEnd),
                    Max(Be32(data, 8) + Be32(data, 36), Be32(data, 12) + Be32(data, 32)));
    if size > total { return None; }
    r := Some(data[..4] + PutBe32(size) + data[8..size]);
  }

  // ------------------------------------------------------------- which blobs are accepted

  /** An all-zero reservation entry inside the blob. */
  predicate Terminator(data: seq<byte>, at: nat, total: nat) {
    at + 16 <= total <= |data| && data[at..at + 16] == Zeros(16)
  }

  /** Where entry `k` of the reservation block lies. */
  function EntryAt(off: nat, k: nat): nat { off + 16 * k }

  lemma ZeroByte(s: seq<byte>, i: nat, k: nat)
    requires i + 8 <= |s| && k < 8 && Be64(s, i) == 0
    ensures s[i + k] == 0
  {
    assert Be32(s, i) == 0 && Be32(s, i + 4) == 0;
    assert s[i] == s[i + 1] == s[i + 2] == s[i + 3] == 0;
    assert s[i + 4] == s[i + 4 + 1] == s[i + 4 + 2] == s[i + 4 + 3] == 0;
  }

  lemma ZerosRead(data: seq<byte>, at: nat)
    requires at + 16 <= |data| && data[at..at + 16] == Zeros(16)
    ensures Be64(data, at) == 0 && Be64(data, at + 8) == 0
  {
    var e := data[at..at + 16];
    assert forall i :: 0 <= i < 16 ==> e[i] == 0 && data[at + i] == e[i];
    assert e[0] == e[1] == e[2] == e[3] == e[4] == e[5] == e[6] == e[7] == 0;
    assert e[8] == e[9] == e[10] == e[11] == e[12] == e[13] == e[14] == e[15] == 0;
  }

  lemma ZeroEntry(data: seq<byte>, at: nat, total: nat)
    requires at + 16 <= total <= |data|
    ensures Be64(data, at) == 0 && Be64(data, at + 8) == 0 <==> Terminator(data, at, total)
  {
    hide Be64;
    var e := data[at..at + 16];
    if Be64(data, at) == 0 && Be64(data, at + 8) == 0 {
      forall i | 0 <= i < 16 ensures e[i] == 0 {
        if i < 8 { ZeroByte(data, at, i); } else { ZeroByte(data, at + 8, i - 8); }
      }
      assert e == Zeros(16);
    }
    if e == Zeros(16) { ZerosRead(data, at); }
  }

  lemma BeyondEnd(data: seq<byte>, at: nat, total: nat)
    requires at + 16 > total
    ensures !Terminator(data, at, total)
  {
  }

  /** No entry before the `n`-th one ends the block. */
  ghost predicate NoneBefore(data: seq<byte>, off: nat, total: nat, n: nat) {
    forall k: nat :: k < n ==> !Terminator(data, EntryAt(off, k), total)
  }

  lemma NoneShift(data: seq<byte>, off: nat, total: nat, n: nat)
    requires !Terminator(data, off, total) && NoneBefore(data, off + 16, total, n)
    ensures NoneBefore(data, off, total, n + 1)
  {
    hide Terminator;
    forall k: nat | k < n + 1 ensures !Terminator(data, EntryAt(off, k), total) {
      if k > 0 { assert EntryAt(off, k) == EntryAt(off + 16, k - 1); }
    }
  }

  /** The scan ends behind the first all-zero entry, and fails exactly when there is none. */
  lemma {:induction false} ReserveEndMeaning(data: seq<byte>, off: nat, total: nat) returns (n: nat)
    requires total <= |data|
    ensures var r := ReserveEnd(data, off, total);
            && NoneBefore(data, off, total, n)
            && (r.Some? ==> Terminator(data, EntryAt(off, n), total) && r.value == EntryAt(off, n) + 16)
            && (r.None? ==> EntryAt(off, n) + 16 > total)
    decreases total - off
  {
    hide Terminator, Be64;
    n := 0;
    assert EntryAt(off, 0) == off;
    if off + 16 <= total {
      ZeroEntry(data, off, total);
      if !Terminator(data, off, total) {
        var m := ReserveEndMeaning(data, off + 16, total);
        NoneShift(data, off, total, m);
        n := m + 1;
        assert EntryAt(off, n) == EntryAt(off + 16, m);
      }
    }
  }

  lemma EndFound(data: seq<byte>, off: nat, total: nat)
    requires total <= |data|
    ensures ReserveEnd(data, off, total).Some? <==> exists k: nat :: Terminator(data, EntryAt(off, k), total)
  {
    hide Terminator, ReserveEnd;
    var n := ReserveEndMeaning(data, off, total);
    if ReserveEnd(data, off, total).None? {
      forall k: nat ensures !Terminator(data, EntryAt(off, k), total) {
        if k >= n { BeyondEnd(data, EntryAt(off, k), total); }
      }
    }
  }

  /** A blob is compacted exactly when it has a header with the magic word, a total size inside the file, a terminated
      reservation block, and structure and strings blocks inside the total size. */
  lemma CompactAccepts(data: seq<byte>)
    ensures Compact(data).Some? <==>
            && |data| >= 40 && Be32(data, 0) == 0xD00D_FEED && 40 <= Be32(data, 4) <= |data|
            && (exists k: nat :: Terminator(data, EntryAt(Be32(data, 16), k), Be32(data, 4)))
            && Be32(data, 8) + Be32(data, 36) <= Be32(data, 4) && Be32(data, 12) + Be32(data, 32) <= Be32(data, 4)
  {
    hide Terminator, Be32, Be64, ReserveEnd;
    if |data| >= 40 && 40 <= Be32(data, 4) <= |data| {
      EndFound(data, Be32(data, 16), Be32(data, 4));
    }
  }

  // ---------------------------------------------------------------- what is kept

  /** `out` is `data` cut to a prefix, except for the four bytes of the total size. */
  predicate Trims(data: seq<byte>, out: seq<byte>) {
    && 8 <= |out| <= |data|
    && forall i :: 0 <= i < |out| && !(4 <= i < 8) ==> out[i] == data[i]
  }

  /** Everything outside bytes 4 to 7 is kept, and those hold the exact length. */
  lemma CompactTrims(data: seq<byte>)
    requires Compact(data).Some?
    ensures var out := Compact(data).value;
            Trims(data, out) && |out| == CompactSize(data).value >= HEADER_SIZE && Be32(out, 4) == |out|
  {
    var size, out := CompactSize(data).value, Compact(data).value;
    assert out[4..8] == PutBe32(size);
    GetPutBe32(out, 4, size);
  }

  lemma SliceKept(data: seq<byte>, out: seq<byte>, i: nat, j: nat)
    requires Trims(data, out) && 8 <= i <= j <= |out|
    ensures out[i..j] == data[i..j]
  {
  }

  /** The three blocks survive byte for byte, and no shorter prefix holds the header and all three. */
  lemma BlocksKept(data: seq<byte>)
    requires Compact(data).Some?
    ensures var out, h := Compact(data).value, ReadHeader(data);
            var rsv, end := Be32(data, 16), ReserveEnd(data, Be32(data, 16), Be32(data, 4)).value;
            && h.End() <= |out| && h.offStrings + h.sizeStrings <= |out| && end <= |out|
            && (h.offStruct >= 8 ==> out[h.offStruct..h.End()] == data[h.offStruct..h.End()])
            && (h.offStrings >= 8 ==> out[h.offStrings..h.offStrings + h.sizeStrings] ==
                                      data[h.offStrings..h.offStrings + h.sizeStrings])
            && (rsv >= 8 ==> out[rsv..end] == data[rsv..end])
            && |out| in {HEADER_SIZE, end, h.End(), h.offStrings + h.sizeStrings}
  {
    hide Trims, Be32;
    var out, h := Compact(data).value, ReadHeader(data);
    var rsv, end := Be32(data, 16), ReserveEnd(data, Be32(data, 16), Be32(data, 4)).value;
    CompactTrims(data);
    if h.offStruct >= 8 { SliceKept(data, out, h.offStruct, h.End()); }
    if h.offStrings >= 8 { SliceKept(data, out, h.offStrings, h.offStrings + h.sizeStrings); }
    if rsv >= 8 { SliceKept(data, out, rsv, end); }
  }

  // ------------------------------------------------------------------- idempotence

  lemma WordsAgree(data: seq<byte>, out: seq<byte>, i: nat)
    requires Trims(data, out) && (i >= 8 || i == 0)
    ensures i + 4 <= |out| ==> Be32(out, i) == Be32(data, i)
  {
  }

  lemma NonZeroByte(s: seq<byte>, i: nat, k: nat)
    requires i + 8 <= |s| && k < 8 && s[i + k] != 0
    ensures Be64(s, i) != 0
  {
  }

  /** A reservation block said to start inside the header's first eight bytes cannot start with its
      terminator: the magic or the offset itself makes the entry non-zero. */
  lemma FirstEntryNonZero(s: seq<byte>, off: nat)
    requires |s| >= HEADER_SIZE && Be32(s, 0) == FDT_MAGIC && Be32(s, 16) == off < 8
    ensures !(Be64(s, off) == 0 && Be64(s, off + 8) == 0)
  {
    if off < 4 { NonZeroByte(s, off, 3 - off); } else { NonZeroByte(s, off + 8, 11 - off); }
  }

  lemma {:induction false} ReserveEndKept(data: seq<byte>, out: seq<byte>, off: nat, total: nat)
    requires Trims(data, out) && total <= |data| && off >= 8
    requires ReserveEnd(data, off, total).Some? && ReserveEnd(data, off, total).value <= |out|
    ensures ReserveEnd(out, off, |out|) == ReserveEnd(data, off, total)
    decreases total - off
  {
    WordsAgree(data, out, off);
    WordsAgree(data, out, off + 4);
    WordsAgree(data, out, off + 8);
    WordsAgree(data, out, off + 12);
    if !(Be64(data, off) == 0 && Be64(data, off + 8) == 0) { ReserveEndKept(data, out, off + 16, total); }
  }

  lemma SizeKept(data: seq<byte>, out: seq<byte>)
    requires CompactSize(data).Some? && Trims(data, out)
    requires |out| == CompactSize(data).value >= HEADER_SIZE && Be32(out, 4) == |out|
    ensures CompactSize(out) == Some(|out|)
  {
    hide Be32, Trims;
    WordsAgree(data, out, 0);
    WordsAgree(data, out, 8);
    WordsAgree(data, out, 12);
    WordsAgree(data, out, 16);
    WordsAgree(data, out, 32);
    WordsAgree(data, out, 36);
    var rsv, total := Be32(data, 16), Be32(data, 4);
    if rsv < 8 {
      FirstEntryNonZero(data, rsv);
      FirstEntryNonZero(out, rsv);
      ReserveEndKept(data, out, rsv + 16, total);
    } else {
      ReserveEndKept(data, out, rsv, total);
    }
  }

  lemma WordBytes(s: seq<byte>, i: nat)
    requires i + 4 <= |s|
    ensures PutBe32(Be32(s, i)) == s[i..i + 4]
  {
    var b0: int, b1: int, b2: int, b3: int := s[i], s[i + 1], s[i + 2], s[i + 3];
    var c: int := b0 * 0x100 + b1;
    var e: int := c * 0x100 + b2;
    Digit(b0, b1);
    Digit(c, b2);
    Digit(e, b3);
    ShiftTwice(e * 0x100 + b3);
  }

  lemma RewriteIsIdentity(out: seq<byte>)
    requires CompactSize(out) == Some(|out|) && |out| >= 8 && Be32(out, 4) == |out|
    ensures Compact(out) == Some(out)
  {
    hide CompactSize, Be32, PutBe32;
    WordBytes(out, 4);
    var size := |out|;
    assert PutBe32(size) == out[4..8];
    assert out[..4] + out[4..8] + out[8..size] == out;
  }

  /** Compacting twice is compacting once, for every blob the compactor accepts. */
  lemma CompactIdempotent(data: seq<byte>)
    requires Compact(data).Some?
    ensures Compact(Compact(data).value) == Compact(data)
  {
    var out := Compact(data).value;
    CompactTrims(data);
    SizeKept(data, out);
    RewriteIsIdentity(out);
  }

  // ----------------------------------------------------------- the reader cannot tell

  lemma {:induction false} StrnlenKept(data: seq<byte>, out: seq<byte>, i: nat, max: nat)
    requires Trims(data, out) && i >= 8 && Strnlen(out, i, max) != Outside
    ensures Strnlen(data, i, max) == Strnlen(out, i, max)
    decreases max
  {
    if max > 0 && i < |out| && out[i] != 0 { StrnlenKept(data, out, i + 1, max - 1); }
  }

  lemma {:induction false} ScanCompatKept(data: seq<byte>, out: seq<byte>, off: nat, len: nat, gic: bool, plic: bool)
    requires Trims(data, out) && off >= 8 && ScanCompat(out, off, len, gic, plic) != CompatOutside
    ensures ScanCompat(data, off, len, gic, plic) == ScanCompat(out, off, len, gic, plic)
    decreases len
  {
    hide IsGicId, IsPlicId, Strnlen, Trims;
    if len > 0 {
      StrnlenKept(data, out, off, len);
      if Strnlen(out, off, len).Len? {
        var n := Strnlen(out, off, len).n;
        var e := out[off..off + n];
        SliceKept(data, out, off, off + n);
        ScanCompatKept(data, out, off + n + 1, len - n - 1, gic || IsGicId(e), plic || (!IsGicId(e) && IsPlicId(e)));
      }
    }
  }

  lemma SetPropKept(data: seq<byte>, out: seq<byte>, fr: Frame, name: seq<byte>, at: nat, len: nat)
    requires Trims(data, out) && at >= 8 && SetProp(out, fr, name, at, len).Some?
    ensures SetProp(data, fr, name, at, len) == SetProp(out, fr, name, at, len)
  {
    hide Ascii, ScanCompat;
    WordsAgree(data, out, at);
    if ScanCompat(out, at, len, fr.isGic, fr.isPlic) != CompatOutside {
      ScanCompatKept(data, out, at, len, fr.isGic, fr.isPlic);
    }
  }

  lemma GetStringKept(data: seq<byte>, out: seq<byte>, h: Header, off: nat)
    requires Trims(data, out) && h.offStrings >= 8 && GetString(out, h, off) != OutsideStr
    ensures GetString(data, h, off) == GetString(out, h, off)
  {
    hide Strnlen, Trims;
    if off < h.sizeStrings {
      StrnlenKept(data, out, h.offStrings + off, h.sizeStrings - off);
      var r := Strnlen(out, h.offStrings + off, h.sizeStrings - off);
      if r.Len? { SliceKept(data, out, h.offStrings + off, h.offStrings + off + r.n); }
    }
  }

  lemma CellsKept(data: seq<byte>, out: seq<byte>, i: nat, ac: nat, sc: nat)
    requires Trims(data, out) && i >= 8
    ensures ReadBase(out, i, ac).Some? ==> ReadBase(data, i, ac) == ReadBase(out, i, ac)
    ensures ReadSize(out, i, sc).Some? ==> ReadSize(data, i, sc) == ReadSize(out, i, sc)
  {
    WordsAgree(data, out, i);
    WordsAgree(data, out, i + 4);
  }

  lemma CloseFrameKept(data: seq<byte>, out: seq<byte>, d: Discovery, fr: Frame, ac: nat, sc: nat)
    requires Trims(data, out) && fr.reg.Some? && fr.reg.value.off >= 8
    requires CloseFrame(out, d, fr, ac, sc).Some?
    ensures CloseFrame(data, d, fr, ac, sc) == CloseFrame(out, d, fr, ac, sc)
  {
    hide Trims, ReadBase, ReadSize;
    var off := fr.reg.value.off;
    CellsKept(data, out, off, ac, sc);
    CellsKept(data, out, off + BaseLen(ac), ac, sc);
    CellsKept(data, out, off + BaseLen(ac) + SizeLen(sc), ac, sc);
  }

  /** Cursor and recorded values stay behind the header's total-size field. */
  predicate Above(st: State) {
    && st.pos >= 8 && st.frames != []
    && forall i :: 0 <= i < |st.frames| && st.frames[i].reg.Some? ==> st.frames[i].reg.value.off >= 8
  }

  lemma BeginKept(data: seq<byte>, out: seq<byte>, h: Header, st: State)
    requires Trims(data, out) && Above(st) && st.pos + 4 <= h.End() && StepBegin(out, h, st) != Fault
    ensures StepBegin(data, h, st) == StepBegin(out, h, st)
    ensures StepBegin(out, h, st).Next? ==> Above(StepBegin(out, h, st).st)
  {
    hide Strnlen, Trims, MemoryName, CpuName;
    var p := st.pos + 4;
    StrnlenKept(data, out, p, h.End() - p);
    if Strnlen(out, p, h.End() - p).Len? { SliceKept(data, out, p, p + Strnlen(out, p, h.End() - p).n); }
  }

  lemma EndKept(data: seq<byte>, out: seq<byte>, st: State)
    requires Trims(data, out) && Above(st) && StepEnd(out, st) != Fault
    ensures StepEnd(data, st) == StepEnd(out, st)
    ensures StepEnd(out, st).Next? ==> Above(StepEnd(out, st).st)
  {
    hide Trims, CloseFrame;
    var depth := |st.frames| - 1;
    if st.frames[depth].reg.Some? && depth > 0 {
      CloseFrameKept(data, out, st.d, st.frames[depth], st.frames[depth - 1].ac, st.frames[depth - 1].sc);
    }
  }

  lemma SetPropAbove(blob: seq<byte>, fr: Frame, name: seq<byte>, at: nat, len: nat)
    requires at >= 8 && (fr.reg.Some? ==> fr.reg.value.off >= 8) && SetProp(blob, fr, name, at, len).Some?
    ensures var r := SetProp(blob, fr, name, at, len).value; r.reg.Some? ==> r.reg.value.off >= 8
  {
  }

  lemma PropKept(data: seq<byte>, out: seq<byte>, h: Header, st: State)
    requires Trims(data, out) && Above(st) && st.pos + 4 <= h.End() && h.offStrings >= 8
    requires StepProp(out, h, st) != Fault
    ensures StepProp(data, h, st) == StepProp(out, h, st)
    ensures StepProp(out, h, st).Next? ==> Above(StepProp(out, h, st).st)
  {
    hide SetProp, GetString, Be32, Ascii;
    var p := st.pos + 4;
    if h.End() - p >= 8 {
      assert p + 8 <= |out|;
      WordsAgree(data, out, p);
      WordsAgree(data, out, p + 4);
      var len, off := Be32(out, p), Be32(out, p + 4);
      GetStringKept(data, out, h, off);
      if GetString(out, h, off).Str? && ValueSpan(len) <= h.End() - (p + 8) {
        var fr, name := st.frames[|st.frames| - 1], GetString(out, h, off).s;
        SetPropKept(data, out, fr, name, p + 8, len);
        SetPropAbove(out, fr, name, p + 8, len);
      }
    }
  }

  lemma StepKept(data: seq<byte>, out: seq<byte>, h: Header, st: State)
    requires Trims(data, out) && Above(st) && st.pos < h.End() && h.offStrings >= 8
    requires Step(out, h, st) != Fault
    ensures Step(data, h, st) == Step(out, h, st)
    ensures Step(out, h, st).Next? ==> Above(Step(out, h, st).st)
  {
    hide StepBegin, StepEnd, StepProp, Be32;
    if h.End() - st.pos >= 4 {
      WordsAgree(data, out, st.pos);
      var tag := Be32(out, st.pos);
      if tag == FDT_BEGIN_NODE { BeginKept(data, out, h, st); }
      else if tag == FDT_END_NODE { EndKept(data, out, st); }
      else if tag == FDT_PROP { PropKept(data, out, h, st); }
    }
  }

  lemma AboveFacts(st: State)
    requires Above(st)
    ensures st.pos >= 8 && st.frames != []
  {
  }

  lemma {:induction false} RunKept(data: seq<byte>, out: seq<byte>, h: Header, st: State)
    requires Trims(data, out) && Above(st) && h.offStrings >= 8 && Run(out, h, st) != Crashed
    ensures Run(data, h, st) == Run(out, h, st)
    decreases h.End() - st.pos
  {
    hide Step, Trims, Above;
    if st.pos < h.End() {
      AboveFacts(st);
      StepKept(data, out, h, st);
      if Step(out, h, st).Next? {
        AboveFacts(Step(out, h, st).st);
        RunKept(data, out, h, Step(out, h, st).st);
      }
    }
  }

  /** Compaction preserves meaning: unless the reader runs off the end of the compacted blob, it
      discovers the same thing in both, whatever the blocks contain. */
  lemma CompactParsesAlike(data: seq<byte>, d: Discovery)
    requires Compact(data).Some? && Be32(data, 8) >= 8 && Be32(data, 12) >= 8
    ensures Parse(Compact(data).value, d) != Crashed ==> Parse(data, d) == Parse(Compact(data).value, d)
  {
    hide Compact, CompactSize, Run;
    var out := Compact(data).value;
    CompactTrims(data);
    WordsAgree(data, out, 0);
    WordsAgree(data, out, 8);
    WordsAgree(data, out, 12);
    WordsAgree(data, out, 32);
    WordsAgree(data, out, 36);
    if Be32(out, 0) == FDT_MAGIC && !d.fdtParsed && Parse(out, d) != Crashed {
      RunKept(data, out, ReadHeader(out), Start(out, d));
    }
  }

  /** A compacted devicetree blob still holds its tree. */
  lemma CompactHolds(data: seq<byte>, f: Forest, strings: seq<byte>)
    requires Compact(data).Some? && Be32(data, 8) >= 8 && Be32(data, 12) >= 8 && Holds(data, f, strings)
    ensures Holds(Compact(data).value, f, strings)
  {
    hide Compact, CompactSize, SerForest;
    var out, h := Compact(data).value, ReadHeader(data);
    CompactTrims(data);
    WordsAgree(data, out, 0);
    WordsAgree(data, out, 8);
    WordsAgree(data, out, 12);
    WordsAgree(data, out, 32);
    WordsAgree(data, out, 36);
    BlocksKept(data);
    var t := SerForest(f) + PutBe32(FDT_END);
    SliceKept(data, out, h.offStruct, h.offStruct + |t|);
    SliceKept(data, out, h.offStrings, h.offStrings + |strings|);
  }

  /** For every well-formed devicetree, padded or compacted, the reader returns 0 and the same discovery. */
  lemma CompactTreeParsesAlike(data: seq<byte>, f: Forest, strings: seq<byte>, d: Discovery)
    requires Compact(data).Some? && Be32(data, 8) >= 8 && Be32(data, 12) >= 8
    requires Holds(data, f, strings) && WfForest(f, strings, TOP_CELLS, 0) && !d.fdtParsed
    ensures Parse(data, d) == Parse(Compact(data).value, d)
            == Parsed(0, Walk(f, strings, TOP_CELLS, d).(fdtParsed := true))
  {
    CompactHolds(data, f, strings);
    ReaderRefinesWalk(data, f, strings, d);
    ReaderRefinesWalk(Compact(data).value, f, strings, d);
  }
}
