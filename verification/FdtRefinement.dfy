/** The reader refines the recursive walk: on the encoding of any well-formed devicetree the stack
    machine returns 0 and discovers exactly what the walk collects. */
module FdtRefinement {
  import opened Bytes
  import opened Devicetree
  import opened FdtReader

  /** The blob's strings block, as its header locates it. */
  predicate HasStrings(blob: seq<byte>, h: Header, strings: seq<byte>) {
    |strings| == h.sizeStrings && At(blob, h.offStrings, strings)
  }

  lemma GetStringIsNameAt(blob: seq<byte>, h: Header, strings: seq<byte>, off: nat)
    requires HasStrings(blob, h, strings) && NameAt(strings, off).Some?
    ensures GetString(blob, h, off) == Str(NameAt(strings, off).value)
  {
    hide Strnlen, At;
    StrnlenSlice(blob, h.offStrings, strings, off);
    AtSlice(blob, h.offStrings, strings, off, off + Strnlen(strings, off, |strings| - off).n);
  }

  // -------------------------------------------------------------- compatible lists

  lemma EntriesCons(value: seq<byte>, n: nat)
    requires Strnlen(value, 0, |value|) == Len(n) && n < |value|
    ensures Entries(value) == [value[..n]] + Entries(value[n + 1..])
  {
    hide Strnlen;
  }

  lemma GicStep(value: seq<byte>, n: nat)
    requires Strnlen(value, 0, |value|) == Len(n) && n < |value|
    ensures ListsGic(value) <==> IsGicId(value[..n]) || ListsGic(value[n + 1..])
  {
    hide IsGicId, Entries, Strnlen;
    EntriesCons(value, n);
    var es, rest := Entries(value), Entries(value[n + 1..]);
    if ListsGic(value) {
      var i :| 0 <= i < |es| && IsGicId(es[i]);
      if i > 0 { assert rest[i - 1] == es[i]; }
    }
    if IsGicId(value[..n]) { assert IsGicId(es[0]); }
    if ListsGic(value[n + 1..]) {
      var i :| 0 <= i < |rest| && IsGicId(rest[i]);
      assert es[i + 1] == rest[i];
    }
  }

  lemma PlicStep(value: seq<byte>, n: nat)
    requires Strnlen(value, 0, |value|) == Len(n) && n < |value|
    ensures ListsPlic(value) <==> IsPlicId(value[..n]) || ListsPlic(value[n + 1..])
  {
    hide IsPlicId, Entries, Strnlen;
    EntriesCons(value, n);
    var es, rest := Entries(value), Entries(value[n + 1..]);
    if ListsPlic(value) {
      var i :| 0 <= i < |es| && IsPlicId(es[i]);
      if i > 0 { assert rest[i - 1] == es[i]; }
    }
    if IsPlicId(value[..n]) { assert IsPlicId(es[0]); }
    if ListsPlic(value[n + 1..]) {
      var i :| 0 <= i < |rest| && IsPlicId(rest[i]);
      assert es[i + 1] == rest[i];
    }
  }

  lemma EntriesStep(value: seq<byte>, n: nat)
    requires Strnlen(value, 0, |value|) == Len(n)
    ensures ListsGic(value) <==> IsGicId(value[..n]) || ListsGic(value[n + 1..])
    ensures ListsPlic(value) <==> IsPlicId(value[..n]) || ListsPlic(value[n + 1..])
  {
    hide IsGicId, IsPlicId, ListsGic, ListsPlic;
    GicStep(value, n);
    PlicStep(value, n);
  }

  lemma IdsDisjoint(e: seq<byte>)
    ensures !(IsGicId(e) && IsPlicId(e))
  {
    assert Ascii("riscv,plic0")[0] == 'r' as int;
    assert Ascii("arm,gic-400")[0] == 'a' as int;
  }

  lemma EntriesNone(value: seq<byte>)
    requires !Strnlen(value, 0, |value|).Len?
    ensures !ListsGic(value) && !ListsPlic(value)
  {
  }

  lemma AtAround(blob: seq<byte>, off: nat, value: seq<byte>, n: nat)
    requires At(blob, off, value) && n < |value|
    ensures blob[off..off + n] == value[..n] && At(blob, off + n + 1, value[n + 1..])
  {
    assert value == value[..n + 1] + value[n + 1..];
    AtSplit(blob, off, value[..n + 1], value[n + 1..]);
    assert blob[off..off + n] == blob[off..off + |value|][..n];
  }

  lemma FirstEntry(blob: seq<byte>, off: nat, value: seq<byte>)
    requires At(blob, off, value)
    ensures Strnlen(blob, off, |value|) == Strnlen(value, 0, |value|) != Outside
    ensures Strnlen(value, 0, |value|).Len? ==>
      var n := Strnlen(value, 0, |value|).n;
      blob[off..off + n] == value[..n] && At(blob, off + n + 1, value[n + 1..])
  {
    hide Strnlen, At;
    StrnlenSlice(blob, off, value, 0);
    if Strnlen(value, 0, |value|).Len? { AtAround(blob, off, value, Strnlen(value, 0, |value|).n); }
  }

  lemma {:induction false} ScanCompatLists(blob: seq<byte>, off: nat, value: seq<byte>, gic: bool, plic: bool)
    requires At(blob, off, value)
    ensures ScanCompat(blob, off, |value|, gic, plic) == Flags(gic || ListsGic(value), plic || ListsPlic(value))
    decreases |value|
  {
    hide IsGicId, IsPlicId, ListsGic, ListsPlic, Strnlen, At;
    FirstEntry(blob, off, value);
    match Strnlen(value, 0, |value|)
    case Len(n) =>
      var e, rest := value[..n], value[n + 1..];
      EntriesStep(value, n);
      IdsDisjoint(e);
      ScanCompatLists(blob, off + n + 1, rest, gic || IsGicId(e), plic || (!IsGicId(e) && IsPlicId(e)));
    case _ => EntriesNone(value);
  }

  // --------------------------------------------------------------------- properties

  /** A frame says of its node what the node's properties say. */
  predicate RegAgrees(blob: seq<byte>, reg: Option<RegRef>, value: Option<seq<byte>>) {
    if value.None? then reg.None?
    else reg.Some? && reg.value.len == |value.value| && At(blob, reg.value.off, value.value)
  }

  lemma TokenAt(blob: seq<byte>, h: Header, st: State, tag: nat)
    requires At(blob, st.pos, PutBe32(tag)) && tag < TWO32 && st.pos + 4 <= h.End() && st.frames != []
    ensures Be32(blob, st.pos) == tag
  {
    GetPutBe32(blob, st.pos, tag);
  }

  lemma SpansOfValue(value: seq<byte>)
    requires |value| + 4 <= TWO32
    ensures ValueSpan(|value|) == |Padded(value)|
  {
  }

  lemma SpansOfName(name: seq<byte>)
    requires |name| + 8 <= TWO32
    ensures NameSpan(|name|) == |Padded(name + [0])|
  {
  }

  lemma NameOffsetFits(strings: seq<byte>, off: nat)
    requires NameAt(strings, off).Some?
    ensures off <= |strings|
  {
  }

  lemma PropTokenSize(off: nat, value: seq<byte>)
    ensures |PropToken(off, value)| >= 12 + |value|
  {
  }

  /** The words and the value of an encoded property. */
  lemma PropFields(blob: seq<byte>, pos: nat, off: nat, value: seq<byte>)
    requires At(blob, pos, PropToken(off, value)) && off < TWO32 && |value| < TWO32 - 3
    ensures pos + |PropToken(off, value)| <= |blob| && |PropToken(off, value)| == 12 + ValueSpan(|value|)
    ensures Be32(blob, pos) == FDT_PROP && Be32(blob, pos + 4) == |value| && Be32(blob, pos + 8) == off
    ensures At(blob, pos + 12, value)
  {
    hide Be32;
    var a, b, c, e := PutBe32(FDT_PROP), PutBe32(|value|), PutBe32(off), Padded(value);
    AtSplit(blob, pos, a + b + c, e);
    AtSplit(blob, pos, a + b, c);
    AtSplit(blob, pos, a, b);
    AtSplit(blob, pos + 12, value, Zeros(Pad4(|value|)));
    GetPutBe32(blob, pos, FDT_PROP);
    GetPutBe32(blob, pos + 4, |value|);
    GetPutBe32(blob, pos + 8, off);
    SpansOfValue(value);
  }

  /** One FDT_PROP token updates the open frame as `SetProp` says. */
  lemma PropStep(blob: seq<byte>, h: Header, st: State, off: nat, value: seq<byte>, strings: seq<byte>)
    requires st.frames != [] && HasStrings(blob, h, strings)
    requires At(blob, st.pos, PropToken(off, value)) && st.pos + |PropToken(off, value)| <= h.End() < TWO32
    requires NameAt(strings, off).Some? && |strings| < TWO32
    ensures At(blob, st.pos + 12, value)
    ensures Step(blob, h, st) == StepProp(blob, h, st)
    ensures var fr := SetProp(blob, st.frames[|st.frames| - 1], NameAt(strings, off).value, st.pos + 12, |value|);
            StepProp(blob, h, st) ==
            if fr.None? then Fault
            else Next(State(st.pos + |PropToken(off, value)|, st.frames[..|st.frames| - 1] + [fr.value], st.d))
  {
    hide SetProp, At, Be32, PropToken, GetString, NameAt, HasStrings, ValueSpan;
    PropTokenSize(off, value);
    NameOffsetFits(strings, off);
    PropFields(blob, st.pos, off, value);
    GetStringIsNameAt(blob, h, strings, off);
  }

  lemma KeysDistinct()
    ensures REG != COMPATIBLE && REG != ADDRESS_CELLS && REG != SIZE_CELLS && COMPATIBLE != ADDRESS_CELLS
    ensures COMPATIBLE != SIZE_CELLS && ADDRESS_CELLS != SIZE_CELLS
  {
    assert |REG| == 3 && |COMPATIBLE| == 10 && |ADDRESS_CELLS| == 14 && |SIZE_CELLS| == 11;
  }

  lemma AtEnd(blob: seq<byte>, at: nat, value: seq<byte>)
    requires At(blob, at, value)
    ensures at + |value| <= |blob|
  {
  }

  /** What one property does to the frame's view of the node. */
  lemma SetPropAgrees(blob: seq<byte>, fr: Frame, off: nat, value: seq<byte>, strings: seq<byte>, at: nat,
                      earlier: Option<seq<byte>>)
    requires NameAt(strings, off).Some? && At(blob, at, value) && RegAgrees(blob, fr.reg, earlier)
    requires Named(strings, off, ADDRESS_CELLS) || Named(strings, off, SIZE_CELLS) ==> |value| >= 4
    ensures var r := SetProp(blob, fr, NameAt(strings, off).value, at, |value|);
            && r.Some?
            && r.value.ac == (if Named(strings, off, ADDRESS_CELLS) then Be32(value, 0) else fr.ac)
            && r.value.sc == (if Named(strings, off, SIZE_CELLS) then Be32(value, 0) else fr.sc)
            && r.value.isGic == (fr.isGic || (Named(strings, off, COMPATIBLE) && ListsGic(value)))
            && r.value.isPlic == (fr.isPlic || (Named(strings, off, COMPATIBLE) && ListsPlic(value)))
            && RegAgrees(blob, r.value.reg, if Named(strings, off, REG) then Some(value) else earlier)
            && r.value.isMemory == fr.isMemory && r.value.isCpu == fr.isCpu
  {
    hide ListsGic, ListsPlic, ScanCompat, Ascii, NameAt, At, Be32;
    KeysDistinct();
    ScanCompatLists(blob, at, value, fr.isGic, fr.isPlic);
    if |value| >= 4 {
      Be32Slice(blob, at, value, 0);
      AtEnd(blob, at, value);
    }
  }

  lemma NopStep(blob: seq<byte>, h: Header, st: State)
    requires At(blob, st.pos, PutBe32(FDT_NOP)) && st.pos + 4 <= h.End() && st.frames != []
    ensures Step(blob, h, st) == Next(st.(pos := st.pos + 4))
  {
    TokenAt(blob, h, st, FDT_NOP);
  }

  lemma NoPropFacts(strings: seq<byte>, earlier: Option<seq<byte>>, ac: nat, sc: nat)
    ensures SerProps(NoProps) == [] && RegOf(NoProps, strings, earlier) == earlier
    ensures CellCount(NoProps, strings, ADDRESS_CELLS, ac) == ac && CellCount(NoProps, strings, SIZE_CELLS, sc) == sc
    ensures !GicCompatible(NoProps, strings) && !PlicCompatible(NoProps, strings)
  {
  }

  lemma NopPropFacts(rest: Props, strings: seq<byte>, earlier: Option<seq<byte>>, ac: nat, sc: nat)
    ensures SerProps(NopP(rest)) == PutBe32(FDT_NOP) + SerProps(rest) && |PutBe32(FDT_NOP)| == 4
    ensures WfProps(NopP(rest), strings) <==> WfProps(rest, strings)
    ensures RegOf(NopP(rest), strings, earlier) == RegOf(rest, strings, earlier)
    ensures CellCount(NopP(rest), strings, ADDRESS_CELLS, ac) == CellCount(rest, strings, ADDRESS_CELLS, ac)
    ensures CellCount(NopP(rest), strings, SIZE_CELLS, sc) == CellCount(rest, strings, SIZE_CELLS, sc)
    ensures GicCompatible(NopP(rest), strings) == GicCompatible(rest, strings)
    ensures PlicCompatible(NopP(rest), strings) == PlicCompatible(rest, strings)
  {
  }

  /** What a property list says, by its first property and the rest. */
  lemma PropFacts(off: nat, value: seq<byte>, rest: Props, strings: seq<byte>, earlier: Option<seq<byte>>, ac: nat,
                  sc: nat)
    requires WfProps(Prop(off, value, rest), strings)
    ensures SerProps(Prop(off, value, rest)) == PropToken(off, value) + SerProps(rest)
    ensures NameAt(strings, off).Some? && WfProps(rest, strings)
    ensures Named(strings, off, ADDRESS_CELLS) || Named(strings, off, SIZE_CELLS) ==> |value| >= 4
    ensures var p := Prop(off, value, rest);
            && RegOf(p, strings, earlier) ==
               RegOf(rest, strings, if Named(strings, off, REG) then Some(value) else earlier)
            && CellCount(p, strings, ADDRESS_CELLS, ac) ==
               CellCount(rest, strings, ADDRESS_CELLS,
                         if Named(strings, off, ADDRESS_CELLS) then Be32(value, 0) else ac)
            && CellCount(p, strings, SIZE_CELLS, sc) ==
               CellCount(rest, strings, SIZE_CELLS, if Named(strings, off, SIZE_CELLS) then Be32(value, 0) else sc)
            && GicCompatible(p, strings) ==
               ((Named(strings, off, COMPATIBLE) && ListsGic(value)) || GicCompatible(rest, strings))
            && PlicCompatible(p, strings) ==
               ((Named(strings, off, COMPATIBLE) && ListsPlic(value)) || PlicCompatible(rest, strings))
  {
    hide PropToken, NameAt, Be32, ListsGic, ListsPlic;
  }

  lemma RunNext(blob: seq<byte>, h: Header, st: State, st': State)
    requires st.pos + 4 <= h.End() && st.frames != [] && Step(blob, h, st) == Next(st')
    ensures Run(blob, h, st) == Run(blob, h, st')
  {
    hide Step;
  }

  /** The whole property list: the run continues after it with a frame that agrees with it. */
  lemma {:induction false} RunProps(blob: seq<byte>, h: Header, st: State, p: Props, strings: seq<byte>,
                                    earlier: Option<seq<byte>>)
    returns (fr: Frame)
    requires st.frames != [] && HasStrings(blob, h, strings) && WfProps(p, strings)
    requires At(blob, st.pos, SerProps(p)) && st.pos + |SerProps(p)| <= h.End() < TWO32 && |strings| < TWO32
    requires RegAgrees(blob, st.frames[|st.frames| - 1].reg, earlier)
    ensures var top := st.frames[|st.frames| - 1];
            && fr.ac == CellCount(p, strings, ADDRESS_CELLS, top.ac)
            && fr.sc == CellCount(p, strings, SIZE_CELLS, top.sc)
            && fr.isGic == (top.isGic || GicCompatible(p, strings))
            && fr.isPlic == (top.isPlic || PlicCompatible(p, strings))
            && RegAgrees(blob, fr.reg, RegOf(p, strings, earlier))
            && fr.isMemory == top.isMemory && fr.isCpu == top.isCpu
    ensures Run(blob, h, st) ==
            Run(blob, h, State(st.pos + |SerProps(p)|, st.frames[..|st.frames| - 1] + [fr], st.d))
    decreases p
  {
    hide ListsGic, ListsPlic, SetProp, Step, StepProp, At, RegAgrees, PropToken, HasStrings, NameAt, Be32, Run,
         SerProps, WfProps, CellCount, RegOf, GicCompatible, PlicCompatible;
    var depth := |st.frames| - 1;
    var top := st.frames[depth];
    match p
    case NoProps =>
      NoPropFacts(strings, earlier, top.ac, top.sc);
      fr := top;
      assert st.frames[..depth] + [fr] == st.frames;
    case NopP(rest) =>
      NopPropFacts(rest, strings, earlier, top.ac, top.sc);
      AtSplit(blob, st.pos, PutBe32(FDT_NOP), SerProps(rest));
      NopStep(blob, h, st);
      RunNext(blob, h, st, st.(pos := st.pos + 4));
      fr := RunProps(blob, h, st.(pos := st.pos + 4), rest, strings, earlier);
    case Prop(off, value, rest) =>
      PropFacts(off, value, rest, strings, earlier, top.ac, top.sc);
      var tok := PropToken(off, value);
      PropTokenSize(off, value);
      AtSplit(blob, st.pos, tok, SerProps(rest));
      PropStep(blob, h, st, off, value, strings);
      SetPropAgrees(blob, top, off, value, strings, st.pos + 12, earlier);
      var fr1 := SetProp(blob, top, NameAt(strings, off).value, st.pos + 12, |value|).value;
      var st1 := State(st.pos + |tok|, st.frames[..depth] + [fr1], st.d);
      RunNext(blob, h, st, st1);
      fr := RunProps(blob, h, st1, rest, strings, if Named(strings, off, REG) then Some(value) else earlier);
      assert st1.frames[..depth] == st.frames[..depth];
  }

  // -------------------------------------------------------------------------- nodes

  lemma CellValues(r: seq<byte>, i: nat)
    ensures i + 4 <= |r| ==> CellValue(r, i, 1) == Be32(r, i)
    ensures i + 8 <= |r| ==> CellValue(r, i, 2) == Be64(r, i)
  {
    if i + 8 <= |r| {
      assert CellValue(r, i, 2) == CellValue(r, i, 1) * TWO32 + Be32(r, i + 4);
      assert CellValue(r, i, 1) == CellValue(r, i, 0) * TWO32 + Be32(r, i);
    } else if i + 4 <= |r| {
      assert CellValue(r, i, 1) == CellValue(r, i, 0) * TWO32 + Be32(r, i);
    }
  }

  lemma ReadCells(blob: seq<byte>, off: nat, r: seq<byte>, i: nat, n: nat)
    requires At(blob, off, r) && i + 4 * n <= |r| && n <= 2
    ensures n >= 1 ==> ReadBase(blob, off + i, n) == Some(CellValue(r, i, n))
    ensures ReadSize(blob, off + i, n) == Some(CellValue(r, i, n))
  {
    CellValues(r, i);
    if n >= 1 { Be32Slice(blob, off, r, i); }
    if n == 2 { Be32Slice(blob, off, r, i + 4); }
  }

  /** Closing a frame records what the walk records for the node. */
  lemma CloseAgrees(blob: seq<byte>, d: Discovery, fr: Frame, s: Summary, c: Cells)
    requires fr.isMemory == s.isMemory && fr.isCpu == s.isCpu && fr.isGic == s.isGic && fr.isPlic == s.isPlic
    requires s.reg.Some? && RegAgrees(blob, fr.reg, s.reg) && RegOk(s.reg.value, c)
    ensures CloseFrame(blob, d, fr, c.ac, c.sc) == Some(Close(d, s, c))
  {
    hide ReadBase, ReadSize, CellValue;
    var r, off := s.reg.value, fr.reg.value.off;
    assert BaseLen(c.ac) == 4 * c.ac && SizeLen(c.sc) == 4 * c.sc;
    ReadCells(blob, off, r, 0, c.ac);
    ReadCells(blob, off, r, 4 * c.ac, c.sc);
    assert (c.ac + c.sc) * 8 % TWO32 == (c.ac + c.sc) * 8;
    if |r| >= 8 * (c.ac + c.sc) { ReadCells(blob, off, r, 4 * (c.ac + c.sc), c.ac); }
  }

  lemma NameInside(blob: seq<byte>, pos: nat, name: seq<byte>, max: nat)
    requires NoNul(name) && At(blob, pos, BeginNode(name)) && |name| < max
    ensures Be32(blob, pos) == FDT_BEGIN_NODE
    ensures Strnlen(blob, pos + 4, max) == Len(|name|) && blob[pos + 4..pos + 4 + |name|] == name
  {
    hide Strnlen;
    AtSplit(blob, pos, PutBe32(FDT_BEGIN_NODE), Padded(name + [0]));
    AtSplit(blob, pos + 4, name + [0], Zeros(Pad4(|name| + 1)));
    AtSplit(blob, pos + 4, name, [0]);
    GetPutBe32(blob, pos, FDT_BEGIN_NODE);
    StrnlenOf(blob, pos + 4, max, name);
  }

  /** FDT_BEGIN_NODE pushes a fresh frame. */
  lemma BeginStep(blob: seq<byte>, h: Header, st: State, name: seq<byte>)
    requires 0 < |st.frames| < MAX_FDT_DEPTH && NoNul(name)
    requires At(blob, st.pos, BeginNode(name)) && st.pos + |BeginNode(name)| <= h.End() < TWO32
    ensures Step(blob, h, st) ==
            Next(State(st.pos + |BeginNode(name)|,
                       st.frames + [OpenFrame(name, st.frames[|st.frames| - 1])], st.d))
  {
    hide OpenFrame, Strnlen;
    var p := st.pos + 4;
    NameInside(blob, st.pos, name, h.End() - p);
    SpansOfName(name);
  }

  lemma CloseNothing(d: Discovery, s: Summary, c: Cells)
    requires s.reg.None?
    ensures Close(d, s, c) == d
  {
  }

  /** FDT_END_NODE pops the frame and records the node. */
  lemma EndStep(blob: seq<byte>, h: Header, st: State, s: Summary)
    requires |st.frames| >= 2 && At(blob, st.pos, PutBe32(FDT_END_NODE)) && st.pos + 4 <= h.End()
    requires var fr, up := st.frames[|st.frames| - 1], st.frames[|st.frames| - 2];
             && fr.isMemory == s.isMemory && fr.isCpu == s.isCpu && fr.isGic == s.isGic && fr.isPlic == s.isPlic
             && RegAgrees(blob, fr.reg, s.reg)
             && (s.reg.Some? ==> RegOk(s.reg.value, Cells(up.ac, up.sc)))
    ensures var up := st.frames[|st.frames| - 2];
            Step(blob, h, st) ==
            Next(State(st.pos + 4, st.frames[..|st.frames| - 1], Close(st.d, s, Cells(up.ac, up.sc))))
  {
    hide Close, CloseFrame;
    TokenAt(blob, h, st, FDT_END_NODE);
    var fr, up := st.frames[|st.frames| - 1], st.frames[|st.frames| - 2];
    if s.reg.Some? { CloseAgrees(blob, st.d, fr, s, Cells(up.ac, up.sc)); }
    else { CloseNothing(st.d, s, Cells(up.ac, up.sc)); }
  }

  /** Opening a node and reading its properties leaves one more frame, which agrees with them. */
  lemma RunOpen(blob: seq<byte>, h: Header, st: State, name: seq<byte>, props: Props, strings: seq<byte>)
    returns (fr: Frame)
    requires 0 < |st.frames| < MAX_FDT_DEPTH && NoNul(name) && WfProps(props, strings)
    requires HasStrings(blob, h, strings) && |strings| < TWO32
    requires At(blob, st.pos, BeginNode(name) + SerProps(props))
    requires st.pos + |BeginNode(name)| + |SerProps(props)| <= h.End() < TWO32
    ensures var top, s := st.frames[|st.frames| - 1], Summarise(name, props, strings);
            && CellsOf(props, strings, Cells(top.ac, top.sc)) == Cells(fr.ac, fr.sc)
            && fr.isMemory == s.isMemory && fr.isCpu == s.isCpu && fr.isGic == s.isGic && fr.isPlic == s.isPlic
            && RegAgrees(blob, fr.reg, s.reg)
    ensures Run(blob, h, st) ==
            Run(blob, h, State(st.pos + |BeginNode(name)| + |SerProps(props)|, st.frames + [fr], st.d))
  {
    hide Step, SerProps, BeginNode, At, HasStrings, WfProps, MemoryName, CpuName;
    hide GicCompatible, PlicCompatible, RegOf, CellCount, NoNul;
    AtSplit(blob, st.pos, BeginNode(name), SerProps(props));
    BeginStep(blob, h, st, name);
    var st1 := State(st.pos + |BeginNode(name)|, st.frames + [OpenFrame(name, st.frames[|st.frames| - 1])], st.d);
    fr := RunProps(blob, h, st1, props, strings, None);
    assert st1.frames[..|st.frames|] == st.frames;
  }

  /** Where the parts of an encoded node lie. */
  lemma NodeParts(blob: seq<byte>, pos: nat, a: seq<byte>, b: seq<byte>, c: seq<byte>, g: seq<byte>)
    requires At(blob, pos, a + b + c + PutBe32(FDT_END_NODE) + g)
    ensures At(blob, pos, a + b) && At(blob, pos + |a| + |b|, c)
    ensures At(blob, pos + |a| + |b| + |c|, PutBe32(FDT_END_NODE)) && At(blob, pos + |a| + |b| + |c| + 4, g)
  {
    hide At;
    AtSplit(blob, pos, a + b + c + PutBe32(FDT_END_NODE), g);
    AtSplit(blob, pos, a + b + c, PutBe32(FDT_END_NODE));
    AtSplit(blob, pos, a + b, c);
  }

  lemma SummaryReg(name: seq<byte>, props: Props, strings: seq<byte>)
    ensures Summarise(name, props, strings).reg == RegOf(props, strings, None)
  {
  }

  lemma NoNodeFacts(strings: seq<byte>, c: Cells, d: Discovery)
    ensures SerForest(NoNodes) == [] && Walk(NoNodes, strings, c, d) == d
  {
  }

  lemma NopFacts(rest: Forest, strings: seq<byte>, c: Cells, d: Discovery, depth: nat)
    ensures SerForest(NopN(rest)) == PutBe32(FDT_NOP) + SerForest(rest)
    ensures Walk(NopN(rest), strings, c, d) == Walk(rest, strings, c, d)
    ensures WfForest(NopN(rest), strings, c, depth) <==> WfForest(rest, strings, c, depth)
  {
  }

  lemma NodeFacts(name: seq<byte>, props: Props, kids: Forest, rest: Forest, strings: seq<byte>, c: Cells, d: Discovery,
                  depth: nat)
    requires WfForest(Sub(name, props, kids, rest), strings, c, depth)
    ensures SerForest(Sub(name, props, kids, rest)) ==
            BeginNode(name) + SerProps(props) + SerForest(kids) + PutBe32(FDT_END_NODE) + SerForest(rest)
    ensures Walk(Sub(name, props, kids, rest), strings, c, d) ==
            Walk(rest, strings, c,
                 Close(Walk(kids, strings, CellsOf(props, strings, c), d), Summarise(name, props, strings), c))
    ensures depth + 1 < MAX_FDT_DEPTH && NoNul(name) && WfProps(props, strings)
    ensures var r := RegOf(props, strings, None); r.Some? ==> RegOk(r.value, c)
    ensures WfForest(kids, strings, CellsOf(props, strings, c), depth + 1) && WfForest(rest, strings, c, depth)
  {
    hide Close, Summarise, SerProps, BeginNode, WfProps, RegOf, RegOk, CellsOf, NoNul;
  }

  /** The central induction: from any state whose cursor stands at an encoded forest, the stack machine
      reaches the end of the forest with its stack restored and the walk's discoveries recorded. */
  lemma {:induction false} RunForest(blob: seq<byte>, h: Header, st: State, f: Forest, strings: seq<byte>)
    requires st.frames != [] && HasStrings(blob, h, strings) && |strings| < TWO32
    requires At(blob, st.pos, SerForest(f)) && st.pos + |SerForest(f)| <= h.End() < TWO32
    requires var top := st.frames[|st.frames| - 1]; WfForest(f, strings, Cells(top.ac, top.sc), |st.frames| - 1)
    ensures var top := st.frames[|st.frames| - 1];
            Run(blob, h, st) ==
            Run(blob, h, State(st.pos + |SerForest(f)|, st.frames, Walk(f, strings, Cells(top.ac, top.sc), st.d)))
    decreases f
  {
    hide Run, Step, Close, Summarise, SerForest, SerProps, BeginNode, At, HasStrings, WfForest, WfProps, RegAgrees,
         RegOf, RegOk, CellsOf, NoNul, Walk;
    match f
    case NoNodes => NoNodeFacts(strings, Cells(st.frames[|st.frames| - 1].ac, st.frames[|st.frames| - 1].sc), st.d);
    case NopN(rest) =>
      var top := st.frames[|st.frames| - 1];
      NopFacts(rest, strings, Cells(top.ac, top.sc), st.d, |st.frames| - 1);
      AtSplit(blob, st.pos, PutBe32(FDT_NOP), SerForest(rest));
      NopStep(blob, h, st);
      RunNext(blob, h, st, st.(pos := st.pos + 4));
      RunForest(blob, h, st.(pos := st.pos + 4), rest, strings);
    case Sub(name, props, kids, rest) =>
      var a, b, c := BeginNode(name), SerProps(props), SerForest(kids);
      var top, s := st.frames[|st.frames| - 1], Summarise(name, props, strings);
      var up := Cells(top.ac, top.sc);
      NodeFacts(name, props, kids, rest, strings, up, st.d, |st.frames| - 1);
      NodeParts(blob, st.pos, a, b, c, SerForest(rest));
      var fr := RunOpen(blob, h, st, name, props, strings);
      var st2 := State(st.pos + |a| + |b|, st.frames + [fr], st.d);
      RunForest(blob, h, st2, kids, strings);
      var st3 := State(st2.pos + |c|, st2.frames, Walk(kids, strings, Cells(fr.ac, fr.sc), st.d));
      SummaryReg(name, props, strings);
      EndStep(blob, h, st3, s);
      var st4 := State(st3.pos + 4, st.frames, Close(st3.d, s, up));
      assert st3.frames[..|st.frames|] == st.frames;
      RunNext(blob, h, st3, st4);
      RunForest(blob, h, st4, rest, strings);
  }

  // ------------------------------------------------------------------- whole blobs

  const TOP_CELLS := Cells(2, 2)

  /** The blob holds the devicetree `f`: magic, a structure block that starts with the encoding of `f`
      and FDT_END, and the strings block. */
  ghost predicate Holds(blob: seq<byte>, f: Forest, strings: seq<byte>) {
    && |blob| >= HEADER_SIZE
    && Be32(blob, 0) == FDT_MAGIC
    && var h := ReadHeader(blob);
       && At(blob, h.offStruct, SerForest(f) + PutBe32(FDT_END))
       && |SerForest(f)| + 4 <= h.sizeStruct
       && h.End() < TWO32
       && HasStrings(blob, h, strings)
  }

  /** Reading a well-formed devicetree returns 0 and discovers exactly what the recursive walk collects. */
  lemma ReaderRefinesWalk(blob: seq<byte>, f: Forest, strings: seq<byte>, d: Discovery)
    requires Holds(blob, f, strings) && WfForest(f, strings, TOP_CELLS, 0) && !d.fdtParsed
    ensures Parse(blob, d) == Parsed(0, Walk(f, strings, TOP_CELLS, d).(fdtParsed := true))
  {
    hide Walk, SerForest, WfForest, StepBegin, StepEnd, StepProp;
    var h, st := ReadHeader(blob), Start(blob, d);
    AtSplit(blob, h.offStruct, SerForest(f), PutBe32(FDT_END));
    RunForest(blob, h, st, f, strings);
    var st1 := State(st.pos + |SerForest(f)|, st.frames, Walk(f, strings, TOP_CELLS, d));
    TokenAt(blob, h, st1, FDT_END);
  }

  /** When the tables have room, the lists found are the tree's memory nodes, cpu nodes and interrupt
      controllers in node-closing order, with dense cpu ids of which only 0 is the boot processor. */
  lemma ReaderFindsAll(blob: seq<byte>, f: Forest, strings: seq<byte>, d: Discovery)
    requires Holds(blob, f, strings) && WfForest(f, strings, TOP_CELLS, 0)
    requires d == Discovery([], [], [], false)
    requires Room(d, |Regions(f, strings, TOP_CELLS)|, |HwIds(f, strings, TOP_CELLS)|,
                  |Irqs(f, strings, TOP_CELLS)|)
    ensures Parse(blob, d) ==
            Parsed(0, Discovery(Regions(f, strings, TOP_CELLS), Numbered(HwIds(f, strings, TOP_CELLS), 0),
                                Irqs(f, strings, TOP_CELLS), true))
  {
    ReaderRefinesWalk(blob, f, strings, d);
    WalkCollects(f, strings, TOP_CELLS, d);
  }
}
