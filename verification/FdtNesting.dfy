/** The reader's limits as callers meet them: how deep nodes may nest, and what a second call does. */
module FdtNesting {
  import opened Bytes
  import opened Devicetree
  import opened FdtReader
  import opened FdtRefinement
  import opened MinimalDtb

  /** Nodes of these names, each inside the one before. */
  function Chain(names: seq<seq<byte>>): Forest {
    if names == [] then NoNodes else Sub(names[0], NoProps, Chain(names[1..]), NoNodes)
  }

  predicate NamesOk(names: seq<seq<byte>>) { forall i :: 0 <= i < |names| ==> NoNul(names[i]) }

  lemma ChainUnfold(names: seq<seq<byte>>)
    requires names != []
    ensures SerForest(Chain(names)) == BeginNode(names[0]) + (SerForest(Chain(names[1..])) + PutBe32(2))
  {
    var c := Chain(names[1..]);
    assert SerForest(NoNodes) == [] && SerProps(NoProps) == [];
    assert BeginNode(names[0]) + [] + SerForest(c) + PutBe32(2) + [] ==
           BeginNode(names[0]) + (SerForest(c) + PutBe32(2));
  }

  lemma {:induction false} ChainWellFormed(names: seq<seq<byte>>, strings: seq<byte>, c: Cells, depth: nat)
    requires NamesOk(names) && depth + |names| < MAX_FDT_DEPTH
    ensures WfForest(Chain(names), strings, c, depth)
    decreases |names|
  {
    if names == [] {
    } else {
      ChainWellFormed(names[1..], strings, c, depth + 1);
      assert CellsOf(NoProps, strings, c) == c && RegOf(NoProps, strings, None) == None && WfProps(NoProps, strings);
      assert WfForest(NoNodes, strings, c, depth);
    }
  }

  lemma {:induction false} ChainFindsNothing(names: seq<seq<byte>>, strings: seq<byte>, c: Cells, d: Discovery)
    ensures Walk(Chain(names), strings, c, d) == d
    decreases |names|
  {
    hide MemoryName, CpuName, GicCompatible, PlicCompatible;
    if names == [] {
    } else {
      ChainFindsNothing(names[1..], strings, c, d);
      assert CellsOf(NoProps, strings, c) == c && RegOf(NoProps, strings, None) == None;
      var s := Summarise(names[0], NoProps, strings);
      assert Close(d, s, c) == d;
      assert Walk(NoNodes, strings, c, d) == d;
    }
  }

  /** A begin token with the stack full is refused. */
  lemma FullStep(blob: seq<byte>, h: Header, st: State, name: seq<byte>)
    requires |st.frames| >= MAX_FDT_DEPTH && NoNul(name)
    requires At(blob, st.pos, BeginNode(name)) && st.pos + |BeginNode(name)| <= h.End() < TWO32
    ensures Step(blob, h, st) == Return(-1, st.d)
  {
    hide OpenFrame, Strnlen;
    var p := st.pos + 4;
    NameInside(blob, st.pos, name, h.End() - p);
    SpansOfName(name);
  }

  lemma RunReturn(blob: seq<byte>, h: Header, st: State, d: Discovery)
    requires st.frames != [] && st.pos < h.End() && Step(blob, h, st) == Return(-1, d)
    ensures Run(blob, h, st) == Parsed(-1, d)
  {
    hide Step;
  }

  lemma BeginLength(name: seq<byte>)
    ensures |BeginNode(name)| >= 4
  {
  }

  lemma {:induction false} RunTooDeep(blob: seq<byte>, h: Header, st: State, names: seq<seq<byte>>)
    requires 0 < |st.frames| <= MAX_FDT_DEPTH && NamesOk(names) && |st.frames| + |names| > MAX_FDT_DEPTH
    requires At(blob, st.pos, SerForest(Chain(names))) && st.pos + |SerForest(Chain(names))| <= h.End() < TWO32
    ensures Run(blob, h, st) == Parsed(-1, st.d)
    decreases |names|
  {
    hide Run, Step, SerForest, BeginNode, At, Chain, OpenFrame;
    var name, rest := names[0], SerForest(Chain(names[1..])) + PutBe32(2);
    assert NoNul(name);
    ChainUnfold(names);
    AtSplit(blob, st.pos, BeginNode(name), rest);
    assert |BeginNode(name)| >= 4 by { BeginLength(name); }
    if |st.frames| == MAX_FDT_DEPTH {
      FullStep(blob, h, st, name);
      RunReturn(blob, h, st, st.d);
    } else {
      BeginStep(blob, h, st, name);
      var st' := State(st.pos + |BeginNode(name)|, st.frames + [OpenFrame(name, st.frames[|st.frames| - 1])], st.d);
      RunNext(blob, h, st, st');
      AtSplit(blob, st'.pos, SerForest(Chain(names[1..])), PutBe32(2));
      RunTooDeep(blob, h, st', names[1..]);
    }
  }

  /** Nodes nested 31 deep are read; one level more is refused with -1, and nothing is recorded either way. */
  lemma NestingLimit(names: seq<seq<byte>>, strings: seq<byte>, d: Discovery)
    requires NamesOk(names) && 60 + |SerForest(Chain(names))| + |strings| < TWO32 && !d.fdtParsed
    ensures Parse(Image(SerForest(Chain(names)) + PutBe32(9), strings), d) ==
            if |names| <= 31 then Parsed(0, d.(fdtParsed := true)) else Parsed(-1, d)
  {
    hide SerForest, Chain, Run, Walk, WfForest;
    var f := Chain(names);
    var blob := Image(SerForest(f) + PutBe32(9), strings);
    if |names| <= 31 {
      ChainWellFormed(names, strings, TOP_CELLS, 0);
      ChainFindsNothing(names, strings, TOP_CELLS, d);
      PrintedTreeReadsBack(f, strings, d);
    } else {
      ImageHeader(SerForest(f) + PutBe32(9), strings);
      AtSplit(blob, 56, SerForest(f), PutBe32(9));
      RunTooDeep(blob, ReadHeader(blob), Start(blob, d), names);
    }
  }

  // ---------------------------------------------------------------- calling twice

  lemma StepMarks(blob: seq<byte>, h: Header, st: State)
    requires st.pos < h.End() && st.frames != []
    ensures Step(blob, h, st).Return? ==>
      var r := Step(blob, h, st);
      if r.code == 0 then r.d == st.d.(fdtParsed := true) else r.code == -1 && r.d == st.d
    ensures Step(blob, h, st).Next? ==> Step(blob, h, st).st.d.fdtParsed == st.d.fdtParsed
  {
    hide Strnlen, GetString, SetProp, OpenFrame;
  }

  lemma {:induction false} RunMarks(blob: seq<byte>, h: Header, st: State)
    requires st.frames != [] && !st.d.fdtParsed
    ensures match Run(blob, h, st)
            case Parsed(code, d) => (code == 0 && d.fdtParsed) || (code == -1 && !d.fdtParsed)
            case Crashed => true
    decreases h.End() - st.pos
  {
    hide Step;
    if st.pos < h.End() {
      StepMarks(blob, h, st);
      match Step(blob, h, st)
      case Next(st') => RunMarks(blob, h, st');
      case Return(_, _) =>
      case Fault =>
    }
  }

  /** A successful call marks the discovery as parsed, and then a second call on any blob with the magic word changes
      nothing and succeeds; a failed call leaves it unmarked. A blob without the magic word is refused unread. */
  lemma SecondCall(blob: seq<byte>, other: seq<byte>, d: Discovery)
    requires |blob| >= 4 && |other| >= 4 && Parse(blob, d).Parsed?
    ensures var r := Parse(blob, d);
            && (r.code == 0 <==> r.d.fdtParsed && Be32(blob, 0) == 0xD00D_FEED)
            && (r.code == 0 && Be32(other, 0) == 0xD00D_FEED ==> Parse(other, r.d) == Parsed(0, r.d))
            && (Be32(blob, 0) != 0xD00D_FEED ==> r == Parsed(-1, d))
  {
    hide Run, Be32;
    if Be32(blob, 0) == FDT_MAGIC && !d.fdtParsed && |blob| >= HEADER_SIZE {
      RunMarks(blob, ReadHeader(blob), Start(blob, d));
    }
  }
}
