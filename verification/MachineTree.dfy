/** Machine descriptions printed as devicetrees and read back by the kernel: which nodes become memory, processors and
    interrupt controllers, stated with the names and identifiers of the devicetree bindings and the printed numbers. */
module MachineTree {
  import opened Bytes
  import opened Devicetree
  import opened FdtReader
  import opened FdtRefinement
  import opened MinimalDtb

  // ---------------------------------------------------------------- machine descriptions

  /** A node: its name, the identifiers its `compatible` lists, and the (address, size) pairs of its `reg`. */
  datatype Node = Node(name: seq<byte>, ids: seq<seq<byte>>, pairs: seq<(nat, nat)>)

  datatype Kind = Ram | Processor | Gic | PlicCtrl | Other

  /** What the kernel takes a node for, by name first and by identifier second. */
  function KindOf(n: Node): Kind {
    if Ascii("memory@") <= n.name || n.name == Ascii("memory") then Ram
    else if Ascii("cpu@") <= n.name || n.name == Ascii("cpu") then Processor
    else if Ascii("arm,gic-v3") in n.ids || Ascii("arm,cortex-a15-gic") in n.ids || Ascii("arm,gic-400") in n.ids ||
            Ascii("arm,gic-v2") in n.ids then Gic
    else if Ascii("riscv,plic0") in n.ids then PlicCtrl
    else Other
  }

  function RangeOf(n: Node): seq<Region>
    requires n.pairs != []
  {
    if KindOf(n).Ram? then [Region(n.pairs[0].0, n.pairs[0].1)] else []
  }

  /** The hardware id keeps 32 bits. */
  function ProcessorOf(n: Node): seq<nat>
    requires n.pairs != []
  {
    if KindOf(n).Processor? then [n.pairs[0].0 % 0x1_0000_0000] else []
  }

  /** The interrupt controller a node describes; the second address of a GIC is its redistributor. */
  function ControllerOf(n: Node): seq<IrqCtrl>
    requires n.pairs != []
  {
    match KindOf(n)
    case Gic =>
      [IrqCtrl(GicV3, n.pairs[0].0, n.pairs[0].1, if |n.pairs| >= 2 then Some(n.pairs[1].0) else None)]
    case PlicCtrl => [IrqCtrl(Plic, n.pairs[0].0, n.pairs[0].1, None)]
    case _ => []
  }

  predicate HavePairs(ns: seq<Node>) { forall i :: 0 <= i < |ns| ==> ns[i].pairs != [] }

  /** The memory ranges of a list of nodes, in order. */
  function RamOf(ns: seq<Node>): seq<Region>
    requires HavePairs(ns)
  {
    if ns == [] then [] else RangeOf(ns[0]) + RamOf(ns[1..])
  }

  /** The hardware ids of its processors. */
  function ProcessorsOf(ns: seq<Node>): seq<nat>
    requires HavePairs(ns)
  {
    if ns == [] then [] else ProcessorOf(ns[0]) + ProcessorsOf(ns[1..])
  }

  /** Its interrupt controllers. */
  function ControllersOf(ns: seq<Node>): seq<IrqCtrl>
    requires HavePairs(ns)
  {
    if ns == [] then [] else ControllerOf(ns[0]) + ControllersOf(ns[1..])
  }

  /** Processors with these hardware ids: number `i` has the `i`-th id, and number 0 is the boot processor. */
  function InOrder(hw: seq<nat>): seq<Cpu> { seq(|hw|, i requires 0 <= i < |hw| => Cpu(i, hw[i], i == 0)) }

  // ---------------------------------------------------------------- printing them

  /** A strings block and where it holds the property names. */
  datatype Keys = Keys(strings: seq<byte>, compatible: nat, addressCells: nat, sizeCells: nat, reg: nat)

  predicate KeysOk(k: Keys) {
    && |k.strings| < TWO32
    && Named(k.strings, k.compatible, Ascii("compatible")) && Named(k.strings, k.reg, Ascii("reg"))
    && Named(k.strings, k.addressCells, Ascii("#address-cells")) && Named(k.strings, k.sizeCells, Ascii("#size-cells"))
  }

  /** The runner's strings block is one. */
  lemma StringsAreKeys()
    ensures KeysOk(Keys(Strings(), 0, 11, 26, 50))
  {
    hide Named;
    StringNames();
  }

  /** NUL-terminated texts one behind the other. */
  function Texts(ids: seq<seq<byte>>): seq<byte> {
    if ids == [] then [] else (ids[0] + [0]) + Texts(ids[1..])
  }

  /** A number in `n` big-endian cells. */
  function PutCells(n: nat, v: nat): (r: seq<byte>)
    requires n <= 2
    ensures |r| == 4 * n
  {
    if n == 0 then [] else if n == 1 then PutBe32(v) else PutBe64(v)
  }

  predicate FitsCells(n: nat, v: nat) { v < if n == 0 then 1 else if n == 1 then TWO32 else TWO64 }

  function PutPair(c: Cells, p: (nat, nat)): (r: seq<byte>)
    requires c.ac <= 2 && c.sc <= 2
    ensures |r| == 4 * (c.ac + c.sc)
  {
    PutCells(c.ac, p.0) + PutCells(c.sc, p.1)
  }

  function PutPairs(c: Cells, ps: seq<(nat, nat)>): seq<byte>
    requires c.ac <= 2 && c.sc <= 2
  {
    if ps == [] then [] else PutPair(c, ps[0]) + PutPairs(c, ps[1..])
  }

  predicate CellsOk(c: Cells) { 1 <= c.ac <= 2 && c.sc <= 2 }

  /** Node `n` can be printed under a parent with cells `c`. */
  predicate NodeFits(c: Cells, n: Node) {
    && NoNul(n.name) && (forall i :: 0 <= i < |n.ids| ==> NoNul(n.ids[i])) && n.pairs != []
    && forall i :: 0 <= i < |n.pairs| ==> FitsCells(c.ac, n.pairs[i].0) && FitsCells(c.sc, n.pairs[i].1)
  }

  predicate NodesFit(c: Cells, ns: seq<Node>) { forall i :: 0 <= i < |ns| ==> NodeFits(c, ns[i]) }

  function CellProps(k: Keys, c: Cells): Props {
    Prop(k.addressCells, PutBe32(c.ac), Prop(k.sizeCells, PutBe32(c.sc), NoProps))
  }

  function NodeProps(k: Keys, c: Cells, n: Node): Props
    requires CellsOk(c)
  {
    Prop(k.compatible, Texts(n.ids), Prop(k.reg, PutPairs(c, n.pairs), NoProps))
  }

  /** The nodes as siblings, in front of `rest`. */
  function NodeForest(k: Keys, c: Cells, ns: seq<Node>, rest: Forest): Forest
    requires CellsOk(c)
  {
    if ns == [] then rest
    else Sub(ns[0].name, NodeProps(k, c, ns[0]), NoNodes, NodeForest(k, c, ns[1..], rest))
  }

  const CPU_CELLS := Cells(1, 0)

  /** A root with cells `c`, the devices, and the processors below `/cpus` with one address cell and no size cell. */
  function Tree(k: Keys, c: Cells, devices: seq<Node>, cpus: seq<Node>): Forest
    requires CellsOk(c)
  {
    Sub([], CellProps(k, c),
        NodeForest(k, c, devices,
                   Sub(Ascii("cpus"), CellProps(k, CPU_CELLS), NodeForest(k, CPU_CELLS, cpus, NoNodes), NoNodes)),
        NoNodes)
  }

  // ---------------------------------------------------------------- what one node's properties say

  lemma {:induction false} TextsAreEntries(ids: seq<seq<byte>>)
    requires forall i :: 0 <= i < |ids| ==> NoNul(ids[i])
    ensures Entries(Texts(ids)) == ids
  {
    hide NoNul;
    if ids == [] {
      assert Strnlen([], 0, 0) == Unterminated;
    } else {
      var v := Texts(ids);
      assert v[0..|ids[0]| + 1] == ids[0] + [0];
      StrnlenOf(v, 0, |v|, ids[0]);
      assert v[..|ids[0]|] == ids[0] && v[|ids[0]| + 1..] == Texts(ids[1..]);
      TextsAreEntries(ids[1..]);
    }
  }

  lemma KeysDiffer(k: Keys)
    requires KeysOk(k)
    ensures !Named(k.strings, k.compatible, REG) && !Named(k.strings, k.compatible, ADDRESS_CELLS)
    ensures !Named(k.strings, k.compatible, SIZE_CELLS) && Named(k.strings, k.compatible, COMPATIBLE)
    ensures !Named(k.strings, k.reg, COMPATIBLE) && !Named(k.strings, k.reg, ADDRESS_CELLS)
    ensures !Named(k.strings, k.reg, SIZE_CELLS) && Named(k.strings, k.reg, REG)
    ensures !Named(k.strings, k.addressCells, REG) && !Named(k.strings, k.addressCells, SIZE_CELLS)
    ensures !Named(k.strings, k.addressCells, COMPATIBLE) && Named(k.strings, k.addressCells, ADDRESS_CELLS)
    ensures !Named(k.strings, k.sizeCells, REG) && !Named(k.strings, k.sizeCells, ADDRESS_CELLS)
    ensures !Named(k.strings, k.sizeCells, COMPATIBLE) && Named(k.strings, k.sizeCells, SIZE_CELLS)
  {
    hide NameAt;
    assert |REG| == 3 && |COMPATIBLE| == 10 && |ADDRESS_CELLS| == 14 && |SIZE_CELLS| == 11;
  }

  lemma NamesExist(k: Keys)
    requires KeysOk(k)
    ensures NameAt(k.strings, k.compatible).Some? && NameAt(k.strings, k.reg).Some?
    ensures NameAt(k.strings, k.addressCells).Some? && NameAt(k.strings, k.sizeCells).Some?
  {
    hide NameAt;
  }

  /** The definitions that read a property list, unfolded once. */
  lemma PropStep(off: nat, value: seq<byte>, rest: Props, strings: seq<byte>, key: seq<byte>, count: nat,
                 earlier: Option<seq<byte>>)
    ensures CellCount(Prop(off, value, rest), strings, key, count) ==
            CellCount(rest, strings, key, if Named(strings, off, key) && |value| >= 4 then Be32(value, 0) else count)
    ensures RegOf(Prop(off, value, rest), strings, earlier) ==
            RegOf(rest, strings, if Named(strings, off, REG) then Some(value) else earlier)
    ensures CellCount(NoProps, strings, key, count) == count && RegOf(NoProps, strings, earlier) == earlier
  {
    hide Named;
  }

  lemma WfStep(off: nat, value: seq<byte>, rest: Props, strings: seq<byte>)
    requires NameAt(strings, off).Some? && WfProps(rest, strings)
    requires Named(strings, off, ADDRESS_CELLS) || Named(strings, off, SIZE_CELLS) ==> |value| >= 4
    ensures WfProps(Prop(off, value, rest), strings)
  {
    hide Named, NameAt;
  }

  lemma NoPropsWf(strings: seq<byte>)
    ensures WfProps(NoProps, strings)
  {
  }

  /** A cell-count property list sets the counts and says nothing else. */
  lemma CellPropsFacts(k: Keys, c: Cells, up: Cells)
    requires KeysOk(k) && c.ac < TWO32 && c.sc < TWO32
    ensures CellsOf(CellProps(k, c), k.strings, up) == c && RegOf(CellProps(k, c), k.strings, None) == None
    ensures WfProps(CellProps(k, c), k.strings)
  {
    hide Named, NameAt, KeysOk, CellCount, RegOf, WfProps;
    KeysDiffer(k);
    NamesExist(k);
    GetPutBe32(PutBe32(c.ac), 0, c.ac);
    GetPutBe32(PutBe32(c.sc), 0, c.sc);
    var p1 := Prop(k.sizeCells, PutBe32(c.sc), NoProps);
    PropStep(k.addressCells, PutBe32(c.ac), p1, k.strings, ADDRESS_CELLS, up.ac, None);
    PropStep(k.addressCells, PutBe32(c.ac), p1, k.strings, SIZE_CELLS, up.sc, None);
    PropStep(k.sizeCells, PutBe32(c.sc), NoProps, k.strings, ADDRESS_CELLS, c.ac, None);
    PropStep(k.sizeCells, PutBe32(c.sc), NoProps, k.strings, SIZE_CELLS, up.sc, None);
    PropStep(k.sizeCells, PutBe32(c.sc), NoProps, k.strings, SIZE_CELLS, c.sc, None);
    NoPropsWf(k.strings);
    WfStep(k.sizeCells, PutBe32(c.sc), NoProps, k.strings);
    WfStep(k.addressCells, PutBe32(c.ac), p1, k.strings);
  }

  lemma NodePropsReg(k: Keys, c: Cells, n: Node)
    requires KeysOk(k) && CellsOk(c)
    ensures RegOf(NodeProps(k, c, n), k.strings, None) == Some(PutPairs(c, n.pairs))
    ensures WfProps(NodeProps(k, c, n), k.strings)
  {
    hide Named, NameAt, KeysOk, CellCount, RegOf, WfProps;
    KeysDiffer(k);
    NamesExist(k);
    var v := PutPairs(c, n.pairs);
    var p1 := Prop(k.reg, v, NoProps);
    PropStep(k.compatible, Texts(n.ids), p1, k.strings, REG, 0, None);
    PropStep(k.reg, v, NoProps, k.strings, REG, 0, None);
    PropStep(k.reg, v, NoProps, k.strings, REG, 0, Some(v));
    NoPropsWf(k.strings);
    WfStep(k.reg, v, NoProps, k.strings);
    WfStep(k.compatible, Texts(n.ids), p1, k.strings);
  }

  lemma NodePropsCompatible(k: Keys, c: Cells, n: Node)
    requires KeysOk(k) && CellsOk(c)
    ensures GicCompatible(NodeProps(k, c, n), k.strings) <==> ListsGic(Texts(n.ids))
    ensures PlicCompatible(NodeProps(k, c, n), k.strings) <==> ListsPlic(Texts(n.ids))
  {
    hide Named, ListsGic, ListsPlic, KeysOk;
    KeysDiffer(k);
    var p1 := Prop(k.reg, PutPairs(c, n.pairs), NoProps);
    assert !GicCompatible(p1, k.strings) && !PlicCompatible(p1, k.strings);
  }

  lemma ListsIds(ids: seq<seq<byte>>)
    requires forall i :: 0 <= i < |ids| ==> NoNul(ids[i])
    ensures ListsGic(Texts(ids)) <==>
            Ascii("arm,gic-v3") in ids || Ascii("arm,cortex-a15-gic") in ids || Ascii("arm,gic-400") in ids ||
            Ascii("arm,gic-v2") in ids
    ensures ListsPlic(Texts(ids)) <==> Ascii("riscv,plic0") in ids
  {
    hide Entries, Texts, Ascii, NoNul;
    TextsAreEntries(ids);
  }

  /** The node as the reader summarises it. */
  lemma NodeSummary(k: Keys, c: Cells, n: Node)
    requires KeysOk(k) && CellsOk(c) && NodeFits(c, n)
    ensures var s := Summarise(n.name, NodeProps(k, c, n), k.strings);
            && s.reg == Some(PutPairs(c, n.pairs))
            && (KindOf(n).Ram? <==> s.isMemory)
            && (KindOf(n).Processor? <==> !s.isMemory && s.isCpu)
            && (KindOf(n).Gic? <==> !s.isMemory && !s.isCpu && s.isGic)
            && (KindOf(n).PlicCtrl? <==> !s.isMemory && !s.isCpu && !s.isGic && s.isPlic)
  {
    hide NodeProps, RegOf, GicCompatible, PlicCompatible, ListsGic, ListsPlic, Ascii, KeysOk, Texts, NoNul;
    NodePropsReg(k, c, n);
    NodePropsCompatible(k, c, n);
    ListsIds(n.ids);
  }

  // ---------------------------------------------------------------- what its numbers say

  lemma CellsReadBack(r: seq<byte>, i: nat, n: nat, v: nat)
    requires n <= 2 && FitsCells(n, v) && At(r, i, PutCells(n, v))
    ensures i + 4 * n <= |r| && CellValue(r, i, n) == v
  {
    if n == 1 {
      GetPutBe32(r, i, v);
      assert CellValue(r, i, 0) == 0;
    } else if n == 2 {
      GetPutBe64(r, i, v);
      assert CellValue(r, i, 1) == CellValue(r, i, 0) * TWO32 + Be32(r, i) == Be32(r, i);
    }
  }

  lemma PairReadsBack(r: seq<byte>, i: nat, c: Cells, p: (nat, nat))
    requires CellsOk(c) && FitsCells(c.ac, p.0) && FitsCells(c.sc, p.1) && At(r, i, PutPair(c, p))
    ensures i + 4 * (c.ac + c.sc) <= |r| && CellValue(r, i, c.ac) == p.0 && CellValue(r, i + 4 * c.ac, c.sc) == p.1
  {
    hide At, CellValue, PutCells;
    AtSplit(r, i, PutCells(c.ac, p.0), PutCells(c.sc, p.1));
    CellsReadBack(r, i, c.ac, p.0);
    CellsReadBack(r, i + 4 * c.ac, c.sc, p.1);
  }

  /** The first pair gives address and size, the second, if any, the further address. */
  lemma PairsReadBack(c: Cells, n: Node)
    requires CellsOk(c) && NodeFits(c, n)
    ensures var r := PutPairs(c, n.pairs);
            && RegOk(r, c) && RegBase(r, c) == n.pairs[0].0 && RegSize(r, c) == n.pairs[0].1
            && RegAux(r, c) == if |n.pairs| >= 2 then Some(n.pairs[1].0) else None
  {
    hide PutPair, CellValue, NoNul, FitsCells;
    var ps, r := n.pairs, PutPairs(c, n.pairs);
    assert r == PutPair(c, ps[0]) + PutPairs(c, ps[1..]);
    assert At(r, 0, PutPair(c, ps[0]));
    PairReadsBack(r, 0, c, ps[0]);
    if |ps| >= 2 {
      var a, b, t := PutPair(c, ps[0]), PutPair(c, ps[1]), PutPairs(c, ps[1..][1..]);
      assert r == a + (b + t);
      assert r[|a|..|a| + |b|] == b;
      assert At(r, |a|, b);
      PairReadsBack(r, 4 * (c.ac + c.sc), c, ps[1]);
    } else {
      assert PutPairs(c, ps[1..]) == [];
    }
  }

  lemma FitsHasPair(c: Cells, n: Node)
    requires NodeFits(c, n)
    ensures n.pairs != [] && NoNul(n.name)
  {
  }

  /** What the walk takes from one printed node. */
  lemma NodeOwn(k: Keys, c: Cells, n: Node)
    requires KeysOk(k) && CellsOk(c) && NodeFits(c, n)
    ensures var s := Summarise(n.name, NodeProps(k, c, n), k.strings);
            && s.reg.Some? && RegOk(s.reg.value, c)
            && OwnRegion(s, c) == RangeOf(n) && OwnCpu(s, c) == ProcessorOf(n) && OwnIrq(s, c) == ControllerOf(n)
  {
    hide Summarise, KindOf, PutPairs, RegOk, RegBase, RegSize, RegAux, NodeFits;
    NodeSummary(k, c, n);
    PairsReadBack(c, n);
    assert n.pairs != [] by { FitsHasPair(c, n); }
  }

  lemma AllHavePairs(c: Cells, ns: seq<Node>)
    requires NodesFit(c, ns)
    ensures HavePairs(ns)
  {
  }

  // ---------------------------------------------------------------- lists of nodes

  lemma LeafFacts(name: seq<byte>, props: Props, rest: Forest, strings: seq<byte>, c: Cells, depth: nat)
    ensures var f, s := Sub(name, props, NoNodes, rest), Summarise(name, props, strings);
            && Regions(f, strings, c) == OwnRegion(s, c) + Regions(rest, strings, c)
            && HwIds(f, strings, c) == OwnCpu(s, c) + HwIds(rest, strings, c)
            && Irqs(f, strings, c) == OwnIrq(s, c) + Irqs(rest, strings, c)
            && (WfForest(f, strings, c, depth) <==>
                  && depth + 1 < MAX_FDT_DEPTH && NoNul(name) && WfProps(props, strings)
                  && (s.reg.Some? ==> RegOk(s.reg.value, c)) && WfForest(rest, strings, c, depth))
  {
    hide GicCompatible, PlicCompatible, MemoryName, CpuName, WfProps, RegOk, NoNul, CellsOf, OwnRegion, OwnCpu, OwnIrq;
    var kc := CellsOf(props, strings, c);
    assert Regions(NoNodes, strings, kc) == [] && HwIds(NoNodes, strings, kc) == [] && Irqs(NoNodes, strings, kc) == [];
    assert WfForest(NoNodes, strings, kc, depth + 1);
  }

  lemma NodeAhead(k: Keys, c: Cells, n: Node, tail: Forest, depth: nat)
    requires KeysOk(k) && CellsOk(c) && NodeFits(c, n) && depth + 1 < MAX_FDT_DEPTH
    requires WfForest(tail, k.strings, c, depth)
    ensures n.pairs != []
    ensures var f := Sub(n.name, NodeProps(k, c, n), NoNodes, tail);
            && WfForest(f, k.strings, c, depth)
            && Regions(f, k.strings, c) == RangeOf(n) + Regions(tail, k.strings, c)
            && HwIds(f, k.strings, c) == ProcessorOf(n) + HwIds(tail, k.strings, c)
            && Irqs(f, k.strings, c) == ControllerOf(n) + Irqs(tail, k.strings, c)
  {
    hide KeysOk, WfForest, Regions, HwIds, Irqs, NodeProps, NodeFits, OwnRegion, OwnCpu, OwnIrq, KindOf, WfProps,
         NoNul, RangeOf, ProcessorOf, ControllerOf, Summarise;
    FitsHasPair(c, n);
    NodeOwn(k, c, n);
    NodePropsReg(k, c, n);
    LeafFacts(n.name, NodeProps(k, c, n), tail, k.strings, c, depth);
  }

  /** A list of printed nodes gives exactly what the list describes, in order, ahead of what follows it. */
  lemma {:induction false} ListFacts(k: Keys, c: Cells, ns: seq<Node>, rest: Forest, depth: nat)
    requires KeysOk(k) && CellsOk(c) && NodesFit(c, ns) && depth + 1 < MAX_FDT_DEPTH
    requires WfForest(rest, k.strings, c, depth)
    ensures HavePairs(ns)
    ensures var f := NodeForest(k, c, ns, rest);
            && WfForest(f, k.strings, c, depth)
            && Regions(f, k.strings, c) == RamOf(ns) + Regions(rest, k.strings, c)
            && HwIds(f, k.strings, c) == ProcessorsOf(ns) + HwIds(rest, k.strings, c)
            && Irqs(f, k.strings, c) == ControllersOf(ns) + Irqs(rest, k.strings, c)
    decreases |ns|
  {
    hide KeysOk, WfForest, Regions, HwIds, Irqs, NodeProps, NodeFits, OwnRegion, OwnCpu, OwnIrq, KindOf, WfProps,
         NoNul, RangeOf, ProcessorOf, ControllerOf;
    assert HavePairs(ns) by { AllHavePairs(c, ns); }
    if ns == [] {
    } else {
      assert NodeFits(c, ns[0]);
      ListFacts(k, c, ns[1..], rest, depth);
      NodeAhead(k, c, ns[0], NodeForest(k, c, ns[1..], rest), depth);
    }
  }

  /** An inner node without `reg` gives what its children give. */
  lemma InnerFacts(name: seq<byte>, props: Props, kids: Forest, strings: seq<byte>, c: Cells, depth: nat)
    requires depth + 1 < MAX_FDT_DEPTH && NoNul(name) && WfProps(props, strings) && RegOf(props, strings, None) == None
    requires WfForest(kids, strings, CellsOf(props, strings, c), depth + 1)
    ensures var f, kc := Sub(name, props, kids, NoNodes), CellsOf(props, strings, c);
            && WfForest(f, strings, c, depth) && Regions(f, strings, c) == Regions(kids, strings, kc)
            && HwIds(f, strings, c) == HwIds(kids, strings, kc) && Irqs(f, strings, c) == Irqs(kids, strings, kc)
  {
    hide GicCompatible, PlicCompatible, MemoryName, CpuName, WfProps, RegOk, NoNul, CellsOf, RegOf;
    var s := Summarise(name, props, strings);
    assert OwnRegion(s, c) == [] && OwnCpu(s, c) == [] && OwnIrq(s, c) == [];
    assert Regions(NoNodes, strings, c) == [] && HwIds(NoNodes, strings, c) == [] && Irqs(NoNodes, strings, c) == [];
    assert WfForest(NoNodes, strings, c, depth);
  }

  lemma CpusName()
    ensures NoNul(Ascii("cpus")) && NoNul([])
  {
  }

  lemma CpusFacts(k: Keys, c: Cells, cpus: seq<Node>)
    requires KeysOk(k) && CellsOk(c) && NodesFit(CPU_CELLS, cpus)
    ensures HavePairs(cpus)
    ensures var f := Sub(Ascii("cpus"), CellProps(k, CPU_CELLS), NodeForest(k, CPU_CELLS, cpus, NoNodes), NoNodes);
            && WfForest(f, k.strings, c, 1)
            && Regions(f, k.strings, c) == RamOf(cpus) && HwIds(f, k.strings, c) == ProcessorsOf(cpus)
            && Irqs(f, k.strings, c) == ControllersOf(cpus)
  {
    hide KeysOk, NodesFit, NodeForest, RamOf, ProcessorsOf, ControllersOf, CellProps, CellsOf, WfProps, RegOf, Ascii,
         NoNul;
    assert WfForest(NoNodes, k.strings, CPU_CELLS, 2);
    assert Regions(NoNodes, k.strings, CPU_CELLS) == [] && HwIds(NoNodes, k.strings, CPU_CELLS) == [];
    assert Irqs(NoNodes, k.strings, CPU_CELLS) == [];
    ListFacts(k, CPU_CELLS, cpus, NoNodes, 2);
    CellPropsFacts(k, CPU_CELLS, c);
    CpusName();
    InnerFacts(Ascii("cpus"), CellProps(k, CPU_CELLS), NodeForest(k, CPU_CELLS, cpus, NoNodes), k.strings, c, 1);
  }

  lemma TreeCollects(k: Keys, c: Cells, devices: seq<Node>, cpus: seq<Node>)
    requires KeysOk(k) && CellsOk(c) && NodesFit(c, devices) && NodesFit(CPU_CELLS, cpus)
    ensures HavePairs(devices)
    ensures HavePairs(cpus)
    ensures var f := Tree(k, c, devices, cpus);
            && WfForest(f, k.strings, TOP_CELLS, 0)
            && Regions(f, k.strings, TOP_CELLS) == RamOf(devices) + RamOf(cpus)
            && HwIds(f, k.strings, TOP_CELLS) == ProcessorsOf(devices) + ProcessorsOf(cpus)
            && Irqs(f, k.strings, TOP_CELLS) == ControllersOf(devices) + ControllersOf(cpus)
  {
    hide KeysOk, NodesFit, NodeForest, RamOf, ProcessorsOf, ControllersOf, CellProps, CellsOf, WfProps, RegOf, Ascii,
         NoNul, WfForest, Regions, HwIds, Irqs;
    var below := Sub(Ascii("cpus"), CellProps(k, CPU_CELLS), NodeForest(k, CPU_CELLS, cpus, NoNodes), NoNodes);
    CpusFacts(k, c, cpus);
    ListFacts(k, c, devices, below, 1);
    CellPropsFacts(k, c, TOP_CELLS);
    CpusName();
    InnerFacts([], CellProps(k, c), NodeForest(k, c, devices, below), k.strings, TOP_CELLS, 0);
  }

  /** The printed machine. */
  function Blob(k: Keys, c: Cells, devices: seq<Node>, cpus: seq<Node>): seq<byte>
    requires CellsOk(c)
  {
    Image(SerForest(Tree(k, c, devices, cpus)) + PutBe32(9), k.strings)
  }

  /** Whatever devices and processors a machine has, as long as the kernel's tables hold them, reading its printed
      devicetree returns 0 and lists exactly its memory, processors and interrupt controllers in order, with dense
      processor numbers of which only the first is the boot processor. */
  lemma MachineReadsBack(k: Keys, c: Cells, devices: seq<Node>, cpus: seq<Node>)
    requires KeysOk(k) && CellsOk(c) && NodesFit(c, devices) && NodesFit(CPU_CELLS, cpus)
    requires 60 + |SerForest(Tree(k, c, devices, cpus))| + |k.strings| < TWO32
    ensures HavePairs(devices)
    ensures HavePairs(cpus)
    ensures var ram, hw := RamOf(devices) + RamOf(cpus), ProcessorsOf(devices) + ProcessorsOf(cpus);
            var irqs := ControllersOf(devices) + ControllersOf(cpus);
            |ram| <= 64 && |hw| <= 256 && |irqs| <= 8 ==>
              Parse(Blob(k, c, devices, cpus), Discovery([], [], [], false)) ==
              Parsed(0, Discovery(ram, InOrder(hw), irqs, true))
  {
    hide KeysOk, CellsOk, NodesFit, Tree, SerForest, WfForest, Regions, HwIds, Irqs, RamOf, ProcessorsOf, ControllersOf,
         Parse, Image;
    var f, empty := Tree(k, c, devices, cpus), Discovery([], [], [], false);
    TreeCollects(k, c, devices, cpus);
    var hw := ProcessorsOf(devices) + ProcessorsOf(cpus);
    ImageHolds(f, k.strings);
    if Room(empty, |Regions(f, k.strings, TOP_CELLS)|, |hw|, |Irqs(f, k.strings, TOP_CELLS)|) {
      ReaderFindsAll(Image(SerForest(f) + PutBe32(9), k.strings), f, k.strings, empty);
      assert Numbered(hw, 0) == InOrder(hw);
    }
  }

  // ---------------------------------------------------------------- by the bindings' names

  /** The processor nodes for the given unit addresses and ids. */
  function CpuNodes(units: seq<seq<byte>>, ids: seq<nat>): seq<Node>
    requires |units| == |ids|
  {
    if ids == [] then [] else [Node(Ascii("cpu@") + units[0], [], [(ids[0], 0)])] + CpuNodes(units[1..], ids[1..])
  }

  lemma CpuKind(unit: seq<byte>, pairs: seq<(nat, nat)>)
    ensures KindOf(Node(Ascii("cpu@") + unit, [], pairs)) == Processor
  {
    var name := Ascii("cpu@") + unit;
    assert name[..4] == Ascii("cpu@");
    assert name[0] == 'c' as int && Ascii("memory@")[0] == 'm' as int && Ascii("memory")[0] == 'm' as int;
    assert Ascii("cpu@") <= name;
  }

  lemma CpuNameFits(unit: seq<byte>)
    requires NoNul(unit)
    ensures NoNul(Ascii("cpu@") + unit)
  {
    var name := Ascii("cpu@") + unit;
    forall i | 0 <= i < |name| ensures name[i] != 0 {
      if i < 4 { assert name[i] == Ascii("cpu@")[i] != 0; }
    }
  }

  lemma CpuNodeFits(unit: seq<byte>, id: nat)
    requires NoNul(unit) && id < TWO32
    ensures NodeFits(CPU_CELLS, Node(Ascii("cpu@") + unit, [], [(id, 0)]))
  {
    hide Ascii;
    CpuNameFits(unit);
  }

  lemma CpuFinds(unit: seq<byte>, id: nat)
    requires id < TWO32
    ensures var n := Node(Ascii("cpu@") + unit, [], [(id, 0)]);
            RangeOf(n) == [] && ProcessorOf(n) == [id] && ControllerOf(n) == []
  {
    hide KindOf, Ascii;
    CpuKind(unit, [(id, 0)]);
    assert id % 0x1_0000_0000 == id;
  }

  lemma {:induction false} CpuNodeFacts(units: seq<seq<byte>>, ids: seq<nat>)
    requires |units| == |ids| && forall i :: 0 <= i < |ids| ==> NoNul(units[i]) && ids[i] < TWO32
    ensures var ns := CpuNodes(units, ids);
            && NodesFit(CPU_CELLS, ns) && HavePairs(ns)
            && RamOf(ns) == [] && ProcessorsOf(ns) == ids && ControllersOf(ns) == []
    decreases |ids|
  {
    hide NodeFits, NoNul, RangeOf, ProcessorOf, ControllerOf, Ascii;
    if ids == [] {
    } else {
      var n, rest := Node(Ascii("cpu@") + units[0], [], [(ids[0], 0)]), CpuNodes(units[1..], ids[1..]);
      CpuNodeFacts(units[1..], ids[1..]);
      CpuNodeFits(units[0], ids[0]);
      CpuFinds(units[0], ids[0]);
      assert CpuNodes(units, ids)[1..] == rest;
      assert ids == [ids[0]] + ids[1..];
    }
  }

  lemma NothingFits(c: Cells)
    ensures NodesFit(c, []) && HavePairs([]) && RamOf([]) == [] && ProcessorsOf([]) == [] && ControllersOf([]) == []
  {
  }

  /** Any list of up to 256 processor ids printed as `cpu@` nodes below `/cpus` is read back as that list: processor `i`
      has number `i` and the `i`-th id, and the first is the boot processor. */
  lemma CpusReadBack(k: Keys, c: Cells, units: seq<seq<byte>>, ids: seq<nat>)
    requires KeysOk(k) && CellsOk(c) && |units| == |ids| <= 256
    requires forall i :: 0 <= i < |ids| ==> NoNul(units[i]) && ids[i] < TWO32
    requires 60 + |SerForest(Tree(k, c, [], CpuNodes(units, ids)))| + |k.strings| < TWO32
    ensures Parse(Blob(k, c, [], CpuNodes(units, ids)), Discovery([], [], [], false)) ==
            Parsed(0, Discovery([], InOrder(ids), [], true))
  {
    hide KeysOk, CellsOk, NodesFit, NodeFits, Tree, SerForest, Blob, Parse, CpuNodes;
    CpuNodeFacts(units, ids);
    var cpus := CpuNodes(units, ids);
    NothingFits(c);
    MachineReadsBack(k, c, [], cpus);
    assert [] + RamOf(cpus) == [] && [] + ProcessorsOf(cpus) == ids && [] + ControllersOf(cpus) == [];
  }

  /** A machine with a single device. */
  lemma OneDevice(k: Keys, c: Cells, n: Node)
    requires KeysOk(k) && CellsOk(c) && NodeFits(c, n)
    requires 60 + |SerForest(Tree(k, c, [n], []))| + |k.strings| < TWO32
    ensures n.pairs != []
    ensures Parse(Blob(k, c, [n], []), Discovery([], [], [], false)) ==
            Parsed(0, Discovery(RangeOf(n), Numbered(ProcessorOf(n), 0), ControllerOf(n), true))
  {
    hide KeysOk, CellsOk, Tree, SerForest, Blob, Parse, KindOf, NodeFits;
    FitsHasPair(c, n);
    NothingFits(c);
    NothingFits(CPU_CELLS);
    assert NodesFit(c, [n]);
    MachineReadsBack(k, c, [n], []);
    assert [n][1..] == [];
    assert RamOf([n]) == RangeOf(n) && ProcessorsOf([n]) == ProcessorOf(n) && ControllersOf([n]) == ControllerOf(n);
    var hw := ProcessorOf(n);
    assert Numbered(hw, 0) == InOrder(hw);
  }

  /** A name the kernel gives no meaning to. */
  predicate PlainName(name: seq<byte>) {
    && !(Ascii("memory@") <= name) && name != Ascii("memory")
    && !(Ascii("cpu@") <= name) && name != Ascii("cpu")
  }

  /** A node that lists a GIC identifier is a GIC at its first address, with its second address as redistributor; one
      that lists only the PLIC identifier is a PLIC. */
  lemma ControllerReadsBack(k: Keys, c: Cells, name: seq<byte>, ids: seq<seq<byte>>, first: (nat, nat),
                            second: (nat, nat))
    requires KeysOk(k) && CellsOk(c) && NodeFits(c, Node(name, ids, [first, second])) && PlainName(name)
    requires 60 + |SerForest(Tree(k, c, [Node(name, ids, [first, second])], []))| + |k.strings| < TWO32
    ensures var r := Parse(Blob(k, c, [Node(name, ids, [first, second])], []), Discovery([], [], [], false));
            if Ascii("arm,gic-v3") in ids || Ascii("arm,cortex-a15-gic") in ids || Ascii("arm,gic-400") in ids ||
               Ascii("arm,gic-v2") in ids
            then r == Parsed(0, Discovery([], [], [IrqCtrl(GicV3, first.0, first.1, Some(second.0))], true))
            else if Ascii("riscv,plic0") in ids
            then r == Parsed(0, Discovery([], [], [IrqCtrl(Plic, first.0, first.1, None)], true))
            else r == Parsed(0, Discovery([], [], [], true))
  {
    hide KeysOk, CellsOk, Tree, SerForest, Blob, Parse, NodeFits, Ascii;
    var n := Node(name, ids, [first, second]);
    OneDevice(k, c, n);
    assert Numbered([], 0) == [];
  }

  lemma CpusIsPlain()
    ensures PlainName(Ascii("cpus")) && PlainName(Ascii("cpu-map"))
  {
    assert Ascii("cpus")[0] == Ascii("cpu-map")[0] == 'c' as int;
    assert Ascii("memory@")[0] == 'm' as int;
    assert Ascii("cpu@")[3] == '@' as int && Ascii("cpus")[3] == 's' as int && Ascii("cpu-map")[3] == '-' as int;
  }

  /** Neither `cpus` nor `cpu-map` is a processor, whatever its `reg` holds. */
  lemma CpusIsNoCpu(k: Keys, c: Cells, name: seq<byte>, pairs: seq<(nat, nat)>)
    requires KeysOk(k) && CellsOk(c) && NodeFits(c, Node(name, [], pairs))
    requires name == Ascii("cpus") || name == Ascii("cpu-map")
    requires 60 + |SerForest(Tree(k, c, [Node(name, [], pairs)], []))| + |k.strings| < TWO32
    ensures Parse(Blob(k, c, [Node(name, [], pairs)], []), Discovery([], [], [], false)) ==
            Parsed(0, Discovery([], [], [], true))
  {
    hide KeysOk, CellsOk, Tree, SerForest, Blob, Parse, NodeFits, Ascii;
    CpusIsPlain();
    OneDevice(k, c, Node(name, [], pairs));
    assert Numbered([], 0) == [];
  }
}
