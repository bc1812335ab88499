/** Devicetrees as values: their structure-block encoding (chapter 5 of the Devicetree
    Specification) and what a recursive walk discovers in them. */
module Devicetree {
  import opened Bytes

  /** A property list; `NopP` is an FDT_NOP token standing between properties. The name is an
      offset into the strings block, as in the format, so names may share their storage. */
  datatype Props = NoProps | NopP(rest: Props) | Prop(nameOff: nat, value: seq<byte>, rest: Props)

  /** Sibling nodes; `NopN` is an FDT_NOP token standing between nodes. */
  datatype Forest =
    | NoNodes
    | NopN(rest: Forest)
    | Sub(name: seq<byte>, props: Props, kids: Forest, rest: Forest)

  const FDT_BEGIN_NODE := 1
  const FDT_END_NODE := 2
  const FDT_PROP := 3
  const FDT_NOP := 4
  const FDT_END := 9
  const MAX_FDT_DEPTH := 32
  const MAX_MEM_REGIONS := 64
  const MAX_CPUS := 256
  const MAX_IRQ_CONTROLLERS := 8
  const REG := Ascii("reg")
  const COMPATIBLE := Ascii("compatible")
  const ADDRESS_CELLS := Ascii("#address-cells")
  const SIZE_CELLS := Ascii("#size-cells")

  // ------------------------------------------------------------------ encoding

  function Padded(x: seq<byte>): (r: seq<byte>)
    ensures |r| % 4 == 0 && x <= r && |r| == |x| + Pad4(|x|)
  {
    x + Zeros(Pad4(|x|))
  }

  function BeginNode(name: seq<byte>): seq<byte> {
    PutBe32(1) + Padded(name + [0])
  }

  function PropToken(nameOff: nat, value: seq<byte>): seq<byte> {
    PutBe32(3) + PutBe32(|value|) + PutBe32(nameOff) + Padded(value)
  }

  function SerProps(p: Props): seq<byte> {
    match p
    case NoProps => []
    case NopP(rest) => PutBe32(4) + SerProps(rest)
    case Prop(off, value, rest) => PropToken(off, value) + SerProps(rest)
  }

  function SerForest(f: Forest): seq<byte> {
    match f
    case NoNodes => []
    case NopN(rest) => PutBe32(4) + SerForest(rest)
    case Sub(name, props, kids, rest) =>
      BeginNode(name) + SerProps(props) + SerForest(kids) + PutBe32(2) + SerForest(rest)
  }

  // ------------------------------------------------- what properties say of a node

  datatype Cells = Cells(ac: nat, sc: nat)

  /** The string a name offset denotes in a strings block. */
  function NameAt(strings: seq<byte>, off: nat): Option<seq<byte>> {
    if off >= |strings| then None
    else
      match Strnlen(strings, off, |strings| - off)
      case Len(n) => Some(strings[off..off + n])
      case _ => None
  }

  predicate Named(strings: seq<byte>, off: nat, key: seq<byte>) {
    NameAt(strings, off) == Some(key)
  }

  /** The last value given to a cell-count property, or the count inherited from the parent. */
  function CellCount(p: Props, strings: seq<byte>, key: seq<byte>, inherited: nat): nat {
    match p
    case NoProps => inherited
    case NopP(rest) => CellCount(rest, strings, key, inherited)
    case Prop(off, value, rest) =>
      CellCount(rest, strings, key,
                if Named(strings, off, key) && |value| >= 4 then Be32(value, 0) else inherited)
  }

  function CellsOf(p: Props, strings: seq<byte>, parent: Cells): Cells {
    Cells(CellCount(p, strings, ADDRESS_CELLS, parent.ac), CellCount(p, strings, SIZE_CELLS, parent.sc))
  }

  /** The last `reg` property. */
  function RegOf(p: Props, strings: seq<byte>, earlier: Option<seq<byte>>): Option<seq<byte>> {
    match p
    case NoProps => earlier
    case NopP(rest) => RegOf(rest, strings, earlier)
    case Prop(off, value, rest) =>
      RegOf(rest, strings, if Named(strings, off, REG) then Some(value) else earlier)
  }

  /** The NUL-terminated strings a `compatible` value lists; an unterminated tail lists nothing. */
  function Entries(value: seq<byte>): seq<seq<byte>>
    decreases |value|
  {
    match Strnlen(value, 0, |value|)
    case Len(n) => [value[..n]] + Entries(value[n + 1..])
    case _ => []
  }

  predicate IsGicId(e: seq<byte>) {
    e == Ascii("arm,gic-v3") || e == Ascii("arm,cortex-a15-gic") || e == Ascii("arm,gic-400") ||
    e == Ascii("arm,gic-v2")
  }

  predicate IsPlicId(e: seq<byte>) {
    e == Ascii("riscv,plic0")
  }

  predicate ListsGic(value: seq<byte>) {
    exists i :: 0 <= i < |Entries(value)| && IsGicId(Entries(value)[i])
  }

  predicate ListsPlic(value: seq<byte>) {
    exists i :: 0 <= i < |Entries(value)| && IsPlicId(Entries(value)[i])
  }

  predicate GicCompatible(p: Props, strings: seq<byte>) {
    match p
    case NoProps => false
    case NopP(rest) => GicCompatible(rest, strings)
    case Prop(off, value, rest) =>
      (Named(strings, off, COMPATIBLE) && ListsGic(value)) || GicCompatible(rest, strings)
  }

  predicate PlicCompatible(p: Props, strings: seq<byte>) {
    match p
    case NoProps => false
    case NopP(rest) => PlicCompatible(rest, strings)
    case Prop(off, value, rest) =>
      (Named(strings, off, COMPATIBLE) && ListsPlic(value)) || PlicCompatible(rest, strings)
  }

  predicate MemoryName(name: seq<byte>) {
    Ascii("memory@") <= name || name == Ascii("memory")
  }

  predicate CpuName(name: seq<byte>) {
    Ascii("cpu@") <= name || name == Ascii("cpu")
  }

  // ------------------------------------------------------------------- discovery

  datatype Region = Region(base: nat, size: nat)
  datatype Cpu = Cpu(cpuId: nat, hwId: nat, isBsp: bool)
  datatype IrqKind = GicV3 | Plic

  /** `aux` is the redistributor base; `None` leaves the table entry's field as it was. */
  datatype IrqCtrl = IrqCtrl(kind: IrqKind, base: nat, size: nat, aux: Option<nat>)

  datatype Discovery =
    Discovery(regions: seq<Region>, cpus: seq<Cpu>, irqs: seq<IrqCtrl>, fdtParsed: bool)

  /** What a node's name and properties say when it closes. */
  datatype Summary =
    Summary(isMemory: bool, isCpu: bool, isGic: bool, isPlic: bool, reg: Option<seq<byte>>)

  function Summarise(name: seq<byte>, props: Props, strings: seq<byte>): Summary {
    Summary(MemoryName(name), CpuName(name), GicCompatible(props, strings),
            PlicCompatible(props, strings), RegOf(props, strings, None))
  }

  /** `n` big-endian cells read as one number. */
  function CellValue(r: seq<byte>, i: nat, n: nat): nat
    requires i + 4 * n <= |r|
  {
    if n == 0 then 0 else CellValue(r, i, n - 1) * TWO32 + Be32(r, i + 4 * (n - 1))
  }

  /** A `reg` value the parent's cell counts can decode. */
  predicate RegOk(r: seq<byte>, c: Cells) {
    1 <= c.ac <= 2 && c.sc <= 2 && |r| >= 4 * (c.ac + c.sc)
  }

  function RegBase(r: seq<byte>, c: Cells): nat requires RegOk(r, c) {
    CellValue(r, 0, c.ac)
  }

  function RegSize(r: seq<byte>, c: Cells): nat requires RegOk(r, c) {
    CellValue(r, 4 * c.ac, c.sc)
  }

  /** The address of a second (address, size) tuple, when there is one. */
  function RegAux(r: seq<byte>, c: Cells): Option<nat> requires RegOk(r, c) {
    if |r| >= 8 * (c.ac + c.sc) then Some(CellValue(r, 4 * (c.ac + c.sc), c.ac)) else None
  }

  /** Recording one decoded node: the first table its kind asks for that has room. */
  function Record(d: Discovery, s: Summary, base: nat, size: nat, aux: Option<nat>): Discovery {
    if s.isMemory && |d.regions| < MAX_MEM_REGIONS then
      d.(regions := d.regions + [Region(base, size)])
    else if s.isCpu && |d.cpus| < MAX_CPUS then
      d.(cpus := d.cpus + [Cpu(|d.cpus|, base % TWO32, |d.cpus| == 0)])
    else if s.isGic && |d.irqs| < MAX_IRQ_CONTROLLERS then
      d.(irqs := d.irqs + [IrqCtrl(GicV3, base, size, aux)])
    else if s.isPlic && |d.irqs| < MAX_IRQ_CONTROLLERS then
      d.(irqs := d.irqs + [IrqCtrl(Plic, base, size, None)])
    else d
  }

  function Close(d: Discovery, s: Summary, parent: Cells): Discovery {
    match s.reg
    case Some(r) =>
      if RegOk(r, parent) then Record(d, s, RegBase(r, parent), RegSize(r, parent), RegAux(r, parent))
      else d
    case None => d
  }

  /** The recursive walk: children first, then the node itself, then its later siblings. */
  function Walk(f: Forest, strings: seq<byte>, c: Cells, d: Discovery): Discovery {
    match f
    case NoNodes => d
    case NopN(rest) => Walk(rest, strings, c, d)
    case Sub(name, props, kids, rest) =>
      var d1 := Walk(kids, strings, CellsOf(props, strings, c), d);
      Walk(rest, strings, c, Close(d1, Summarise(name, props, strings), c))
  }

  // ------------------------------------------------------ what the walk discovers

  function OwnRegion(s: Summary, c: Cells): seq<Region> {
    if s.reg.Some? && RegOk(s.reg.value, c) && s.isMemory
    then [Region(RegBase(s.reg.value, c), RegSize(s.reg.value, c))] else []
  }

  function OwnCpu(s: Summary, c: Cells): seq<nat> {
    if s.reg.Some? && RegOk(s.reg.value, c) && !s.isMemory && s.isCpu
    then [RegBase(s.reg.value, c) % TWO32] else []
  }

  function OwnIrq(s: Summary, c: Cells): seq<IrqCtrl> {
    if s.reg.Some? && RegOk(s.reg.value, c) && !s.isMemory && !s.isCpu then
      if s.isGic then
        [IrqCtrl(GicV3, RegBase(s.reg.value, c), RegSize(s.reg.value, c), RegAux(s.reg.value, c))]
      else if s.isPlic then [IrqCtrl(Plic, RegBase(s.reg.value, c), RegSize(s.reg.value, c), None)]
      else []
    else []
  }

  /** The memory nodes of a forest in node-closing order. */
  function Regions(f: Forest, strings: seq<byte>, c: Cells): seq<Region> {
    match f
    case NoNodes => []
    case NopN(rest) => Regions(rest, strings, c)
    case Sub(name, props, kids, rest) =>
      Regions(kids, strings, CellsOf(props, strings, c)) +
      OwnRegion(Summarise(name, props, strings), c) + Regions(rest, strings, c)
  }

  /** The hardware ids of the cpu nodes in node-closing order. */
  function HwIds(f: Forest, strings: seq<byte>, c: Cells): seq<nat> {
    match f
    case NoNodes => []
    case NopN(rest) => HwIds(rest, strings, c)
    case Sub(name, props, kids, rest) =>
      HwIds(kids, strings, CellsOf(props, strings, c)) +
      OwnCpu(Summarise(name, props, strings), c) + HwIds(rest, strings, c)
  }

  /** The interrupt controllers in node-closing order. */
  function Irqs(f: Forest, strings: seq<byte>, c: Cells): seq<IrqCtrl> {
    match f
    case NoNodes => []
    case NopN(rest) => Irqs(rest, strings, c)
    case Sub(name, props, kids, rest) =>
      Irqs(kids, strings, CellsOf(props, strings, c)) +
      OwnIrq(Summarise(name, props, strings), c) + Irqs(rest, strings, c)
  }

  /** CPUs numbered densely from `first`; only number zero is the boot processor. */
  function Numbered(hw: seq<nat>, first: nat): (r: seq<Cpu>)
    ensures |r| == |hw|
    ensures forall i :: 0 <= i < |hw| ==> r[i] == Cpu(first + i, hw[i], first + i == 0)
  {
    seq(|hw|, i requires 0 <= i < |hw| => Cpu(first + i, hw[i], first + i == 0))
  }

  lemma NumberedConcat(a: seq<nat>, b: seq<nat>, first: nat)
    ensures Numbered(a + b, first) == Numbered(a, first) + Numbered(b, first + |a|)
  {
  }

  function Extend(d: Discovery, rs: seq<Region>, hw: seq<nat>, irqs: seq<IrqCtrl>): Discovery {
    d.(regions := d.regions + rs, cpus := d.cpus + Numbered(hw, |d.cpus|), irqs := d.irqs + irqs)
  }

  lemma ExtendTwice(d: Discovery, rs: seq<Region>, hw: seq<nat>, irqs: seq<IrqCtrl>,
                    rs': seq<Region>, hw': seq<nat>, irqs': seq<IrqCtrl>)
    ensures Extend(Extend(d, rs, hw, irqs), rs', hw', irqs') == Extend(d, rs + rs', hw + hw', irqs + irqs')
  {
    NumberedConcat(hw, hw', |d.cpus|);
    assert d.cpus + Numbered(hw, |d.cpus|) + Numbered(hw', |d.cpus| + |hw|) ==
           d.cpus + Numbered(hw + hw', |d.cpus|);
    assert d.regions + rs + rs' == d.regions + (rs + rs');
    assert d.irqs + irqs + irqs' == d.irqs + (irqs + irqs');
  }

  predicate Room(d: Discovery, regions: nat, cpus: nat, irqs: nat) {
    |d.regions| + regions <= MAX_MEM_REGIONS && |d.cpus| + cpus <= MAX_CPUS &&
    |d.irqs| + irqs <= MAX_IRQ_CONTROLLERS
  }

  lemma CloseCollects(d: Discovery, s: Summary, c: Cells)
    requires Room(d, |OwnRegion(s, c)|, |OwnCpu(s, c)|, |OwnIrq(s, c)|)
    ensures Close(d, s, c) == Extend(d, OwnRegion(s, c), OwnCpu(s, c), OwnIrq(s, c))
  {
    assert d.regions + [] == d.regions && d.irqs + [] == d.irqs;
    assert d.cpus + Numbered([], |d.cpus|) == d.cpus;
  }

  /** When the tables have room, the walk appends exactly the memory nodes, the cpu nodes and the
      interrupt controllers, in node-closing order and with dense cpu numbers. */
  lemma {:induction false} WalkCollects(f: Forest, strings: seq<byte>, c: Cells, d: Discovery)
    requires Room(d, |Regions(f, strings, c)|, |HwIds(f, strings, c)|, |Irqs(f, strings, c)|)
    ensures Walk(f, strings, c, d) ==
            Extend(d, Regions(f, strings, c), HwIds(f, strings, c), Irqs(f, strings, c))
  {
    match f
    case NoNodes =>
      assert d.regions + [] == d.regions && d.irqs + [] == d.irqs;
      assert d.cpus + Numbered([], |d.cpus|) == d.cpus;
    case NopN(rest) => WalkCollects(rest, strings, c, d);
    case Sub(name, props, kids, rest) =>
      var s, kc := Summarise(name, props, strings), CellsOf(props, strings, c);
      var rk, hk, ik := Regions(kids, strings, kc), HwIds(kids, strings, kc), Irqs(kids, strings, kc);
      var ro, ho, io := OwnRegion(s, c), OwnCpu(s, c), OwnIrq(s, c);
      WalkCollects(kids, strings, kc, d);
      var d1 := Extend(d, rk, hk, ik);
      CloseCollects(d1, s, c);
      ExtendTwice(d, rk, hk, ik, ro, ho, io);
      var d2 := Extend(d, rk + ro, hk + ho, ik + io);
      WalkCollects(rest, strings, c, d2);
      ExtendTwice(d, rk + ro, hk + ho, ik + io, Regions(rest, strings, c), HwIds(rest, strings, c),
                  Irqs(rest, strings, c));
  }

  // ---------------------------------------------------------------- well-formedness

  predicate WfProps(p: Props, strings: seq<byte>) {
    match p
    case NoProps => true
    case NopP(rest) => WfProps(rest, strings)
    case Prop(off, value, rest) =>
      && NameAt(strings, off).Some?
      && (Named(strings, off, ADDRESS_CELLS) || Named(strings, off, SIZE_CELLS) ==> |value| >= 4)
      && WfProps(rest, strings)
  }

  /** A forest whose nodes sit `depth` levels below the top, under a parent with cells `c`. */
  predicate WfForest(f: Forest, strings: seq<byte>, c: Cells, depth: nat) {
    match f
    case NoNodes => true
    case NopN(rest) => WfForest(rest, strings, c, depth)
    case Sub(name, props, kids, rest) =>
      && depth + 1 < MAX_FDT_DEPTH
      && NoNul(name)
      && WfProps(props, strings)
      && (var r := RegOf(props, strings, None); r.Some? ==> RegOk(r.value, c))
      && WfForest(kids, strings, CellsOf(props, strings, c), depth + 1)
      && WfForest(rest, strings, c, depth)
  }
}
