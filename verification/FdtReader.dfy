/** The kernel's devicetree reader: a cursor over the structure block and a stack of node frames.
    `Run` is the reader as a function of its state; `ParseDiscovery` is the loop, proved equal to it.
    A read outside the blob or the stack, undefined in C, is the explicit outcome `Fault`. */
module FdtReader {
  import opened Bytes
  import opened Devicetree

  const FDT_MAGIC := 0xd00d_feed
  const HEADER_SIZE := 40

  datatype Header = Header(offStruct: nat, sizeStruct: nat, offStrings: nat, sizeStrings: nat) {
    function End(): nat { offStruct + sizeStruct }
  }

  function ReadHeader(blob: seq<byte>): Header
    requires |blob| >= HEADER_SIZE
  {
    Header(Be32(blob, 8), Be32(blob, 36), Be32(blob, 12), Be32(blob, 32))
  }

  /** A little-endian load followed by the reader's byte swap. */
  function Fdt32ToCpu(v: nat): nat {
    v / 0x100_0000 % 0x100 + v / 0x1_0000 % 0x100 * 0x100
    + v / 0x100 % 0x100 * 0x1_0000 + v % 0x100 * 0x100_0000
  }

  lemma Digit(q: int, r: int)
    requires 0 <= r < 0x100
    ensures (q * 0x100 + r) / 0x100 == q && (q * 0x100 + r) % 0x100 == r
  {
  }

  lemma ShiftTwice(v: int)
    ensures v / 0x1_0000 == v / 0x100 / 0x100 && v / 0x100_0000 == v / 0x100 / 0x100 / 0x100
  {
  }

  lemma SwapDigits(b0: int, b1: int, b2: int, b3: int)
    requires 0 <= b0 < 0x100 && 0 <= b1 < 0x100 && 0 <= b2 < 0x100 && 0 <= b3 < 0x100
    ensures Fdt32ToCpu(b0 + b1 * 0x100 + b2 * 0x1_0000 + b3 * 0x100_0000) ==
            b0 * 0x100_0000 + b1 * 0x1_0000 + b2 * 0x100 + b3
  {
    var e := b3 * 0x100 + b2;
    var c := e * 0x100 + b1;
    var v := c * 0x100 + b0;
    Digit(b3, b2);
    Digit(e, b1);
    Digit(c, b0);
    ShiftTwice(v);
    assert v / 0x100 == c && v / 0x1_0000 == e && v / 0x100_0000 == b3;
  }

  /** The swapped word is the big-endian word of the format, on a little-endian CPU. */
  lemma SwapReadsBigEndian(s: seq<byte>, i: nat)
    requires i + 4 <= |s|
    ensures Fdt32ToCpu(Le32(s, i)) == Be32(s, i)
  {
    SwapDigits(s[i], s[i + 1], s[i + 2], s[i + 3]);
  }

  // ----------------------------------------------------------------------- state

  /** Where the last `reg` value of an open node lies. */
  datatype RegRef = RegRef(off: nat, len: nat)

  datatype Frame = Frame(isMemory: bool, isCpu: bool, isGic: bool, isPlic: bool,
                         reg: Option<RegRef>, ac: nat, sc: nat)

  const ROOT_FRAME := Frame(false, false, false, false, None, 2, 2)

  /** `frames[|frames| - 1]` is the open node; its index is the C variable `depth`. */
  datatype State = State(pos: nat, frames: seq<Frame>, d: Discovery)

  datatype Outcome = Next(st: State) | Return(code: int, d: Discovery) | Fault
  datatype Str = Str(s: seq<byte>) | NullStr | OutsideStr

  function GetString(blob: seq<byte>, h: Header, off: nat): Str {
    if off >= h.sizeStrings then NullStr
    else
      match Strnlen(blob, h.offStrings + off, h.sizeStrings - off)
      case Len(n) => Str(blob[h.offStrings + off..h.offStrings + off + n])
      case Unterminated => NullStr
      case Outside => OutsideStr
  }

  // ------------------------------------------------------------- closing a node

  function ReadBase(blob: seq<byte>, off: nat, ac: nat): Option<nat> {
    if ac == 2 then if off + 8 <= |blob| then Some(Be64(blob, off)) else None
    else if off + 4 <= |blob| then Some(Be32(blob, off)) else None
  }

  function BaseLen(ac: nat): nat { if ac == 2 then 8 else 4 }

  function ReadSize(blob: seq<byte>, off: nat, sc: nat): Option<nat> {
    if sc == 2 then if off + 8 <= |blob| then Some(Be64(blob, off)) else None
    else if sc == 1 then if off + 4 <= |blob| then Some(Be32(blob, off)) else None
    else Some(0)
  }

  function SizeLen(sc: nat): nat { if sc == 2 then 8 else if sc == 1 then 4 else 0 }

  function CloseFrame(blob: seq<byte>, d: Discovery, fr: Frame, ac: nat, sc: nat): Option<Discovery>
    requires fr.reg.Some?
  {
    var off, len := fr.reg.value.off, fr.reg.value.len;
    var base, size := ReadBase(blob, off, ac), ReadSize(blob, off + BaseLen(ac), sc);
    if base.None? || size.None? then None
    else if fr.isMemory && |d.regions| < MAX_MEM_REGIONS then
      Some(d.(regions := d.regions + [Region(base.value, size.value)]))
    else if fr.isCpu && |d.cpus| < MAX_CPUS then
      Some(d.(cpus := d.cpus + [Cpu(|d.cpus|, base.value % TWO32, |d.cpus| == 0)]))
    else if fr.isGic && |d.irqs| < MAX_IRQ_CONTROLLERS then
      if len >= (ac + sc) * 8 % TWO32 then
        var aux := ReadBase(blob, off + BaseLen(ac) + SizeLen(sc), ac);
        if aux.None? then None
        else Some(d.(irqs := d.irqs + [IrqCtrl(GicV3, base.value, size.value, aux)]))
      else Some(d.(irqs := d.irqs + [IrqCtrl(GicV3, base.value, size.value, None)]))
    else if fr.isPlic && |d.irqs| < MAX_IRQ_CONTROLLERS then
      Some(d.(irqs := d.irqs + [IrqCtrl(Plic, base.value, size.value, None)]))
    else Some(d)
  }

  // ------------------------------------------------------------ reading a property

  datatype Compat = Flags(gic: bool, plic: bool) | CompatOutside

  function ScanCompat(blob: seq<byte>, off: nat, len: nat, gic: bool, plic: bool): Compat
    decreases len
  {
    if len == 0 then Flags(gic, plic)
    else
      match Strnlen(blob, off, len)
      case Unterminated => Flags(gic, plic)
      case Outside => CompatOutside
      case Len(n) =>
        var e := blob[off..off + n];
        ScanCompat(blob, off + n + 1, len - n - 1, gic || IsGicId(e),
                   plic || (!IsGicId(e) && IsPlicId(e)))
  }

  function SetProp(blob: seq<byte>, fr: Frame, name: seq<byte>, data: nat, len: nat): Option<Frame> {
    if name == REG then Some(fr.(reg := Some(RegRef(data, len))))
    else if name == ADDRESS_CELLS then
      if data + 4 <= |blob| then Some(fr.(ac := Be32(blob, data))) else None
    else if name == SIZE_CELLS then
      if data + 4 <= |blob| then Some(fr.(sc := Be32(blob, data))) else None
    else if name == COMPATIBLE then
      match ScanCompat(blob, data, len, fr.isGic, fr.isPlic)
      case Flags(g, p) => Some(fr.(isGic := g, isPlic := p))
      case CompatOutside => None
    else Some(fr)
  }

  // ------------------------------------------------------------------------ steps

  /** The 32-bit rounding of a node name of `n` bytes with its NUL. */
  function NameSpan(n: nat): nat { (n + 4) / 4 * 4 % TWO32 }

  /** The 32-bit rounding of a property value of `n` bytes. */
  function ValueSpan(n: nat): nat { (n + 3) % TWO32 / 4 * 4 }

  function OpenFrame(name: seq<byte>, parent: Frame): Frame {
    Frame(MemoryName(name), CpuName(name), false, false, None, parent.ac, parent.sc)
  }

  function StepBegin(blob: seq<byte>, h: Header, st: State): (o: Outcome)
    requires st.pos + 4 <= h.End() && st.frames != []
    ensures o.Next? ==> o.st.pos > st.pos && o.st.frames != []
  {
    var p := st.pos + 4;
    match Strnlen(blob, p, h.End() - p)
    case Unterminated => Return(-1, st.d)
    case Outside => Fault
    case Len(n) =>
      if NameSpan(n) > h.End() - p then Return(-1, st.d)
      else if |st.frames| >= MAX_FDT_DEPTH then Return(-1, st.d)
      else Next(State(p + NameSpan(n),
                      st.frames + [OpenFrame(blob[p..p + n], st.frames[|st.frames| - 1])], st.d))
  }

  function StepEnd(blob: seq<byte>, st: State): (o: Outcome)
    requires st.frames != []
    ensures o.Next? ==> o.st.pos > st.pos && o.st.frames != []
  {
    var depth := |st.frames| - 1;
    var fr := st.frames[depth];
    if fr.reg.None? then
      if depth == 0 then Return(0, st.d.(fdtParsed := true))
      else Next(State(st.pos + 4, st.frames[..depth], st.d))
    else if depth == 0 then Fault
    else
      match CloseFrame(blob, st.d, fr, st.frames[depth - 1].ac, st.frames[depth - 1].sc)
      case None => Fault
      case Some(d) => Next(State(st.pos + 4, st.frames[..depth], d))
  }

  function StepProp(blob: seq<byte>, h: Header, st: State): (o: Outcome)
    requires st.pos + 4 <= h.End() && st.frames != []
    ensures o.Next? ==> o.st.pos > st.pos && o.st.frames != []
  {
    var p := st.pos + 4;
    if h.End() - p < 8 then Return(-1, st.d)
    else if p + 8 > |blob| then Fault
    else
      var len, nameOff := Be32(blob, p), Be32(blob, p + 4);
      match GetString(blob, h, nameOff)
      case NullStr => Return(-1, st.d)
      case OutsideStr => Fault
      case Str(name) =>
        if ValueSpan(len) > h.End() - (p + 8) then Return(-1, st.d)
        else
          var depth := |st.frames| - 1;
          match SetProp(blob, st.frames[depth], name, p + 8, len)
          case None => Fault
          case Some(fr) => Next(State(p + 8 + ValueSpan(len), st.frames[..depth] + [fr], st.d))
  }

  function Step(blob: seq<byte>, h: Header, st: State): (o: Outcome)
    requires st.pos < h.End() && st.frames != []
    ensures o.Next? ==> o.st.pos > st.pos && o.st.frames != []
  {
    if h.End() - st.pos < 4 then Return(-1, st.d)
    else if st.pos + 4 > |blob| then Fault
    else
      var tag := Be32(blob, st.pos);
      if tag == FDT_BEGIN_NODE then StepBegin(blob, h, st)
      else if tag == FDT_END_NODE then StepEnd(blob, st)
      else if tag == FDT_PROP then StepProp(blob, h, st)
      else if tag == FDT_END then Return(0, st.d.(fdtParsed := true))
      else Next(st.(pos := st.pos + 4))
  }

  datatype Result = Parsed(code: int, d: Discovery) | Crashed

  function Run(blob: seq<byte>, h: Header, st: State): Result
    requires st.frames != []
    decreases h.End() - st.pos
  {
    if st.pos >= h.End() then Parsed(0, st.d.(fdtParsed := true))
    else
      match Step(blob, h, st)
      case Next(st') => Run(blob, h, st')
      case Return(code, d) => Parsed(code, d)
      case Fault => Crashed
  }

  function Start(blob: seq<byte>, d: Discovery): State
    requires |blob| >= HEADER_SIZE
  {
    State(ReadHeader(blob).offStruct, [ROOT_FRAME], d)
  }

  /** `fdt_parse_discovery`: a second call on a parsed discovery is a no-op. */
  function Parse(blob: seq<byte>, d: Discovery): Result {
    if |blob| < 4 then Crashed
    else if Be32(blob, 0) != FDT_MAGIC then Parsed(-1, d)
    else if d.fdtParsed then Parsed(0, d)
    else if |blob| < HEADER_SIZE then Crashed
    else Run(blob, ReadHeader(blob), Start(blob, d))
  }

  // -------------------------------------------------------------------- the loops

  /** `fdt_bounded_strnlen` */
  method BoundedStrnlen(s: seq<byte>, i: nat, max: nat) returns (r: Scan)
    ensures r == Strnlen(s, i, max)
  {
    var k := 0;
    while k < max
      invariant 0 <= k <= max
      invariant match Strnlen(s, i + k, max - k)
                case Len(n) => Strnlen(s, i, max) == Len(k + n)
                case x => Strnlen(s, i, max) == x
    {
      if i + k >= |s| { return Outside; }
      if s[i + k] == 0 { return Len(k); }
      k := k + 1;
    }
    r := Unterminated;
  }

  lemma ScanCompatStep(blob: seq<byte>, off: nat, len: nat, gic: bool, plic: bool)
    ensures ScanCompat(blob, off, len, gic, plic) ==
      if len == 0 then Flags(gic, plic)
      else
        match Strnlen(blob, off, len)
        case Unterminated => Flags(gic, plic)
        case Outside => CompatOutside
        case Len(n) =>
          var e := blob[off..off + n];
          ScanCompat(blob, off + n + 1, len - n - 1, gic || IsGicId(e), plic || (!IsGicId(e) && IsPlicId(e)))
  {
  }

  /** The loop over the strings of a `compatible` value. */
  method ScanCompatible(blob: seq<byte>, off: nat, len: nat, gic0: bool, plic0: bool)
    returns (r: Compat)
    ensures r == ScanCompat(blob, off, len, gic0, plic0)
  {
    hide IsGicId, IsPlicId, ScanCompat, Strnlen;
    var c, gic, plic := 0, gic0, plic0;
    while c < len
      invariant 0 <= c <= len
      invariant ScanCompat(blob, off, len, gic0, plic0) == ScanCompat(blob, off + c, len - c, gic, plic)
    {
      ScanCompatStep(blob, off + c, len - c, gic, plic);
      var scan := BoundedStrnlen(blob, off + c, len - c);
      match scan {
        case Unterminated => break;
        case Outside => return CompatOutside;
        case Len(n) =>
          var e := blob[off + c..off + c + n];
          if IsGicId(e) { gic := true; } else if IsPlicId(e) { plic := true; }
          c := c + n + 1;
      }
    }
    ScanCompatStep(blob, off + c, len - c, gic, plic);
    r := Flags(gic, plic);
  }

  /** The part of `system_discovery_t` the reader fills. */
  class DiscoveryTable {
    var regions: seq<Region>
    var cpus: seq<Cpu>
    var irqs: seq<IrqCtrl>
    var fdtParsed: bool

    function View(): Discovery
      reads this
    {
      Discovery(regions, cpus, irqs, fdtParsed)
    }

    constructor ()
      ensures View() == Discovery([], [], [], false)
    {
      regions, cpus, irqs, fdtParsed := [], [], [], false;
    }

    method Set(d: Discovery)
      modifies this
      ensures View() == d
    {
      regions, cpus, irqs, fdtParsed := d.regions, d.cpus, d.irqs, d.fdtParsed;
    }
  }

  /** What a call returns; `Undefined` is a read outside the blob or the stack. */
  datatype Status = Code(code: int) | Undefined

  predicate Agrees(r: Result, status: Status, d: Discovery) {
    match r
    case Parsed(code, d') => status == Code(code) && d == d'
    case Crashed => status == Undefined
  }

  /** How one token leaves the loop: go on, return a code, leave the loop, or read out of bounds. */
  datatype Control = Go | Exit(code: int) | Leave | Wild

  /** The token's effect agrees with the outcome `o` of the step function. */
  predicate Follows(o: Outcome, c: Control, p: nat, frames: seq<Frame>, d: Discovery) {
    match o
    case Next(st) => c == Go && st == State(p, frames, d)
    case Return(code, d') =>
      if d' == d.(fdtParsed := true) && code == 0 then c == Leave else c == Exit(code) && d == d'
    case Fault => c == Wild
  }

  /** FDT_BEGIN_NODE: measure the name, push a frame. */
  method OpenNode(blob: seq<byte>, h: Header, p: nat, stack: array<Frame>, depth: nat, ghost d: Discovery)
    returns (c: Control, p': nat, depth': nat)
    requires p + 4 <= h.End() && stack.Length == MAX_FDT_DEPTH && depth < MAX_FDT_DEPTH
    modifies stack
    ensures c == Go ==> depth' < MAX_FDT_DEPTH && p' > p
    ensures Follows(StepBegin(blob, h, State(p, old(stack[..depth + 1]), d)), c, p',
                    if c == Go then stack[..depth' + 1] else [], d)
  {
    hide OpenFrame, NameSpan, Strnlen;
    p', depth' := p + 4, depth;
    var scan := BoundedStrnlen(blob, p', h.End() - p');
    match scan {
      case Unterminated => c := Exit(-1);
      case Outside => c := Wild;
      case Len(n) =>
        if NameSpan(n) > h.End() - p' { c := Exit(-1); return; }
        var name := blob[p'..p' + n];
        p' := p' + NameSpan(n);
        depth' := depth + 1;
        if depth' >= MAX_FDT_DEPTH { c := Exit(-1); return; }
        stack[depth'] := OpenFrame(name, stack[depth]);
        assert stack[..depth' + 1] == old(stack[..depth + 1]) + [stack[depth']];
        c := Go;
    }
  }

  /** FDT_END_NODE: record what the node described, pop its frame. */
  method CloseNode(blob: seq<byte>, p: nat, stack: array<Frame>, depth: nat, disc: DiscoveryTable)
    returns (c: Control, p': nat, depth': nat)
    requires stack.Length == MAX_FDT_DEPTH && depth < MAX_FDT_DEPTH
    modifies disc
    ensures c == Go ==> depth' < MAX_FDT_DEPTH && p' > p
    ensures Follows(StepEnd(blob, State(p, stack[..depth + 1], old(disc.View()))), c, p',
                    if c == Go then stack[..depth' + 1] else [], disc.View())
  {
    p', depth' := p + 4, depth;
    var fr := stack[depth];
    if fr.reg.Some? {
      if depth == 0 { c := Wild; return; }
      var closed := CloseFrame(blob, disc.View(), fr, stack[depth - 1].ac, stack[depth - 1].sc);
      if closed.None? { c := Wild; return; }
      disc.Set(closed.value);
    }
    if depth == 0 { c := Leave; return; }
    depth' := depth - 1;
    assert stack[..depth + 1][..depth] == stack[..depth];
    c := Go;
  }

  /** The chain of name comparisons: what one property does to the open frame. */
  method ApplyProp(blob: seq<byte>, fr: Frame, name: seq<byte>, data: nat, len: nat)
    returns (r: Option<Frame>)
    ensures r == SetProp(blob, fr, name, data, len)
  {
    if name == REG {
      r := Some(fr.(reg := Some(RegRef(data, len))));
    } else if name == ADDRESS_CELLS {
      if data + 4 > |blob| { return None; }
      r := Some(fr.(ac := Be32(blob, data)));
    } else if name == SIZE_CELLS {
      if data + 4 > |blob| { return None; }
      r := Some(fr.(sc := Be32(blob, data)));
    } else if name == COMPATIBLE {
      var flags := ScanCompatible(blob, data, len, fr.isGic, fr.isPlic);
      if flags.CompatOutside? { return None; }
      r := Some(fr.(isGic := flags.gic, isPlic := flags.plic));
    } else {
      r := Some(fr);
    }
  }

  /** FDT_PROP: resolve the name, update the open frame. */
  method ReadProp(blob: seq<byte>, h: Header, p: nat, stack: array<Frame>, depth: nat, ghost d: Discovery)
    returns (c: Control, p': nat)
    requires p + 4 <= h.End() && stack.Length == MAX_FDT_DEPTH && depth < MAX_FDT_DEPTH
    modifies stack
    ensures c == Go ==> p' > p
    ensures Follows(StepProp(blob, h, State(p, old(stack[..depth + 1]), d)), c, p',
                    if c == Go then stack[..depth + 1] else [], d)
  {
    hide GetString, ValueSpan, SetProp, Be32;
    p' := p + 4;
    if h.End() - p' < 8 { c := Exit(-1); return; }
    if p' + 8 > |blob| { c := Wild; return; }
    var len, nameOff := Be32(blob, p'), Be32(blob, p' + 4);
    var data := p' + 8;
    match GetString(blob, h, nameOff) {
      case NullStr => c := Exit(-1);
      case OutsideStr => c := Wild;
      case Str(name) =>
        if ValueSpan(len) > h.End() - data { c := Exit(-1); return; }
        p' := data + ValueSpan(len);
        var next := ApplyProp(blob, stack[depth], name, data, len);
        if next.None? { c := Wild; return; }
        stack[depth] := next.value;
        assert stack[..depth + 1] == old(stack[..depth + 1])[..depth] + [next.value];
        c := Go;
    }
  }

  /** `fdt_parse_discovery` as the loop it is: a cursor, a fixed array of node frames and the
      discovery table, all updated in place. */
  method ParseDiscovery(blob: seq<byte>, disc: DiscoveryTable) returns (status: Status)
    modifies disc
    ensures Agrees(Parse(blob, old(disc.View())), status, disc.View())
  {
    hide StepBegin, StepEnd, StepProp, Be32;
    if |blob| < 4 { return Undefined; }
    if Be32(blob, 0) != FDT_MAGIC { return Code(-1); }
    if disc.fdtParsed { return Code(0); }
    if |blob| < HEADER_SIZE { return Undefined; }
    var h := ReadHeader(blob);
    var stack := new Frame[MAX_FDT_DEPTH](_ => ROOT_FRAME);
    var depth, p := 0, h.offStruct;
    ghost var goal := Parse(blob, disc.View());
    assert stack[..depth + 1] == [ROOT_FRAME];
    while p < h.End()
      invariant 0 <= depth < MAX_FDT_DEPTH
      invariant goal == Run(blob, h, State(p, stack[..depth + 1], disc.View()))
      decreases h.End() - p
    {
      if h.End() - p < 4 { return Code(-1); }
      if p + 4 > |blob| { return Undefined; }
      var tag := Be32(blob, p);
      var c := Go;
      if tag == FDT_BEGIN_NODE {
        c, p, depth := OpenNode(blob, h, p, stack, depth, disc.View());
      } else if tag == FDT_END_NODE {
        c, p, depth := CloseNode(blob, p, stack, depth, disc);
      } else if tag == FDT_PROP {
        c, p := ReadProp(blob, h, p, stack, depth, disc.View());
      } else if tag == FDT_END {
        c := Leave;
      } else {
        p := p + 4;
      }
      match c {
        case Go =>
        case Exit(code) => return Code(code);
        case Wild => return Undefined;
        case Leave => break;
      }
    }
    disc.fdtParsed := true;
    status := Code(0);
  }
}
