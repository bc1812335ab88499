/** The ELF load planner: header checks, two passes over the program headers that must agree, per-segment
    checks and whole-plan checks. It succeeds exactly on the images described by `Loadable`. */
module ElfLoadPlan {
  import opened Arith
  import opened Bytes
  import opened ElfParser

  datatype Machine = X86_64 | AArch64 | RiscV64 | Arm32 | RiscV32

  datatype Status =
    | Success | ErrHeaderSize | ErrMagic | ErrClass | ErrUnsupported | ErrType | ErrParseSummary | ErrSegmentCount
    | ErrLimit | ErrExtractSegments | ErrFileMemSize | ErrBounds | ErrWX | ErrAlignment | ErrOverlap | ErrEntry
    | UndefinedBehaviour

  const MAX_SEGMENTS := 16

  datatype PlanSegment = PlanSegment(seg: Segment, prot: nat)
  datatype Plan = Plan(entry: nat, segments: seq<PlanSegment>, stackSize: nat, guardSize: nat, startupPageSize: nat)

  const EMPTY_PLAN := Plan(0, [], 0, 0, 0)

  predicate MachineMatches(m: nat, machine: Machine) {
    match machine
    case X86_64 => m == EM_X86_64
    case AArch64 => m == EM_AARCH64
    case RiscV64 => m == EM_RISCV
    case RiscV32 => m == EM_RISCV
    case Arm32 => m == EM_ARM
  }

  function ExpectedClass(machine: Machine): nat { if machine.Arm32? || machine.RiscV32? then 1 else 2 }

  /** The planner's own header checks; `Success` means none failed. */
  function HeaderStatus(bytes: seq<byte>, machine: Machine): Status {
    if |bytes| < 64 then ErrHeaderSize
    else if bytes[0] != 0x7f || bytes[1] != 'E' as int || bytes[2] != 'L' as int || bytes[3] != 'F' as int then ErrMagic
    else if bytes[4] != ExpectedClass(machine) || bytes[5] != 1 then ErrClass
    else if !MachineMatches(Le16(bytes, 18), machine) then ErrUnsupported
    else if Le16(bytes, 16) != 2 && Le16(bytes, 16) != 3 then ErrType
    else Success
  }

  predicate Writable(flags: nat) { And(flags, 2) != 0 }

  predicate Executable(flags: nat) { And(flags, 1) != 0 }

  predicate Readable(flags: nat) { And(flags, 4) != 0 }

  function Prot(flags: nat): nat {
    8 + (if Readable(flags) then 1 else 0) + (if Writable(flags) then 2 else 0) + (if Executable(flags) then 4 else 0)
  }

  /** The protection bits are user plus the three permission flags, each where it belongs. */
  lemma ProtBits(flags: nat)
    ensures Prot(flags) == 8 + flags / 4 % 2 + 2 * (flags / 2 % 2) + 4 * (flags % 2)
  {
    AndBit0(flags);
    AndBit1(flags);
    AndBit2(flags);
  }

  // ----------------------------------------------------- what the planner promises

  /** The segment's memory range lies in the user window without wrapping. */
  predicate InWindow(s: Segment, base: nat, limit: nat) {
    s.vaddr + s.memsz < TWO64 && base <= s.vaddr && s.vaddr + s.memsz <= limit
  }

  predicate HasEntry(s: Segment, entry: nat) {
    Executable(s.flags) && s.vaddr <= entry < s.vaddr + s.memsz
  }

  predicate Overlap(a: Segment, b: Segment) { a.vaddr < b.vaddr + b.memsz && b.vaddr < a.vaddr + a.memsz }

  ghost predicate NoOverlap(ss: seq<Segment>) {
    forall i, j :: 0 <= i < j < |ss| ==> !Overlap(ss[i], ss[j])
  }

  predicate Placed(s: Segment, base: nat, limit: nat) {
    InWindow(s, base, limit) && !(Writable(s.flags) && Executable(s.flags))
  }

  ghost predicate EntryIn(ss: seq<Segment>, entry: nat) {
    exists i :: 0 <= i < |ss| && HasEntry(ss[i], entry)
  }

  /** Exactly the images the planner accepts. */
  ghost predicate Loadable(bytes: seq<byte>, base: nat, limit: nat, machine: Machine) {
    && HeaderStatus(bytes, machine) == Success
    && ParseImage(bytes).Value?
    && !TableOverflows(ParseImage(bytes).value)
    && 1 <= |AllLoads(bytes)| <= MAX_SEGMENTS
    && LoadsOk(AllLoads(bytes), |bytes|)
    && var ss := ToSegments(AllLoads(bytes));
       && (forall i :: 0 <= i < |ss| ==> Placed(ss[i], base, limit))
       && NoOverlap(ss)
       && EntryIn(ss, ParseImage(bytes).value.entry)
  }

  function ToPlan(s: Segment): PlanSegment { PlanSegment(s, Prot(s.flags)) }

  function ToPlans(ss: seq<Segment>): (r: seq<PlanSegment>)
    ensures |r| == |ss| && forall i :: 0 <= i < |ss| ==> r[i] == ToPlan(ss[i])
  {
    seq(|ss|, i requires 0 <= i < |ss| => ToPlan(ss[i]))
  }

  // -------------------------------------------------- checks that can no longer fail

  lemma {:induction false} LowPowers(k: nat)
    requires k <= 32
    ensures Pow2(k) <= Pow2(32)
    ensures k < 32 ==> Pow2(k) < Pow2(32)
    decreases 32 - k
  {
    if k < 32 { LowPowers(k + 1); }
  }

  lemma {:induction false} HighPowers(k: nat)
    requires Pow2(k) >= TWO32
    ensures Pow2(k) % TWO32 == 0
  {
    Pow2At64();
    if k < 32 {
      LowPowers(k);
    } else {
      Pow2Sum(k - 32, 32);
      QuotientUnique(Pow2(k), TWO32, Pow2(k - 32), 0);
    }
  }

  lemma CutAlignment(a: nat)
    requires IsPow2(a)
    ensures a % TWO32 == 0 || a % TWO32 == a
  {
    hide Pow2;
    var k: nat :| Pow2(k) == a;
    if a >= TWO32 { HighPowers(k); }
  }

  /** A power-of-two alignment cut to 32 bits is itself or zero, so the planner's own alignment check adds
      nothing to the one made while extracting. */
  lemma AlignmentCheckIsRedundant(h: Phdr, size: nat)
    requires LoadOk(h, size)
    ensures var a := h.align % TWO32; a > 1 ==> h.vaddr % a == h.offset % a
  {
    hide And, IsPow2;
    if h.align > 1 {
      BitTrick(h.align);
      CutAlignment(h.align);
      if h.align % TWO32 != 0 { assert h.align % TWO32 == h.align; }
    }
  }

  // ------------------------------------------------------------------ the planner

  /** The checks of the loop over the extracted segments, in the planner's order. */
  function SegmentStatus(s: Segment, size: nat, base: nat, limit: nat): Status {
    if s.filesz > s.memsz then ErrFileMemSize
    else if s.offset > size || s.filesz > size - s.offset then ErrBounds
    else
      var end := (s.vaddr + s.memsz) % TWO64;
      if end < s.vaddr then ErrBounds
      else if s.vaddr < base || end > limit then ErrBounds
      else if Writable(s.flags) && Executable(s.flags) then ErrWX
      else if s.align > 1 && s.vaddr % s.align != s.offset % s.align then ErrAlignment
      else Success
  }

  predicate Fields64(h: Phdr) { h.vaddr < TWO64 && h.memsz < TWO64 }

  lemma SegmentStatusIff(h: Phdr, size: nat, base: nat, limit: nat)
    requires LoadOk(h, size) && Fields64(h)
    ensures SegmentStatus(ToSegment(h), size, base, limit) == Success <==> Placed(ToSegment(h), base, limit)
  {
    hide And;
    AlignmentCheckIsRedundant(h, size);
    var sum := h.vaddr + h.memsz;
    if sum >= TWO64 { QuotientUnique(sum, TWO64, 1, sum - TWO64); }
  }

  lemma HeaderFields(bytes: seq<byte>, i: nat)
    requires ParseImage(bytes).Value? && i < ParseImage(bytes).value.phnum
    ensures Fields64(Header(bytes, i))
  {
    hide ParseImage;
  }

  lemma {:induction false} LoadFields(bytes: seq<byte>, n: nat, i: nat)
    requires ParseImage(bytes).Value? && n <= ParseImage(bytes).value.phnum && i < |Loads(bytes, n)|
    ensures Fields64(Loads(bytes, n)[i])
    decreases n
  {
    hide Header, ParseImage;
    HeaderFields(bytes, n - 1);
    if i < |Loads(bytes, n - 1)| { LoadFields(bytes, n - 1, i); }
  }

  lemma StatusDefined(s: Segment, size: nat, base: nat, limit: nat)
    ensures SegmentStatus(s, size, base, limit) != UndefinedBehaviour
  {
  }

  /** The loop that checks each segment and looks for the entry point. */
  method CheckSegments(ghost hs: seq<Phdr>, ss: seq<Segment>, size: nat, base: nat, limit: nat, entry: nat)
    returns (status: Status, plans: seq<PlanSegment>, entryValidated: bool)
    requires ss == ToSegments(hs) && LoadsOk(hs, size) && forall i :: 0 <= i < |hs| ==> Fields64(hs[i])
    ensures status == Success <==> forall i :: 0 <= i < |ss| ==> Placed(ss[i], base, limit)
    ensures status == Success ==> plans == ToPlans(ss) && (entryValidated <==> EntryIn(ss, entry))
    ensures status != UndefinedBehaviour
  {
    hide SegmentStatus, Placed, And, LoadOk;
    plans, entryValidated := [], false;
    for i := 0 to |ss|
      invariant plans == ToPlans(ss[..i])
      invariant entryValidated <==> exists k :: 0 <= k < i && HasEntry(ss[k], entry)
      invariant forall k :: 0 <= k < i ==> Placed(ss[k], base, limit)
    {
      var seg := ss[i];
      assert seg == ToSegment(hs[i]) && LoadOk(hs[i], size);
      SegmentStatusIff(hs[i], size, base, limit);
      StatusDefined(seg, size, base, limit);
      status := SegmentStatus(seg, size, base, limit);
      if status != Success { return; }
      if HasEntry(seg, entry) { entryValidated := true; }
      plans := plans + [ToPlan(seg)];
    }
    assert ss[..|ss|] == ss;
    status := Success;
  }

  /** The nested loop over pairs. */
  method CheckOverlap(ps: seq<PlanSegment>, ghost ss: seq<Segment>) returns (ok: bool)
    requires ps == ToPlans(ss)
    ensures ok <==> NoOverlap(ss)
  {
    for i := 0 to |ps|
      invariant forall a, b :: 0 <= a < i && a < b < |ss| ==> !Overlap(ss[a], ss[b])
    {
      for j := i + 1 to |ps|
        invariant forall b :: i < b < j ==> !Overlap(ss[i], ss[b])
      {
        if Overlap(ps[i].seg, ps[j].seg) {
          assert Overlap(ss[i], ss[j]);
          return false;
        }
      }
    }
    ok := true;
  }

  lemma HeaderDefined(bytes: seq<byte>, machine: Machine)
    ensures HeaderStatus(bytes, machine) != UndefinedBehaviour
  {
  }

  lemma AllLoadFields(bytes: seq<byte>)
    requires ParseImage(bytes).Value?
    ensures forall i :: 0 <= i < |AllLoads(bytes)| ==> Fields64(AllLoads(bytes)[i])
  {
    hide ParseImage, Loads;
    forall i | 0 <= i < |AllLoads(bytes)| ensures Fields64(AllLoads(bytes)[i]) {
      LoadFields(bytes, ParseImage(bytes).value.phnum, i);
    }
  }

  /** `bh_elf_generate_load_plan_for_machine`: success exactly on loadable images, and then the plan lists the
      image's PT_LOAD headers in table order. Undefined arithmetic is reached exactly when the header checks pass
      and the table is so large that an entry's offset overflows `int`. */
  method GenerateLoadPlan(bytes: seq<byte>, base: nat, limit: nat, machine: Machine)
    returns (status: Status, plan: Plan)
    ensures status == Success <==> Loadable(bytes, base, limit, machine)
    ensures status == UndefinedBehaviour <==>
      HeaderStatus(bytes, machine) == Success && ParseImage(bytes).Value? && TableOverflows(ParseImage(bytes).value)
    ensures status == Success ==>
      plan == Plan(ParseImage(bytes).value.entry, ToPlans(ToSegments(AllLoads(bytes))), 64 * 1024, 4 * 1024, 4 * 1024)
  {
    hide ParseImage, HeaderStatus, TableOverflows, ReachesOverflow, LoadsOk, AllLoads, Placed, EntryIn, NoOverlap;
    plan := EMPTY_PLAN;
    status := HeaderStatus(bytes, machine);
    HeaderDefined(bytes, machine);
    if status != Success { return; }
    var parsed := ParseImage(bytes);
    ParseIsDefined(bytes);
    if !parsed.Value? { status := ErrParseSummary; return; }
    var counted := CountLoads(bytes);
    if counted.Undefined? { status := UndefinedBehaviour; return; }
    var segCount := counted.value;
    if segCount == 0 { status := ErrSegmentCount; return; }
    if segCount > MAX_SEGMENTS { status := ErrLimit; return; }
    NothingToReach(bytes, MAX_SEGMENTS);
    var extracted := ExtractLoads(bytes, MAX_SEGMENTS);
    if !extracted.Value? || |extracted.value| != segCount { status := ErrExtractSegments; return; }
    var raw := extracted.value;
    AllLoadFields(bytes);
    var plans, entryValidated;
    status, plans, entryValidated := CheckSegments(AllLoads(bytes), raw, |bytes|, base, limit, parsed.value.entry);
    if status != Success { return; }
    var apart := CheckOverlap(plans, raw);
    if !apart { status := ErrOverlap; return; }
    if !entryValidated { status := ErrEntry; return; }
    plan := Plan(parsed.value.entry, plans, 64 * 1024, 4 * 1024, 4 * 1024);
  }

  // ------------------------------------------------------------- what success means

  /** In a successful plan no address belongs to two segments, every segment lies in the file and the window, none
      is both writable and executable, and file offsets agree with addresses modulo the alignment. */
  lemma PlanIsSafe(bytes: seq<byte>, base: nat, limit: nat, machine: Machine, i: nat, j: nat, address: nat)
    requires Loadable(bytes, base, limit, machine) && i < |AllLoads(bytes)| && j < |AllLoads(bytes)|
    ensures var a, b := AllLoads(bytes)[i], AllLoads(bytes)[j];
            && a.offset + a.filesz <= |bytes| && a.filesz <= a.memsz
            && base <= a.vaddr && a.vaddr + a.memsz <= limit
            && (a.flags % 2 == 0 || a.flags / 2 % 2 == 0)
            && (a.align > 1 ==> IsPow2(a.align) && a.vaddr % a.align == a.offset % a.align)
            && (a.vaddr <= address < a.vaddr + a.memsz && b.vaddr <= address < b.vaddr + b.memsz ==> i == j)
  {
    hide ParseImage, And, AllLoads, HeaderStatus;
    var hs := AllLoads(bytes);
    var ss := ToSegments(hs);
    assert LoadOk(hs[i], |bytes|) && Placed(ss[i], base, limit);
    assert ss[i] == ToSegment(hs[i]) && ss[j] == ToSegment(hs[j]);
    AndBit0(hs[i].flags);
    AndBit1(hs[i].flags);
    if hs[i].align > 1 { BitTrick(hs[i].align); }
    if i < j { assert !Overlap(ss[i], ss[j]); } else if j < i { assert !Overlap(ss[j], ss[i]); }
  }

  // --------------------------------------------------------- when arithmetic overflows

  /** Byte `i` of a header announcing 65535 entries of 65535 bytes right behind it. */
  function HugeByte(i: nat): byte {
    if i == 0 then 0x7f else if i == 1 then 'E' as int else if i == 2 then 'L' as int else if i == 3 then 'F' as int
    else if i == 4 then 2 else if i == 5 then 1 else if i == 6 then 1
    else if i == 16 then 2 else if i == 18 then EM_X86_64 else if i == 20 then 1 else if i == 32 then 64
    else if 54 <= i < 58 then 0xFF else 0
  }

  lemma HugeFields(bytes: seq<byte>)
    requires |bytes| >= 64 && forall i :: 0 <= i < 64 ==> bytes[i] == HugeByte(i)
    ensures Le16(bytes, 16) == 2 && Le16(bytes, 18) == EM_X86_64 && Le32(bytes, 20) == 1
    ensures Le16(bytes, 54) == 65535 && Le16(bytes, 56) == 65535 && Le64(bytes, 32) == 64
  {
  }

  lemma HugeImage(bytes: seq<byte>)
    requires |bytes| == 64 + 65535 * 65535 && forall i :: 0 <= i < 64 ==> bytes[i] == HugeByte(i)
    ensures HeaderStatus(bytes, X86_64) == Success
    ensures ParseImage(bytes).Value? && TableOverflows(ParseImage(bytes).value)
  {
    hide Le16, Le32, Le64;
    HugeFields(bytes);
    assert !Is32(bytes);
    assert RawSummary(bytes).phentsize == 65535 && RawSummary(bytes).phnum == 65535 && RawSummary(bytes).phoff == 64;
  }

  /** The overflow is real for an image of four gigabytes, and only for images beyond two. */
  lemma OverflowExists()
    ensures exists bytes: seq<byte> ::
      HeaderStatus(bytes, X86_64) == Success && ParseImage(bytes).Value? && TableOverflows(ParseImage(bytes).value)
    ensures forall bytes: seq<byte> :: |bytes| <= INT_MAX && ParseImage(bytes).Value? ==>
      !TableOverflows(ParseImage(bytes).value)
  {
    var bytes := seq(64 + 65535 * 65535, i requires 0 <= i < 64 + 65535 * 65535 => HugeByte(i));
    assert forall i :: 0 <= i < |bytes| ==> bytes[i] == HugeByte(i);
    HugeImage(bytes);
    forall b: seq<byte> | |b| <= INT_MAX && ParseImage(b).Value? ensures !TableOverflows(ParseImage(b).value) {
      SmallImageNeverOverflows(b);
    }
  }
}
