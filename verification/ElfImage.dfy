/** ELF images written from the tables of the System V gABI, and the plan the loader makes of them: every header field
    is printed at its place, and acceptance and plan are stated in the printed values alone. */
module ElfImage {
  import opened Arith
  import opened Bytes
  import opened ElfLoadPlan
  import opened ElfParser

  // ---------------------------------------------------------------- printing

  function PutLe16(v: nat): (r: seq<byte>)
    ensures |r| == 2
  {
    [v % 0x100, v / 0x100 % 0x100]
  }

  function PutLe64(v: nat): (r: seq<byte>)
    ensures |r| == 8
  {
    PutLe32(v % TWO32) + PutLe32(v / TWO32)
  }

  /** An address or offset of the image's class. */
  function PutAddr(wide: bool, v: nat): (r: seq<byte>)
    ensures |r| == if wide then 8 else 4
  {
    if wide then PutLe64(v) else PutLe32(v)
  }

  /** The ELF header; `ident` is `e_ident` as it stands. */
  datatype Ehdr = Ehdr(ident: seq<byte>, kind: nat, machine: nat, version: nat, entry: nat, phoff: nat, shoff: nat,
                       flags: nat, ehsize: nat, phentsize: nat, phnum: nat, shentsize: nat, shnum: nat, shstrndx: nat)

  /** The class byte decides the layout; only class 1 is narrow. */
  predicate Wide(h: Ehdr)
    requires |h.ident| == 16
  {
    h.ident[4] != 1
  }

  function PutSections(h: Ehdr): (r: seq<byte>)
    ensures |r| == 6
  {
    PutLe16(h.shentsize) + (PutLe16(h.shnum) + PutLe16(h.shstrndx))
  }

  function PutSizes(h: Ehdr): (r: seq<byte>)
    ensures |r| == 16
  {
    PutLe32(h.flags) + (PutLe16(h.ehsize) + (PutLe16(h.phentsize) + (PutLe16(h.phnum) + PutSections(h))))
  }

  function PutPlaces(h: Ehdr): (r: seq<byte>)
    requires |h.ident| == 16
    ensures |r| == if Wide(h) then 40 else 28
  {
    PutAddr(Wide(h), h.entry) + (PutAddr(Wide(h), h.phoff) + (PutAddr(Wide(h), h.shoff) + PutSizes(h)))
  }

  function PutEhdr(h: Ehdr): (r: seq<byte>)
    requires |h.ident| == 16
    ensures |r| == if Wide(h) then 64 else 52
  {
    h.ident + (PutLe16(h.kind) + (PutLe16(h.machine) + (PutLe32(h.version) + PutPlaces(h))))
  }

  function PutPhdr32(p: Phdr): (r: seq<byte>)
    ensures |r| == 32
  {
    PutLe32(p.kind) + (PutLe32(p.offset) + (PutLe32(p.vaddr) + (PutLe32(p.paddr) +
    (PutLe32(p.filesz) + (PutLe32(p.memsz) + (PutLe32(p.flags) + PutLe32(p.align)))))))
  }

  function PutPhdr64(p: Phdr): (r: seq<byte>)
    ensures |r| == 56
  {
    PutLe32(p.kind) + (PutLe32(p.flags) + (PutLe64(p.offset) + (PutLe64(p.vaddr) +
    (PutLe64(p.paddr) + (PutLe64(p.filesz) + (PutLe64(p.memsz) + PutLe64(p.align)))))))
  }

  function PutPhdr(wide: bool, p: Phdr): seq<byte> { if wide then PutPhdr64(p) else PutPhdr32(p) }

  function Limit(wide: bool): nat { if wide then TWO64 else TWO32 }

  /** Every value fits its field. */
  predicate EhdrFits(h: Ehdr)
    requires |h.ident| == 16
  {
    && h.kind < 0x1_0000 && h.machine < 0x1_0000 && h.version < TWO32
    && h.entry < Limit(Wide(h)) && h.phoff < Limit(Wide(h)) && h.phentsize < 0x1_0000 && h.phnum < 0x1_0000
  }

  predicate PhdrFits(wide: bool, p: Phdr) {
    var m := Limit(wide);
    && p.kind < TWO32 && p.flags < TWO32 && p.offset < m && p.vaddr < m && p.paddr < m
    && p.filesz < m && p.memsz < m && p.align < m
  }

  /** Where the table puts entry `i`. */
  function EntryAt(h: Ehdr, i: nat): nat { h.phoff + i * h.phentsize }

  ghost predicate TableLaid(bytes: seq<byte>, h: Ehdr, ps: seq<Phdr>)
    requires |h.ident| == 16
  {
    forall i :: 0 <= i < |ps| ==> PhdrFits(Wide(h), ps[i]) && At(bytes, EntryAt(h, i), PutPhdr(Wide(h), ps[i]))
  }

  /** An image that starts with header `h` and holds the program headers `ps` where `h` says. */
  ghost predicate Laid(bytes: seq<byte>, h: Ehdr, ps: seq<Phdr>) {
    && |h.ident| == 16 && EhdrFits(h) && At(bytes, 0, PutEhdr(h))
    && |ps| == h.phnum && TableLaid(bytes, h, ps)
  }

  /** The headers one behind the other. */
  function PutTable(wide: bool, ps: seq<Phdr>): (r: seq<byte>)
    ensures |r| == |ps| * if wide then 56 else 32
  {
    if ps == [] then [] else PutTable(wide, ps[..|ps| - 1]) + PutPhdr(wide, ps[|ps| - 1])
  }

  lemma AtGrown(s: seq<byte>, t: seq<byte>, p: nat, x: seq<byte>)
    requires At(s, p, x)
    ensures At(s + t, p, x)
  {
    assert (s + t)[p..p + |x|] == s[p..p + |x|];
  }

  lemma {:induction false} TableEntry(wide: bool, ps: seq<Phdr>, i: nat)
    requires i < |ps|
    ensures At(PutTable(wide, ps), i * (if wide then 56 else 32), PutPhdr(wide, ps[i]))
  {
    hide PutPhdr64, PutPhdr32;
    var front := PutTable(wide, ps[..|ps| - 1]);
    if i < |ps| - 1 {
      TableEntry(wide, ps[..|ps| - 1], i);
      AtGrown(front, PutPhdr(wide, ps[|ps| - 1]), i * (if wide then 56 else 32), PutPhdr(wide, ps[i]));
    }
  }

  lemma AtBehind(r: seq<byte>, s: seq<byte>, p: nat, x: seq<byte>)
    requires At(s, p, x)
    ensures At(r + s, |r| + p, x)
  {
    assert (r + s)[|r| + p..|r| + p + |x|] == s[p..p + |x|];
  }

  lemma AtStart(s: seq<byte>, t: seq<byte>)
    ensures At(s + t, 0, s)
  {
  }

  /** Header, table and file contents one behind the other are such an image. */
  lemma PrintedIsLaid(h: Ehdr, ps: seq<Phdr>, body: seq<byte>)
    requires |h.ident| == 16 && EhdrFits(h) && h.phnum == |ps| && forall i :: 0 <= i < |ps| ==> PhdrFits(Wide(h), ps[i])
    requires h.phoff == (if Wide(h) then 64 else 52) && h.phentsize == if Wide(h) then 56 else 32
    ensures Laid(PutEhdr(h) + (PutTable(Wide(h), ps) + body), h, ps)
  {
    hide PutEhdr, PutPhdr, PutTable, PhdrFits, EhdrFits, At;
    var wide := Wide(h);
    var table := PutTable(wide, ps);
    var bytes := PutEhdr(h) + (table + body);
    assert At(bytes, 0, PutEhdr(h)) by { AtStart(PutEhdr(h), table + body); }
    forall i | 0 <= i < |ps| ensures At(bytes, EntryAt(h, i), PutPhdr(wide, ps[i])) {
      TableEntry(wide, ps, i);
      AtGrown(table, body, i * (if wide then 56 else 32), PutPhdr(wide, ps[i]));
      AtBehind(PutEhdr(h), table + body, i * (if wide then 56 else 32), PutPhdr(wide, ps[i]));
    }
  }

  // ---------------------------------------------------------------- reading back

  lemma GetPutLe16(s: seq<byte>, p: nat, v: nat)
    requires At(s, p, PutLe16(v)) && v < 0x1_0000
    ensures Le16(s, p) == v
  {
    var x := PutLe16(v);
    AtIndex(s, p, x, 0);
    AtIndex(s, p, x, 1);
    assert v == v / 0x100 * 0x100 + v % 0x100 && v / 0x100 < 0x100;
  }

  lemma AtInside(s: seq<byte>, p: nat, x: seq<byte>)
    requires At(s, p, x)
    ensures p + |x| <= |s|
  {
  }

  lemma GetPutLe64(s: seq<byte>, p: nat, v: nat)
    requires At(s, p, PutLe64(v)) && v < TWO64
    ensures Le64(s, p) == v
  {
    hide At, Le32, PutLe32;
    assert At(s, p, PutLe32(v % TWO32)) && At(s, p + 4, PutLe32(v / TWO32)) by {
      AtSplit(s, p, PutLe32(v % TWO32), PutLe32(v / TWO32));
    }
    assert p + 8 <= |s| by { AtInside(s, p, PutLe64(v)); }
    GetPutLe32(s, p, v % TWO32);
    GetPutLe32(s, p + 4, v / TWO32);
  }

  lemma Phdr64Places(s: seq<byte>, a: nat, p: Phdr)
    requires At(s, a, PutPhdr64(p))
    ensures At(s, a, PutLe32(p.kind)) && At(s, a + 4, PutLe32(p.flags)) && At(s, a + 8, PutLe64(p.offset))
    ensures At(s, a + 16, PutLe64(p.vaddr)) && At(s, a + 24, PutLe64(p.paddr)) && At(s, a + 32, PutLe64(p.filesz))
    ensures At(s, a + 40, PutLe64(p.memsz)) && At(s, a + 48, PutLe64(p.align)) && a + 56 <= |s|
  {
    hide At, PutLe32, PutLe64;
    AtInside(s, a, PutPhdr64(p));
    var r7 := PutLe64(p.align);
    var r6 := PutLe64(p.memsz) + r7;
    var r5 := PutLe64(p.filesz) + r6;
    var r4 := PutLe64(p.paddr) + r5;
    var r3 := PutLe64(p.vaddr) + r4;
    var r2 := PutLe64(p.offset) + r3;
    var r1 := PutLe32(p.flags) + r2;
    AtSplit(s, a, PutLe32(p.kind), r1);
    AtSplit(s, a + 4, PutLe32(p.flags), r2);
    AtSplit(s, a + 8, PutLe64(p.offset), r3);
    AtSplit(s, a + 16, PutLe64(p.vaddr), r4);
    AtSplit(s, a + 24, PutLe64(p.paddr), r5);
    AtSplit(s, a + 32, PutLe64(p.filesz), r6);
    AtSplit(s, a + 40, PutLe64(p.memsz), r7);
  }

  lemma Phdr32Places(s: seq<byte>, a: nat, p: Phdr)
    requires At(s, a, PutPhdr32(p))
    ensures At(s, a, PutLe32(p.kind)) && At(s, a + 4, PutLe32(p.offset)) && At(s, a + 8, PutLe32(p.vaddr))
    ensures At(s, a + 12, PutLe32(p.paddr)) && At(s, a + 16, PutLe32(p.filesz)) && At(s, a + 20, PutLe32(p.memsz))
    ensures At(s, a + 24, PutLe32(p.flags)) && At(s, a + 28, PutLe32(p.align)) && a + 32 <= |s|
  {
    hide At, PutLe32;
    AtInside(s, a, PutPhdr32(p));
    var r7 := PutLe32(p.align);
    var r6 := PutLe32(p.flags) + r7;
    var r5 := PutLe32(p.memsz) + r6;
    var r4 := PutLe32(p.filesz) + r5;
    var r3 := PutLe32(p.paddr) + r4;
    var r2 := PutLe32(p.vaddr) + r3;
    var r1 := PutLe32(p.offset) + r2;
    AtSplit(s, a, PutLe32(p.kind), r1);
    AtSplit(s, a + 4, PutLe32(p.offset), r2);
    AtSplit(s, a + 8, PutLe32(p.vaddr), r3);
    AtSplit(s, a + 12, PutLe32(p.paddr), r4);
    AtSplit(s, a + 16, PutLe32(p.filesz), r5);
    AtSplit(s, a + 20, PutLe32(p.memsz), r6);
    AtSplit(s, a + 24, PutLe32(p.flags), r7);
  }

  /** A program header reads back as printed, in either class. */
  lemma PhdrReadsBack(bytes: seq<byte>, a: nat, p: Phdr)
    requires |bytes| >= 16 && PhdrFits(!Is32(bytes), p) && At(bytes, a, PutPhdr(!Is32(bytes), p))
    ensures a + PhdrSize(bytes) <= |bytes| && ReadPhdr(bytes, a) == p
  {
    hide At, PutLe32, PutLe64, PutPhdr32, PutPhdr64, Le32, Le64;
    if Is32(bytes) {
      Phdr32Places(bytes, a, p);
      GetPutLe32(bytes, a, p.kind);
      GetPutLe32(bytes, a + 4, p.offset);
      GetPutLe32(bytes, a + 8, p.vaddr);
      GetPutLe32(bytes, a + 12, p.paddr);
      GetPutLe32(bytes, a + 16, p.filesz);
      GetPutLe32(bytes, a + 20, p.memsz);
      GetPutLe32(bytes, a + 24, p.flags);
      GetPutLe32(bytes, a + 28, p.align);
    } else {
      Phdr64Places(bytes, a, p);
      GetPutLe32(bytes, a, p.kind);
      GetPutLe32(bytes, a + 4, p.flags);
      GetPutLe64(bytes, a + 8, p.offset);
      GetPutLe64(bytes, a + 16, p.vaddr);
      GetPutLe64(bytes, a + 24, p.paddr);
      GetPutLe64(bytes, a + 32, p.filesz);
      GetPutLe64(bytes, a + 40, p.memsz);
      GetPutLe64(bytes, a + 48, p.align);
    }
  }

  /** The leading fields of the ELF header, and what follows them. */
  lemma EhdrFront(bytes: seq<byte>, h: Ehdr)
    requires |h.ident| == 16 && EhdrFits(h) && At(bytes, 0, PutEhdr(h))
    ensures |bytes| >= (if Wide(h) then 64 else 52) && bytes[..16] == h.ident
    ensures Le16(bytes, 16) == h.kind && Le16(bytes, 18) == h.machine && Le32(bytes, 20) == h.version
    ensures At(bytes, 24, PutPlaces(h))
  {
    hide PutLe16, PutLe32, PutPlaces, Le16, Le32, Limit;
    var r3 := PutLe32(h.version) + PutPlaces(h);
    var r2 := PutLe16(h.machine) + r3;
    var r1 := PutLe16(h.kind) + r2;
    AtSplit(bytes, 0, h.ident, r1);
    AtSplit(bytes, 16, PutLe16(h.kind), r2);
    AtSplit(bytes, 18, PutLe16(h.machine), r3);
    AtSplit(bytes, 20, PutLe32(h.version), PutPlaces(h));
    GetPutLe16(bytes, 16, h.kind);
    GetPutLe16(bytes, 18, h.machine);
    GetPutLe32(bytes, 20, h.version);
    assert bytes[0..16] == bytes[..16];
  }

  lemma SizesReadBack(bytes: seq<byte>, a: nat, h: Ehdr)
    requires h.phentsize < 0x1_0000 && h.phnum < 0x1_0000 && At(bytes, a, PutSizes(h))
    ensures a + 16 <= |bytes| && Le16(bytes, a + 6) == h.phentsize && Le16(bytes, a + 8) == h.phnum
  {
    hide At, PutLe16, PutLe32, PutSections, Le16;
    AtInside(bytes, a, PutSizes(h));
    var r3 := PutLe16(h.phnum) + PutSections(h);
    var r2 := PutLe16(h.phentsize) + r3;
    var r1 := PutLe16(h.ehsize) + r2;
    AtSplit(bytes, a, PutLe32(h.flags), r1);
    AtSplit(bytes, a + 4, PutLe16(h.ehsize), r2);
    AtSplit(bytes, a + 6, PutLe16(h.phentsize), r3);
    AtSplit(bytes, a + 8, PutLe16(h.phnum), PutSections(h));
    GetPutLe16(bytes, a + 6, h.phentsize);
    GetPutLe16(bytes, a + 8, h.phnum);
  }

  lemma PlacesSplit(bytes: seq<byte>, h: Ehdr)
    requires |h.ident| == 16 && At(bytes, 24, PutPlaces(h))
    ensures var n := if Wide(h) then 8 else 4;
            && At(bytes, 24, PutAddr(Wide(h), h.entry)) && At(bytes, 24 + n, PutAddr(Wide(h), h.phoff))
            && At(bytes, 24 + 3 * n, PutSizes(h))
  {
    hide At, PutAddr, PutSizes;
    var wide := Wide(h);
    var n := if wide then 8 else 4;
    var r2 := PutAddr(wide, h.shoff) + PutSizes(h);
    var r1 := PutAddr(wide, h.phoff) + r2;
    AtSplit(bytes, 24, PutAddr(wide, h.entry), r1);
    AtSplit(bytes, 24 + n, PutAddr(wide, h.phoff), r2);
    AtSplit(bytes, 24 + 2 * n, PutAddr(wide, h.shoff), PutSizes(h));
  }

  /** The image summary is made of the printed values. */
  lemma SummaryReadsBack(bytes: seq<byte>, h: Ehdr)
    requires |h.ident| == 16 && EhdrFits(h) && At(bytes, 0, PutEhdr(h))
    ensures |bytes| >= (if Wide(h) then 64 else 52) && (Is32(bytes) <==> !Wide(h))
    ensures RawSummary(bytes) == Summary(h.entry, h.phnum, h.phoff, h.phentsize)
  {
    hide At, PutLe16, PutLe32, PutLe64, PutPlaces, PutEhdr, PutSizes, Le16, Le32, Le64;
    EhdrFront(bytes, h);
    assert bytes[4] == bytes[..16][4] == h.ident[4];
    PlacesSplit(bytes, h);
    if Wide(h) {
      SizesReadBack(bytes, 48, h);
      GetPutLe64(bytes, 24, h.entry);
      GetPutLe64(bytes, 32, h.phoff);
    } else {
      SizesReadBack(bytes, 36, h);
      GetPutLe32(bytes, 24, h.entry);
      GetPutLe32(bytes, 28, h.phoff);
    }
  }

  // ---------------------------------------------------------------- acceptance in printed values

  /** The machine codes of the gABI registry. */
  function MachineCode(machine: Machine): nat {
    match machine
    case X86_64 => 62
    case AArch64 => 183
    case RiscV64 => 243
    case RiscV32 => 243
    case Arm32 => 40
  }

  /** Magic, class, byte order and version of `e_ident`. */
  predicate IdentOk(ident: seq<byte>, machine: Machine)
    requires |ident| == 16
  {
    && ident[0] == 0x7F && ident[1] == 0x45 && ident[2] == 0x4C && ident[3] == 0x46
    && ident[4] == (if machine.Arm32? || machine.RiscV32? then 1 else 2)
    && ident[5] == 1 && ident[6] == 1
  }

  /** An executable or shared object for the machine, whose table lies in the file. */
  predicate EhdrOk(h: Ehdr, size: nat, machine: Machine)
    requires |h.ident| == 16
  {
    && size >= 64 && IdentOk(h.ident, machine)
    && h.machine == MachineCode(machine) && (h.kind == 2 || h.kind == 3) && h.version == 1
    && h.phentsize >= (if Wide(h) then 56 else 32) && h.phoff + h.phnum * h.phentsize <= size
  }

  /** The loadable headers (type 1), in table order. */
  function LoadHeaders(ps: seq<Phdr>): seq<Phdr> {
    if ps == [] then []
    else LoadHeaders(ps[..|ps| - 1]) + if ps[|ps| - 1].kind == 1 then [ps[|ps| - 1]] else []
  }

  /** File range inside the file, memory range inside the window, alignment kept, never writable and executable. */
  ghost predicate HeaderOk(p: Phdr, size: nat, base: nat, limit: nat) {
    && p.offset + p.filesz <= size && p.filesz <= p.memsz
    && (p.align > 1 ==> IsPow2(p.align) && p.vaddr % p.align == p.offset % p.align)
    && base <= p.vaddr && p.vaddr + p.memsz <= limit && p.vaddr + p.memsz < 0x1_0000_0000_0000_0000
    && !(p.flags / 2 % 2 == 1 && p.flags % 2 == 1)
  }

  predicate Meet(a: Phdr, b: Phdr) { a.vaddr < b.vaddr + b.memsz && b.vaddr < a.vaddr + a.memsz }

  predicate Enters(p: Phdr, entry: nat) { p.flags % 2 == 1 && p.vaddr <= entry < p.vaddr + p.memsz }

  /** What makes a printed image loadable. */
  ghost predicate Accepted(h: Ehdr, ps: seq<Phdr>, size: nat, base: nat, limit: nat, machine: Machine)
    requires |h.ident| == 16
  {
    var ls := LoadHeaders(ps);
    && EhdrOk(h, size, machine) && (h.phnum - 1) * h.phentsize <= 0x7FFF_FFFF
    && 1 <= |ls| <= 16
    && (forall i :: 0 <= i < |ls| ==> HeaderOk(ls[i], size, base, limit))
    && (forall i, j :: 0 <= i < j < |ls| ==> !Meet(ls[i], ls[j]))
    && (exists i :: 0 <= i < |ls| && Enters(ls[i], h.entry))
  }

  /** The plan's entry for a header: its own values, and user protection with the permission bits of the flags. */
  function Planned(p: Phdr): PlanSegment {
    PlanSegment(Segment(p.vaddr, p.paddr, p.offset, p.filesz, p.memsz, p.flags, p.align % 0x1_0000_0000),
                8 + p.flags / 4 % 2 + 2 * (p.flags / 2 % 2) + 4 * (p.flags % 2))
  }

  lemma HeaderStatusIff(bytes: seq<byte>, h: Ehdr, machine: Machine)
    requires |h.ident| == 16 && EhdrFits(h) && At(bytes, 0, PutEhdr(h))
    ensures HeaderStatus(bytes, machine) == Success && ParseImage(bytes).Value? <==> EhdrOk(h, |bytes|, machine)
    ensures ParseImage(bytes).Value? ==>
      |bytes| >= 16 && ParseImage(bytes).value == Summary(h.entry, h.phnum, h.phoff, h.phentsize) &&
      (Is32(bytes) <==> !Wide(h))
  {
    hide At, PutEhdr, PutPlaces, Le16, Le32, RawSummary;
    EhdrFront(bytes, h);
    SummaryReadsBack(bytes, h);
    assert forall i :: 0 <= i < 16 ==> bytes[i] == bytes[..16][i] == h.ident[i];
    assert h.phentsize * h.phnum == h.phnum * h.phentsize;
  }

  lemma HeaderIsPrinted(bytes: seq<byte>, h: Ehdr, ps: seq<Phdr>, i: nat)
    requires Laid(bytes, h, ps) && ParseImage(bytes).Value? && i < |ps| && |bytes| >= 16
    requires ParseImage(bytes).value == Summary(h.entry, h.phnum, h.phoff, h.phentsize) && (Is32(bytes) <==> !Wide(h))
    ensures Header(bytes, i) == ps[i]
  {
    hide At, PutPhdr, PutEhdr, ParseImage, ReadPhdr, PhdrFits, EhdrFits;
    PhdrReadsBack(bytes, EntryAt(h, i), ps[i]);
  }

  lemma LaidCount(bytes: seq<byte>, h: Ehdr, ps: seq<Phdr>)
    requires Laid(bytes, h, ps)
    ensures |ps| == h.phnum && |h.ident| == 16 && EhdrFits(h) && At(bytes, 0, PutEhdr(h))
  {
  }

  lemma {:induction false} LoadsArePrinted(bytes: seq<byte>, h: Ehdr, ps: seq<Phdr>, n: nat)
    requires Laid(bytes, h, ps) && ParseImage(bytes).Value? && n <= |ps| && |bytes| >= 16
    requires ParseImage(bytes).value == Summary(h.entry, h.phnum, h.phoff, h.phentsize) && (Is32(bytes) <==> !Wide(h))
    ensures Loads(bytes, n) == LoadHeaders(ps[..n])
  {
    hide Laid, ParseImage, Header;
    assert |ps| == h.phnum by { LaidCount(bytes, h, ps); }
    if n == 0 {
    } else {
      LoadsArePrinted(bytes, h, ps, n - 1);
      HeaderIsPrinted(bytes, h, ps, n - 1);
      assert ps[..n][..n - 1] == ps[..n - 1];
    }
  }

  lemma HeaderOkIff(p: Phdr, size: nat, base: nat, limit: nat)
    ensures HeaderOk(p, size, base, limit) <==> LoadOk(p, size) && Placed(ToSegment(p), base, limit)
    ensures Planned(p) == ToPlan(ToSegment(p))
  {
    hide And, IsPow2;
    AndBit0(p.flags);
    AndBit1(p.flags);
    ProtBits(p.flags);
    if p.align > 1 { BitTrick(p.align); }
  }

  lemma EntersIff(p: Phdr, q: Phdr, entry: nat)
    ensures Enters(p, entry) <==> HasEntry(ToSegment(p), entry)
    ensures Meet(p, q) <==> Overlap(ToSegment(p), ToSegment(q))
  {
    hide And;
    AndBit0(p.flags);
  }

  lemma SegmentsIff(ls: seq<Phdr>, size: nat, base: nat, limit: nat, entry: nat)
    ensures var ss := ToSegments(ls);
            && (LoadsOk(ls, size) && (forall i :: 0 <= i < |ss| ==> Placed(ss[i], base, limit)) <==>
                forall i :: 0 <= i < |ls| ==> HeaderOk(ls[i], size, base, limit))
            && (NoOverlap(ss) <==> forall i, j :: 0 <= i < j < |ls| ==> !Meet(ls[i], ls[j]))
            && (EntryIn(ss, entry) <==> exists i :: 0 <= i < |ls| && Enters(ls[i], entry))
            && |ToPlans(ss)| == |ls| && forall i :: 0 <= i < |ls| ==> ToPlans(ss)[i] == Planned(ls[i])
  {
    hide HeaderOk, Placed, LoadOk, HasEntry, Enters, Meet, Overlap, Planned, ToSegment, ToPlan;
    var ss := ToSegments(ls);
    forall i | 0 <= i < |ls|
      ensures HeaderOk(ls[i], size, base, limit) <==> LoadOk(ls[i], size) && Placed(ss[i], base, limit)
      ensures (Enters(ls[i], entry) <==> HasEntry(ss[i], entry)) && Planned(ls[i]) == ToPlan(ss[i])
    {
      HeaderOkIff(ls[i], size, base, limit);
      EntersIff(ls[i], ls[i], entry);
    }
    forall i, j | 0 <= i < |ls| && 0 <= j < |ls| ensures Meet(ls[i], ls[j]) <==> Overlap(ss[i], ss[j]) {
      EntersIff(ls[i], ls[j], entry);
    }
  }

  lemma NoLoads(ps: seq<Phdr>)
    ensures |ps| == 0 ==> LoadHeaders(ps) == []
  {
  }

  /** The planner's acceptance condition is the printed one. */
  lemma LoadableIff(bytes: seq<byte>, h: Ehdr, ps: seq<Phdr>, base: nat, limit: nat, machine: Machine)
    requires Laid(bytes, h, ps)
    ensures |h.ident| == 16
    ensures Loadable(bytes, base, limit, machine) <==> Accepted(h, ps, |bytes|, base, limit, machine)
    ensures Loadable(bytes, base, limit, machine) ==>
      ParseImage(bytes).value.entry == h.entry && AllLoads(bytes) == LoadHeaders(ps)
  {
    hide Laid, ParseImage, HeaderStatus, LoadsOk, NoOverlap, EntryIn, Placed, Loads, LoadHeaders, HeaderOk, Meet,
         Enters, EhdrOk, At, EhdrFits, PutEhdr;
    LaidCount(bytes, h, ps);
    HeaderStatusIff(bytes, h, machine);
    if ParseImage(bytes).Value? {
      LoadsArePrinted(bytes, h, ps, |ps|);
      assert ps[..|ps|] == ps;
      SegmentsIff(LoadHeaders(ps), |bytes|, base, limit, h.entry);
      NoLoads(ps);
    }
  }

  /** For every printed image the planner succeeds exactly when the printed values are acceptable, and then its plan
      holds the printed entry point and, for each loadable header in table order, exactly the printed values. */
  method PlanPrinted(bytes: seq<byte>, ghost h: Ehdr, ghost ps: seq<Phdr>, base: nat, limit: nat, machine: Machine)
    returns (status: Status, plan: Plan)
    requires Laid(bytes, h, ps)
    ensures status == Success <==> Accepted(h, ps, |bytes|, base, limit, machine)
    ensures status == Success ==>
      && plan.entry == h.entry && |plan.segments| == |LoadHeaders(ps)|
      && (forall i :: 0 <= i < |plan.segments| ==> plan.segments[i] == Planned(LoadHeaders(ps)[i]))
      && plan.stackSize == 65536 && plan.guardSize == 4096 && plan.startupPageSize == 4096
  {
    hide Laid, Loadable, ParseImage, Accepted, AllLoads, LoadHeaders, Planned, ToPlan, ToSegment;
    LoadableIff(bytes, h, ps, base, limit, machine);
    status, plan := GenerateLoadPlan(bytes, base, limit, machine);
    SegmentsIff(LoadHeaders(ps), |bytes|, base, limit, h.entry);
  }
}
