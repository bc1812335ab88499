/** Boot-module descriptors and `boot_info_finalize`: container headers are validated and stripped, and a
    bundle of concatenated containers is expanded into one descriptor per container by a loop whose own
    bound grows as it appends. */
module BootModules {
  import opened Bytes

  const MAX_MODULES := 16
  const HEADER := 128
  const CONTAINER_MAGIC := 0xB4A2_D1A5
  const BOOT_INFO_MAGIC := 0xB4A2_A705
  const NAME_FIELD := 76

  /** Physical memory contents, as the loader's mapping exposes them. */
  type Memory = nat -> byte

  function Word(mem: Memory, a: nat): (v: nat)
    ensures v < TWO32
  {
    Le32([mem(a), mem(a + 1), mem(a + 2), mem(a + 3)], 0)
  }

  /** A module name: no pointer, a loader's string, or the name field of a container header. */
  datatype Name = NullName | Text(text: seq<byte>) | Field(addr: nat)

  datatype Module = Module(phys: nat, size: nat, name: Name)
  datatype Payload = Payload(phys: nat, size: nat)
  datatype Boot = Boot(modules: seq<Module>, init: Option<Payload>, degraded: bool)

  /** The C string the name points at is exactly `text`. */
  predicate NameIs(mem: Memory, n: Name, text: seq<byte>) {
    match n
    case NullName => false
    case Text(t) => t == text
    case Field(a) => (forall k :: 0 <= k < |text| ==> mem(a + k) == text[k]) && mem(a + |text|) == 0
  }

  /** The checks on a container header found at the start of a module. */
  predicate ValidHeader(mem: Memory, m: Module)
    requires m.size >= HEADER
  {
    && Word(mem, m.phys + 4) == 0x100
    && Word(mem, m.phys + 8) == HEADER
    && Word(mem, m.phys + 16) == HEADER
    && 0 < Word(mem, m.phys + 20) <= m.size - HEADER
    && 1 <= Word(mem, m.phys + 12) <= 3
    && 0 < Word(mem, m.phys + 36) < 32
    && mem(m.phys + NAME_FIELD + Word(mem, m.phys + 36)) == 0
    && m.phys + m.size < TWO64
  }

  lemma KindRange(mem: Memory, m: Module)
    requires m.size >= HEADER && ValidHeader(mem, m)
    ensures 1 <= Word(mem, m.phys + 12) <= 3 && 0 < Word(mem, m.phys + 20) <= m.size - HEADER
  {
  }

  predicate ValidSuffix(mem: Memory, a: nat) {
    Word(mem, a) == CONTAINER_MAGIC && Word(mem, a + 12) == 3
  }

  datatype Visited = Keep(s: Boot) | Reject(s: Boot)

  /** The mapping yields no pointer only for address zero. */
  predicate Unmapped(m: Module, nullAtZero: bool) { nullAtZero && m.phys == 0 }

  function Stripped(mem: Memory, m: Module): Module {
    Module(m.phys + HEADER, Word(mem, m.phys + 20), Field(m.phys + NAME_FIELD))
  }

  function VisitContainer(mem: Memory, s: Boot, i: nat): (r: Visited)
    requires i < |s.modules| <= MAX_MODULES && s.modules[i].size >= HEADER
    ensures |r.s.modules| <= MAX_MODULES && |s.modules| <= |r.s.modules|
  {
    var m := s.modules[i];
    var reject := Reject(s.(degraded := true));
    if !ValidHeader(mem, m) then reject
    else
      var consumed := HEADER + Word(mem, m.phys + 20);
      if consumed < m.size && (m.size - consumed < HEADER || |s.modules| >= MAX_MODULES ||
                               !ValidSuffix(mem, m.phys + consumed)) then reject
      else
        var extra := if consumed < m.size then [Module(m.phys + consumed, m.size - consumed, NullName)] else [];
        var d := Stripped(mem, m);
        var init := if Word(mem, m.phys + 12) == 3 then s.init else Some(Payload(d.phys, d.size));
        Keep(s.(modules := s.modules[i := d] + extra, init := init))
  }

  function VisitRaw(mem: Memory, s: Boot, i: nat): Boot
    requires i < |s.modules|
  {
    var m := s.modules[i];
    if NameIs(mem, m.name, Ascii("services/init")) || NameIs(mem, m.name, Ascii("initrd")) then
      s.(modules := s.modules[i := m.(name := Text(Ascii("services/init")))], init := Some(Payload(m.phys, m.size)))
    else s
  }

  function Visit(mem: Memory, nullAtZero: bool, s: Boot, i: nat): (r: Visited)
    requires i < |s.modules| <= MAX_MODULES
    ensures |r.s.modules| <= MAX_MODULES && |s.modules| <= |r.s.modules|
  {
    var m := s.modules[i];
    if m.size < HEADER || Unmapped(m, nullAtZero) then Keep(s)
    else if Word(mem, m.phys) == CONTAINER_MAGIC then VisitContainer(mem, s, i)
    else Keep(VisitRaw(mem, s, i))
  }

  /** The loop from index `i` on: the return code and the boot record it leaves. */
  function Finalise(mem: Memory, nullAtZero: bool, s: Boot, i: nat): (int, Boot)
    requires |s.modules| <= MAX_MODULES
    decreases MAX_MODULES - i
  {
    if i >= |s.modules| then (0, s)
    else
      match Visit(mem, nullAtZero, s, i)
      case Keep(s') => Finalise(mem, nullAtZero, s', i + 1)
      case Reject(s') => (-1, s')
  }

  lemma FinaliseStep(mem: Memory, nullAtZero: bool, s: Boot, i: nat)
    requires |s.modules| <= MAX_MODULES
    ensures Finalise(mem, nullAtZero, s, i) ==
      if i >= |s.modules| then (0, s)
      else
        match Visit(mem, nullAtZero, s, i)
        case Keep(s') => Finalise(mem, nullAtZero, s', i + 1)
        case Reject(s') => (-1, s')
  {
    hide Visit;
  }

  /** `boot_info_t`, as far as the module loop touches it. */
  class BootInfo {
    var magic: nat
    const modules: array<Module>
    var moduleCount: nat
    var init: Option<Payload>
    var isDegraded: bool
    var reasons: bv32

    ghost predicate Valid()
      reads this
    {
      modules.Length == MAX_MODULES && moduleCount <= MAX_MODULES
    }

    ghost function View(): Boot
      requires Valid()
      reads this, modules
    {
      Boot(modules[..moduleCount], init, isDegraded)
    }

    constructor ()
      ensures Valid() && fresh(modules) && View() == Boot([], None, false) && magic == BOOT_INFO_MAGIC
    {
      magic := BOOT_INFO_MAGIC;
      modules := new Module[MAX_MODULES](_ => Module(0, 0, NullName));
      moduleCount, init, isDegraded, reasons := 0, None, false, 0;
    }

    /** `boot_info_add_module` */
    method AddModule(phys: nat, size: nat, name: Name) returns (code: int)
      requires Valid()
      modifies this`moduleCount, modules
      ensures Valid()
      ensures code == if magic != BOOT_INFO_MAGIC then -1 else if size == 0 then -2
                      else if old(moduleCount) >= MAX_MODULES then -4 else 0
      ensures View() == if code == 0 then old(View()).(modules := old(View()).modules + [Module(phys, size, name)])
                        else old(View())
    {
      if magic != BOOT_INFO_MAGIC { return -1; }
      if size == 0 { return -2; }
      if moduleCount >= MAX_MODULES { return -4; }
      modules[moduleCount] := Module(phys, size, name);
      moduleCount := moduleCount + 1;
      code := 0;
    }

    method Degrade() returns (code: int)
      modifies this`isDegraded, this`reasons
      ensures isDegraded && reasons == old(reasons) | 0x1000 && code == -1
    {
      isDegraded := true;
      reasons := reasons | 0x1000;
      code := -1;
    }

    /** The container branch of the loop body, in place. */
    method VisitContainerAt(mem: Memory, i: nat) returns (code: int)
      requires Valid() && i < moduleCount && modules[i].size >= HEADER
      modifies this`moduleCount, this`init, this`isDegraded, this`reasons, modules
      ensures Valid() && moduleCount >= old(moduleCount)
      ensures VisitContainer(mem, old(View()), i) == if code == 0 then Keep(View()) else Reject(View())
      ensures code == 0 || (code == -1 && reasons == old(reasons) | 0x1000)
      ensures code == 0 ==> reasons == old(reasons)
    {
      hide ValidHeader, ValidSuffix, Word;
      ghost var was := modules[..moduleCount];
      var m := modules[i];
      if !ValidHeader(mem, m) { code := Degrade(); return; }
      var consumed := HEADER + Word(mem, m.phys + 20);
      if consumed < m.size {
        if m.size - consumed < HEADER || moduleCount >= MAX_MODULES { code := Degrade(); return; }
        if !ValidSuffix(mem, m.phys + consumed) { code := Degrade(); return; }
        modules[moduleCount] := Module(m.phys + consumed, m.size - consumed, NullName);
        moduleCount := moduleCount + 1;
        assert modules[..moduleCount] == was + [modules[moduleCount - 1]];
      }
      modules[i] := Stripped(mem, m);
      assert modules[..moduleCount] == was[i := Stripped(mem, m)] +
        if consumed < m.size then [Module(m.phys + consumed, m.size - consumed, NullName)] else [];
      KindRange(mem, m);
      var kind := Word(mem, m.phys + 12);
      if kind == 1 || kind == 2 { init := Some(Payload(modules[i].phys, modules[i].size)); }
      code := 0;
    }

    /** The backwards-compatible branch: a raw module called `services/init` or `initrd` is the root. */
    method VisitRawAt(mem: Memory, i: nat)
      requires Valid() && i < moduleCount
      modifies this`init, modules
      ensures View() == VisitRaw(mem, old(View()), i)
    {
      hide NameIs, Ascii;
      ghost var was := modules[..moduleCount];
      var m := modules[i];
      if NameIs(mem, m.name, Ascii("services/init")) || NameIs(mem, m.name, Ascii("initrd")) {
        init := Some(Payload(m.phys, m.size));
        modules[i] := m.(name := Text(Ascii("services/init")));
        assert modules[..moduleCount] == was[i := modules[i]];
      }
    }

    /** `boot_info_finalize`: the loop bound `moduleCount` grows while the loop runs. */
    method FinalizeModules(mem: Memory, nullAtZero: bool) returns (code: int)
      requires Valid()
      modifies this`moduleCount, this`init, this`isDegraded, this`reasons, modules
      ensures Valid()
      ensures magic != BOOT_INFO_MAGIC ==> code == -1 && View() == old(View())
      ensures magic == BOOT_INFO_MAGIC ==> (code, View()) == Finalise(mem, nullAtZero, old(View()), 0)
      ensures reasons == old(reasons) || (code == -1 && reasons == old(reasons) | 0x1000)
    {
      hide VisitContainer, VisitRaw, Word, Finalise;
      if magic != BOOT_INFO_MAGIC { return -1; }
      var i := 0;
      while i < moduleCount
        invariant Valid() && i <= MAX_MODULES && reasons == old(reasons)
        invariant Finalise(mem, nullAtZero, old(View()), 0) == Finalise(mem, nullAtZero, View(), i)
        decreases MAX_MODULES - i
      {
        FinaliseStep(mem, nullAtZero, View(), i);
        var m := modules[i];
        if m.size >= HEADER && !Unmapped(m, nullAtZero) {
          if Word(mem, m.phys) == CONTAINER_MAGIC {
            code := VisitContainerAt(mem, i);
            if code != 0 { return; }
          } else {
            VisitRawAt(mem, i);
          }
        }
        i := i + 1;
      }
      FinaliseStep(mem, nullAtZero, View(), i);
      code := 0;
    }
  }

  // ------------------------------------------------- safety for every memory content

  predicate Within(m: Module, outer: Module) {
    outer.phys <= m.phys && m.phys + m.size <= outer.phys + outer.size
  }

  predicate Apart(a: Module, b: Module) {
    a.phys + a.size <= b.phys || b.phys + b.size <= a.phys
  }

  /** No two descriptors of the table overlap. */
  ghost predicate Separate(ms: seq<Module>) {
    forall i, j :: 0 <= i < j < |ms| ==> Apart(ms[i], ms[j])
  }

  ghost predicate InsideSome(m: Module, origin: seq<Module>) {
    exists j :: 0 <= j < |origin| && Within(m, origin[j])
  }

  /** Every descriptor lies inside some module of `origin`. */
  ghost predicate Covered(ms: seq<Module>, origin: seq<Module>) {
    forall i :: 0 <= i < |ms| ==> InsideSome(ms[i], origin)
  }

  lemma WithinSome(d: Module, m: Module, origin: seq<Module>)
    requires InsideSome(m, origin) && Within(d, m)
    ensures InsideSome(d, origin)
  {
    var j :| 0 <= j < |origin| && Within(m, origin[j]);
    assert Within(d, origin[j]);
  }

  /** Replacing a descriptor by disjoint parts of itself keeps the table separate and covered. */
  lemma SplitSafe(ms: seq<Module>, i: nat, d: Module, extra: seq<Module>, origin: seq<Module>)
    requires i < |ms| && Separate(ms) && Covered(ms, origin) && Within(d, ms[i]) && |extra| <= 1
    requires extra != [] ==> Within(extra[0], ms[i]) && Apart(d, extra[0])
    ensures Separate(ms[i := d] + extra) && Covered(ms[i := d] + extra, origin)
  {
    hide InsideSome;
    var r := ms[i := d] + extra;
    WithinSome(d, ms[i], origin);
    if extra != [] { WithinSome(extra[0], ms[i], origin); }
    forall k | 0 <= k < |r| ensures InsideSome(r[k], origin) {
      assert k < |ms| && k != i ==> r[k] == ms[k];
    }
    forall k, l | 0 <= k < l < |r| ensures Apart(r[k], r[l]) {
      assert Apart(ms[k], if l < |ms| then ms[l] else r[l]) || k == i || l == i || l == |ms| by {
        if l < |ms| { assert Apart(ms[k], ms[l]); }
      }
      if l == |ms| && k != i { assert if k < i then Apart(ms[k], ms[i]) else Apart(ms[i], ms[k]); }
    }
  }

  lemma ContainerSafe(mem: Memory, s: Boot, i: nat, origin: seq<Module>)
    requires i < |s.modules| <= MAX_MODULES && s.modules[i].size >= HEADER
    requires Separate(s.modules) && Covered(s.modules, origin)
    ensures var r := VisitContainer(mem, s, i).s.modules; Separate(r) && Covered(r, origin)
  {
    hide ValidSuffix, Separate, Covered, Word;
    var r, m := VisitContainer(mem, s, i).s.modules, s.modules[i];
    if VisitContainer(mem, s, i).Keep? {
      var d, consumed := Stripped(mem, m), HEADER + Word(mem, m.phys + 20);
      var extra := if consumed < m.size then [Module(m.phys + consumed, m.size - consumed, NullName)] else [];
      assert r == s.modules[i := d] + extra;
      SplitSafe(s.modules, i, d, extra, origin);
    }
  }

  lemma RawSafe(mem: Memory, s: Boot, i: nat, origin: seq<Module>)
    requires i < |s.modules| && Separate(s.modules) && Covered(s.modules, origin)
    ensures var r := VisitRaw(mem, s, i).modules; |r| == |s.modules| && Separate(r) && Covered(r, origin)
  {
    hide NameIs, Ascii;
    var r, m := VisitRaw(mem, s, i).modules, s.modules[i];
    assert InsideSome(m, origin);
    var j :| 0 <= j < |origin| && Within(m, origin[j]);
    assert Within(r[i], origin[j]);
    assert forall k :: 0 <= k < |r| && k != i ==> r[k] == s.modules[k];
  }

  /** Whatever the memory holds and whether or not the table is accepted, expansion never makes two
      descriptors overlap and never reaches outside the modules the loader registered. */
  lemma {:induction false} FinaliseSafe(mem: Memory, nullAtZero: bool, s: Boot, i: nat, origin: seq<Module>)
    requires |s.modules| <= MAX_MODULES && Separate(s.modules) && Covered(s.modules, origin)
    ensures var r := Finalise(mem, nullAtZero, s, i).1.modules; Separate(r) && Covered(r, origin)
    decreases MAX_MODULES - i
  {
    hide Separate, Covered, VisitContainer, VisitRaw;
    if i < |s.modules| {
      if s.modules[i].size >= HEADER {
        ContainerSafe(mem, s, i, origin);
        RawSafe(mem, s, i, origin);
      }
      match Visit(mem, nullAtZero, s, i)
      case Keep(s') => FinaliseSafe(mem, nullAtZero, s', i + 1, origin);
      case Reject(s') =>
    }
  }

  /** Bytes a descriptor accounts for: its own, plus the header stripped in front of it. */
  function Accounted(m: Module): nat { if m.name.Field? then m.size + HEADER else m.size }

  function Total(ms: seq<Module>): nat {
    if ms == [] then 0 else Total(ms[..|ms| - 1]) + Accounted(ms[|ms| - 1])
  }

  lemma {:induction false} TotalUpdate(ms: seq<Module>, i: nat, m: Module)
    requires i < |ms|
    ensures Total(ms[i := m]) == Total(ms) - Accounted(ms[i]) + Accounted(m)
    decreases |ms|
  {
    var init := ms[..|ms| - 1];
    if i == |ms| - 1 {
      assert ms[i := m][..|ms| - 1] == init;
    } else {
      assert ms[i := m][..|ms| - 1] == init[i := m];
      TotalUpdate(init, i, m);
    }
  }

  /** Modules from index `i` on still carry loader names. */
  predicate Fresh(ms: seq<Module>, i: nat) {
    forall k :: i <= k < |ms| ==> !ms[k].name.Field?
  }

  lemma ContainerAccounts(mem: Memory, s: Boot, i: nat)
    requires i < |s.modules| <= MAX_MODULES && Fresh(s.modules, i) && s.modules[i].size >= HEADER
    requires VisitContainer(mem, s, i).Keep?
    ensures var r := VisitContainer(mem, s, i).s.modules; Total(r) == Total(s.modules) && Fresh(r, i + 1)
  {
    hide ValidSuffix;
    var m, d, r := s.modules[i], Stripped(mem, s.modules[i]), VisitContainer(mem, s, i).s.modules;
    var base := s.modules[i := d];
    TotalUpdate(s.modules, i, d);
    if HEADER + d.size < m.size {
      var extra := Module(m.phys + HEADER + d.size, m.size - HEADER - d.size, NullName);
      assert r == base + [extra];
      assert r[..|r| - 1] == base;
    } else {
      assert r == base + [];
      assert r == base;
    }
  }

  lemma VisitAccounts(mem: Memory, nullAtZero: bool, s: Boot, i: nat)
    requires i < |s.modules| <= MAX_MODULES && Fresh(s.modules, i)
    ensures var r := Visit(mem, nullAtZero, s, i).s.modules; Total(r) == Total(s.modules) && Fresh(r, i + 1)
  {
    hide ValidHeader, ValidSuffix, NameIs, Ascii;
    var v, m := Visit(mem, nullAtZero, s, i), s.modules[i];
    if m.size >= HEADER && !Unmapped(m, nullAtZero) {
      if Word(mem, m.phys) == CONTAINER_MAGIC {
        if v.Keep? { ContainerAccounts(mem, s, i); }
      } else {
        TotalUpdate(s.modules, i, m.(name := Text(Ascii("services/init"))));
      }
    }
  }

  /** Conservation: payloads and stripped headers together account for every byte registered. */
  lemma {:induction false} FinaliseConserves(mem: Memory, nullAtZero: bool, s: Boot, i: nat)
    requires |s.modules| <= MAX_MODULES && Fresh(s.modules, i)
    ensures Total(Finalise(mem, nullAtZero, s, i).1.modules) == Total(s.modules)
    decreases MAX_MODULES - i
  {
    hide Visit, Fresh, Total;
    if i < |s.modules| {
      VisitAccounts(mem, nullAtZero, s, i);
      match Visit(mem, nullAtZero, s, i)
      case Keep(s') => FinaliseConserves(mem, nullAtZero, s', i + 1);
      case Reject(s') =>
    }
  }
}
