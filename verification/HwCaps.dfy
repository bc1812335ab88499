/** The hardware capability record on top of the CPU feature layers, and runs over all three layers together. */
module HwCaps {
  import opened Bits
  import opened Bytes
  import opened CpuFeatures
  import opened CpuCaps

  datatype Phase = Uninitialized | RawDiscovered | CpuFinalized | Frozen

  /** `other` stands for the fields no later step touches. */
  datatype Record = Record(hasIommu: bool, hasAtomic64: bool, hasVector: bool, hasCrypto: bool, maxCpus: nat,
                           other: nat)

  /** What platform discovery found: IOMMUs and CPUs. */
  datatype Discovery = Discovery(iommus: nat, cpus: nat)

  datatype Machine = Machine(caps: Caps, phase: Phase, hw: Record)

  const NO_RECORD := Record(false, false, false, false, 0, 0)

  function Start(): (m: Machine)
    ensures Fits(m.caps)
  {
    Machine(EmptyCaps(), Uninitialized, NO_RECORD)
  }

  datatype Step =
    | HalStep(call: HalCall)
    | BootCaps(boot: Features)
    | ApCaps(cpu: nat, ap: Option<Features>)
    | FinalizeCaps
    | PublishRaw(raw: Option<Record>)
    | PublishCpuCaps
    | FinalizeHw(discovery: Option<Discovery>)

  /** `hal_hw_caps_publish_raw` */
  function Raw(m: Machine, raw: Option<Record>): (r: (Machine, Status)) {
    if raw.None? then (m, InvalidArg)
    else if m.phase != Uninitialized then (m, BadState)
    else (m.(hw := raw.value, phase := RawDiscovered), Ok)
  }

  /** `hal_hw_caps_publish_cpu` */
  function CpuRecord(m: Machine): (r: (Machine, Status)) {
    var h := m.caps.hal;
    if m.phase != RawDiscovered then (m, BadState)
    else if h.system.None? then (m, InProgress)
    else
      (m.(hw := m.hw.(hasAtomic64 := HasSystemFeature(h, STRONG_ATOMICS, All),
                      hasVector := HasSystemFeature(h, VECTOR, All),
                      hasCrypto := HasSystemFeature(h, CRYPTO, All) || HasSystemFeature(h, AES, All) ||
                                   HasSystemFeature(h, SHA, All)),
          phase := CpuFinalized), Ok)
  }

  /** `hal_hw_caps_finalize` */
  function FinalRecord(m: Machine, d: Option<Discovery>): (r: (Machine, Status)) {
    if m.phase != CpuFinalized then (m, BadState)
    else
      (m.(hw := m.hw.(hasIommu := d.Some? && d.value.iommus != 0,
                      maxCpus := if d.Some? && d.value.cpus != 0 then d.value.cpus else m.hw.maxCpus),
          phase := Frozen), Ok)
  }

  function Take(m: Machine, s: Step): (r: Machine)
    requires Fits(m.caps)
    ensures Fits(r.caps)
  {
    match s
    case HalStep(c) => m.(caps := m.caps.(hal := Call(m.caps.hal, c).0))
    case BootCaps(boot) => m.(caps := SetBoot(m.caps, boot))
    case ApCaps(cpu, ap) => m.(caps := SetAp(m.caps, cpu, ap))
    case FinalizeCaps => m.(caps := Finalize(m.caps).0)
    case PublishRaw(raw) => Raw(m, raw).0
    case PublishCpuCaps => CpuRecord(m).0
    case FinalizeHw(d) => FinalRecord(m, d).0
  }

  function Run(m: Machine, steps: seq<Step>): (r: Machine)
    requires Fits(m.caps)
    ensures Fits(r.caps)
    decreases |steps|
  {
    if steps == [] then m else Run(Take(m, steps[0]), steps[1..])
  }

  // ------------------------------------------------------------------------- invariants

  /** The HAL aggregates are those of its CPUs, and from the CPU phase on the record says what the frozen HAL says. */
  ghost predicate Honest(m: Machine) {
    && Fits(m.caps) && HalInv(m.caps.hal)
    && (m.phase in {CpuFinalized, Frozen} ==>
          && m.caps.hal.system.Some?
          && m.hw.hasVector == HasSystemFeature(m.caps.hal, VECTOR, All)
          && m.hw.hasAtomic64 == HasSystemFeature(m.caps.hal, STRONG_ATOMICS, All)
          && m.hw.hasCrypto == (HasSystemFeature(m.caps.hal, CRYPTO, All) || HasSystemFeature(m.caps.hal, AES, All) ||
                                HasSystemFeature(m.caps.hal, SHA, All)))
  }

  /** Every step goes through the HAL's own calls, so a frozen HAL survives it unchanged. */
  lemma TakeKeepsHal(m: Machine, s: Step)
    requires Fits(m.caps) && HalInv(m.caps.hal)
    ensures HalInv(Take(m, s).caps.hal)
    ensures m.caps.hal.system.Some? ==> Take(m, s).caps.hal == m.caps.hal
  {
    hide Export, Aggregate;
  }

  lemma TakeHonest(m: Machine, s: Step)
    requires Honest(m)
    ensures Honest(Take(m, s))
  {
    hide Call, Finalize, SetBoot, SetAp, HasSystemFeature, HalInv;
    TakeKeepsHal(m, s);
  }

  lemma HonestFits(m: Machine)
    requires Honest(m)
    ensures Fits(m.caps)
  {
  }

  lemma {:induction false} RunHonest(m: Machine, steps: seq<Step>)
    requires Honest(m)
    ensures Honest(Run(m, steps))
    decreases |steps|
  {
    hide Take, Honest;
    if steps != [] {
      TakeHonest(m, steps[0]);
      HonestFits(m);
      HonestFits(Take(m, steps[0]));
      RunHonest(Take(m, steps[0]), steps[1..]);
    }
  }

  lemma StartHonest()
    ensures Honest(Start())
  {
  }

  /** After any run, a frozen record claims vectors (feature 0) exactly when every published CPU has them usable, 64-bit
      atomics (7) likewise, and crypto exactly when one of CRYPTO (6), AES (3) and SHA (4) is on every CPU. */
  lemma FrozenRecordIsTrue(steps: seq<Step>)
    requires Run(Start(), steps).phase == Frozen
    ensures var m := Run(Start(), steps);
            var h := m.caps.hal;
            && h.system.Some?
            && (m.hw.hasVector <==> EveryCpuHas(h, 0))
            && (m.hw.hasAtomic64 <==> EveryCpuHas(h, 7))
            && (m.hw.hasCrypto <==> EveryCpuHas(h, 6) || EveryCpuHas(h, 3) || EveryCpuHas(h, 4))
  {
    hide Run, HasSystemFeature, EveryCpuHas, Start, HalInv;
    StartHonest();
    RunHonest(Start(), steps);
    var h := Run(Start(), steps).caps.hal;
    SystemMeaning(h, VECTOR);
    SystemMeaning(h, STRONG_ATOMICS);
    SystemMeaning(h, CRYPTO);
    SystemMeaning(h, AES);
    SystemMeaning(h, SHA);
  }

  lemma FrozenTake(m: Machine, s: Step)
    requires Fits(m.caps) && HalInv(m.caps.hal) && m.phase == Frozen && m.caps.hal.system.Some?
    ensures Take(m, s).phase == Frozen && Take(m, s).hw == m.hw && Take(m, s).caps.hal == m.caps.hal
  {
    hide Export, Aggregate;
  }

  /** Once the record is frozen no further step changes it or the HAL table it was taken from. */
  lemma {:induction false} FrozenForGood(m: Machine, more: seq<Step>)
    requires Fits(m.caps) && HalInv(m.caps.hal) && m.phase == Frozen && m.caps.hal.system.Some?
    ensures var r := Run(m, more); r.phase == Frozen && r.hw == m.hw && r.caps.hal == m.caps.hal
    decreases |more|
  {
    hide Take, HalInv;
    if more != [] {
      FrozenTake(m, more[0]);
      FrozenForGood(Take(m, more[0]), more[1..]);
    }
  }

  // ----------------------------------------------------------- where the record comes from

  predicate IsRaw(s: Step) { s.PublishRaw? && s.raw.Some? }

  /** The first raw record published in a run. */
  predicate FirstRaw(steps: seq<Step>, p: nat) {
    p < |steps| && IsRaw(steps[p]) && forall k :: 0 <= k < p ==> !IsRaw(steps[k])
  }

  /** The IOMMU and CPU facts of a frozen record: discovery's where it found something, the raw record's otherwise. */
  predicate FromDiscovery(hw: Record, raw: Record, d: Option<Discovery>) {
    && (hw.hasIommu <==> d.Some? && d.value.iommus > 0)
    && hw.maxCpus == (if d.Some? && d.value.cpus > 0 then d.value.cpus else raw.maxCpus)
  }

  /** The record goes back to the first raw record of the run and to a later finalisation. */
  ghost predicate ComesFrom(hw: Record, steps: seq<Step>) {
    exists p: nat, q: nat :: FirstRaw(steps, p) && p < q < |steps| && steps[q].FinalizeHw? &&
      hw.other == steps[p].raw.value.other && FromDiscovery(hw, steps[p].raw.value, steps[q].discovery)
  }

  /** What the steps taken so far say of the record. */
  ghost predicate Provenance(m: Machine, done: seq<Step>) {
    match m.phase
    case Uninitialized => m.hw == NO_RECORD && forall k :: 0 <= k < |done| ==> !IsRaw(done[k])
    case Frozen => ComesFrom(m.hw, done)
    case _ =>
      exists p: nat :: FirstRaw(done, p) && m.hw.other == done[p].raw.value.other &&
                       m.hw.hasIommu == done[p].raw.value.hasIommu && m.hw.maxCpus == done[p].raw.value.maxCpus
  }

  lemma FirstRawStays(done: seq<Step>, s: Step, p: nat)
    requires FirstRaw(done, p)
    ensures FirstRaw(done + [s], p) && (done + [s])[p] == done[p]
  {
  }

  lemma TakeProvenance(m: Machine, done: seq<Step>, s: Step)
    requires Fits(m.caps) && Provenance(m, done)
    ensures Provenance(Take(m, s), done + [s])
  {
    hide Call, Finalize, SetBoot, SetAp, HasSystemFeature;
    var r, all := Take(m, s), done + [s];
    if m.phase == Uninitialized {
      if r.phase != Uninitialized { assert FirstRaw(all, |done|); }
    } else if m.phase == Frozen {
      var p: nat, q: nat :| FirstRaw(done, p) && p < q < |done| && done[q].FinalizeHw? &&
        m.hw.other == done[p].raw.value.other && FromDiscovery(m.hw, done[p].raw.value, done[q].discovery);
      FirstRawStays(done, s, p);
      assert all[q] == done[q];
    } else {
      var p: nat :| FirstRaw(done, p) && m.hw.other == done[p].raw.value.other &&
        m.hw.hasIommu == done[p].raw.value.hasIommu && m.hw.maxCpus == done[p].raw.value.maxCpus;
      FirstRawStays(done, s, p);
      if r.phase == Frozen { assert all[|done|] == s && FromDiscovery(r.hw, done[p].raw.value, s.discovery); }
    }
  }

  lemma {:induction false} RunProvenance(m: Machine, done: seq<Step>, more: seq<Step>)
    requires Fits(m.caps) && Provenance(m, done)
    ensures Provenance(Run(m, more), done + more)
    decreases |more|
  {
    hide Take, Provenance;
    if more == [] {
      assert done + more == done;
    } else {
      TakeProvenance(m, done, more[0]);
      RunProvenance(Take(m, more[0]), done + [more[0]], more[1..]);
      assert done + [more[0]] + more[1..] == done + more;
    }
  }

  lemma StartProvenance()
    ensures Provenance(Start(), [])
  {
  }

  /** After any run a frozen record goes back to the first raw record published and to a later finalisation: IOMMUs and
      the CPU count are those discovery found, and every other field is the raw record's. */
  lemma FrozenRecordComesFrom(steps: seq<Step>)
    requires Run(Start(), steps).phase == Frozen
    ensures ComesFrom(Run(Start(), steps).hw, steps)
  {
    hide Run, Start, ComesFrom;
    StartProvenance();
    RunProvenance(Start(), [], steps);
    assert [] + steps == steps;
  }

  // -------------------------------------------------------------- the two layers together

  /** Steps that leave the HAL table to the architecture layer. */
  predicate ArchOnly(steps: seq<Step>) { forall i :: 0 <= i < |steps| ==> !steps[i].HalStep? }

  lemma SyncedFits(s: Caps)
    requires Synced(s)
    ensures Fits(s)
  {
  }

  lemma {:induction false} RunSynced(m: Machine, steps: seq<Step>)
    requires Synced(m.caps) && ArchOnly(steps)
    ensures Synced(Run(m, steps).caps)
    decreases |steps|
  {
    hide Synced, SetBoot, SetAp, Finalize;
    SyncedFits(m.caps);
    if steps != [] {
      match steps[0] {
        case BootCaps(boot) => SetBootSynced(m.caps, boot);
        case ApCaps(cpu, ap) => SetApSynced(m.caps, cpu, ap);
        case FinalizeCaps => FinalizeSynced(m.caps);
        case PublishRaw(_) =>
        case PublishCpuCaps =>
        case FinalizeHw(_) =>
      }
      RunSynced(Take(m, steps[0]), steps[1..]);
    }
  }

  lemma StartSynced()
    ensures Synced(EmptyCaps())
  {
    hide Export;
    assert EmptyHal().cpus[..MAX_CPUS] == ExportAll(EmptyCaps().cpus);
  }

  /** At every successful finalisation of any run of the architecture layer, the HAL's frozen aggregates are the export
      of the architecture's own. */
  lemma LayersAgree(steps: seq<Step>)
    requires ArchOnly(steps) && Finalize(Run(Start(), steps).caps).1 == Ok
    ensures var r := Finalize(Run(Start(), steps).caps).0;
            && r.system.Some? && r.hal.system.Some?
            && r.hal.system.value == (Export(r.system.value.0), Export(r.system.value.1))
  {
    hide Finalize, Synced, Run, Export;
    StartSynced();
    RunSynced(Start(), steps);
    FinalizeCommutes(Run(Start(), steps).caps);
  }

  lemma StaysWithdrawn(m: Machine, s: Step)
    requires Fits(m.caps) && HalInv(m.caps.hal) && m.caps.hal.system.Some? && m.caps.system.None?
    ensures Take(m, s).caps.hal == m.caps.hal && Take(m, s).caps.system.None?
    ensures Finalize(m.caps).1 != Ok
  {
    hide Export, Aggregate;
  }

  /** A boot record set after the freeze withdraws the architecture layer's system answers for good: through any further
      steps the HAL keeps its frozen table, finalising never succeeds and the answers never come back. */
  lemma {:induction false} LateBootIsFinal(m: Machine, more: seq<Step>)
    requires Fits(m.caps) && HalInv(m.caps.hal) && m.caps.hal.system.Some? && m.caps.system.None?
    ensures var r := Run(m, more).caps; r.hal == m.caps.hal && r.system.None? && Finalize(r).1 != Ok
    decreases |more|
  {
    hide Take, HalInv, Finalize;
    if more == [] {
      StaysWithdrawn(m, FinalizeCaps);
    } else {
      StaysWithdrawn(m, more[0]);
      LateBootIsFinal(Take(m, more[0]), more[1..]);
    }
  }

  lemma WithdrawnByBoot(s: Caps, boot: Features)
    requires Fits(s) && s.hal.system.Some?
    ensures SetBoot(s, boot).hal == s.hal && SetBoot(s, boot).system.None?
  {
    hide Export;
  }

  lemma RunFirst(m: Machine, s: Step, more: seq<Step>)
    requires Fits(m.caps)
    ensures Run(m, [s] + more) == Run(Take(m, s), more)
  {
    hide Take;
    assert ([s] + more)[1..] == more;
  }

  /** Setting a boot record on a frozen HAL puts the machine into that state. */
  lemma LateBootWithdraws(m: Machine, boot: Features, more: seq<Step>)
    requires Fits(m.caps) && HalInv(m.caps.hal) && m.caps.hal.system.Some?
    ensures var r := Run(m, [BootCaps(boot)] + more).caps; r.hal == m.caps.hal && r.system.None? && Finalize(r).1 != Ok
  {
    hide HalInv, Finalize, Run;
    var late := Take(m, BootCaps(boot));
    WithdrawnByBoot(m.caps, boot);
    LateBootIsFinal(late, more);
    RunFirst(m, BootCaps(boot), more);
  }

  /** Once both layers are final, no step but a boot record touches either layer's system answers. */
  lemma KeepsAnswers(m: Machine, s: Step)
    requires Fits(m.caps) && HalInv(m.caps.hal) && m.caps.hal.system.Some? && m.caps.system.Some? && !s.BootCaps?
    ensures Take(m, s).caps.hal == m.caps.hal && Take(m, s).caps.system == m.caps.system
  {
    hide Export, Aggregate;
  }

  predicate NoBoot(steps: seq<Step>) { forall i :: 0 <= i < |steps| ==> !steps[i].BootCaps? }

  lemma NoBootTail(steps: seq<Step>)
    requires steps != []
    ensures NoBoot(steps) <==> !steps[0].BootCaps? && NoBoot(steps[1..])
  {
    assert forall i :: 0 <= i < |steps[1..]| ==> steps[1..][i] == steps[i + 1];
  }

  lemma NoBootNone()
    ensures NoBoot([])
  {
  }

  lemma BootStep(m: Machine, boot: Features)
    requires Fits(m.caps) && m.caps.hal.system.Some?
    ensures var r := Take(m, BootCaps(boot)).caps; r.hal == m.caps.hal && r.system.None?
  {
    WithdrawnByBoot(m.caps, boot);
  }

  /** The architecture layer's final answers survive a run exactly when the run sets no boot record, and then
      unchanged. */
  lemma {:induction false} AnswersSurviveIff(m: Machine, more: seq<Step>)
    requires Fits(m.caps) && HalInv(m.caps.hal) && m.caps.hal.system.Some? && m.caps.system.Some?
    ensures var r := Run(m, more).caps;
            && r.hal == m.caps.hal && (r.system.Some? <==> NoBoot(more))
            && (r.system.Some? ==> r.system == m.caps.system)
    decreases |more|
  {
    hide Take, HalInv, NoBoot, Finalize;
    if more == [] {
      NoBootNone();
    } else {
      NoBootTail(more);
      if more[0].BootCaps? {
        BootStep(m, more[0].boot);
        LateBootIsFinal(Take(m, more[0]), more[1..]);
      } else {
        KeepsAnswers(m, more[0]);
        AnswersSurviveIff(Take(m, more[0]), more[1..]);
      }
    }
  }

  lemma BootedCaps(boot: Features)
    ensures var s := SetBoot(EmptyCaps(), boot);
            s.system.None? && s.hal.system.None? && !s.memopsFrozen && s.cpus[0].Some?
  {
    hide Export;
  }

  lemma SyncedHal(s: Caps)
    requires Synced(s)
    ensures Fits(s) && HalInv(s.hal)
  {
  }

  lemma RunThree(m: Machine, a: Step, b: Step, c: Step)
    requires Fits(m.caps)
    ensures Run(m, [a, b]) == Take(Take(m, a), b) && Run(m, [a, b, c]) == Take(Take(Take(m, a), b), c)
  {
    hide Take;
    assert [a, b] == [a] + [b] && [a, b, c] == [a] + [b, c] && [b, c] == [b] + [c];
    assert [b] == [b] + [] && [c] == [c] + [];
    RunFirst(m, a, [b]);
    RunFirst(Take(m, a), b, []);
    RunFirst(m, a, [b, c]);
    RunFirst(Take(m, a), b, [c]);
    RunFirst(Take(Take(m, a), b), c, []);
  }

  /** Such a loss happens: boot, finalise, boot again. */
  lemma AnswersLost(boot: Features)
    ensures Run(Start(), [BootCaps(boot), FinalizeCaps]).caps.system.Some?
    ensures Run(Start(), [BootCaps(boot), FinalizeCaps, BootCaps(boot)]).caps.system.None?
  {
    hide Synced, Finalize, SetBoot, Run, HalInv;
    var m0 := Start();
    StartSynced();
    SetBootSynced(m0.caps, boot);
    var m1 := Take(m0, BootCaps(boot));
    BootedCaps(boot);
    FinalizeOkIff(m1.caps);
    FinalizeCommutes(m1.caps);
    FinalizeSynced(m1.caps);
    var m2 := Take(m1, FinalizeCaps);
    SyncedHal(m2.caps);
    RunThree(m0, BootCaps(boot), FinalizeCaps, BootCaps(boot));
    WithdrawnByBoot(m2.caps, boot);
  }

  // ----------------------------------------------------------------- the record in place

  class CapsRecord {
    const caps: CapsState
    var phase: Phase
    var hw: Record

    ghost predicate Valid()
      reads this, caps, caps.present
    {
      caps.Valid()
    }

    ghost function View(): Machine
      requires Valid()
      reads this, caps, caps.perCpu, caps.present, caps.hal, caps.hal.perCpu, caps.hal.present
    {
      Machine(caps.View(), phase, hw)
    }

    constructor ()
      ensures Valid() && View() == Start() && fresh(caps)
    {
      caps := new CapsState();
      phase, hw := Uninitialized, NO_RECORD;
    }

    method PublishRawRecord(raw: Option<Record>) returns (status: Status)
      requires Valid()
      modifies this
      ensures Valid() && (View(), status) == Raw(old(View()), raw)
    {
      if raw.None? { return InvalidArg; }
      if phase != Uninitialized { return BadState; }
      hw, phase := raw.value, RawDiscovered;
      status := Ok;
    }

    method PublishCpuRecord() returns (status: Status)
      requires Valid()
      modifies this
      ensures Valid() && (View(), status) == CpuRecord(old(View()))
    {
      hide Test, Published, CountPresent;
      if phase != RawDiscovered { return BadState; }
      if !caps.hal.frozen { return InProgress; }
      var all := caps.hal.all.usable;
      hw := hw.(hasAtomic64 := Test(all, STRONG_ATOMICS), hasVector := Test(all, VECTOR),
                hasCrypto := Test(all, CRYPTO) || Test(all, AES) || Test(all, SHA));
      phase := CpuFinalized;
      status := Ok;
    }

    method FinalizeRecord(discovery: Option<Discovery>) returns (status: Status)
      requires Valid()
      modifies this
      ensures Valid() && (View(), status) == FinalRecord(old(View()), discovery)
    {
      if phase != CpuFinalized { return BadState; }
      hw := hw.(hasIommu := discovery.Some? && discovery.value.iommus != 0);
      if discovery.Some? && discovery.value.cpus != 0 { hw := hw.(maxCpus := discovery.value.cpus); }
      phase := Frozen;
      status := Ok;
    }
  }
}
