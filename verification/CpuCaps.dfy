/** The architecture layer above the HAL table: it keeps its own per-CPU records, exports each one to the HAL, and
    aggregates on its own. The two orders, export then aggregate and aggregate then export, agree. */
module CpuCaps {
  import opened Bits
  import opened Bytes
  import opened CpuFeatures

  const MAX_CPUS := 32

  datatype Status = Ok | BadState | InProgress | InvalidArg

  // ------------------------------------------------------------------------- exporting

  function Move(w: bv64, arch: nat, hal: nat): bv64
    requires arch < 64 && hal < 64
  {
    if Test(w, arch) then Bit(hal) else 0
  }

  function ExportFirst(w: bv64): bv64 {
    Or(Or(Or(Or(Move(w, 3, 0), Move(w, 0, 3)), Move(w, 1, 4)), Move(w, 2, 5)), Move(w, 4, 6))
  }

  function ExportRest(w: bv64): bv64 {
    Or(Or(Or(Or(Move(w, 6, 7), Move(w, 5, 8)), Move(w, 7, 14)), Move(w, 8, 15)), Move(w, 9, 12))
  }

  /** `cpu_caps_export_record` on one word: the ten common features move to their HAL positions. */
  function ExportWord(w: bv64): bv64 { Or(ExportFirst(w), ExportRest(w)) }

  function Export(r: Features): Features { Features(ExportWord(r.raw), ExportWord(r.usable)) }

  function ExportAll(cpus: seq<Option<Features>>): (r: seq<Option<Features>>)
    ensures |r| == |cpus|
    ensures forall i :: 0 <= i < |cpus| ==> r[i] == if cpus[i].Some? then Some(Export(cpus[i].value)) else None
  {
    seq(|cpus|, i requires 0 <= i < |cpus| => if cpus[i].Some? then Some(Export(cpus[i].value)) else None)
  }

  /** The architecture's number for a HAL feature, where there is a common one. */
  function ArchFeature(hal: nat): (r: Option<nat>)
    ensures r.Some? ==> r.value < 10
  {
    match hal
    case 0 => Some(3)
    case 3 => Some(0)
    case 4 => Some(1)
    case 5 => Some(2)
    case 6 => Some(4)
    case 7 => Some(6)
    case 8 => Some(5)
    case 12 => Some(9)
    case 14 => Some(7)
    case 15 => Some(8)
    case _ => None
  }

  lemma MoveTest(w: bv64, arch: nat, hal: nat, f: nat)
    requires arch < 64 && hal < 64 && f < 64
    ensures Test(Move(w, arch, hal), f) <==> f == hal && Test(w, arch)
  {
    hide Bit, Test;
    BitTest(hal, f);
  }

  lemma OrOfFive(a: bv64, b: bv64, c: bv64, d: bv64, e: bv64, f: nat)
    requires f < 64
    ensures Test(Or(Or(Or(Or(a, b), c), d), e), f) <==>
            Test(a, f) || Test(b, f) || Test(c, f) || Test(d, f) || Test(e, f)
  {
    hide Test, Or;
    OrTest(Or(Or(Or(a, b), c), d), e, f);
    OrTest(Or(Or(a, b), c), d, f);
    OrTest(Or(a, b), c, f);
    OrTest(a, b, f);
  }

  /** The exported word has exactly the common features of the original, under their HAL numbers. */
  lemma ExportMeaning(w: bv64, f: nat)
    requires f < 64
    ensures Test(ExportWord(w), f) <==> ArchFeature(f).Some? && Test(w, ArchFeature(f).value)
  {
    hide Test, Or, Move;
    OrTest(ExportFirst(w), ExportRest(w), f);
    OrOfFive(Move(w, 3, 0), Move(w, 0, 3), Move(w, 1, 4), Move(w, 2, 5), Move(w, 4, 6), f);
    OrOfFive(Move(w, 6, 7), Move(w, 5, 8), Move(w, 7, 14), Move(w, 8, 15), Move(w, 9, 12), f);
    MoveTest(w, 3, 0, f);
    MoveTest(w, 0, 3, f);
    MoveTest(w, 1, 4, f);
    MoveTest(w, 2, 5, f);
    MoveTest(w, 4, 6, f);
    MoveTest(w, 6, 7, f);
    MoveTest(w, 5, 8, f);
    MoveTest(w, 7, 14, f);
    MoveTest(w, 8, 15, f);
    MoveTest(w, 9, 12, f);
  }

  lemma ExportAnd(a: bv64, b: bv64)
    ensures ExportWord(And(a, b)) == And(ExportWord(a), ExportWord(b))
  {
    hide Test, And, ExportWord, ArchFeature;
    forall f | 0 <= f < 64 ensures Test(ExportWord(And(a, b)), f) <==> Test(And(ExportWord(a), ExportWord(b)), f) {
      ExportMeaning(And(a, b), f);
      ExportMeaning(a, f);
      ExportMeaning(b, f);
      AndTest(ExportWord(a), ExportWord(b), f);
      if ArchFeature(f).Some? { AndTest(a, b, ArchFeature(f).value); }
    }
    SameBits(ExportWord(And(a, b)), And(ExportWord(a), ExportWord(b)));
  }

  lemma ExportOr(a: bv64, b: bv64)
    ensures ExportWord(Or(a, b)) == Or(ExportWord(a), ExportWord(b))
  {
    hide Test, Or, ExportWord, ArchFeature;
    forall f | 0 <= f < 64 ensures Test(ExportWord(Or(a, b)), f) <==> Test(Or(ExportWord(a), ExportWord(b)), f) {
      ExportMeaning(Or(a, b), f);
      ExportMeaning(a, f);
      ExportMeaning(b, f);
      OrTest(ExportWord(a), ExportWord(b), f);
      if ArchFeature(f).Some? { OrTest(a, b, ArchFeature(f).value); }
    }
    SameBits(ExportWord(Or(a, b)), Or(ExportWord(a), ExportWord(b)));
  }

  lemma ExportCombine(scope: Scope, a: Features, b: Features)
    ensures Export(Combine(scope, a, b)) == Combine(scope, Export(a), Export(b))
  {
    hide ExportWord, And, Or;
    ExportAnd(a.raw, b.raw);
    ExportAnd(a.usable, b.usable);
    ExportOr(a.raw, b.raw);
    ExportOr(a.usable, b.usable);
  }

  /** Exporting every CPU and aggregating is the same as aggregating and exporting. */
  lemma {:induction false} ExportAggregate(scope: Scope, cpus: seq<Option<Features>>, n: nat)
    requires n <= |cpus|
    ensures var a := Aggregate(scope, cpus, n);
            Aggregate(scope, ExportAll(cpus), n) == if a.Some? then Some(Export(a.value)) else None
  {
    hide Export, Combine;
    if n > 0 {
      ExportAggregate(scope, cpus, n - 1);
      var a := Aggregate(scope, cpus, n - 1);
      if a.Some? && cpus[n - 1].Some? { ExportCombine(scope, a.value, cpus[n - 1].value); }
    }
  }

  lemma {:induction false} SamePrefix(scope: Scope, small: seq<Option<Features>>, big: seq<Option<Features>>, n: nat)
    requires n <= |small| <= |big| && big[..|small|] == small
    ensures Aggregate(scope, big, n) == Aggregate(scope, small, n)
  {
    hide Combine;
    if n > 0 {
      SamePrefix(scope, small, big, n - 1);
      assert small[n - 1] == big[..|small|][n - 1] == big[n - 1];
    }
  }

  /** Absent CPUs above a limit do not change the aggregate. */
  lemma {:induction false} AggregatePrefix(scope: Scope, small: seq<Option<Features>>, big: seq<Option<Features>>,
                                           n: nat)
    requires |small| <= n <= |big| && big[..|small|] == small
    requires forall i :: |small| <= i < |big| ==> big[i].None?
    ensures Aggregate(scope, big, n) == Aggregate(scope, small, |small|)
  {
    hide Combine;
    if n > |small| { AggregatePrefix(scope, small, big, n - 1); } else { SamePrefix(scope, small, big, n); }
  }

  // ----------------------------------------------------------------- the two-layer state

  /** `system` holds the ALL and ANY records while finalised. */
  datatype Caps = Caps(cpus: seq<Option<Features>>, system: Option<(Features, Features)>, hal: Hal, memopsFrozen: bool)

  predicate Fits(s: Caps) { |s.cpus| == MAX_CPUS && WellFormed(s.hal) }

  function EmptyCaps(): (s: Caps)
    ensures Fits(s) && forall i :: 0 <= i < MAX_CPUS ==> s.cpus[i] == None
  {
    Caps(seq(MAX_CPUS, _ => None), None, EmptyHal(), false)
  }

  /** `cpu_caps_state_set_boot` */
  function SetBoot(s: Caps, boot: Features): (r: Caps)
    requires Fits(s)
    ensures Fits(r)
  {
    var hal := Call(s.hal, Begin(true)).0;
    s.(cpus := EmptyCaps().cpus[0 := Some(boot)], system := None, hal := Call(hal, Publish(0, Some(Export(boot)))).0)
  }

  /** `cpu_caps_state_set_ap` */
  function SetAp(s: Caps, cpu: nat, caps: Option<Features>): (r: Caps)
    requires Fits(s)
    ensures Fits(r)
  {
    if cpu >= MAX_CPUS || caps.None? then s
    else s.(cpus := s.cpus[cpu := caps], hal := Call(s.hal, Publish(cpu, Some(Export(caps.value)))).0)
  }

  /** `arch_cpu_caps_system_finalize` */
  function Finalize(s: Caps): (r: (Caps, Status))
    requires Fits(s)
    ensures Fits(r.0)
  {
    var all, any := Aggregate(All, s.cpus, MAX_CPUS), Aggregate(Any, s.cpus, MAX_CPUS);
    if s.system.Some? then (s, BadState)
    else if all.None? || any.None? then (s, InProgress)
    else
      var froze := Call(s.hal, Freeze);
      if !froze.1 then (s, BadState)
      else
        (s.(system := Some((all.value, any.value)), hal := froze.0, memopsFrozen := true),
         if s.memopsFrozen then BadState else Ok)
  }

  // ------------------------------------------------------------------------ the invariant

  /** Until the HAL is frozen it holds exactly the exported records. */
  ghost predicate Synced(s: Caps) {
    && Fits(s)
    && (s.hal.system.None? ==>
          && s.hal.cpus[..MAX_CPUS] == ExportAll(s.cpus)
          && forall i :: MAX_CPUS <= i < HAL_MAX_CPUS ==> s.hal.cpus[i].None?)
    && HalInv(s.hal)
    && (s.system.Some? ==> s.hal.system.Some?)
  }

  lemma SetApSynced(s: Caps, cpu: nat, caps: Option<Features>)
    requires Synced(s)
    ensures Synced(SetAp(s, cpu, caps))
  {
    hide Export, Aggregate;
    var r := SetAp(s, cpu, caps);
    if cpu < MAX_CPUS && caps.Some? && s.hal.system.None? {
      assert r.hal.cpus[..MAX_CPUS] == s.hal.cpus[..MAX_CPUS][cpu := Some(Export(caps.value))];
      assert r.hal.cpus[..MAX_CPUS] == ExportAll(r.cpus);
    }
  }

  lemma SetBootSynced(s: Caps, boot: Features)
    requires Synced(s)
    ensures Synced(SetBoot(s, boot))
  {
    hide Export, Aggregate;
    var r := SetBoot(s, boot);
    if s.hal.system.None? {
      assert r.hal.cpus == EmptyHal().cpus[0 := Some(Export(boot))];
      assert r.hal.cpus[..MAX_CPUS] == ExportAll(r.cpus);
    }
  }

  lemma FinalizeSynced(s: Caps)
    requires Synced(s)
    ensures Synced(Finalize(s).0)
  {
    hide Export, Aggregate;
  }

  /** When finalising freezes the HAL, its aggregates are the exported aggregates of the architecture layer. */
  lemma FinalizeCommutes(s: Caps)
    requires Synced(s) && Finalize(s).1 == Ok
    ensures var r := Finalize(s).0;
            && r.system.Some? && r.hal.system.Some?
            && r.hal.system.value == (Export(r.system.value.0), Export(r.system.value.1))
  {
    hide Export, Aggregate, Combine;
    var exported := ExportAll(s.cpus);
    ExportAggregate(All, s.cpus, MAX_CPUS);
    ExportAggregate(Any, s.cpus, MAX_CPUS);
    AggregatePrefix(All, exported, s.hal.cpus, HAL_MAX_CPUS);
    AggregatePrefix(Any, exported, s.hal.cpus, HAL_MAX_CPUS);
  }

  /** A finalisation succeeds exactly when none did before in either layer and some CPU is known. */
  lemma FinalizeOkIff(s: Caps)
    requires Synced(s)
    ensures Finalize(s).1 == Ok <==>
            s.system.None? && s.hal.system.None? && !s.memopsFrozen && exists i :: 0 <= i < MAX_CPUS && s.cpus[i].Some?
  {
    hide Export, Aggregate, Combine;
    var exported := ExportAll(s.cpus);
    ExportAggregate(All, s.cpus, MAX_CPUS);
    ExportAggregate(Any, s.cpus, MAX_CPUS);
    if s.hal.system.None? {
      AggregatePrefix(All, exported, s.hal.cpus, HAL_MAX_CPUS);
      AggregatePrefix(Any, exported, s.hal.cpus, HAL_MAX_CPUS);
    }
  }

  // ---------------------------------------------------------------- the records in place

  function CountPresent(present: seq<bool>): nat {
    if present == [] then 0 else CountPresent(present[..|present| - 1]) + if present[|present| - 1] then 1 else 0
  }

  lemma {:induction false} CountZero(present: seq<bool>)
    ensures CountPresent(present) == 0 <==> forall i :: 0 <= i < |present| ==> !present[i]
  {
    if present != [] {
      var n := |present| - 1;
      CountZero(present[..n]);
      assert forall i :: 0 <= i < n ==> present[..n][i] == present[i];
    }
  }

  lemma {:induction false} CountAfter(present: seq<bool>, cpu: nat)
    requires cpu < |present|
    ensures CountPresent(present[cpu := true]) == CountPresent(present) + if present[cpu] then 0 else 1
  {
    var n := |present| - 1;
    if cpu == n {
      assert present[cpu := true][..n] == present[..n];
    } else {
      assert present[cpu := true][..n] == present[..n][cpu := true];
      CountAfter(present[..n], cpu);
    }
  }

  lemma NoneToAggregate(perCpu: seq<Features>, present: seq<bool>)
    requires |perCpu| == |present| == MAX_CPUS
    ensures (forall i :: 0 <= i < MAX_CPUS ==> !present[i]) ==>
            Aggregate(All, Published(perCpu, present), MAX_CPUS).None?
    ensures Aggregate(All, Published(perCpu, present), MAX_CPUS).None? <==>
            Aggregate(Any, Published(perCpu, present), MAX_CPUS).None?
  {
  }

  class CapsState {
    const hal: FeatureTable
    const perCpu: array<Features>
    const present: array<bool>
    var count: nat
    var all: Features
    var any: Features
    var finalized: bool
    var memopsFrozen: bool

    ghost predicate Valid()
      reads this, present
    {
      && hal.Valid() && perCpu.Length == MAX_CPUS && present.Length == MAX_CPUS
      && perCpu != hal.perCpu && present != hal.present && count == CountPresent(present[..])
    }

    ghost function View(): (s: Caps)
      requires Valid()
      reads this, perCpu, present, hal, hal.perCpu, hal.present
      ensures Fits(s)
    {
      Caps(Published(perCpu[..], present[..]), if finalized then Some((all, any)) else None, hal.View(), memopsFrozen)
    }

    constructor ()
      ensures Valid() && View() == EmptyCaps() && fresh(hal) && fresh(perCpu) && fresh(present)
    {
      hal := new FeatureTable();
      perCpu := new Features[MAX_CPUS](_ => NO_FEATURES);
      present := new bool[MAX_CPUS](_ => false);
      count, all, any, finalized, memopsFrozen := 0, NO_FEATURES, NO_FEATURES, false, false;
      new;
      CountZero(present[..]);
      assert Published(perCpu[..], present[..]) == EmptyCaps().cpus;
    }

    /** Forget every record but the boot CPU's. */
    method OnlyBootPresent(boot: Features)
      requires Valid()
      modifies this`count, this`finalized, perCpu, present
      ensures Valid() && !finalized && Published(perCpu[..], present[..]) == EmptyCaps().cpus[0 := Some(boot)]
    {
      for i := 0 to MAX_CPUS
        invariant forall k :: 0 <= k < i ==> !present[k]
      {
        present[i] := false;
      }
      CountZero(present[..]);
      ghost var cleared := present[..];
      perCpu[0], present[0], count, finalized := boot, true, 1, false;
      CountAfter(cleared, 0);
      assert present[..] == cleared[0 := true];
    }

    /** `cpu_caps_state_set_boot` */
    method SetBootCaps(boot: Features)
      requires Valid()
      modifies this, perCpu, present, hal, hal.perCpu, hal.present
      ensures Valid() && View() == SetBoot(old(View()), boot)
    {
      hide Export, Aggregate, Published, CountPresent, Call;
      var _ := hal.StartOver(true);
      ghost var begun := hal.View();
      OnlyBootPresent(boot);
      assert hal.View() == begun;
      var _ := hal.PublishCpu(0, Some(Export(boot)));
      all, any := boot, boot;
    }

    /** `cpu_caps_state_set_ap` */
    method SetApCaps(cpu: nat, caps: Option<Features>)
      requires Valid()
      modifies this, perCpu, present, hal, hal.perCpu, hal.present
      ensures Valid() && View() == SetAp(old(View()), cpu, caps)
    {
      hide Export, Aggregate;
      if cpu >= MAX_CPUS || caps.None? { return; }
      CountAfter(present[..], cpu);
      ghost var was := hal.View();
      perCpu[cpu] := caps.value;
      if !present[cpu] {
        present[cpu], count := true, count + 1;
      }
      assert present[..] == old(present[..])[cpu := true];
      assert Published(perCpu[..], present[..]) == old(Published(perCpu[..], present[..]))[cpu := caps];
      assert hal.View() == was;
      var _ := hal.PublishCpu(cpu, Some(Export(caps.value)));
    }

    /** The loop of `arch_cpu_caps_system_finalize`. */
    method AggregateRecords() returns (initialized: bool)
      requires Valid()
      modifies this`all, this`any
      ensures var cpus := Published(perCpu[..], present[..]);
              && (initialized <==> Aggregate(All, cpus, MAX_CPUS).Some?)
              && (initialized ==>
                    Aggregate(All, cpus, MAX_CPUS) == Some(all) && Aggregate(Any, cpus, MAX_CPUS) == Some(any))
    {
      hide And, Or;
      initialized, all, any := false, NO_FEATURES, NO_FEATURES;
      ghost var cpus := Published(perCpu[..], present[..]);
      for i := 0 to MAX_CPUS
        invariant initialized <==> Aggregate(All, cpus, i).Some?
        invariant initialized ==> Aggregate(All, cpus, i) == Some(all) && Aggregate(Any, cpus, i) == Some(any)
      {
        if !present[i] { continue; }
        if !initialized {
          all, any, initialized := perCpu[i], perCpu[i], true;
          continue;
        }
        all := Features(And(all.raw, perCpu[i].raw), And(all.usable, perCpu[i].usable));
        any := Features(Or(any.raw, perCpu[i].raw), Or(any.usable, perCpu[i].usable));
      }
    }

    /** `arch_cpu_caps_system_finalize` */
    method FinalizeSystem() returns (status: Status)
      requires Valid()
      modifies this, hal
      ensures Valid() && (View(), status) == Finalize(old(View()))
    {
      hide Aggregate, Published, CountPresent;
      if finalized { return BadState; }
      CountZero(present[..]);
      NoneToAggregate(perCpu[..], present[..]);
      if count == 0 { return InProgress; }
      ghost var was := hal.View();
      var initialized := AggregateRecords();
      assert hal.View() == was;
      if !initialized { return InProgress; }
      finalized := true;
      assert hal.View() == was;
      var frozen := hal.FreezeAll();
      if !frozen {
        finalized := false;
        return BadState;
      }
      if memopsFrozen { return BadState; }
      memopsFrozen := true;
      status := Ok;
    }
  }
}
