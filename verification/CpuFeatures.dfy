/** The HAL's per-CPU feature table: published during serial boot, aggregated over all CPUs, then frozen for good. */
module CpuFeatures {
  import opened Bits
  import opened Bytes

  const HAL_MAX_CPUS := 256
  const FEATURE_COUNT := 16
  const VECTOR: nat := 0
  const AES: nat := 3
  const SHA: nat := 4
  const CRYPTO: nat := 6
  const STRONG_ATOMICS: nat := 7

  // ------------------------------------------------------------------------ bit sets

  /** What the hardware reports and what policy allows to be used. */
  datatype Features = Features(raw: bv64, usable: bv64)

  const NO_FEATURES := Features(0, 0)

  datatype Scope = Any | All

  function Combine(scope: Scope, a: Features, b: Features): Features {
    match scope
    case All => Features(And(a.raw, b.raw), And(a.usable, b.usable))
    case Any => Features(Or(a.raw, b.raw), Or(a.usable, b.usable))
  }

  /** The aggregate over the first `n` CPUs: nothing while none is present. */
  function Aggregate(scope: Scope, cpus: seq<Option<Features>>, n: nat): (r: Option<Features>)
    requires n <= |cpus|
    ensures r.None? <==> forall i :: 0 <= i < n ==> cpus[i].None?
  {
    if n == 0 then None
    else
      var before := Aggregate(scope, cpus, n - 1);
      if cpus[n - 1].None? then before
      else if before.None? then cpus[n - 1]
      else Some(Combine(scope, before.value, cpus[n - 1].value))
  }

  predicate Usable(cpu: Option<Features>, f: nat)
    requires f < 64
  {
    cpu.Some? && Test(cpu.value.usable, f)
  }

  lemma AnyStep(cpus: seq<Option<Features>>, n: nat, f: nat)
    requires 0 < n <= |cpus| && f < 64
    ensures (exists i :: 0 <= i < n && Usable(cpus[i], f)) <==>
            Usable(cpus[n - 1], f) || exists i :: 0 <= i < n - 1 && Usable(cpus[i], f)
  {
    hide Test;
  }

  lemma {:induction false} AllMeaning(cpus: seq<Option<Features>>, n: nat, f: nat)
    requires n <= |cpus| && f < 64 && Aggregate(All, cpus, n).Some?
    ensures Test(Aggregate(All, cpus, n).value.usable, f) <==>
            forall i :: 0 <= i < n && cpus[i].Some? ==> Usable(cpus[i], f)
  {
    hide Test, And;
    var all := Aggregate(All, cpus, n - 1);
    if all.Some? {
      AllMeaning(cpus, n - 1, f);
      if cpus[n - 1].Some? { AndTest(all.value.usable, cpus[n - 1].value.usable, f); }
    }
  }

  lemma {:induction false} AnyMeaning(cpus: seq<Option<Features>>, n: nat, f: nat)
    requires n <= |cpus| && f < 64 && Aggregate(Any, cpus, n).Some?
    ensures Test(Aggregate(Any, cpus, n).value.usable, f) <==> exists i :: 0 <= i < n && Usable(cpus[i], f)
  {
    hide Test, Or;
    var any := Aggregate(Any, cpus, n - 1);
    if any.Some? {
      AnyMeaning(cpus, n - 1, f);
      if cpus[n - 1].Some? { OrTest(any.value.usable, cpus[n - 1].value.usable, f); }
    }
    AnyStep(cpus, n, f);
  }

  /** The ALL aggregate has a feature exactly when every present CPU has it, the ANY aggregate when some CPU has it. */
  lemma AggregateMeaning(cpus: seq<Option<Features>>, n: nat, f: nat)
    requires n <= |cpus| && f < 64 && Aggregate(All, cpus, n).Some?
    ensures Aggregate(Any, cpus, n).Some?
    ensures Test(Aggregate(All, cpus, n).value.usable, f) <==>
            forall i :: 0 <= i < n && cpus[i].Some? ==> Usable(cpus[i], f)
    ensures Test(Aggregate(Any, cpus, n).value.usable, f) <==> exists i :: 0 <= i < n && Usable(cpus[i], f)
  {
    hide Test, Aggregate;
    AllMeaning(cpus, n, f);
    AnyMeaning(cpus, n, f);
  }

  // --------------------------------------------------------------------- the HAL table

  /** `system` holds the ALL and ANY aggregates once frozen. */
  datatype Hal = Hal(cpus: seq<Option<Features>>, system: Option<(Features, Features)>)

  predicate WellFormed(h: Hal) { |h.cpus| == HAL_MAX_CPUS }

  function EmptyHal(): (h: Hal)
    ensures WellFormed(h) && h.system == None && forall i :: 0 <= i < HAL_MAX_CPUS ==> h.cpus[i] == None
  {
    Hal(seq(HAL_MAX_CPUS, _ => None), None)
  }

  datatype HalCall = Begin(hasCurrentId: bool) | Publish(cpu: nat, features: Option<Features>) | Freeze

  function Call(h: Hal, c: HalCall): (r: (Hal, bool))
    requires WellFormed(h)
    ensures WellFormed(r.0)
  {
    if h.system.Some? then (h, false)
    else
      match c
      case Begin(known) => if known then (EmptyHal(), true) else (h, false)
      case Publish(cpu, features) =>
        if features.None? || cpu >= HAL_MAX_CPUS then (h, false) else (h.(cpus := h.cpus[cpu := features]), true)
      case Freeze =>
        var all, any := Aggregate(All, h.cpus, HAL_MAX_CPUS), Aggregate(Any, h.cpus, HAL_MAX_CPUS);
        if all.None? || any.None? then (h, false) else (h.(system := Some((all.value, any.value))), true)
  }

  function Calls(h: Hal, cs: seq<HalCall>): (r: Hal)
    requires WellFormed(h)
    ensures WellFormed(r)
    decreases |cs|
  {
    if cs == [] then h else Calls(Call(h, cs[0]).0, cs[1..])
  }

  /** The frozen aggregates are those of the CPUs published. */
  predicate HalInv(h: Hal) {
    && WellFormed(h)
    && (h.system.Some? ==>
          && Aggregate(All, h.cpus, HAL_MAX_CPUS) == Some(h.system.value.0)
          && Aggregate(Any, h.cpus, HAL_MAX_CPUS) == Some(h.system.value.1))
  }

  lemma {:induction false} CallsKeepInv(h: Hal, cs: seq<HalCall>)
    requires HalInv(h)
    ensures HalInv(Calls(h, cs))
    decreases |cs|
  {
    hide Aggregate;
    if cs != [] { CallsKeepInv(Call(h, cs[0]).0, cs[1..]); }
  }

  lemma {:induction false} FrozenStays(h: Hal, cs: seq<HalCall>)
    requires WellFormed(h) && h.system.Some?
    ensures Calls(h, cs) == h
    decreases |cs|
  {
    if cs != [] { FrozenStays(h, cs[1..]); }
  }

  /** `hal_cpu_has_feature` */
  predicate HasFeature(h: Hal, cpu: nat, f: nat)
    requires WellFormed(h)
  {
    cpu < HAL_MAX_CPUS && f < FEATURE_COUNT && Usable(h.cpus[cpu], f)
  }

  /** `hal_cpu_has_system_feature` */
  predicate HasSystemFeature(h: Hal, f: nat, scope: Scope) {
    h.system.Some? && f < FEATURE_COUNT && Test((if scope == Any then h.system.value.1 else h.system.value.0).usable, f)
  }

  ghost predicate EveryCpuHas(h: Hal, f: nat)
    requires WellFormed(h) && f < FEATURE_COUNT
  {
    forall cpu :: 0 <= cpu < HAL_MAX_CPUS && h.cpus[cpu].Some? ==> HasFeature(h, cpu, f)
  }

  ghost predicate SomeCpuHas(h: Hal, f: nat)
    requires WellFormed(h) && f < FEATURE_COUNT
  {
    exists cpu :: 0 <= cpu < HAL_MAX_CPUS && HasFeature(h, cpu, f)
  }

  lemma SystemMeaning(h: Hal, f: nat)
    requires HalInv(h) && h.system.Some? && f < FEATURE_COUNT
    ensures HasSystemFeature(h, f, All) <==> EveryCpuHas(h, f)
    ensures HasSystemFeature(h, f, Any) <==> SomeCpuHas(h, f)
    ensures EveryCpuHas(h, f) ==> SomeCpuHas(h, f)
  {
    hide Test, Aggregate;
    AggregateMeaning(h.cpus, HAL_MAX_CPUS, f);
    var cpu :| 0 <= cpu < HAL_MAX_CPUS && h.cpus[cpu].Some?;
    assert EveryCpuHas(h, f) ==> HasFeature(h, cpu, f);
    assert forall i :: 0 <= i < HAL_MAX_CPUS && Usable(h.cpus[i], f) ==> HasFeature(h, i, f);
  }

  /** Whatever was called before the freeze and whatever is called after it, a frozen table answers ALL for exactly the
      features every published CPU has, ANY for exactly those some CPU has, and never answers differently again. */
  lemma FrozenAnswers(before: seq<HalCall>, after: seq<HalCall>, f: nat)
    requires Calls(EmptyHal(), before).system.Some? && f < FEATURE_COUNT
    ensures var h := Calls(EmptyHal(), before);
            && Calls(h, after) == h
            && (HasSystemFeature(h, f, All) <==> EveryCpuHas(h, f))
            && (HasSystemFeature(h, f, Any) <==> SomeCpuHas(h, f))
  {
    hide HasSystemFeature, EveryCpuHas, SomeCpuHas;
    CallsKeepInv(EmptyHal(), before);
    FrozenStays(Calls(EmptyHal(), before), after);
    SystemMeaning(Calls(EmptyHal(), before), f);
  }

  // ------------------------------------------------------------------- the table in place

  function Published(perCpu: seq<Features>, present: seq<bool>): (r: seq<Option<Features>>)
    requires |perCpu| == |present|
    ensures |r| == |present|
    ensures forall i :: 0 <= i < |r| ==> r[i] == if present[i] then Some(perCpu[i]) else None
  {
    seq(|present|, i requires 0 <= i < |present| => if present[i] then Some(perCpu[i]) else None)
  }

  class FeatureTable {
    const perCpu: array<Features>
    const present: array<bool>
    var all: Features
    var any: Features
    var frozen: bool

    ghost predicate Valid() { perCpu.Length == HAL_MAX_CPUS && present.Length == HAL_MAX_CPUS }

    ghost function View(): (h: Hal)
      requires Valid()
      reads this, perCpu, present
      ensures WellFormed(h)
    {
      Hal(Published(perCpu[..], present[..]), if frozen then Some((all, any)) else None)
    }

    constructor ()
      ensures Valid() && fresh(perCpu) && fresh(present) && View() == EmptyHal()
    {
      perCpu := new Features[HAL_MAX_CPUS](_ => NO_FEATURES);
      present := new bool[HAL_MAX_CPUS](_ => false);
      all, any, frozen := NO_FEATURES, NO_FEATURES, false;
      new;
      assert Published(perCpu[..], present[..]) == EmptyHal().cpus;
    }

    method StartOver(hasCurrentId: bool) returns (ok: bool)
      requires Valid()
      modifies this, perCpu, present
      ensures (View(), ok) == Call(old(View()), Begin(hasCurrentId))
    {
      if frozen || !hasCurrentId { return false; }
      for i := 0 to HAL_MAX_CPUS
        invariant forall k :: 0 <= k < i ==> !present[k]
        invariant frozen == old(frozen)
      {
        perCpu[i], present[i] := NO_FEATURES, false;
      }
      all, any := NO_FEATURES, NO_FEATURES;
      assert Published(perCpu[..], present[..]) == EmptyHal().cpus;
      ok := true;
    }

    method PublishCpu(cpu: nat, features: Option<Features>) returns (ok: bool)
      requires Valid()
      modifies perCpu, present
      ensures (View(), ok) == Call(old(View()), Publish(cpu, features))
    {
      if frozen || features.None? || cpu >= HAL_MAX_CPUS { return false; }
      perCpu[cpu], present[cpu] := features.value, true;
      assert Published(perCpu[..], present[..]) == old(Published(perCpu[..], present[..]))[cpu := features];
      ok := true;
    }

    method FreezeAll() returns (ok: bool)
      requires Valid()
      modifies this
      ensures (View(), ok) == Call(old(View()), Freeze)
    {
      hide And, Or;
      var first := true;
      if frozen { return false; }
      ghost var cpus := Published(perCpu[..], present[..]);
      for cpu := 0 to HAL_MAX_CPUS
        invariant !frozen
        invariant (first <==> Aggregate(All, cpus, cpu).None?) && (first <==> Aggregate(Any, cpus, cpu).None?)
        invariant !first ==> Aggregate(All, cpus, cpu) == Some(all) && Aggregate(Any, cpus, cpu) == Some(any)
      {
        if !present[cpu] { continue; }
        if first {
          all, any, first := perCpu[cpu], perCpu[cpu], false;
          continue;
        }
        all := Features(And(all.raw, perCpu[cpu].raw), And(all.usable, perCpu[cpu].usable));
        any := Features(Or(any.raw, perCpu[cpu].raw), Or(any.usable, perCpu[cpu].usable));
      }
      if first { return false; }
      frozen := true;
      ok := true;
    }
  }
}
