/** The feature tables as a function of the calls made: which publication each CPU's entry comes from, and what a frozen
    table answers in terms of those publications alone. */
module FeatureLaws {
  import opened Bits
  import opened Bytes
  import opened CpuCaps
  import opened CpuFeatures
  import opened HwCaps

  // ---------------------------------------------------------------- the HAL table

  predicate Sets(c: HalCall, cpu: nat) { c.Publish? && c.cpu == cpu && c.features.Some? }

  /** Call `k` is the last that published CPU `cpu`, with no restart behind it. */
  predicate LastPublished(cs: seq<HalCall>, cpu: nat, k: nat) {
    && k < |cs| && Sets(cs[k], cpu)
    && forall m :: k < m < |cs| ==> cs[m] != Begin(true) && !Sets(cs[m], cpu)
  }

  lemma {:induction false} CallsSnoc(h: Hal, cs: seq<HalCall>, c: HalCall)
    requires WellFormed(h)
    ensures Calls(h, cs + [c]) == Call(Calls(h, cs), c).0
    decreases |cs|
  {
    hide Call;
    if cs == [] {
      assert [c][1..] == [];
      assert cs + [c] == [c];
      assert Calls(Call(h, c).0, []) == Call(h, c).0;
    } else {
      CallsSnoc(Call(h, cs[0]).0, cs[1..], c);
      assert (cs + [c])[0] == cs[0] && (cs + [c])[1..] == cs[1..] + [c];
    }
  }

  /** An entry of the table is what its CPU's last publication says, and empty without one. */
  ghost predicate EntryIs(entry: Option<Features>, cs: seq<HalCall>, cpu: nat) {
    && (entry.Some? <==> exists k: nat :: LastPublished(cs, cpu, k))
    && forall k: nat :: LastPublished(cs, cpu, k) ==> entry == cs[k].features
  }

  lemma LastPublishedNext(cs: seq<HalCall>, c: HalCall, cpu: nat, k: nat)
    ensures LastPublished(cs + [c], cpu, k) <==>
            if k == |cs| then Sets(c, cpu)
            else LastPublished(cs, cpu, k) && c != Begin(true) && !Sets(c, cpu)
  {
    var all := cs + [c];
    assert all[|cs|] == c && forall m :: 0 <= m < |cs| ==> all[m] == cs[m];
  }

  lemma PublishedInside(cs: seq<HalCall>, cpu: nat, k: nat)
    ensures LastPublished(cs, cpu, k) ==> k < |cs|
  {
  }

  lemma EntryNext(entry: Option<Features>, cs: seq<HalCall>, c: HalCall, cpu: nat)
    requires EntryIs(entry, cs, cpu)
    ensures EntryIs(if c == Begin(true) then None else if Sets(c, cpu) then c.features else entry, cs + [c], cpu)
  {
    hide LastPublished;
    var all := cs + [c];
    forall k: nat
      ensures LastPublished(all, cpu, k) <==>
              if k == |cs| then Sets(c, cpu) else LastPublished(cs, cpu, k) && c != Begin(true) && !Sets(c, cpu)
      ensures LastPublished(all, cpu, k) ==> k < |all|
      ensures LastPublished(cs, cpu, k) ==> k < |cs| && all[k] == cs[k]
    {
      LastPublishedNext(cs, c, cpu, k);
      PublishedInside(cs, cpu, k);
      PublishedInside(all, cpu, k);
    }
    assert all[|cs|] == c;
    if Sets(c, cpu) { assert LastPublished(all, cpu, |cs|); }
  }

  lemma NoEntry(cpu: nat)
    ensures EntryIs(None, [], cpu)
  {
  }

  lemma CallEntry(h: Hal, c: HalCall, cpu: nat)
    requires WellFormed(h) && cpu < HAL_MAX_CPUS && Call(h, c).0.system.None?
    ensures h.system.None?
    ensures Call(h, c).0.cpus[cpu] ==
            if c == Begin(true) then None else if Sets(c, cpu) then c.features else h.cpus[cpu]
  {
    hide Aggregate;
  }

  /** Until the freeze, whatever has been called, every entry of the table is its CPU's last publication. */
  lemma {:induction false} TableIsPublished(cs: seq<HalCall>, cpu: nat)
    requires Calls(EmptyHal(), cs).system.None? && cpu < 256
    ensures EntryIs(Calls(EmptyHal(), cs).cpus[cpu], cs, cpu)
    decreases |cs|
  {
    hide Call, EntryIs;
    if cs == [] {
      NoEntry(cpu);
    } else {
      var n := |cs| - 1;
      var h := Calls(EmptyHal(), cs[..n]);
      CallsSnoc(EmptyHal(), cs[..n], cs[n]);
      assert cs[..n] + [cs[n]] == cs;
      CallEntry(h, cs[n], cpu);
      TableIsPublished(cs[..n], cpu);
      EntryNext(h.cpus[cpu], cs[..n], cs[n], cpu);
    }
  }

  lemma CallFreezes(h: Hal, c: HalCall)
    requires WellFormed(h) && h.system.None? && Call(h, c).0.system.Some?
    ensures c == Freeze && Call(h, c).0.cpus == h.cpus
  {
    hide Aggregate;
  }

  lemma FrozenCall(h: Hal, c: HalCall)
    requires WellFormed(h) && h.system.Some?
    ensures Call(h, c).0 == h
  {
    hide Aggregate;
  }

  /** A frozen table was frozen by one call, and its entries are those it had then. */
  lemma {:induction false} FreezePoint(cs: seq<HalCall>) returns (k: nat)
    requires Calls(EmptyHal(), cs).system.Some?
    ensures k < |cs| && cs[k] == Freeze && Calls(EmptyHal(), cs[..k]).system.None?
    ensures Calls(EmptyHal(), cs).cpus == Calls(EmptyHal(), cs[..k]).cpus
    decreases |cs|
  {
    hide Call;
    assert cs != [];
    var n := |cs| - 1;
    var h := Calls(EmptyHal(), cs[..n]);
    CallsSnoc(EmptyHal(), cs[..n], cs[n]);
    assert cs[..n] + [cs[n]] == cs;
    if h.system.None? {
      CallFreezes(h, cs[n]);
      k := n;
    } else {
      FrozenCall(h, cs[n]);
      k := FreezePoint(cs[..n]);
      assert cs[..n][..k] == cs[..k] && cs[..n][k] == cs[k];
    }
  }

  /** The last publication of CPU `cpu` among the calls has the feature usable. */
  ghost predicate PublishedWith(cs: seq<HalCall>, cpu: nat, f: nat)
    requires f < 64
  {
    exists k: nat :: LastPublished(cs, cpu, k) && Test(cs[k].features.value.usable, f)
  }

  ghost predicate PublishedAtAll(cs: seq<HalCall>, cpu: nat) { exists k: nat :: LastPublished(cs, cpu, k) }

  lemma EntryUsable(entry: Option<Features>, cs: seq<HalCall>, cpu: nat, f: nat)
    requires EntryIs(entry, cs, cpu) && f < 64
    ensures entry.Some? <==> PublishedAtAll(cs, cpu)
    ensures Usable(entry, f) <==> PublishedWith(cs, cpu, f)
  {
    hide Test;
    if Usable(entry, f) {
      var k: nat :| LastPublished(cs, cpu, k);
      assert Test(cs[k].features.value.usable, f);
    }
  }

  lemma StartInv()
    ensures HalInv(EmptyHal())
  {
    hide Aggregate;
  }

  lemma EveryMeaning(h: Hal, f: nat)
    requires WellFormed(h) && f < 16
    ensures EveryCpuHas(h, f) <==> forall cpu :: 0 <= cpu < 256 && h.cpus[cpu].Some? ==> Usable(h.cpus[cpu], f)
    ensures SomeCpuHas(h, f) <==> exists cpu :: 0 <= cpu < 256 && Usable(h.cpus[cpu], f)
  {
    hide Usable;
    if exists cpu :: 0 <= cpu < 256 && Usable(h.cpus[cpu], f) {
      var cpu :| 0 <= cpu < 256 && Usable(h.cpus[cpu], f);
      assert HasFeature(h, cpu, f);
    }
    forall cpu | 0 <= cpu < 256 ensures HasFeature(h, cpu, f) <==> Usable(h.cpus[cpu], f) {}
  }

  /** A frozen table answers from the calls before its freeze alone: ALL exactly for features in the last publication
      of every CPU published, ANY exactly for those in some CPU's last publication. */
  lemma AnswersFromCalls(cs: seq<HalCall>, f: nat) returns (k: nat)
    requires Calls(EmptyHal(), cs).system.Some? && f < 16
    ensures k < |cs| && cs[k] == Freeze
    ensures var h, before := Calls(EmptyHal(), cs), cs[..k];
            && (HasSystemFeature(h, f, All) <==>
                  forall cpu :: 0 <= cpu < 256 && PublishedAtAll(before, cpu) ==> PublishedWith(before, cpu, f))
            && (HasSystemFeature(h, f, Any) <==> exists cpu :: 0 <= cpu < 256 && PublishedWith(before, cpu, f))
  {
    hide Calls, HasSystemFeature, PublishedWith, PublishedAtAll, Usable, HalInv;
    k := FreezePoint(cs);
    var h, before := Calls(EmptyHal(), cs), cs[..k];
    forall cpu | 0 <= cpu < 256
      ensures h.cpus[cpu].Some? <==> PublishedAtAll(before, cpu)
      ensures Usable(h.cpus[cpu], f) <==> PublishedWith(before, cpu, f)
    {
      TableIsPublished(before, cpu);
      EntryUsable(h.cpus[cpu], before, cpu, f);
    }
    StartInv();
    CallsKeepInv(EmptyHal(), cs);
    SystemMeaning(h, f);
    EveryMeaning(h, f);
  }

  // ---------------------------------------------------------------- the architecture records

  predicate SetsRecord(s: Step, cpu: nat) {
    (s.BootCaps? && cpu == 0) || (s.ApCaps? && s.cpu == cpu && cpu < 32 && s.ap.Some?)
  }

  function RecordOf(s: Step): Option<Features> {
    if s.BootCaps? then Some(s.boot) else if s.ApCaps? then s.ap else None
  }

  /** Step `k` is the last that set the record of CPU `cpu`, with no new boot record behind it. */
  predicate LastRecord(steps: seq<Step>, cpu: nat, k: nat) {
    && k < |steps| && SetsRecord(steps[k], cpu)
    && forall m :: k < m < |steps| ==> !steps[m].BootCaps? && !SetsRecord(steps[m], cpu)
  }

  ghost predicate RecordIs(entry: Option<Features>, steps: seq<Step>, cpu: nat) {
    && (entry.Some? <==> exists k: nat :: LastRecord(steps, cpu, k))
    && forall k: nat :: LastRecord(steps, cpu, k) ==> entry == RecordOf(steps[k])
  }

  lemma TakeRecord(m: Machine, s: Step, cpu: nat)
    requires Fits(m.caps) && cpu < 32
    ensures Take(m, s).caps.cpus[cpu] ==
            if SetsRecord(s, cpu) then RecordOf(s) else if s.BootCaps? then None else m.caps.cpus[cpu]
  {
    hide Export, Aggregate, Call;
  }

  lemma LastRecordNext(steps: seq<Step>, s: Step, cpu: nat, k: nat)
    ensures LastRecord(steps + [s], cpu, k) <==>
            if k == |steps| then SetsRecord(s, cpu)
            else LastRecord(steps, cpu, k) && !s.BootCaps? && !SetsRecord(s, cpu)
    ensures LastRecord(steps, cpu, k) ==> k < |steps| && (steps + [s])[k] == steps[k]
  {
    var all := steps + [s];
    assert all[|steps|] == s && forall m :: 0 <= m < |steps| ==> all[m] == steps[m];
  }

  lemma RecordNext(entry: Option<Features>, steps: seq<Step>, s: Step, cpu: nat)
    requires RecordIs(entry, steps, cpu)
    ensures RecordIs(if SetsRecord(s, cpu) then RecordOf(s) else if s.BootCaps? then None else entry,
                     steps + [s], cpu)
  {
    hide LastRecord;
    var all := steps + [s];
    forall k: nat
      ensures LastRecord(all, cpu, k) <==>
              if k == |steps| then SetsRecord(s, cpu)
              else LastRecord(steps, cpu, k) && !s.BootCaps? && !SetsRecord(s, cpu)
      ensures LastRecord(steps, cpu, k) ==> k < |steps| && all[k] == steps[k]
    {
      LastRecordNext(steps, s, cpu, k);
    }
    assert all[|steps|] == s;
    if SetsRecord(s, cpu) { assert LastRecord(all, cpu, |steps|); }
  }

  lemma NoRecord(cpu: nat)
    ensures RecordIs(None, [], cpu)
  {
  }

  lemma {:induction false} RunRecords(m: Machine, done: seq<Step>, more: seq<Step>, cpu: nat)
    requires Fits(m.caps) && cpu < 32 && RecordIs(m.caps.cpus[cpu], done, cpu)
    ensures RecordIs(Run(m, more).caps.cpus[cpu], done + more, cpu)
    decreases |more|
  {
    hide Take, RecordIs;
    if more == [] {
      assert done + more == done;
    } else {
      TakeRecord(m, more[0], cpu);
      RecordNext(m.caps.cpus[cpu], done, more[0], cpu);
      RunRecords(Take(m, more[0]), done + [more[0]], more[1..], cpu);
      assert done + [more[0]] + more[1..] == done + more;
    }
  }

  /** After any run over the three layers, the architecture's record of each CPU is the last one set for it since the
      last boot record, which itself belongs to CPU 0; a CPU without one is absent. */
  lemma RecordsFromSteps(steps: seq<Step>, cpu: nat)
    requires cpu < 32
    ensures RecordIs(Run(HwCaps.Start(), steps).caps.cpus[cpu], steps, cpu)
  {
    hide Run, RecordIs;
    NoRecord(cpu);
    RunRecords(HwCaps.Start(), [], steps, cpu);
    assert [] + steps == steps;
  }
}
