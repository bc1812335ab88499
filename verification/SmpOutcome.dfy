/** What the boot processor reports when it stops waiting, and that success is within reach: the online and failed masks
    of the degraded path against the records, and a schedule that brings every requested processor up. */
module SmpOutcome {
  import opened Arith
  import opened Bytes
  import opened SmpBoot

  predicate HasBit(mask: nat, k: nat) { Quotient(mask, Pow2(k)) % 2 == 1 }

  // ---------------------------------------------------------------- masks bit by bit

  lemma SetBitAbove(mask: nat, c: nat, k: nat)
    requires mask < Pow2(c) && k <= c
    ensures SetBit(mask, c) == mask + Pow2(c) < Pow2(c + 1)
    ensures HasBit(SetBit(mask, c), k) <==> k == c || HasBit(mask, k)
    ensures !HasBit(mask, c)
  {
    hide Quotient;
    QuotientBounds(mask, Pow2(c), 0);
    QuotientBounds(mask + Pow2(c), Pow2(c), 1);
    if k < c { HighBitApart(mask, c, k); }
  }

  lemma NoBitAbove(mask: nat, c: nat, k: nat)
    requires mask < Pow2(c) && c <= k
    ensures !HasBit(mask, k)
  {
    hide Quotient;
    Pow2Sum(c, k - c);
    MulMono(1, Pow2(k - c), Pow2(c));
    assert Pow2(c) <= Pow2(k);
    QuotientBounds(mask, Pow2(k), 0);
  }

  lemma HalfQuotient(m: nat, p: nat)
    requires p > 0
    ensures Quotient(m, 2 * p) == Quotient(m / 2, p)
  {
    var q := Quotient(m / 2, p);
    QuotientBounds(m / 2, p, q);
    assert q * (2 * p) == 2 * (q * p) && (q + 1) * (2 * p) == 2 * ((q + 1) * p);
    QuotientBounds(m, 2 * p, q);
  }

  /** Bit `k` of `a & ~b`. */
  lemma {:induction false} AndNotBit(a: nat, b: nat, k: nat)
    ensures HasBit(AndNot(a, b), k) <==> HasBit(a, k) && !HasBit(b, k)
    decreases k
  {
    hide Quotient;
    var r := AndNot(a, b);
    if k == 0 {
      QuotientBounds(a, 1, a);
      QuotientBounds(b, 1, b);
      QuotientBounds(r, 1, r);
    } else {
      assert r / 2 == AndNot(a / 2, b / 2);
      AndNotBit(a / 2, b / 2, k - 1);
      assert Pow2(k) == 2 * Pow2(k - 1);
      HalfQuotient(a, Pow2(k - 1));
      HalfQuotient(b, Pow2(k - 1));
      HalfQuotient(r, Pow2(k - 1));
    }
  }

  lemma {:induction false} OnesBit(n: nat, k: nat)
    ensures HasBit(Pow2(n) - 1, k) <==> k < n
  {
    hide HasBit, Pow2, SetBit;
    if n <= k {
      NoBitAbove(Pow2(n) - 1, n, k);
    } else {
      SetNextBit(n - 1);
      if k < n - 1 { OnesBit(n - 1, k); }
      SetBitAbove(Pow2(n - 1) - 1, n - 1, k);
    }
  }

  /** The mask for a count has exactly the bits below it, 64 at most. */
  lemma CpuMaskBit(count: nat, k: nat)
    ensures HasBit(CpuMask(count), k) <==> k < count && k < 64
  {
    hide HasBit, CpuMask;
    MaskOfLimit(count);
    OnesBit(Limit(count), k);
  }

  // ---------------------------------------------------------------- the degraded report

  /** The mask read so far for the CPUs below `cpu` lies between what was ONLINE in `s0` and what is ONLINE in `s`. */
  ghost predicate Between(s0: State, s: State, cpu: nat, mask: nat) {
    && cpu <= |s0.records| && cpu <= |s.records| && mask < Pow2(cpu)
    && forall k :: 0 <= k < cpu ==>
         (s0.records[k] == Online ==> HasBit(mask, k)) && (HasBit(mask, k) ==> s.records[k] == Online)
  }

  ghost predicate Reading(s0: State, s: State, n: nat) {
    && Inv(s, n) && |s0.records| == |s.records|
    && (forall k :: 0 <= k < n && s0.records[k] == Online ==> s.records[k] == Online)
    && match s.bsp
       case MaskBad(cpu, mask) => cpu <= Limit(n) && Between(s0, s, cpu, mask)
       case Degraded(mask) => Between(s0, s, Limit(n), mask)
       case _ => false
  }

  lemma BetweenNext(s0: State, s: State, cpu: nat, mask: nat)
    requires Between(s0, s, cpu, mask) && cpu < |s0.records| && cpu < |s.records|
    requires s0.records[cpu] == Online ==> s.records[cpu] == Online
    ensures Between(s0, s, cpu + 1, if s.records[cpu] == Online then SetBit(mask, cpu) else mask)
  {
    hide HasBit, SetBit;
    forall k | 0 <= k <= cpu
      ensures HasBit(SetBit(mask, cpu), k) <==> k == cpu || HasBit(mask, k)
    {
      SetBitAbove(mask, cpu, k);
    }
    SetBitAbove(mask, cpu, cpu);
    assert Pow2(cpu) <= Pow2(cpu + 1);
  }

  lemma BetweenLater(s0: State, s: State, s': State, cpu: nat, mask: nat, n: nat)
    requires Between(s0, s, cpu, mask) && |s'.records| == |s.records| && cpu <= n <= |s.records|
    requires forall k :: 0 <= k < n && s.records[k] == Online ==> s'.records[k] == Online
    ensures Between(s0, s', cpu, mask)
  {
    hide HasBit;
  }

  /** Past the sweep no ONLINE record is lost. */
  lemma OnlineStays(s: State, n: nat, a: Action, k: nat)
    requires Inv(s, n) && k < n && s.records[k] == Online && Step(s, n, a).Some?
    requires s.bsp.MaskBad? || s.bsp.Degraded?
    ensures Shape(Step(s, n, a).value) && k < |Step(s, n, a).value.records|
    ensures Step(s, n, a).value.records[k] == Online
  {
    StepShape(s, n, a);
    assert ApOk(s, k);
  }

  /** Where a step leaves the BSP while it reads or has read the mask. */
  lemma NextReading(s: State, n: nat, a: Action)
    requires Shape(s) && Step(s, n, a).Some? && (s.bsp.MaskBad? || s.bsp.Degraded?)
    ensures var s' := Step(s, n, a).value;
            if s.bsp.MaskBad? && a.Bsp? then
              var cpu, mask := s.bsp.cpu, s.bsp.mask;
              s'.records == s.records &&
              if cpu < Limit(n)
              then cpu < |s.records| &&
                   s'.bsp == MaskBad(cpu + 1, if s.records[cpu] == Online then SetBit(mask, cpu) else mask)
              else s'.bsp == Degraded(mask)
            else s'.bsp == s.bsp
  {
    hide SetBit;
  }

  lemma StepReads(s0: State, s: State, n: nat, a: Action)
    requires Reading(s0, s, n) && Step(s, n, a).Some?
    ensures Reading(s0, Step(s, n, a).value, n)
  {
    hide Between, Step, SetBit;
    var s' := Step(s, n, a).value;
    StepKeepsInv(s, n, a);
    StepShape(s, n, a);
    forall k | 0 <= k < n && s.records[k] == Online ensures s'.records[k] == Online { OnlineStays(s, n, a, k); }
    NextReading(s, n, a);
    match s.bsp
    case MaskBad(cpu, mask) =>
      BetweenLater(s0, s, s', cpu, mask, n);
      if a.Bsp? && cpu < Limit(n) { BetweenNext(s0, s', cpu, mask); }
    case Degraded(mask) => BetweenLater(s0, s, s', Limit(n), mask, n);
  }

  lemma {:induction false} RunReads(s0: State, s: State, n: nat, schedule: seq<Action>)
    requires Reading(s0, s, n) && Shape(s) && Continue(s, n, schedule).Some?
    ensures Reading(s0, Continue(s, n, schedule).value, n)
    decreases |schedule|
  {
    hide Step, Reading;
    if schedule == [] {
    } else {
      var m := |schedule| - 1;
      RunReads(s0, s, n, schedule[..m]);
      StepReads(s0, Continue(s, n, schedule[..m]).value, n, schedule[m]);
    }
  }

  lemma ReadingStarts(s: State, n: nat)
    requires Inv(s, n) && s.bsp == MaskBad(0, 0)
    ensures Reading(s, s, n) && Shape(s)
  {
    assert Pow2(0) == 1;
  }

  /** Whatever the APs do while the BSP reads the masks of the degraded path, the reported online mask covers every CPU
      that was ONLINE when it started reading and names only CPUs that are ONLINE when it is done; the failed mask is
      the rest of the requested CPUs. */
  lemma DegradedReport(s: State, n: nat, schedule: seq<Action>, k: nat)
    requires Inv(s, n) && s.bsp == MaskBad(0, 0) && k < Limit(n) && Shape(s)
    requires Continue(s, n, schedule).Some? && Continue(s, n, schedule).value.bsp.Degraded?
    ensures var r := Continue(s, n, schedule).value;
            && k < |s.records| && k < |r.records|
            && (s.records[k] == Online ==> HasBit(r.bsp.mask, k))
            && (HasBit(r.bsp.mask, k) ==> r.records[k] == Online)
            && (HasBit(AndNot(CpuMask(n), r.bsp.mask), k) <==> !HasBit(r.bsp.mask, k))
  {
    hide Continue, HasBit, CpuMask;
    ReadingStarts(s, n);
    RunReads(s, s, n, schedule);
    var r := Continue(s, n, schedule).value;
    AndNotBit(CpuMask(n), r.bsp.mask, k);
    CpuMaskBit(n, k);
  }

  // ---------------------------------------------------------------- reading too early

  lemma DownBsp(s: State, n: nat, i: nat, b: bool, c: bool)
    requires Shape(s) && i < |s.aps| && i < n && Frontier(s.bsp, n) > i && BspStep(s, n, b, c).Some?
    ensures var r := BspStep(s, n, b, c).value; i < |r.aps| && r.aps[i] == s.aps[i] && Frontier(r.bsp, n) > i
  {
    hide SetBit, Limit;
  }

  lemma DownStep(s: State, n: nat, i: nat, a: Action)
    requires Shape(s) && i < |s.aps| && i < n && (s.aps[i].Failing? || s.aps[i].Halted?)
    requires Frontier(s.bsp, n) > i && Step(s, n, a).Some?
    ensures var r := Step(s, n, a).value;
            Shape(r) && i < |r.aps| && (r.aps[i].Failing? || r.aps[i].Halted?) && Frontier(r.bsp, n) > i
  {
    hide BspStep, SetBit;
    StepShape(s, n, a);
    if a.Bsp? { DownBsp(s, n, i, a.b, a.c); }
  }

  lemma {:induction false} StaysDown(s: State, n: nat, i: nat, schedule: seq<Action>)
    requires Inv(s, n) && Shape(s) && 1 <= i < n && i < |s.aps| && (s.aps[i].Failing? || s.aps[i].Halted?)
    requires Frontier(s.bsp, n) > i && Continue(s, n, schedule).Some?
    ensures var r := Continue(s, n, schedule).value;
            && Inv(r, n) && i < |r.aps| && (r.aps[i].Failing? || r.aps[i].Halted?) && Frontier(r.bsp, n) > i
    decreases |schedule|
  {
    hide Inv, Step;
    if schedule == [] {
    } else {
      var m := |schedule| - 1;
      StaysDown(s, n, i, schedule[..m]);
      var t := Continue(s, n, schedule[..m]).value;
      StepKeepsInv(t, n, schedule[m]);
      DownStep(t, n, i, schedule[m]);
    }
  }

  /** An AP that reads the readiness mask before it is published never comes ONLINE, whatever happens afterwards. */
  lemma EarlyReaderNeverOnline(s: State, n: nat, i: nat, ok: bool, schedule: seq<Action>)
    requires Inv(s, n) && 1 <= i < n && Shape(s) && s.aps[i] == CheckReady && !s.ready
    ensures Step(s, n, Ap(i, ok)).Some? && Shape(Step(s, n, Ap(i, ok)).value)
    ensures var s1 := Step(s, n, Ap(i, ok)).value;
            Continue(s1, n, schedule).Some? ==>
              i < |Continue(s1, n, schedule).value.records| && Continue(s1, n, schedule).value.records[i] != Online
  {
    hide Continue;
    var s1 := Step(s, n, Ap(i, ok)).value;
    StepShape(s, n, Ap(i, ok));
    StepKeepsInv(s, n, Ap(i, ok));
    assert Frontier(s1.bsp, n) > i && s1.aps[i] == Failing;
    if Continue(s1, n, schedule).Some? {
      StaysDown(s1, n, i, schedule);
      assert ApOk(Continue(s1, n, schedule).value, i);
    }
  }

  // ---------------------------------------------------------------- success is within reach

  /** Some schedule leads from `s` to `r`. */
  ghost predicate Reaches(s: State, n: nat, r: State) {
    Shape(s) && exists schedule: seq<Action> :: Continue(s, n, schedule) == Some(r)
  }

  lemma ReachHere(s: State, n: nat)
    requires Shape(s)
    ensures Reaches(s, n, s)
  {
    ContinueNone(s, n);
  }

  lemma ReachBy(s: State, n: nat, a: Action, s': State, r: State)
    requires Shape(s) && Step(s, n, a) == Some(s') && Reaches(s', n, r)
    ensures Reaches(s, n, r)
  {
    hide Continue, Step;
    var rest :| Continue(s', n, rest) == Some(r);
    ContinueCons(s, n, a, rest);
    assert Continue(s, n, [a] + rest) == Some(r);
  }

  lemma {:induction false} ContinueAppend(s: State, n: nat, a: seq<Action>, b: seq<Action>)
    requires Shape(s) && Continue(s, n, a).Some?
    ensures Continue(s, n, a + b) == Continue(Continue(s, n, a).value, n, b)
    decreases |b|
  {
    hide Step;
    if b == [] {
      assert a + b == a;
    } else {
      var m := |b| - 1;
      ContinueAppend(s, n, a, b[..m]);
      assert (a + b)[..|a + b| - 1] == a + b[..m] && (a + b)[|a + b| - 1] == b[m];
    }
  }

  lemma ReachTrans(s: State, n: nat, t: State, r: State)
    requires Reaches(s, n, t) && Reaches(t, n, r)
    ensures Reaches(s, n, r)
  {
    hide Continue;
    var a :| Continue(s, n, a) == Some(t);
    var b :| Continue(t, n, b) == Some(r);
    ContinueAppend(s, n, a, b);
    assert Continue(s, n, a + b) == Some(r);
  }

  /** Every AP from `c` to `n` is about to run, and nothing else has changed. */
  ghost predicate Launched(s: State, r: State, c: nat, n: nat) {
    && Shape(s) && Shape(r) && |r.aps| == |s.aps| && r.ready == s.ready && r.bsp == WaitTop
    && c <= n <= |s.aps| && (forall j :: c <= j < n ==> r.aps[j] == Write(0))
    && (forall j :: 0 <= j < c ==> r.aps[j] == s.aps[j] && r.records[j] == s.records[j])
  }

  lemma LaunchOne(s: State, n: nat, c: nat)
    requires Shape(s) && s.bsp == Launch(c) && c < n <= |s.aps|
    ensures var s1 := s.(records := s.records[c := Starting], bsp := StartCpu(c));
            var s2 := s1.(aps := s1.aps[c := Write(0)], bsp := NextLaunch(c, n));
            && Step(s, n, Bsp(true, true)) == Some(s1) && Shape(s1)
            && Step(s1, n, Bsp(true, true)) == Some(s2) && Shape(s2)
  {
  }

  lemma {:induction false} LaunchAll(s: State, n: nat, c: nat) returns (r: State)
    requires Shape(s) && s.bsp == Launch(c) && c < n <= |s.aps|
    ensures Reaches(s, n, r) && Launched(s, r, c, n)
    decreases n - c
  {
    hide Step, Reaches;
    var s1 := s.(records := s.records[c := Starting], bsp := StartCpu(c));
    var s2 := s1.(aps := s1.aps[c := Write(0)], bsp := NextLaunch(c, n));
    LaunchOne(s, n, c);
    if c + 1 < n {
      r := LaunchAll(s2, n, c + 1);
    } else {
      r := s2;
      ReachHere(s2, n);
    }
    ReachBy(s1, n, Bsp(true, true), s2, r);
    ReachBy(s, n, Bsp(true, true), s1, r);
  }

  /** AP `i` is up, and nobody else has moved. */
  ghost predicate UpAlone(s: State, r: State, i: nat) {
    && Shape(s) && Shape(r) && |r.aps| == |s.aps| && r.ready == s.ready && r.bsp == s.bsp && i < |s.aps|
    && r.records[i] == Online && (forall j :: 0 <= j < |s.aps| && j != i ==> r.aps[j] == s.aps[j])
    && (forall j :: 0 <= j < |s.aps| && j != i ==> r.records[j] == s.records[j])
  }

  lemma ApMoves(s: State, n: nat, i: nat)
    requires Shape(s) && i < |s.aps| && s.ready && StillRunning(s.aps[i])
    ensures Step(s, n, Ap(i, true)).Some?
    ensures var s' := Step(s, n, Ap(i, true)).value;
            && Shape(s') && |s'.aps| == |s.aps| && s'.ready && s'.bsp == s.bsp
            && (forall j :: 0 <= j < |s.aps| && j != i ==> s'.aps[j] == s.aps[j] && s'.records[j] == s.records[j])
            && (s.aps[i] == Write(7) ==> s'.records[i] == Online)
            && (s.aps[i] != Write(7) ==> StillRunning(s'.aps[i]) && Distance(s'.aps[i]) < Distance(s.aps[i]))
  {
  }

  lemma {:induction false} BringUp(s: State, n: nat, i: nat) returns (r: State)
    requires Shape(s) && i < |s.aps| && s.ready && StillRunning(s.aps[i])
    ensures Reaches(s, n, r) && UpAlone(s, r, i)
    decreases Distance(s.aps[i])
  {
    hide Step, Reaches, Distance, StillRunning;
    ApMoves(s, n, i);
    var s' := Step(s, n, Ap(i, true)).value;
    if s.aps[i] == Write(7) {
      r := s';
      ReachHere(s', n);
    } else {
      r := BringUp(s', n, i);
    }
    ReachBy(s, n, Ap(i, true), s', r);
  }

  /** The CPUs below `i` are ONLINE and the APs from `i` on are about to run. */
  ghost predicate UpTo(s: State, n: nat, i: nat) {
    && Shape(s) && s.ready && s.bsp == WaitTop && 1 <= i <= n <= |s.aps|
    && (forall j :: 0 <= j < i ==> s.records[j] == Online) && (forall j :: i <= j < n ==> s.aps[j] == Write(0))
  }

  lemma {:induction false} BringAllUp(s: State, n: nat, i: nat) returns (r: State)
    requires UpTo(s, n, i)
    ensures Reaches(s, n, r) && UpTo(r, n, n)
    decreases n - i
  {
    hide Reaches;
    if i == n {
      r := s;
      ReachHere(s, n);
    } else {
      var t := BringUp(s, n, i);
      r := BringAllUp(t, n, i + 1);
      ReachTrans(s, n, t, r);
    }
  }

  lemma PollMoves(s: State, n: nat, c: nat)
    requires Shape(s) && n <= |s.records| && s.bsp == Poll(c, true) && OnlineBelow(s, n)
    ensures Step(s, n, Bsp(true, true)) == Some(s.(bsp := if c < n then Poll(c + 1, true) else MaskOk(0, 0)))
  {
  }

  lemma {:induction false} PollAll(s: State, n: nat, c: nat)
    requires Shape(s) && n <= |s.records| && s.bsp == Poll(c, true) && OnlineBelow(s, n) && c <= n
    ensures Reaches(s, n, s.(bsp := MaskOk(0, 0)))
    decreases n - c
  {
    hide Step, Reaches;
    var s' := s.(bsp := if c < n then Poll(c + 1, true) else MaskOk(0, 0));
    PollMoves(s, n, c);
    if c < n { PollAll(s', n, c + 1); } else { ReachHere(s', n); }
    ReachBy(s, n, Bsp(true, true), s', s.(bsp := MaskOk(0, 0)));
  }

  lemma MaskMoves(s: State, n: nat, cpu: nat, mask: nat)
    requires Shape(s) && n <= |s.records| && s.bsp == MaskOk(cpu, mask) && OnlineBelow(s, n)
    ensures Step(s, n, Bsp(true, true)) ==
            Some(s.(bsp := if cpu < Limit(n) then MaskOk(cpu + 1, SetBit(mask, cpu)) else AllOnline(mask)))
  {
    hide SetBit;
  }

  lemma {:induction false} MaskAll(s: State, n: nat, cpu: nat, mask: nat) returns (r: State)
    requires Shape(s) && n <= |s.records| && s.bsp == MaskOk(cpu, mask) && OnlineBelow(s, n) && cpu <= Limit(n)
    ensures Reaches(s, n, r) && r.bsp.AllOnline?
    decreases Limit(n) - cpu
  {
    hide Step, Reaches, SetBit;
    var s' := s.(bsp := if cpu < Limit(n) then MaskOk(cpu + 1, SetBit(mask, cpu)) else AllOnline(mask));
    MaskMoves(s, n, cpu, mask);
    if cpu < Limit(n) {
      r := MaskAll(s', n, cpu + 1, SetBit(mask, cpu));
    } else {
      r := s';
      ReachHere(s', n);
    }
    ReachBy(s, n, Bsp(true, true), s', r);
  }

  lemma WaitMoves(s: State, n: nat)
    requires Shape(s) && s.bsp == WaitTop
    ensures Step(s, n, Bsp(false, true)) == Some(s.(bsp := Poll(1, true)))
    ensures Step(s, n, Publish) == Some(s.(ready := true))
  {
  }

  lemma ReportSuccess(s: State, n: nat) returns (r: State)
    requires UpTo(s, n, n)
    ensures Reaches(s, n, r) && r.bsp.AllOnline?
  {
    hide Reaches, Step;
    var poll := s.(bsp := Poll(1, true));
    assert Step(s, n, Bsp(false, true)) == Some(poll) by { WaitMoves(s, n); }
    PollAll(poll, n, 1);
    r := MaskAll(s.(bsp := MaskOk(0, 0)), n, 0, 0);
    ReachTrans(poll, n, s.(bsp := MaskOk(0, 0)), r);
    ReachBy(s, n, Bsp(false, true), poll, r);
  }

  lemma StartIsShaped(max: nat, n: nat)
    requires 2 <= n <= max
    ensures var s := Start(max, n);
            Shape(s) && |s.aps| == max && s.bsp == Launch(1) && s.records[0] == Online
  {
  }

  /** For every machine size and every request there is a run that brings all requested CPUs up: the BSP returns on the
      all-online path and reports the requested mask. */
  lemma SuccessIsReachable(max: nat, n: nat)
    requires 2 <= n <= max
    ensures exists schedule: seq<Action> ::
      && Continue(Start(max, n), n, schedule).Some?
      && Continue(Start(max, n), n, schedule).value.bsp == AllOnline(CpuMask(n))
  {
    hide Start, Continue, Step, CpuMask;
    StartIsShaped(max, n);
    var s := Start(max, n);
    var t := LaunchAll(s, n, 1);
    var u := t.(ready := true);
    WaitMoves(t, n);
    assert UpTo(u, n, 1);
    var v := BringAllUp(u, n, 1);
    var w := ReportSuccess(v, n);
    ReachTrans(u, n, v, w);
    ReachBy(t, n, Publish, u, w);
    ReachTrans(s, n, t, w);
    var schedule :| Continue(s, n, schedule) == Some(w);
    AllOnlineIsTrue(max, n, schedule);
  }
}
