/** The boot handshake between the boot processor (BSP) and the secondary processors (APs): atomic loads and
    stores of per-CPU boot states and of the global readiness mask, interleaved in every possible order. */
module SmpBoot {
  import opened Arith
  import opened Bytes

  datatype BootState =
    | Offline | Starting | ArchReady | MemoryReady | IrqReady | TimerReady | UrpcReady | SchedReady | Online | Failed

  /** What an AP publishes, in its order. */
  const ORDER: seq<BootState> :=
    [Starting, ArchReady, IrqReady, TimerReady, MemoryReady, UrpcReady, SchedReady, Online]

  // ------------------------------------------------------------------------- masks

  /** `mask | (1ULL << k)` */
  function SetBit(mask: nat, k: nat): nat {
    if Quotient(mask, Pow2(k)) % 2 == 1 then mask else mask + Pow2(k)
  }

  /** `a & ~b` */
  function AndNot(a: nat, b: nat): nat {
    if a == 0 then 0 else 2 * AndNot(a / 2, b / 2) + (if a % 2 == 1 && b % 2 == 0 then 1 else 0)
  }

  /** `cpu_mask_for_count` */
  function CpuMask(count: nat): nat { if count >= 64 then TWO64 - 1 else Pow2(count) - 1 }

  function Limit(requested: nat): nat { if requested < 64 then requested else 64 }

  lemma SetNextBit(k: nat)
    ensures SetBit(Pow2(k) - 1, k) == Pow2(k + 1) - 1
  {
    QuotientBounds(Pow2(k) - 1, Pow2(k), 0);
  }

  lemma MaskOfLimit(requested: nat)
    ensures Pow2(Limit(requested)) - 1 == CpuMask(requested)
  {
    Pow2At64();
  }

  /** The loop of `smp_online_mask` over a fixed snapshot of the records. */
  function OnlineMask(records: seq<BootState>, k: nat): nat
    requires k <= |records|
  {
    if k == 0 then 0
    else if records[k - 1] == Online then SetBit(OnlineMask(records, k - 1), k - 1)
    else OnlineMask(records, k - 1)
  }

  lemma {:induction false} MaskBelow(records: seq<BootState>, n: nat)
    requires n <= |records|
    ensures OnlineMask(records, n) < Pow2(n)
  {
    if n > 0 { MaskBelow(records, n - 1); }
  }

  lemma TwicePow2(n: nat)
    requires n > 0
    ensures Pow2(n) == 2 * Pow2(n - 1)
  {
  }

  lemma ShiftedQuotient(m: nat, p: nat, h: nat)
    requires p > 0
    ensures Quotient(m + p * h, p) == Quotient(m, p) + h
  {
    hide Quotient;
    var q := Quotient(m, p);
    QuotientBounds(m, p, q);
    assert (q + h) * p == q * p + p * h && (q + h + 1) * p == (q + 1) * p + p * h;
    QuotientBounds(m + p * h, p, q + h);
  }

  lemma SameParity(q: nat, h: nat)
    ensures (q + 2 * h) % 2 == q % 2
  {
  }

  /** Adding a power of two leaves the lower bits alone. */
  lemma HighBitApart(m: nat, n: nat, k: nat)
    requires k < n
    ensures Quotient(m + Pow2(n), Pow2(k)) % 2 == Quotient(m, Pow2(k)) % 2
  {
    hide Quotient, Pow2;
    Pow2Sum(k, n - k);
    TwicePow2(n - k);
    ShiftedQuotient(m, Pow2(k), Pow2(n - k));
    SameParity(Quotient(m, Pow2(k)), Pow2(n - k - 1));
  }

  /** Bit `k` of the mask is set exactly when CPU `k` is ONLINE. */
  lemma {:induction false} MaskBits(records: seq<BootState>, n: nat, k: nat)
    requires k < n <= |records|
    ensures Quotient(OnlineMask(records, n), Pow2(k)) % 2 == 1 <==> records[k] == Online
  {
    hide Pow2, Quotient;
    var m := OnlineMask(records, n - 1);
    MaskBelow(records, n - 1);
    QuotientBounds(m, Pow2(n - 1), 0);
    QuotientBounds(m + Pow2(n - 1), Pow2(n - 1), 1);
    if k < n - 1 {
      MaskBits(records, n - 1, k);
      HighBitApart(m, n - 1, k);
    }
  }

  /** With every CPU below the limit ONLINE the loop sets exactly the bits of the mask for the count. */
  lemma {:induction false} AllOnlineMask(records: seq<BootState>, requested: nat, k: nat)
    requires k <= Limit(requested) <= |records| && forall i :: 0 <= i < k ==> records[i] == Online
    ensures OnlineMask(records, k) == Pow2(k) - 1
    ensures k == Limit(requested) ==> OnlineMask(records, k) == CpuMask(requested)
  {
    hide SetBit;
    if k > 0 {
      AllOnlineMask(records, requested, k - 1);
      SetNextBit(k - 1);
    }
    MaskOfLimit(requested);
  }

  lemma {:induction false} AndNotSelf(a: nat)
    ensures AndNot(a, a) == 0
  {
    if a > 0 { AndNotSelf(a / 2); }
  }

  // ----------------------------------------------------------------------- programs

  /** `bh_secondary_cpu_entry`: about to publish ORDER[k], to read the readiness mask, to run a fallible
      initialisation before ORDER[k], to publish FAILED; or halted after FAILED, or finished. */
  datatype ApPc = Off | Write(k: nat) | CheckReady | Fallible(k: nat) | Failing | Halted | Finished

  /** `bh_smp_start_secondary_cpus` after the request has been clamped: launching, polling, and the two ways out.
      `mask` accumulates the online mask that is printed before returning. */
  datatype BspPc =
    | Launch(cpu: nat)
    | StartCpu(cpu: nat)
    | MarkFailed(cpu: nat)
    | WaitTop
    | Poll(cpu: nat, all: bool)
    | MaskOk(cpu: nat, mask: nat)
    | AllOnline(mask: nat)
    | Sweep(cpu: nat)
    | SweepMark(cpu: nat)
    | MaskBad(cpu: nat, mask: nat)
    | Degraded(mask: nat)

  /** `writes[i]` and `saw[i]` are auxiliary: what AP `i` has published, and whether it read the full mask. */
  datatype State = State(records: seq<BootState>, ready: bool, bsp: BspPc, aps: seq<ApPc>,
                         writes: seq<seq<BootState>>, saw: seq<bool>)

  /** A step of the BSP with its two free choices, of an AP with one, or the publication of readiness. */
  datatype Action = Publish | Bsp(b: bool, c: bool) | Ap(cpu: nat, ok: bool)

  /** After `bh_smp_boot_primary_init`, entering the launch loop. */
  function Start(max: nat, n: nat): State
    requires 2 <= n <= max
  {
    State(seq(max, i => if i == 0 then Online else Offline), false, Launch(1),
          seq(max, _ => Off), seq(max, _ => []), seq(max, _ => false))
  }

  function NextLaunch(cpu: nat, n: nat): BspPc { if cpu + 1 < n then Launch(cpu + 1) else WaitTop }

  function NextSweep(cpu: nat, n: nat): BspPc { if cpu + 1 < n then Sweep(cpu + 1) else MaskBad(0, 0) }

  /** One atomic step of the BSP; it writes at most one record. In `StartCpu`, `b` says that the HAL call
      succeeded and `c` that the AP will run although it failed; in `WaitTop`, `b` says that time is up. */
  function BspStep(s: State, n: nat, b: bool, c: bool): Option<State>
    requires |s.records| == |s.aps|
  {
    match s.bsp
    case Launch(cpu) =>
      if cpu < |s.records| then Some(s.(records := s.records[cpu := Starting], bsp := StartCpu(cpu))) else None
    case StartCpu(cpu) =>
      if cpu < |s.aps| then
        Some(s.(aps := if b || c then s.aps[cpu := Write(0)] else s.aps,
                bsp := if b then NextLaunch(cpu, n) else MarkFailed(cpu)))
      else None
    case MarkFailed(cpu) =>
      if cpu < |s.records| then Some(s.(records := s.records[cpu := Failed], bsp := NextLaunch(cpu, n))) else None
    case WaitTop => Some(s.(bsp := if b then Sweep(1) else Poll(1, true)))
    case Poll(cpu, all) =>
      if cpu < n then
        if cpu < |s.records| then Some(s.(bsp := Poll(cpu + 1, all && s.records[cpu] == Online))) else None
      else Some(s.(bsp := if all then MaskOk(0, 0) else WaitTop))
    case MaskOk(cpu, mask) =>
      if cpu < Limit(n) then
        if cpu < |s.records|
        then Some(s.(bsp := MaskOk(cpu + 1, if s.records[cpu] == Online then SetBit(mask, cpu) else mask))) else None
      else Some(s.(bsp := AllOnline(mask)))
    case AllOnline(_) => None
    case Sweep(cpu) =>
      if cpu < |s.records|
      then Some(s.(bsp := if s.records[cpu] != Online then SweepMark(cpu) else NextSweep(cpu, n))) else None
    case SweepMark(cpu) =>
      if cpu < |s.records| then Some(s.(records := s.records[cpu := Failed], bsp := NextSweep(cpu, n))) else None
    case MaskBad(cpu, mask) =>
      if cpu < Limit(n) then
        if cpu < |s.records|
        then Some(s.(bsp := MaskBad(cpu + 1, if s.records[cpu] == Online then SetBit(mask, cpu) else mask))) else None
      else Some(s.(bsp := Degraded(mask)))
    case Degraded(_) => None
  }

  /** Where an AP goes after publishing ORDER[k]. */
  function AfterWrite(k: nat): ApPc {
    if k == 0 then CheckReady else if k == 7 then Finished
    else if k == 3 || k == 4 || k == 5 then Fallible(k + 1) else Write(k + 1)
  }

  predicate Shape(s: State) { |s.aps| == |s.records| == |s.writes| == |s.saw| }

  function Record(s: State, i: nat, v: BootState, pc: ApPc): State
    requires Shape(s) && i < |s.records|
  {
    s.(records := s.records[i := v], aps := s.aps[i := pc], writes := s.writes[i := s.writes[i] + [v]])
  }

  /** One atomic step of AP `i`; it writes only its own record. */
  function ApStep(s: State, i: nat, ok: bool): Option<State>
    requires Shape(s)
  {
    if i >= |s.aps| then None
    else
      match s.aps[i]
      case Write(k) => if k < 8 then Some(Record(s, i, ORDER[k], AfterWrite(k))) else None
      case CheckReady =>
        Some(s.(aps := s.aps[i := if s.ready then Write(1) else Failing],
                saw := s.saw[i := s.saw[i] || s.ready]))
      case Fallible(k) => Some(s.(aps := s.aps[i := if ok then Write(k) else Failing]))
      case Failing => Some(Record(s, i, Failed, Halted))
      case _ => None
  }

  function Step(s: State, n: nat, a: Action): Option<State>
    requires Shape(s)
  {
    match a
    case Publish => Some(s.(ready := true))
    case Bsp(b, c) => BspStep(s, n, b, c)
    case Ap(cpu, ok) => ApStep(s, cpu, ok)
  }

  lemma StepShape(s: State, n: nat, a: Action)
    requires Shape(s) && Step(s, n, a).Some?
    ensures Shape(Step(s, n, a).value) && |Step(s, n, a).value.records| == |s.records|
  {
  }

  /** The state reached from `s` by a schedule, if every step in it is enabled. */
  function Continue(s: State, n: nat, schedule: seq<Action>): (r: Option<State>)
    requires Shape(s)
    ensures r.Some? ==> Shape(r.value) && |r.value.records| == |s.records|
    decreases |schedule|
  {
    if schedule == [] then Some(s)
    else
      match Continue(s, n, schedule[..|schedule| - 1])
      case None => None
      case Some(s1) =>
        var a := schedule[|schedule| - 1];
        if Step(s1, n, a).Some? then (StepShape(s1, n, a); Step(s1, n, a)) else None
  }

  // ------------------------------------------------------------------ the invariant

  /** What an AP has published when it stands at `pc`. */
  predicate WritesOk(pc: ApPc, w: seq<BootState>) {
    match pc
    case Off => w == []
    case Write(k) => k < 8 && w == ORDER[..k]
    case CheckReady => w == ORDER[..1]
    case Fallible(k) => 4 <= k <= 6 && w == ORDER[..k]
    case Failing => exists k :: k in {1, 4, 5, 6} && w == ORDER[..k]
    case Halted => exists k :: k in {1, 4, 5, 6} && w == ORDER[..k] + [Failed]
    case Finished => w == ORDER
  }

  predicate PastBarrier(pc: ApPc) { (pc.Write? && pc.k >= 1) || pc.Fallible? || pc.Finished? }

  predicate ApOk(s: State, i: nat)
    requires Shape(s) && i < |s.aps|
  {
    && WritesOk(s.aps[i], s.writes[i])
    && (PastBarrier(s.aps[i]) || ArchReady in s.writes[i] ==> s.saw[i])
    && (i > 0 && s.records[i] == Online ==> s.aps[i].Finished?)
    && (s.saw[i] ==> s.ready)
  }

  ghost predicate OnlineBelow(s: State, n: nat) {
    n <= |s.records| && forall j :: 0 <= j < n ==> s.records[j] == Online
  }

  /** What the BSP may rely on where it stands. */
  ghost predicate BspOk(s: State, n: nat) {
    match s.bsp
    case Launch(cpu) => 1 <= cpu < n
    case StartCpu(cpu) => 1 <= cpu < n
    case MarkFailed(cpu) => 1 <= cpu < n
    case WaitTop => true
    case Poll(cpu, all) => 1 <= cpu && (all ==> OnlineBelow(s, if cpu < n then cpu else n))
    case MaskOk(cpu, mask) => cpu <= Limit(n) && OnlineBelow(s, n) && mask == Pow2(cpu) - 1
    case AllOnline(mask) => OnlineBelow(s, n) && mask == CpuMask(n)
    case Sweep(cpu) => 1 <= cpu < n
    case SweepMark(cpu) => 1 <= cpu < n
    case MaskBad(cpu, mask) => true
    case Degraded(mask) => true
  }

  /** The first CPU the launch loop has not started yet. */
  function Frontier(bsp: BspPc, n: nat): nat {
    match bsp
    case Launch(cpu) => cpu
    case StartCpu(cpu) => cpu
    case MarkFailed(cpu) => cpu + 1
    case _ => n
  }

  ghost predicate Untouched(s: State, n: nat) {
    forall j :: Frontier(s.bsp, n) <= j < |s.aps| ==> s.aps[j] == Off
  }

  ghost predicate Inv(s: State, n: nat) {
    && Shape(s) && 2 <= n <= |s.records|
    && s.records[0] == Online && s.aps[0] == Off
    && (forall i :: 0 <= i < |s.aps| ==> ApOk(s, i))
    && Untouched(s, n)
    && BspOk(s, n)
  }

  lemma StartInv(max: nat, n: nat)
    requires 2 <= n <= max
    ensures Inv(Start(max, n), n)
  {
  }

  lemma ApWriteOk(k: nat)
    requires k < 8
    ensures WritesOk(AfterWrite(k), ORDER[..k] + [ORDER[k]])
  {
    assert ORDER[..k] + [ORDER[k]] == ORDER[..k + 1];
    assert ORDER[..8] == ORDER;
  }

  lemma ApStepWrites(s: State, i: nat, ok: bool)
    requires Shape(s) && i < |s.aps| && ApOk(s, i) && ApStep(s, i, ok).Some?
    ensures var s' := ApStep(s, i, ok).value; Shape(s') && WritesOk(s'.aps[i], s'.writes[i])
  {
    match s.aps[i]
    case Write(k) => ApWriteOk(k);
    case CheckReady =>
    case Fallible(k) =>
    case Failing =>
    case _ =>
  }

  /** Everything about CPU `j` is as it was. */
  predicate Same(s: State, s': State, j: nat)
    requires Shape(s) && Shape(s') && j < |s.aps| && j < |s'.aps|
  {
    s'.aps[j] == s.aps[j] && s'.records[j] == s.records[j] && s'.writes[j] == s.writes[j] && s'.saw[j] == s.saw[j]
  }

  lemma WriteInRange(s: State, i: nat)
    requires Shape(s) && i < |s.aps| && ApOk(s, i) && s.aps[i].Write?
    ensures s.aps[i].k < 8
  {
  }

  lemma ApStepOk(s: State, i: nat, ok: bool)
    requires Shape(s) && i < |s.aps| && ApOk(s, i) && ApStep(s, i, ok).Some?
    ensures var s' := ApStep(s, i, ok).value;
            && Shape(s') && |s'.aps| == |s.aps| && ApOk(s', i)
            && s'.bsp == s.bsp && s'.ready == s.ready && s.aps[i] != Off && s'.aps[i] != Off
            && (forall j :: 0 <= j < |s.aps| && j != i ==> Same(s, s', j))
            && (s.records[i] == Online && i > 0 ==> s'.records[i] == Online)
  {
    hide WritesOk;
    ApStepWrites(s, i, ok);
    assert forall k :: 0 <= k < 8 && ORDER[k] == Online ==> k == 7;
    if s.aps[i].Write? { WriteInRange(s, i); }
  }

  lemma ApInRange(s: State, i: nat, ok: bool)
    requires Shape(s) && ApStep(s, i, ok).Some?
    ensures i < |s.aps|
  {
  }

  lemma ApKeepsInv(s: State, n: nat, i: nat, ok: bool)
    requires Inv(s, n) && ApStep(s, i, ok).Some?
    ensures Inv(ApStep(s, i, ok).value, n)
  {
    hide ApStep;
    assert i < |s.aps| by { ApInRange(s, i, ok); }
    assert ApOk(s, i);
    ApStepOk(s, i, ok);
    var s' := ApStep(s, i, ok).value;
    forall j | 0 <= j < |s'.aps| ensures ApOk(s', j) {
      if j != i { assert ApOk(s, j) && Same(s, s', j); }
    }
    assert s.aps[0] == Off && Same(s, s', 0);
    forall j | 0 <= j < |s.records| && s.records[j] == Online ensures s'.records[j] == Online {
      if j != i { assert Same(s, s', j); }
    }
    forall j | 0 <= j < |s.aps| && s.aps[j] == Off ensures s'.aps[j] == Off {
      if j != i { assert Same(s, s', j); }
    }
  }

  /** What one BSP step can write: one record, or one launch. */
  lemma BspEffect(s: State, n: nat, b: bool, c: bool)
    requires Shape(s) && BspStep(s, n, b, c).Some?
    ensures var s' := BspStep(s, n, b, c).value;
            && s'.ready == s.ready && s'.writes == s.writes && s'.saw == s.saw
            && (s'.aps == s.aps ||
                (s.bsp.StartCpu? && s.bsp.cpu < |s.aps| && s'.aps == s.aps[s.bsp.cpu := Write(0)] &&
                 s'.records == s.records))
            && (s'.records == s.records ||
                ((s.bsp.Launch? || s.bsp.MarkFailed? || s.bsp.SweepMark?) && s.bsp.cpu < |s.records| &&
                 s'.records == s.records[s.bsp.cpu := if s.bsp.Launch? then Starting else Failed]))
  {
    hide SetBit, Limit;
  }

  lemma FrontierMoves(s: State, n: nat, b: bool, c: bool)
    requires Shape(s) && BspOk(s, n) && BspStep(s, n, b, c).Some?
    ensures Frontier(BspStep(s, n, b, c).value.bsp, n) >=
            if s.bsp.StartCpu? then Frontier(s.bsp, n) + 1 else Frontier(s.bsp, n)
  {
    hide SetBit, Limit, OnlineBelow, Pow2, CpuMask;
  }

  /** A freshly launched AP was off, had written nothing and was not ONLINE. */
  lemma LaunchedOk(s: State, s': State, n: nat, j: nat)
    requires Inv(s, n) && Shape(s') && s.bsp == StartCpu(j) && j < |s.aps| == |s'.aps| && s'.aps[j] == Write(0)
    requires s'.writes == s.writes && s'.saw == s.saw && s'.records == s.records && s'.ready == s.ready
    ensures ApOk(s', j)
  {
    assert ApOk(s, j) && s.aps[j] == Off;
  }

  lemma BspKeepsAps(s: State, n: nat, b: bool, c: bool)
    requires Inv(s, n) && BspStep(s, n, b, c).Some?
    ensures var s' := BspStep(s, n, b, c).value;
            && Shape(s') && |s'.records| == |s.records| && s'.records[0] == Online && s'.aps[0] == Off
            && forall j :: 0 <= j < |s'.aps| ==> ApOk(s', j)
  {
    hide BspStep, OnlineBelow, WritesOk, Untouched;
    BspEffect(s, n, b, c);
    var s' := BspStep(s, n, b, c).value;
    forall j | 0 <= j < |s'.aps| ensures ApOk(s', j) {
      assert ApOk(s, j);
      if s'.aps[j] != s.aps[j] { LaunchedOk(s, s', n, j); }
    }
  }

  lemma BspKeepsUntouched(s: State, n: nat, b: bool, c: bool)
    requires Inv(s, n) && BspStep(s, n, b, c).Some?
    ensures Untouched(BspStep(s, n, b, c).value, n)
  {
    hide BspStep, OnlineBelow, ApOk;
    BspEffect(s, n, b, c);
    FrontierMoves(s, n, b, c);
  }

  lemma PowZero()
    ensures Pow2(0) - 1 == 0
  {
  }

  lemma MaskKeepsBsp(s: State, n: nat, b: bool, c: bool)
    requires Inv(s, n) && s.bsp.MaskOk? && BspStep(s, n, b, c).Some?
    ensures BspOk(BspStep(s, n, b, c).value, n)
  {
    hide Pow2, SetBit, ApOk, Untouched, CpuMask;
    SetNextBit(s.bsp.cpu);
    MaskOfLimit(n);
  }

  lemma PollKeepsBsp(s: State, n: nat, b: bool, c: bool)
    requires Inv(s, n) && s.bsp.Poll? && BspStep(s, n, b, c).Some?
    ensures BspOk(BspStep(s, n, b, c).value, n)
  {
    hide Pow2, SetBit, ApOk, Untouched, CpuMask;
    PowZero();
  }

  lemma BspKeepsBsp(s: State, n: nat, b: bool, c: bool)
    requires Inv(s, n) && BspStep(s, n, b, c).Some?
    ensures BspOk(BspStep(s, n, b, c).value, n)
  {
    hide Pow2, SetBit, ApOk, Untouched, CpuMask;
    if s.bsp.MaskOk? {
      MaskKeepsBsp(s, n, b, c);
    } else if s.bsp.Poll? {
      PollKeepsBsp(s, n, b, c);
    }
  }

  lemma BspKeepsInv(s: State, n: nat, b: bool, c: bool)
    requires Inv(s, n) && BspStep(s, n, b, c).Some?
    ensures Inv(BspStep(s, n, b, c).value, n)
  {
    hide BspStep, ApOk, Untouched, BspOk;
    BspKeepsAps(s, n, b, c);
    BspKeepsUntouched(s, n, b, c);
    BspKeepsBsp(s, n, b, c);
  }

  lemma StepKeepsInv(s: State, n: nat, a: Action)
    requires Inv(s, n) && Step(s, n, a).Some?
    ensures Inv(Step(s, n, a).value, n)
  {
    match a
    case Publish =>
      var s' := Step(s, n, a).value;
      forall j | 0 <= j < |s'.aps| ensures ApOk(s', j) { assert ApOk(s, j); }
    case Bsp(b, c) => BspKeepsInv(s, n, b, c);
    case Ap(i, ok) => ApKeepsInv(s, n, i, ok);
  }

  lemma InvShape(s: State, n: nat)
    requires Inv(s, n)
    ensures Shape(s)
  {
  }

  lemma {:induction false} ContinueKeepsInv(s: State, n: nat, schedule: seq<Action>)
    requires Inv(s, n) && Continue(s, n, schedule).Some?
    ensures Inv(Continue(s, n, schedule).value, n)
    decreases |schedule|
  {
    hide Step, Inv;
    if schedule != [] {
      assert Shape(s) by { InvShape(s, n); }
      ContinueKeepsInv(s, n, schedule[..|schedule| - 1]);
      StepKeepsInv(Continue(s, n, schedule[..|schedule| - 1]).value, n, schedule[|schedule| - 1]);
    }
  }

  // ---------------------------------------------------------------- what holds in every run

  /** A prefix of the boot order, possibly ended by FAILED. */
  ghost predicate Prefix(w: seq<BootState>) {
    var order := [Starting, ArchReady, IrqReady, TimerReady, MemoryReady, UrpcReady, SchedReady, Online];
    exists k :: 0 <= k <= 8 && (w == order[..k] || w == order[..k] + [Failed])
  }

  lemma ApWritesShape(s: State, i: nat)
    requires Shape(s) && i < |s.aps| && ApOk(s, i)
    ensures Prefix(s.writes[i])
    ensures Online in s.writes[i] || ArchReady in s.writes[i] ==> s.saw[i] && s.ready
  {
    var w := s.writes[i];
    assert ORDER[..0] == [] && ORDER[..8] == ORDER && ORDER[..1] == [Starting];
    if Online in w { assert s.aps[i].Finished? && w[1] == ArchReady; }
  }

  /** In every interleaving an AP publishes a prefix of the boot order, possibly ended by FAILED, and publishes
      anything past STARTING other than FAILED only after reading the full readiness mask. */
  lemma ApPublishesInOrder(max: nat, n: nat, schedule: seq<Action>, i: nat)
    requires 2 <= n <= max && Continue(Start(max, n), n, schedule).Some? && i < max
    ensures var s := Continue(Start(max, n), n, schedule).value;
            && Prefix(s.writes[i])
            && (Online in s.writes[i] || ArchReady in s.writes[i] ==> s.saw[i] && s.ready)
  {
    StartInv(max, n);
    ContinueKeepsInv(Start(max, n), n, schedule);
    var s := Continue(Start(max, n), n, schedule).value;
    assert ApOk(s, i);
    ApWritesShape(s, i);
  }

  /** When the all-online path returns, every requested CPU is ONLINE at that moment, the printed online mask is
      the requested mask, and the printed failed mask is zero. */
  lemma AllOnlineIsTrue(max: nat, n: nat, schedule: seq<Action>)
    requires 2 <= n <= max && Continue(Start(max, n), n, schedule).Some?
    requires Continue(Start(max, n), n, schedule).value.bsp.AllOnline?
    ensures var s := Continue(Start(max, n), n, schedule).value;
            && OnlineBelow(s, n) && s.bsp.mask == CpuMask(n) && AndNot(CpuMask(n), s.bsp.mask) == 0
            && forall i :: 1 <= i < n ==> s.aps[i].Finished? && s.saw[i]
  {
    StartInv(max, n);
    ContinueKeepsInv(Start(max, n), n, schedule);
    var s := Continue(Start(max, n), n, schedule).value;
    AndNotSelf(CpuMask(n));
    forall i | 1 <= i < n ensures s.aps[i].Finished? && s.saw[i] { assert ApOk(s, i); }
  }

  /** An ONLINE record stays ONLINE through every step but the BSP's own store of FAILED to it. */
  lemma OnlineIsStable(s: State, n: nat, a: Action, i: nat)
    requires Inv(s, n) && 1 <= i < n && s.records[i] == Online && Step(s, n, a).Some?
    requires s.bsp != SweepMark(i) && s.bsp != MarkFailed(i)
    ensures Shape(Step(s, n, a).value) && i < |Step(s, n, a).value.records|
    ensures Step(s, n, a).value.records[i] == Online
  {
    assert ApOk(s, i);
    StepShape(s, n, a);
  }

  // ------------------------------------------------- FAILED is not always the last word

  /** An AP that has not reached the end of its program. */
  predicate StillRunning(pc: ApPc) { pc.CheckReady? || (pc.Write? && pc.k < 8) || (pc.Fallible? && 4 <= pc.k <= 6) }

  function Distance(pc: ApPc): nat {
    match pc
    case Write(k) => if k <= 7 then 2 * (8 - k) + (if k == 0 then 2 else 0) else 0
    case Fallible(k) => if k <= 7 then 2 * (8 - k) + 1 else 0
    case CheckReady => 17
    case _ => 0
  }

  lemma {:induction false} ContinueCons(s: State, n: nat, a: Action, rest: seq<Action>)
    requires Shape(s) && Step(s, n, a).Some? && Shape(Step(s, n, a).value)
    ensures Continue(s, n, [a] + rest) == Continue(Step(s, n, a).value, n, rest)
    decreases |rest|
  {
    hide Step;
    var all := [a] + rest;
    if rest == [] {
      assert all[..0] == [] && all[0] == a;
    } else {
      ContinueCons(s, n, a, rest[..|rest| - 1]);
      assert all[..|all| - 1] == [a] + rest[..|rest| - 1];
    }
  }

  lemma ContinueNone(s: State, n: nat)
    requires Shape(s)
    ensures Continue(s, n, []) == Some(s)
  {
  }

  /** With the mask published, a running AP can reach ONLINE, whatever its record says meanwhile. */
  lemma {:induction false} RunToOnline(s: State, n: nat, i: nat) returns (schedule: seq<Action>)
    requires Shape(s) && i < |s.aps| && s.ready && StillRunning(s.aps[i])
    ensures Continue(s, n, schedule).Some? && Continue(s, n, schedule).value.records[i] == Online
    decreases Distance(s.aps[i])
  {
    hide Continue;
    var a := Ap(i, true);
    StepShape(s, n, a);
    var s1 := Step(s, n, a).value;
    if s.aps[i] == Write(7) {
      schedule := [a];
      ContinueNone(s1, n);
      ContinueCons(s, n, a, []);
      assert [a] + [] == [a];
    } else {
      var rest := RunToOnline(s1, n, i);
      ContinueCons(s, n, a, rest);
      schedule := [a] + rest;
    }
  }

  lemma {:induction false} StaysFailed(s: State, n: nat, i: nat, schedule: seq<Action>)
    requires Shape(s) && i < |s.aps| && s.bsp.Degraded? && s.records[i] == Failed
    requires !s.aps[i].Write? && !s.aps[i].CheckReady? && !s.aps[i].Fallible?
    requires Continue(s, n, schedule).Some?
    ensures var r := Continue(s, n, schedule).value;
            && r.bsp.Degraded? && r.records[i] == Failed
            && !r.aps[i].Write? && !r.aps[i].CheckReady? && !r.aps[i].Fallible?
    decreases |schedule|
  {
    if schedule != [] { StaysFailed(s, n, i, schedule[..|schedule| - 1]); }
  }

  ghost predicate FailedForGood(s: State, n: nat, i: nat)
    requires Shape(s) && i < |s.aps|
  {
    forall schedule: seq<Action> ::
      Continue(s, n, schedule).Some? ==> Continue(s, n, schedule).value.records[i] == Failed
  }

  ghost predicate MayComeOnline(s: State, n: nat, i: nat)
    requires Shape(s) && i < |s.aps|
  {
    exists schedule: seq<Action> ::
      Continue(s, n, schedule).Some? && Continue(s, n, schedule).value.records[i] == Online
  }

  /** After the BSP has given up, a FAILED record is final exactly when its AP is no longer running: otherwise
      some continuation still turns it ONLINE. */
  lemma FailedForGoodIff(s: State, n: nat, i: nat)
    requires Inv(s, n) && s.bsp.Degraded? && 1 <= i < n && s.records[i] == Failed
    ensures FailedForGood(s, n, i) <==> !StillRunning(s.aps[i])
    ensures MayComeOnline(s, n, i) <==> StillRunning(s.aps[i])
  {
    assert ApOk(s, i);
    if StillRunning(s.aps[i]) {
      var s1 := s.(ready := true);
      var rest := RunToOnline(s1, n, i);
      ContinueCons(s, n, Publish, rest);
      assert Continue(s, n, [Publish] + rest).value.records[i] == Online;
    } else {
      forall schedule: seq<Action> | Continue(s, n, schedule).Some?
        ensures Continue(s, n, schedule).value.records[i] == Failed
      {
        StaysFailed(s, n, i, schedule);
      }
    }
  }

  function Repeat(k: nat): seq<Action> { if k == 0 then [] else Repeat(k - 1) + [Bsp(true, true)] }

  /** The BSP alone, with every HAL call succeeding and time up at once. */
  lemma {:induction false} BspAlone(s: State, n: nat, k: nat, s1: State)
    requires Shape(s) && Shape(s1) && k > 0 && Continue(s, n, Repeat(k - 1)) == Some(s1)
    ensures Continue(s, n, Repeat(k)) == if BspStep(s1, n, true, true).Some? then BspStep(s1, n, true, true) else None
  {
    hide BspStep;
    var r := Repeat(k);
    assert r[..|r| - 1] == Repeat(k - 1);
  }

  /** Two CPUs, the second launched but yet to take its first step. */
  function Launched(bsp: BspPc, record: BootState): State {
    State([Online, record], false, bsp, [Off, Write(0)], [[], []], [false, false])
  }

  lemma LaunchAlone()
    ensures Continue(Start(2, 2), 2, Repeat(2)) == Some(Launched(WaitTop, Starting))
  {
    hide Continue;
    var s := Start(2, 2);
    ContinueNone(s, 2);
    assert Repeat(0) == [];
    var s1 := State([Online, Starting], false, StartCpu(1), [Off, Off], [[], []], [false, false]);
    assert s.records[1 := Starting] == s1.records && s.aps == s1.aps && s.writes == s1.writes && s.saw == s1.saw;
    assert s1.aps[1 := Write(0)] == [Off, Write(0)];
    assert BspStep(s, 2, true, true) == Some(s1);
    BspAlone(s, 2, 1, s);
    BspAlone(s, 2, 2, s1);
  }

  lemma StartShape()
    ensures Shape(Start(2, 2))
  {
  }

  /** A launched AP that has not run yet when time is up is marked FAILED while it is still running. */
  lemma GiveUpEarly() returns (s: State)
    ensures Continue(Start(2, 2), 2, Repeat(8)) == Some(s)
    ensures s.bsp.Degraded? && s.records[1] == Failed && s.aps[1] == Write(0)
  {
    hide Continue, SetBit, Start;
    LaunchAlone();
    s := Start(2, 2);
    assert Shape(s) by { StartShape(); }
    BspAlone(s, 2, 3, Launched(WaitTop, Starting));
    BspAlone(s, 2, 4, Launched(Sweep(1), Starting));
    assert [Online, Starting][1 := Failed] == [Online, Failed];
    BspAlone(s, 2, 5, Launched(SweepMark(1), Starting));
    BspAlone(s, 2, 6, Launched(MaskBad(0, 0), Failed));
    var m := SetBit(0, 0);
    BspAlone(s, 2, 7, Launched(MaskBad(1, m), Failed));
    BspAlone(s, 2, 8, Launched(MaskBad(2, m), Failed));
    s := Launched(Degraded(m), Failed);
  }

  /** Such a late arrival does happen: a schedule after which the BSP has given up on CPU 1 and marked it FAILED, and a
      continuation of it after which CPU 1 is ONLINE. */
  lemma LateArrival()
    ensures exists schedule: seq<Action> ::
      && Continue(Start(2, 2), 2, schedule).Some?
      && var s := Continue(Start(2, 2), 2, schedule).value;
         s.bsp.Degraded? && s.records[1] == Failed && MayComeOnline(s, 2, 1)
  {
    hide Start, Continue, Repeat, FailedForGood, MayComeOnline, Inv;
    StartInv(2, 2);
    assert Shape(Start(2, 2)) by { InvShape(Start(2, 2), 2); }
    var s := GiveUpEarly();
    ContinueKeepsInv(Start(2, 2), 2, Repeat(8));
    FailedForGoodIff(s, 2, 1);
  }
}
