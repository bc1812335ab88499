/** The scheduler stub as functions of its state: slot table, selection, switching, and every operation that
    touches them; what all of them keep, and how round robin serves every ready thread. */
module SchedStub {
  import opened Bytes

  const SLOTS := 64
  const MAX_PRIORITY := 31
  const DEFAULT_SLICE := 10
  const MAX_PENDING := 64

  datatype RunState =
    | Ready | Running | Blocked | Sleeping | Terminated | DegPending | RemoteHandoffPending | Quarantined

  datatype Policy = RoundRobin | CloudFair | Priority | Edf | Rms

  datatype Thread = Thread(inUse: bool, tid: nat, state: RunState, priority: nat, basePriority: nat,
                           cpuTime: nat, slice: nat, wake: nat, deadline: nat, node: nat, switches: nat)

  const EMPTY_SLOT := Thread(false, 0, Ready, 0, 0, 0, 0, 0, 0, 0, 0)

  datatype AiAction = NoAction | MigrateTask | AdjustPriority | ThrottleCore | KillTask
  datatype Suggestion = Suggestion(action: AiAction, target: nat, value: nat)

  /** `pending` is the content of the suggestion ring, oldest first. */
  datatype Sched = Sched(slots: seq<Thread>, current: Option<nat>, nextTid: nat, ticks: nat, contextSwitches: nat,
                         policy: Policy, numaNodes: nat, pending: seq<Suggestion>)

  predicate Shape(s: Sched) {
    |s.slots| == SLOTS && (s.current.Some? ==> s.current.value < SLOTS)
  }

  // ---------------------------------------------------------------------- searching

  predicate Holds(t: Thread, tid: nat) { t.inUse && t.tid == tid }

  /** The first in-use slot from `i` on with this thread id. */
  function FindFrom(slots: seq<Thread>, tid: nat, i: nat): (r: Option<nat>)
    requires i <= |slots|
    ensures r.Some? ==> i <= r.value < |slots| && Holds(slots[r.value], tid)
    ensures r.None? ==> forall k :: i <= k < |slots| ==> !Holds(slots[k], tid)
    decreases |slots| - i
  {
    if i == |slots| then None else if Holds(slots[i], tid) then Some(i) else FindFrom(slots, tid, i + 1)
  }

  function Find(slots: seq<Thread>, tid: nat): Option<nat> { FindFrom(slots, tid, 0) }

  function FreeFrom(slots: seq<Thread>, i: nat): (r: Option<nat>)
    requires i <= |slots|
    ensures r.Some? ==> i <= r.value < |slots| && !slots[r.value].inUse
    ensures r.None? ==> forall k :: i <= k < |slots| ==> slots[k].inUse
    decreases |slots| - i
  {
    if i == |slots| then None else if !slots[i].inUse then Some(i) else FreeFrom(slots, i + 1)
  }

  // ---------------------------------------------------------------------- selection

  predicate IsReady(t: Thread) { t.inUse && t.state == Ready }

  /** Where the cyclic scan starts: behind the current thread's slot. */
  function ScanStart(s: Sched): (r: nat)
    requires Shape(s)
    ensures r <= SLOTS
  {
    if s.current.None? then 0
    else
      match Find(s.slots, s.slots[s.current.value].tid)
      case Some(k) => k + 1
      case None => 0
  }

  /** The slot the scan looks at in its `k`-th attempt. */
  function SlotAt(start: nat, k: nat): (i: nat)
    ensures i < SLOTS
  {
    (start + k) % SLOTS
  }

  /** Whether the scan replaces `best` by the ready slot `idx`. */
  predicate Better(slots: seq<Thread>, policy: Policy, idx: nat, best: Option<nat>)
    requires idx < |slots| && (best.Some? ==> best.value < |slots|)
  {
    best.None? ||
    if policy == Edf && slots[idx].deadline > 0 then slots[idx].deadline < slots[best.value].deadline
    else slots[idx].priority > slots[best.value].priority
  }

  /** The scan from the given attempt on. */
  function Scan(slots: seq<Thread>, policy: Policy, start: nat, attempt: nat, best: Option<nat>): (r: Option<nat>)
    requires |slots| == SLOTS && attempt <= SLOTS && (best.Some? ==> best.value < SLOTS)
    ensures r.Some? ==> r.value < SLOTS
    decreases SLOTS - attempt
  {
    if attempt == SLOTS then best
    else
      var idx := SlotAt(start, attempt);
      if !IsReady(slots[idx]) then Scan(slots, policy, start, attempt + 1, best)
      else if policy == RoundRobin then Some(idx)
      else Scan(slots, policy, start, attempt + 1, if Better(slots, policy, idx, best) then Some(idx) else best)
  }

  function PickNext(s: Sched): (r: Option<nat>)
    requires Shape(s)
    ensures r.Some? ==> r.value < SLOTS
  {
    Scan(s.slots, s.policy, ScanStart(s), 0, None)
  }

  // --------------------------------------------------------------------- operations

  /** `sched_switch_to` */
  function SwitchTo(s: Sched, next: nat): Sched
    requires Shape(s) && next < SLOTS
  {
    var slots := if s.current.Some? && s.slots[s.current.value].state == Running
                 then s.slots[s.current.value := s.slots[s.current.value].(state := Ready)] else s.slots;
    s.(slots := slots[next := slots[next].(state := Running, switches := slots[next].switches + 1)],
       current := Some(next), contextSwitches := s.contextSwitches + 1)
  }

  /** `sched_ai_apply_suggestion` */
  function ApplySuggestion(s: Sched, g: Suggestion): Sched
    requires Shape(s)
  {
    match Find(s.slots, g.target)
    case None => s
    case Some(i) =>
      var t := s.slots[i];
      match g.action
      case AdjustPriority =>
        s.(slots := s.slots[i := t.(priority := if g.value > MAX_PRIORITY then MAX_PRIORITY else g.value)])
      case MigrateTask => if g.value >= s.numaNodes then s else s.(slots := s.slots[i := t.(node := g.value)])
      case KillTask => s.(slots := s.slots[i := t.(inUse := false)])
      case _ => s
  }

  function ApplyAll(s: Sched, gs: seq<Suggestion>): (r: Sched)
    requires Shape(s)
    ensures Shape(r) && r.current == s.current && r.pending == s.pending && r.policy == s.policy
    decreases |gs|
  {
    if gs == [] then s else ApplyAll(ApplySuggestion(s, gs[0]), gs[1..])
  }

  /** `sched_process_pending_ai_suggestions` */
  function ProcessPending(s: Sched): (r: Sched)
    requires Shape(s)
    ensures Shape(r)
  {
    ApplyAll(s.(pending := []), s.pending)
  }

  /** `bh_thread_yield` */
  function Yield(s: Sched): (r: Sched)
    requires Shape(s)
    ensures Shape(r)
  {
    var s1 := ProcessPending(s);
    match PickNext(s1)
    case None => s1
    case Some(next) => SwitchTo(s1, next)
  }

  /** `thread_create`: `None` when the table is full. */
  function Create(s: Sched): (r: (Sched, Option<nat>))
    requires Shape(s)
    ensures Shape(r.0)
  {
    match FreeFrom(s.slots, 0)
    case None => (s, None)
    case Some(i) =>
      (s.(slots := s.slots[i := Thread(true, s.nextTid, Ready, 1, 1, 0, DEFAULT_SLICE, 0, 0, 0, 0)],
          nextTid := s.nextTid + 1), Some(i))
  }

  /** `thread_destroy` of the thread in slot `i`. */
  function Destroy(s: Sched, i: nat): Sched
    requires Shape(s) && i < SLOTS
  {
    match Find(s.slots, s.slots[i].tid)
    case None => s
    case Some(k) => s.(slots := s.slots[k := s.slots[k].(inUse := false)])
  }

  function Woken(t: Thread): Thread {
    if t.state == Sleeping || t.state == Blocked then t.(state := Ready, wake := 0) else t
  }

  /** `sched_wakeup` */
  function Wakeup(s: Sched, i: nat): Sched
    requires Shape(s) && i < SLOTS
  {
    s.(slots := s.slots[i := Woken(s.slots[i])])
  }

  /** `sched_enqueue` of a thread outside any co-scheduling group. */
  function Enqueue(s: Sched, i: nat): Sched
    requires Shape(s) && i < SLOTS
  {
    s.(slots := s.slots[i := s.slots[i].(state := Ready)])
  }

  /** `sched_block` */
  function Block(s: Sched): Sched
    requires Shape(s)
  {
    if s.current.None? then s
    else s.(slots := s.slots[s.current.value := s.slots[s.current.value].(state := Blocked)])
  }

  /** `sched_sleep` */
  function Sleep(s: Sched, millis: nat): Sched
    requires Shape(s)
  {
    if s.current.None? then s
    else
      var c := s.current.value;
      Yield(s.(slots := s.slots[c := s.slots[c].(wake := s.ticks + millis, state := Sleeping)]))
  }

  predicate Due(t: Thread, ticks: nat) { t.inUse && t.state == Sleeping && t.wake <= ticks }

  /** Sleepers whose deadline has come. */
  function WakeDue(slots: seq<Thread>, ticks: nat): (r: seq<Thread>)
    ensures |r| == |slots|
    ensures forall i :: 0 <= i < |slots| ==>
      r[i] == if Due(slots[i], ticks) then Woken(slots[i]) else slots[i]
  {
    seq(|slots|, i requires 0 <= i < |slots| => if Due(slots[i], ticks) then Woken(slots[i]) else slots[i])
  }

  /** The rest of a tick with a current thread: charge it, then preempt it, end its slice or let it run on. */
  function Dispatch(s: Sched): (r: Sched)
    requires Shape(s) && s.current.Some?
    ensures Shape(r)
  {
    var c := s.current.value;
    var s1 := s.(slots := s.slots[c := s.slots[c].(cpuTime := s.slots[c].cpuTime + 1)]);
    var preempt := PickNext(s1);
    if preempt.Some? && s1.slots[preempt.value].priority > s1.slots[c].priority then SwitchTo(s1, preempt.value)
    else if s1.slots[c].cpuTime >= s1.slots[c].slice
    then Yield(s1.(slots := s1.slots[c := s1.slots[c].(cpuTime := 0)]))
    else s1
  }

  /** `sched_on_timer_tick` */
  function Tick(s: Sched): (r: Sched)
    requires Shape(s)
    ensures Shape(r)
  {
    var s1 := s.(ticks := s.ticks + 1, slots := WakeDue(s.slots, s.ticks + 1));
    var s2 := ProcessPending(s1);
    if s2.current.None? then Yield(s2) else Dispatch(s2)
  }

  /** `sched_enqueue_ai_suggestion`: one ring slot always stays free; a suggestion about the current thread yields. */
  function Suggest(s: Sched, g: Suggestion): (r: (int, Sched))
    requires Shape(s)
    ensures Shape(r.1)
  {
    if |s.pending| == MAX_PENDING - 1 then (-2, s)
    else
      var s1 := s.(pending := s.pending + [g]);
      if (g.action == AdjustPriority || g.action == MigrateTask) && s.current.Some? &&
         s.slots[s.current.value].tid == g.target
      then (0, Yield(s1)) else (0, s1)
  }

  function SetPolicy(s: Sched, p: Policy): Sched { s.(policy := p) }

  /** Priority inheritance: `sched_inherit_priority` and `sched_restore_priority`. */
  function Inherit(s: Sched, i: nat, p: nat): Sched
    requires Shape(s) && i < SLOTS
  {
    if p > s.slots[i].priority then s.(slots := s.slots[i := s.slots[i].(priority := p)]) else s
  }

  function Restore(s: Sched, i: nat): Sched
    requires Shape(s) && i < SLOTS
  {
    s.(slots := s.slots[i := s.slots[i].(priority := s.slots[i].basePriority)])
  }

  /** `sched_adjust_priority` of the thread in slot `i`: clamped, and copied to the first slot with its id. */
  function Adjust(s: Sched, i: nat, level: nat): Sched
    requires Shape(s) && i < SLOTS
  {
    var p := if level > MAX_PRIORITY then MAX_PRIORITY else level;
    var slots := s.slots[i := s.slots[i].(priority := p)];
    match Find(slots, slots[i].tid)
    case None => s.(slots := slots)
    case Some(k) => s.(slots := slots[k := slots[k].(priority := p)])
  }

  /** `sched_migrate_task` of the thread in slot `i`. */
  function Migrate(s: Sched, i: nat, node: nat): Sched
    requires Shape(s) && i < SLOTS
  {
    if node >= s.numaNodes then s else s.(slots := s.slots[i := s.slots[i].(node := node)])
  }

  /** `OpApply` is `sched_ai_apply_suggestion` called directly; setting a priority or a preferred node and destroying a
      thread by its id are the same operation. */
  datatype Op =
    | OpYield | OpTick | OpCreate | OpDestroy(i: nat) | OpWakeup(i: nat) | OpEnqueue(i: nat) | OpBlock
    | OpSleep(millis: nat) | OpSuggest(g: Suggestion) | OpApply(g: Suggestion) | OpPolicy(p: Policy)
    | OpAdjust(i: nat, level: nat) | OpMigrate(i: nat, node: nat) | OpInherit(i: nat, level: nat) | OpRestore(i: nat)

  predicate Allowed(op: Op) {
    match op
    case OpDestroy(i) => i < SLOTS
    case OpWakeup(i) => i < SLOTS
    case OpEnqueue(i) => i < SLOTS
    case OpAdjust(i, _) => i < SLOTS
    case OpMigrate(i, _) => i < SLOTS
    case OpInherit(i, _) => i < SLOTS
    case OpRestore(i) => i < SLOTS
    case _ => true
  }

  function Apply(s: Sched, op: Op): (r: Sched)
    requires Shape(s) && Allowed(op)
    ensures Shape(r)
  {
    match op
    case OpYield => Yield(s)
    case OpTick => Tick(s)
    case OpCreate => Create(s).0
    case OpDestroy(i) => Destroy(s, i)
    case OpWakeup(i) => Wakeup(s, i)
    case OpEnqueue(i) => Enqueue(s, i)
    case OpBlock => Block(s)
    case OpSleep(m) => Sleep(s, m)
    case OpSuggest(g) => Suggest(s, g).1
    case OpApply(g) => ApplySuggestion(s, g)
    case OpPolicy(p) => SetPolicy(s, p)
    case OpAdjust(i, level) => Adjust(s, i, level)
    case OpMigrate(i, node) => Migrate(s, i, node)
    case OpInherit(i, p) => Inherit(s, i, p)
    case OpRestore(i) => Restore(s, i)
  }

  /** The state after a sequence of operations. */
  function ApplyOps(s: Sched, ops: seq<Op>): (r: Sched)
    requires Shape(s) && forall i :: 0 <= i < |ops| ==> Allowed(ops[i])
    ensures Shape(r)
    decreases |ops|
  {
    if ops == [] then s else Apply(ApplyOps(s, ops[..|ops| - 1]), ops[|ops| - 1])
  }

  // ------------------------------------------------------------------- the invariant

  /** Every in-use running thread is the current one, and in-use threads have distinct, already issued ids. */
  ghost predicate Inv(s: Sched) {
    && Shape(s)
    && (forall i :: 0 <= i < SLOTS && s.slots[i].inUse && s.slots[i].state == Running ==> s.current == Some(i))
    && (forall i :: 0 <= i < SLOTS && s.slots[i].inUse ==> s.slots[i].tid < s.nextTid)
    && (forall i, j :: 0 <= i < j < SLOTS && s.slots[i].inUse && s.slots[j].inUse ==> s.slots[i].tid != s.slots[j].tid)
  }

  /** One slot changed without becoming in use or changing its id, and not made running unless it is current. */
  lemma SlotUpdate(s: Sched, i: nat, t: Thread)
    requires Inv(s) && i < SLOTS && t.tid == s.slots[i].tid && (t.inUse ==> s.slots[i].inUse)
    requires t.inUse && t.state == Running ==> s.current == Some(i)
    ensures Inv(s.(slots := s.slots[i := t]))
  {
  }

  lemma SwitchInv(s: Sched, next: nat)
    requires Inv(s) && next < SLOTS
    ensures Inv(SwitchTo(s, next))
  {
    if s.current.Some? && s.slots[s.current.value].state == Running {
      SlotUpdate(s, s.current.value, s.slots[s.current.value].(state := Ready));
    }
  }

  lemma ApplySuggestionInv(s: Sched, g: Suggestion)
    requires Inv(s)
    ensures Inv(ApplySuggestion(s, g))
  {
    var k := Find(s.slots, g.target);
    if k.Some? {
      var i, t := k.value, s.slots[k.value];
      SlotUpdate(s, i, t.(priority := if g.value > MAX_PRIORITY then MAX_PRIORITY else g.value));
      SlotUpdate(s, i, t.(node := g.value));
      SlotUpdate(s, i, t.(inUse := false));
    }
  }

  lemma {:induction false} ApplyAllInv(s: Sched, gs: seq<Suggestion>)
    requires Inv(s)
    ensures Inv(ApplyAll(s, gs))
    decreases |gs|
  {
    if gs != [] {
      ApplySuggestionInv(s, gs[0]);
      ApplyAllInv(ApplySuggestion(s, gs[0]), gs[1..]);
    }
  }

  lemma InvShape(s: Sched)
    requires Inv(s)
    ensures Shape(s)
  {
  }

  lemma PendingInv(s: Sched, p: seq<Suggestion>)
    requires Inv(s)
    ensures Inv(s.(pending := p))
  {
  }

  lemma YieldInv(s: Sched)
    requires Inv(s)
    ensures Inv(ProcessPending(s)) && Inv(Yield(s))
  {
    hide Inv, SwitchTo;
    InvShape(s);
    assert Inv(s.(pending := [])) by { PendingInv(s, []); }
    ApplyAllInv(s.(pending := []), s.pending);
    var s1 := ProcessPending(s);
    if PickNext(s1).Some? { SwitchInv(s1, PickNext(s1).value); }
  }

  lemma WakeInv(s: Sched)
    requires Inv(s)
    ensures Inv(s.(ticks := s.ticks + 1, slots := WakeDue(s.slots, s.ticks + 1)))
  {
  }

  lemma CurrentUpdate(s: Sched, c: nat, t: Thread)
    requires Inv(s) && s.current == Some(c) && c < SLOTS && t.tid == s.slots[c].tid && (t.inUse ==> s.slots[c].inUse)
    ensures Inv(s.(slots := s.slots[c := t]))
  {
    SlotUpdate(s, c, t);
  }

  lemma TickInv(s: Sched)
    requires Inv(s)
    ensures Inv(Tick(s))
  {
    hide Inv, Yield, SwitchTo, ProcessPending, PickNext;
    assert Shape(s) by { InvShape(s); }
    WakeInv(s);
    var s1 := s.(ticks := s.ticks + 1, slots := WakeDue(s.slots, s.ticks + 1));
    YieldInv(s1);
    var s2 := ProcessPending(s1);
    if s2.current.None? {
      YieldInv(s2);
    } else {
      var c := s2.current.value;
      var s3 := s2.(slots := s2.slots[c := s2.slots[c].(cpuTime := s2.slots[c].cpuTime + 1)]);
      assert Inv(s3) by { CurrentUpdate(s2, c, s2.slots[c].(cpuTime := s2.slots[c].cpuTime + 1)); }
      var s4 := s3.(slots := s3.slots[c := s3.slots[c].(cpuTime := 0)]);
      assert Inv(s4) by { CurrentUpdate(s3, c, s3.slots[c].(cpuTime := 0)); }
      YieldInv(s4);
      if PickNext(s3).Some? { SwitchInv(s3, PickNext(s3).value); }
    }
  }

  lemma CreateInv(s: Sched)
    requires Inv(s)
    ensures Inv(Create(s).0)
  {
  }

  /** Fields other than use, id and state can change freely. */
  lemma UpdateInv(s: Sched, i: nat, t: Thread)
    requires Shape(s) && Inv(s) && i < SLOTS
    requires t.tid == s.slots[i].tid && t.inUse == s.slots[i].inUse && t.state == s.slots[i].state
    ensures Inv(s.(slots := s.slots[i := t]))
  {
    SlotUpdate(s, i, t);
  }

  lemma AdjustInv(s: Sched, i: nat, level: nat)
    requires Inv(s) && i < SLOTS
    ensures Inv(Adjust(s, i, level))
  {
    hide Inv;
    InvShape(s);
    var p := if level > MAX_PRIORITY then MAX_PRIORITY else level;
    UpdateInv(s, i, s.slots[i].(priority := p));
    var s1 := s.(slots := s.slots[i := s.slots[i].(priority := p)]);
    var k := Find(s1.slots, s1.slots[i].tid);
    if k.Some? { UpdateInv(s1, k.value, s1.slots[k.value].(priority := p)); }
  }

  /** So can a slot that is freed or whose thread does not run. */
  lemma StoppedInv(s: Sched, i: nat, t: Thread)
    requires Shape(s) && Inv(s) && i < SLOTS && t.tid == s.slots[i].tid && (t.inUse ==> s.slots[i].inUse)
    requires t.inUse ==> t.state != Running || s.slots[i].state == Running
    ensures Inv(s.(slots := s.slots[i := t]))
  {
    SlotUpdate(s, i, t);
  }

  lemma DestroyInv(s: Sched, i: nat)
    requires Inv(s) && i < SLOTS
    ensures Inv(Destroy(s, i))
  {
    hide Inv;
    InvShape(s);
    var k := Find(s.slots, s.slots[i].tid);
    if k.Some? { StoppedInv(s, k.value, s.slots[k.value].(inUse := false)); }
  }

  lemma SleepInv(s: Sched, millis: nat)
    requires Inv(s)
    ensures Inv(Sleep(s, millis))
  {
    hide Inv, Yield;
    InvShape(s);
    if s.current.Some? {
      var c := s.current.value;
      StoppedInv(s, c, s.slots[c].(wake := s.ticks + millis, state := Sleeping));
      YieldInv(s.(slots := s.slots[c := s.slots[c].(wake := s.ticks + millis, state := Sleeping)]));
    }
  }

  lemma SuggestInv(s: Sched, g: Suggestion)
    requires Inv(s)
    ensures Inv(Suggest(s, g).1)
  {
    hide Inv, Yield;
    InvShape(s);
    PendingInv(s, s.pending + [g]);
    YieldInv(s.(pending := s.pending + [g]));
  }

  lemma PolicyInv(s: Sched, p: Policy)
    requires Inv(s)
    ensures Inv(SetPolicy(s, p))
  {
  }

  /** Every operation keeps the invariant. */
  lemma ApplyInv(s: Sched, op: Op)
    requires Inv(s) && Allowed(op)
    ensures Inv(Apply(s, op))
  {
    hide Inv, Yield, Tick, Create, Destroy, Sleep, Suggest, ApplySuggestion, Adjust, SetPolicy;
    InvShape(s);
    match op
    case OpYield => YieldInv(s);
    case OpTick => TickInv(s);
    case OpCreate => CreateInv(s);
    case OpDestroy(i) => DestroyInv(s, i);
    case OpWakeup(i) => StoppedInv(s, i, Woken(s.slots[i]));
    case OpEnqueue(i) => StoppedInv(s, i, s.slots[i].(state := Ready));
    case OpBlock =>
      if s.current.Some? { StoppedInv(s, s.current.value, s.slots[s.current.value].(state := Blocked)); }
    case OpSleep(m) => SleepInv(s, m);
    case OpSuggest(g) => SuggestInv(s, g);
    case OpApply(g) => ApplySuggestionInv(s, g);
    case OpPolicy(p) => PolicyInv(s, p);
    case OpAdjust(i, level) => AdjustInv(s, i, level);
    case OpMigrate(i, node) => UpdateInv(s, i, s.slots[i].(node := node));
    case OpInherit(i, p) => UpdateInv(s, i, s.slots[i].(priority := p));
    case OpRestore(i) => UpdateInv(s, i, s.slots[i].(priority := s.slots[i].basePriority));
  }

  function Boot(numaNodes: nat): (r: Sched)
    ensures Shape(r)
  {
    Sched(seq(SLOTS, _ => EMPTY_SLOT), None, 1, 0, 0, Priority, numaNodes, [])
  }

  /** After any sequence of operations at most one in-use thread is running, and it is the current one. */
  lemma {:induction false} SingleRunning(numaNodes: nat, ops: seq<Op>)
    requires forall i :: 0 <= i < |ops| ==> Allowed(ops[i])
    ensures Inv(ApplyOps(Boot(numaNodes), ops))
    decreases |ops|
  {
    hide Apply;
    if ops != [] {
      SingleRunning(numaNodes, ops[..|ops| - 1]);
      ApplyInv(ApplyOps(Boot(numaNodes), ops[..|ops| - 1]), ops[|ops| - 1]);
    }
  }

  // ----------------------------------------------------------------------- selection

  /** The attempt at which the scan from `start` meets slot `j`. */
  function AttemptOf(start: nat, j: nat): (k: nat)
    requires start <= SLOTS && j < SLOTS
    ensures k < SLOTS && SlotAt(start, k) == j
  {
    (j + 2 * SLOTS - start) % SLOTS
  }

  /** Round robin takes the first ready slot of the cyclic scan. */
  lemma {:induction false} ScanRoundRobin(slots: seq<Thread>, start: nat, attempt: nat, d: nat) returns (e: nat)
    requires |slots| == SLOTS && attempt <= d < SLOTS && IsReady(slots[SlotAt(start, d)])
    ensures attempt <= e <= d && Scan(slots, RoundRobin, start, attempt, None) == Some(SlotAt(start, e))
    ensures IsReady(slots[SlotAt(start, e)])
    ensures forall k :: attempt <= k < e ==> !IsReady(slots[SlotAt(start, k)])
    decreases SLOTS - attempt
  {
    hide SlotAt;
    if IsReady(slots[SlotAt(start, attempt)]) {
      e := attempt;
    } else {
      e := ScanRoundRobin(slots, start, attempt + 1, d);
    }
  }

  /** The order in which a policy other than round robin prefers ready threads. */
  predicate Prefers(policy: Policy, a: Thread, b: Thread) {
    if policy == Edf then a.deadline < b.deadline else a.priority > b.priority
  }

  ghost predicate Chosen(slots: seq<Thread>, policy: Policy, start: nat, attempt: nat, b: nat, e: nat)
    requires |slots| == SLOTS
  {
    && 0 <= e < attempt && b == SlotAt(start, e) && IsReady(slots[b])
    && (forall k :: 0 <= k < attempt && IsReady(slots[SlotAt(start, k)]) ==>
          !Prefers(policy, slots[SlotAt(start, k)], slots[b]))
    && (forall k :: 0 <= k < e && IsReady(slots[SlotAt(start, k)]) ==>
          Prefers(policy, slots[b], slots[SlotAt(start, k)]))
  }

  /** `best` is what the first `attempt` attempts select: nobody met so far is preferred to it, and it was met first
      among its equals. */
  ghost predicate Selected(slots: seq<Thread>, policy: Policy, start: nat, attempt: nat, best: Option<nat>)
    requires |slots| == SLOTS
  {
    match best
    case None => forall k :: 0 <= k < attempt ==> !IsReady(slots[SlotAt(start, k)])
    case Some(b) =>
      exists e :: Chosen(slots, policy, start, attempt, b, e)
  }

  ghost predicate AllDeadlines(slots: seq<Thread>) {
    forall i :: 0 <= i < |slots| && IsReady(slots[i]) ==> slots[i].deadline > 0
  }

  lemma SelectStep(slots: seq<Thread>, policy: Policy, start: nat, attempt: nat, best: Option<nat>)
    requires |slots| == SLOTS && attempt < SLOTS && (best.Some? ==> best.value < SLOTS) && policy != RoundRobin
    requires policy == Edf ==> AllDeadlines(slots)
    requires Selected(slots, policy, start, attempt, best)
    ensures var idx := SlotAt(start, attempt);
            var best' := if IsReady(slots[idx]) && Better(slots, policy, idx, best) then Some(idx) else best;
            Selected(slots, policy, start, attempt + 1, best')
  {
    hide SlotAt;
    var idx := SlotAt(start, attempt);
    if IsReady(slots[idx]) && Better(slots, policy, idx, best) {
      if best.Some? { var e :| Chosen(slots, policy, start, attempt, best.value, e); }
      assert Chosen(slots, policy, start, attempt + 1, idx, attempt);
    } else if best.Some? {
      var e :| Chosen(slots, policy, start, attempt, best.value, e);
      assert Chosen(slots, policy, start, attempt + 1, best.value, e);
    }
  }

  lemma {:induction false} ScanSelects(slots: seq<Thread>, policy: Policy, start: nat, attempt: nat, best: Option<nat>)
    requires |slots| == SLOTS && attempt <= SLOTS && (best.Some? ==> best.value < SLOTS) && policy != RoundRobin
    requires policy == Edf ==> AllDeadlines(slots)
    requires Selected(slots, policy, start, attempt, best)
    ensures Selected(slots, policy, start, SLOTS, Scan(slots, policy, start, attempt, best))
    decreases SLOTS - attempt
  {
    hide Selected, Better, SlotAt;
    if attempt < SLOTS {
      SelectStep(slots, policy, start, attempt, best);
      var idx := SlotAt(start, attempt);
      var best' := if IsReady(slots[idx]) && Better(slots, policy, idx, best) then Some(idx) else best;
      ScanSelects(slots, policy, start, attempt + 1, best');
    }
  }

  /** Whatever the policy, only a ready thread is selected, and one is whenever there is one. */
  lemma {:induction false} ScanPicksReady(slots: seq<Thread>, policy: Policy, start: nat, attempt: nat,
                                          best: Option<nat>)
    requires |slots| == SLOTS && attempt <= SLOTS && (best.Some? ==> best.value < SLOTS && IsReady(slots[best.value]))
    ensures var r := Scan(slots, policy, start, attempt, best);
            && (r.Some? ==> IsReady(slots[r.value]))
            && (r.None? ==> best.None? && forall k :: attempt <= k < SLOTS ==> !IsReady(slots[SlotAt(start, k)]))
    decreases SLOTS - attempt
  {
    hide SlotAt;
    if attempt < SLOTS {
      var idx := SlotAt(start, attempt);
      if !IsReady(slots[idx]) {
        ScanPicksReady(slots, policy, start, attempt + 1, best);
      } else if policy != RoundRobin {
        ScanPicksReady(slots, policy, start, attempt + 1, if Better(slots, policy, idx, best) then Some(idx) else best);
      }
    }
  }

  lemma PickIsReady(s: Sched)
    requires Shape(s)
    ensures PickNext(s).Some? ==> IsReady(s.slots[PickNext(s).value])
    ensures PickNext(s).None? <==> forall j :: 0 <= j < SLOTS ==> !IsReady(s.slots[j])
  {
    hide Scan, ScanStart, SlotAt;
    var start := ScanStart(s);
    ScanPicksReady(s.slots, s.policy, start, 0, None);
    if PickNext(s).None? {
      forall j | 0 <= j < SLOTS ensures !IsReady(s.slots[j]) {
        var k := AttemptOf(start, j);
        assert !IsReady(s.slots[SlotAt(start, k)]);
      }
    }
  }

  /** Every policy other than round robin selects a ready thread if there is one: one of highest priority, or, when
      every ready thread has a deadline, one of earliest deadline. `EdfExact` settles the other tables. */
  lemma PickIsBest(s: Sched, j: nat)
    requires Shape(s) && j < SLOTS && IsReady(s.slots[j]) && s.policy != RoundRobin
    ensures PickNext(s).Some? && IsReady(s.slots[PickNext(s).value])
    ensures s.policy != Edf || AllDeadlines(s.slots) ==> !Prefers(s.policy, s.slots[j], s.slots[PickNext(s).value])
  {
    hide Scan, Prefers, Better, ScanStart;
    PickIsReady(s);
    if s.policy != Edf || AllDeadlines(s.slots) {
      var start := ScanStart(s);
      ScanSelects(s.slots, s.policy, start, 0, None);
      var k := AttemptOf(start, j);
      assert IsReady(s.slots[SlotAt(start, k)]);
      var e :| Chosen(s.slots, s.policy, start, SLOTS, PickNext(s).value, e);
    }
  }

  /** A candidate without a deadline can only be replaced by another one without. */
  lemma {:induction false} ScanKeepsNoDeadline(slots: seq<Thread>, start: nat, attempt: nat, best: Option<nat>)
    requires |slots| == SLOTS && attempt <= SLOTS && best.Some? && best.value < SLOTS && slots[best.value].deadline == 0
    ensures var r := Scan(slots, Edf, start, attempt, best); r.Some? && slots[r.value].deadline == 0
    decreases SLOTS - attempt
  {
    hide SlotAt;
    if attempt < SLOTS {
      var idx := SlotAt(start, attempt);
      var best' := if IsReady(slots[idx]) && Better(slots, Edf, idx, best) then Some(idx) else best;
      ScanKeepsNoDeadline(slots, start, attempt + 1, best');
    }
  }

  predicate HasDeadline(t: Thread) { IsReady(t) && t.deadline > 0 }

  /** The first slot of earliest deadline among those met in the first `k` attempts. */
  function Earliest(slots: seq<Thread>, start: nat, k: nat): (r: Option<nat>)
    requires |slots| == SLOTS && k <= SLOTS
    ensures r.Some? ==> r.value < SLOTS
  {
    if k == 0 then None
    else
      var e, idx := Earliest(slots, start, k - 1), SlotAt(start, k - 1);
      if HasDeadline(slots[idx]) && (e.None? || slots[idx].deadline < slots[e.value].deadline) then Some(idx) else e
  }

  lemma {:induction false} EarliestMeaning(slots: seq<Thread>, start: nat, k: nat)
    requires |slots| == SLOTS && k <= SLOTS
    ensures var e := Earliest(slots, start, k);
            && (e.None? <==> forall i :: 0 <= i < k ==> !HasDeadline(slots[SlotAt(start, i)]))
            && (e.Some? ==>
                  && HasDeadline(slots[e.value])
                  && forall i :: 0 <= i < k && HasDeadline(slots[SlotAt(start, i)]) ==>
                       slots[e.value].deadline <= slots[SlotAt(start, i)].deadline)
  {
    hide SlotAt, HasDeadline;
    if k > 0 { EarliestMeaning(slots, start, k - 1); }
  }

  /** At attempt `k` the scan meets a ready thread without a deadline that nothing met so far holds off: no thread with
      a deadline came before it, or it outranks the earliest one that did. */
  predicate Intrudes(slots: seq<Thread>, start: nat, k: nat)
    requires |slots| == SLOTS && k < SLOTS
  {
    var t, e := slots[SlotAt(start, k)], Earliest(slots, start, k);
    IsReady(t) && t.deadline == 0 && (e.None? || t.priority > slots[e.value].priority)
  }

  /** Without an intruder the scan holds the earliest deadline met so far. */
  lemma {:induction false} ScanUndisturbed(slots: seq<Thread>, start: nat, attempt: nat)
    requires |slots| == SLOTS && attempt <= SLOTS && forall k :: attempt <= k < SLOTS ==> !Intrudes(slots, start, k)
    ensures Scan(slots, Edf, start, attempt, Earliest(slots, start, attempt)) == Earliest(slots, start, SLOTS)
    decreases SLOTS - attempt
  {
    hide SlotAt;
    if attempt < SLOTS {
      EarliestMeaning(slots, start, attempt);
      assert !Intrudes(slots, start, attempt);
      ScanUndisturbed(slots, start, attempt + 1);
    }
  }

  /** The first intruder takes over, and no deadline is honoured from then on. */
  lemma {:induction false} ScanIntruded(slots: seq<Thread>, start: nat, attempt: nat, k: nat)
    requires |slots| == SLOTS && attempt <= k < SLOTS && Intrudes(slots, start, k)
    requires forall i :: attempt <= i < k ==> !Intrudes(slots, start, i)
    ensures var r := Scan(slots, Edf, start, attempt, Earliest(slots, start, attempt));
            r.Some? && slots[r.value].deadline == 0
    decreases k - attempt
  {
    hide SlotAt;
    EarliestMeaning(slots, start, attempt);
    if attempt < k {
      assert !Intrudes(slots, start, attempt);
      ScanIntruded(slots, start, attempt + 1, k);
    } else {
      ScanKeepsNoDeadline(slots, start, attempt + 1, Some(SlotAt(start, k)));
    }
  }

  ghost predicate EarliestDeadline(slots: seq<Thread>, b: nat)
    requires b < |slots|
  {
    && HasDeadline(slots[b])
    && forall j :: 0 <= j < |slots| && HasDeadline(slots[j]) ==> slots[b].deadline <= slots[j].deadline
  }

  lemma {:induction false} FirstIntruder(slots: seq<Thread>, start: nat, n: nat) returns (k: nat)
    requires |slots| == SLOTS && n <= SLOTS && exists i :: 0 <= i < n && Intrudes(slots, start, i)
    ensures k < n && Intrudes(slots, start, k) && forall i :: 0 <= i < k ==> !Intrudes(slots, start, i)
  {
    hide Intrudes;
    if exists i :: 0 <= i < n - 1 && Intrudes(slots, start, i) {
      k := FirstIntruder(slots, start, n - 1);
    } else {
      k := n - 1;
    }
  }

  lemma NothingEarliest(slots: seq<Thread>, start: nat)
    requires |slots| == SLOTS
    ensures Earliest(slots, start, 0) == None
  {
  }

  /** Earliest deadline first, exactly: with some deadline to honour, the selected thread is one of earliest deadline if
      and only if every ready thread without a deadline comes, in scan order, after one with a deadline and does not
      outrank the earliest of those before it. */
  lemma EdfExact(s: Sched, j: nat)
    requires Shape(s) && s.policy == Edf && j < SLOTS && HasDeadline(s.slots[j])
    ensures PickNext(s).Some?
    ensures EarliestDeadline(s.slots, PickNext(s).value) <==>
            forall k :: 0 <= k < SLOTS ==> !Intrudes(s.slots, ScanStart(s), k)
  {
    hide Scan, ScanStart, Intrudes, SlotAt, Earliest;
    var start := ScanStart(s);
    NothingEarliest(s.slots, start);
    if exists k :: 0 <= k < SLOTS && Intrudes(s.slots, start, k) {
      var k := FirstIntruder(s.slots, start, SLOTS);
      ScanIntruded(s.slots, start, 0, k);
    } else {
      ScanUndisturbed(s.slots, start, 0);
      EarliestMeaning(s.slots, start, SLOTS);
      assert HasDeadline(s.slots[SlotAt(start, AttemptOf(start, j))]);
      var e := PickNext(s).value;
      forall i | 0 <= i < SLOTS && HasDeadline(s.slots[i]) ensures s.slots[e].deadline <= s.slots[i].deadline {
        assert HasDeadline(s.slots[SlotAt(start, AttemptOf(start, i))]);
      }
    }
  }

  /** Slot 0 ready without a deadline, slot 1 ready with one. */
  function MixedTable(): (s: Sched)
    ensures Shape(s)
  {
    var bare := Thread(true, 1, Ready, 1, 1, 0, DEFAULT_SLICE, 0, 0, 0, 0);
    var urgent := Thread(true, 2, Ready, 1, 1, 0, DEFAULT_SLICE, 0, 5, 0, 0);
    Sched(seq(SLOTS, _ => EMPTY_SLOT)[0 := bare][1 := urgent], None, 3, 0, 0, Edf, 1, [])
  }

  /** The rule does fail: here the thread without a deadline is selected over the one with a deadline. */
  lemma DeadlinePassedOver()
    ensures var s := MixedTable();
            && HasDeadline(s.slots[1]) && PickNext(s).Some? && s.slots[PickNext(s).value].deadline == 0
            && !EarliestDeadline(s.slots, PickNext(s).value)
  {
    hide Scan;
    var s := MixedTable();
    assert ScanStart(s) == 0 && SlotAt(0, 0) == 0;
    NothingEarliest(s.slots, 0);
    assert Intrudes(s.slots, 0, 0);
    ScanIntruded(s.slots, 0, 0, 0);
  }

  // --------------------------------------------------------------------- round robin

  /** How many slots the cyclic scan needs to reach slot `t`. */
  function Distance(s: Sched, t: nat): (d: nat)
    requires Shape(s) && t < SLOTS
    ensures 1 <= d <= SLOTS
  {
    AttemptOf(ScanStart(s), t) + 1
  }

  function YieldN(s: Sched, k: nat): (r: Sched)
    requires Shape(s)
    ensures Shape(r)
  {
    if k == 0 then s else Yield(YieldN(s, k - 1))
  }

  lemma {:induction false} YieldShift(s: Sched, k: nat)
    requires Shape(s)
    ensures YieldN(Yield(s), k) == YieldN(s, k + 1)
  {
    hide Yield;
    if k > 0 { YieldShift(s, k - 1); }
  }

  lemma FindUnique(s: Sched, i: nat)
    requires Inv(s) && i < SLOTS && s.slots[i].inUse
    ensures Find(s.slots, s.slots[i].tid) == Some(i)
  {
    assert Holds(s.slots[i], s.slots[i].tid);
  }

  /** After a switch the scan starts behind the thread switched to. */
  lemma SwitchedStart(s: Sched, next: nat)
    requires Inv(s) && next < SLOTS && Inv(SwitchTo(s, next)) && s.slots[next].inUse
    ensures ScanStart(SwitchTo(s, next)) == next + 1
  {
    hide Find, Inv;
    InvShape(s);
    var r := SwitchTo(s, next);
    assert r.slots[next].inUse && r.current == Some(next);
    FindUnique(r, next);
  }

  lemma CloserBy(start: nat, e: nat, d: nat, next: nat, t: nat)
    requires start <= SLOTS && e <= d < SLOTS && next == SlotAt(start, e) && t == SlotAt(start, d) && next != t
    ensures AttemptOf(next + 1, t) + e + 1 == d
  {
    assert next == start + e || next == start + e - SLOTS || next == start + e - 2 * SLOTS;
    assert t == start + d || t == start + d - SLOTS || t == start + d - 2 * SLOTS;
  }

  /** One yield under round robin moves the scan start closer to a ready thread it does not select. */
  lemma YieldAdvances(s: Sched, t: nat)
    requires Inv(s) && s.policy == RoundRobin && s.pending == [] && t < SLOTS && IsReady(s.slots[t])
    ensures var r := Yield(s);
            && Inv(r) && r.policy == RoundRobin && r.pending == []
            && (r.current != Some(t) ==> IsReady(r.slots[t]) && Distance(r, t) < Distance(s, t))
  {
    hide ScanStart, SlotAt, Scan;
    YieldInv(s);
    assert s.(pending := []) == s && ProcessPending(s) == s;
    var start, d := ScanStart(s), AttemptOf(ScanStart(s), t);
    var e := ScanRoundRobin(s.slots, start, 0, d);
    var next := SlotAt(start, e);
    assert Yield(s) == SwitchTo(s, next);
    if next != t {
      SwitchedStart(s, next);
      CloserBy(start, e, d, next, t);
    }
  }

  /** Under round robin, in any run of yields with nothing else happening, a ready thread runs within as many yields as
      its cyclic slot distance. */
  lemma {:induction false} RoundRobinServes(s: Sched, t: nat) returns (k: nat)
    requires Inv(s) && s.policy == RoundRobin && s.pending == [] && t < SLOTS && IsReady(s.slots[t])
    ensures 1 <= k <= Distance(s, t) && YieldN(s, k).current == Some(t)
    decreases Distance(s, t)
  {
    hide Yield, Distance, Inv;
    InvShape(s);
    YieldAdvances(s, t);
    assert YieldN(s, 1) == Yield(YieldN(s, 0));
    if Yield(s).current == Some(t) {
      k := 1;
    } else {
      k := RoundRobinServes(Yield(s), t);
      YieldShift(s, k);
      k := k + 1;
    }
  }

  // -------------------------------------------------------------------------- the tick

  /** The part of a slot that decides when it wakes. */
  predicate SameSleep(a: Thread, b: Thread) {
    a.inUse == b.inUse && (a.state == Sleeping <==> b.state == Sleeping) && a.wake == b.wake
  }

  lemma SuggestionKeepsSleep(s: Sched, g: Suggestion, i: nat)
    requires Shape(s) && i < SLOTS
    ensures var a, b := s.slots[i], ApplySuggestion(s, g).slots[i];
            a.state == b.state && a.wake == b.wake && (b.inUse ==> a.inUse) && ApplySuggestion(s, g).ticks == s.ticks
    ensures Shape(ApplySuggestion(s, g))
  {
  }

  lemma {:induction false} SuggestionsKeepSleep(s: Sched, gs: seq<Suggestion>, i: nat)
    requires Shape(s) && i < SLOTS
    ensures var a, b := s.slots[i], ApplyAll(s, gs).slots[i];
            a.state == b.state && a.wake == b.wake && (b.inUse ==> a.inUse) && ApplyAll(s, gs).ticks == s.ticks
    decreases |gs|
  {
    hide ApplySuggestion;
    if gs != [] {
      SuggestionKeepsSleep(s, gs[0], i);
      SuggestionsKeepSleep(ApplySuggestion(s, gs[0]), gs[1..], i);
    }
  }

  lemma YieldKeepsSleep(s: Sched, i: nat)
    requires Shape(s) && s.pending == [] && i < SLOTS
    ensures SameSleep(s.slots[i], Yield(s).slots[i]) && Yield(s).pending == [] && Yield(s).ticks == s.ticks
  {
    hide PickNext;
    assert s.(pending := []) == s && ProcessPending(s) == s;
    PickIsReady(s);
  }

  /** The state in which a tick decides who runs: due sleepers woken, suggestions applied. */
  function AtDecision(s: Sched): (r: Sched)
    requires Shape(s)
    ensures Shape(r) && r.pending == []
  {
    ProcessPending(s.(ticks := s.ticks + 1, slots := WakeDue(s.slots, s.ticks + 1)))
  }

  /** What follows in the tick moves no sleeper. */
  lemma DecisionKeepsSleep(s: Sched, i: nat)
    requires Shape(s) && i < SLOTS
    ensures SameSleep(AtDecision(s).slots[i], Tick(s).slots[i])
    ensures Tick(s).pending == [] && Tick(s).ticks == AtDecision(s).ticks
  {
    hide PickNext, Yield, ProcessPending;
    var s2 := AtDecision(s);
    if s2.current.None? {
      YieldKeepsSleep(s2, i);
    } else {
      var c := s2.current.value;
      var s3 := s2.(slots := s2.slots[c := s2.slots[c].(cpuTime := s2.slots[c].cpuTime + 1)]);
      PickIsReady(s3);
      YieldKeepsSleep(s3.(slots := s3.slots[c := s3.slots[c].(cpuTime := 0)]), i);
    }
  }

  lemma NothingToApply(s: Sched)
    requires Shape(s) && s.pending == []
    ensures ProcessPending(s) == s
  {
    assert s.(pending := []) == s;
  }

  /** One tick wakes a sleeper exactly when its time has come, whatever suggestions it also applies. */
  lemma TickWakesExactly(s: Sched, i: nat)
    requires Shape(s) && i < SLOTS
    ensures var r := Tick(s);
            && r.pending == [] && r.ticks == s.ticks + 1 && (r.slots[i].inUse ==> s.slots[i].inUse)
            && (s.pending == [] ==> r.slots[i].inUse == s.slots[i].inUse)
            && (r.slots[i].state == Sleeping <==>
                  s.slots[i].state == Sleeping && (s.slots[i].inUse ==> s.slots[i].wake > r.ticks))
            && (r.slots[i].state == Sleeping ==> r.slots[i].wake == s.slots[i].wake)
  {
    hide Tick, ApplyAll;
    DecisionKeepsSleep(s, i);
    var s1 := s.(ticks := s.ticks + 1, slots := WakeDue(s.slots, s.ticks + 1));
    SuggestionsKeepSleep(s1.(pending := []), s1.pending, i);
    if s.pending == [] { NothingToApply(s1); }
  }

  function TickN(s: Sched, k: nat): (r: Sched)
    requires Shape(s)
    ensures Shape(r)
  {
    if k == 0 then s else Tick(TickN(s, k - 1))
  }

  /** Over any run of ticks a sleeper sleeps until its wake time is reached, and not longer. Only the first tick can
      find a suggestion that kills the thread; a killed sleeper that was not due by then is never woken. */
  lemma {:induction false} SleepsUntilDue(s: Sched, i: nat, k: nat)
    requires Shape(s) && i < SLOTS && s.slots[i].inUse && s.slots[i].state == Sleeping && k > 0
    ensures var r := TickN(s, k);
            && r.pending == [] && r.ticks == s.ticks + k
            && (r.slots[i].state == Sleeping <==> s.ticks + (if r.slots[i].inUse then k else 1) < s.slots[i].wake)
            && (r.slots[i].state == Sleeping ==> r.slots[i].wake == s.slots[i].wake)
  {
    hide Tick;
    if k == 1 {
      assert TickN(s, 1) == Tick(TickN(s, 0));
      TickWakesExactly(s, i);
    } else {
      SleepsUntilDue(s, i, k - 1);
      TickWakesExactly(TickN(s, k - 1), i);
    }
  }

  /** Under a priority policy, when woken and suggested threads are counted in, a tick with a ready thread of higher
      priority than the current one hands over, and no ready thread then outranks the new current thread. */
  lemma TickPreempts(s: Sched, j: nat)
    requires Shape(s) && s.current.Some? && s.policy != RoundRobin && s.policy != Edf && j < SLOTS
    requires var now := AtDecision(s).slots; IsReady(now[j]) && now[j].priority > now[s.current.value].priority
    ensures var r := Tick(s);
            && r.current.Some? && r.slots[r.current.value].inUse && r.slots[r.current.value].state == Running
            && forall i :: 0 <= i < SLOTS && IsReady(r.slots[i]) ==>
                 r.slots[i].priority <= r.slots[r.current.value].priority
  {
    hide PickNext, Yield, ApplyAll;
    var s2 := AtDecision(s);
    var c := s2.current.value;
    var s3 := s2.(slots := s2.slots[c := s2.slots[c].(cpuTime := s2.slots[c].cpuTime + 1)]);
    assert j != c && IsReady(s3.slots[j]) && s3.slots[j].priority > s3.slots[c].priority;
    PickIsBest(s3, j);
    var p := PickNext(s3).value;
    forall i | 0 <= i < SLOTS && IsReady(s3.slots[i]) ensures s3.slots[i].priority <= s3.slots[p].priority {
      PickIsBest(s3, i);
    }
    assert Tick(s) == SwitchTo(s3, p);
  }
}
