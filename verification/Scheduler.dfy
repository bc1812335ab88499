/** The scheduler stub in place: slot array, suggestion ring with its head and tail, and the loops over them,
    each proved against the functions of `SchedStub`. */
module Scheduler {
  import opened Bytes
  import opened SchedStub

  /** Content of the ring from `tail` up to `head`, oldest first. */
  function RingCount(head: nat, tail: nat): nat
    requires head < MAX_PENDING && tail < MAX_PENDING
  {
    (head + MAX_PENDING - tail) % MAX_PENDING
  }

  function RingSlot(tail: nat, i: nat): (k: nat)
    ensures k < MAX_PENDING
  {
    (tail + i) % MAX_PENDING
  }

  function RingItems(ring: seq<Suggestion>, head: nat, tail: nat): (r: seq<Suggestion>)
    requires |ring| == MAX_PENDING && head < MAX_PENDING && tail < MAX_PENDING
    ensures |r| == RingCount(head, tail)
    ensures forall i :: 0 <= i < |r| ==> r[i] == ring[RingSlot(tail, i)]
  {
    seq(RingCount(head, tail), (i: nat) => ring[RingSlot(tail, i)])
  }

  lemma RingArith(head: nat, tail: nat)
    requires head < MAX_PENDING && tail < MAX_PENDING
    ensures var next := (head + 1) % MAX_PENDING;
            && (next == tail <==> RingCount(head, tail) == MAX_PENDING - 1)
            && (next != tail ==> RingCount(next, tail) == RingCount(head, tail) + 1)
            && RingSlot(tail, RingCount(head, tail)) == head
  {
    assert (head + 1) % MAX_PENDING == if head + 1 == MAX_PENDING then 0 else head + 1;
    assert RingCount(head, tail) == if head >= tail then head - tail else head + MAX_PENDING - tail;
  }

  lemma RingApart(head: nat, tail: nat, i: nat)
    requires head < MAX_PENDING && tail < MAX_PENDING && i < RingCount(head, tail)
    ensures RingSlot(tail, i) != head
  {
  }

  lemma RingPush(ring: seq<Suggestion>, head: nat, tail: nat, g: Suggestion)
    requires |ring| == MAX_PENDING && head < MAX_PENDING && tail < MAX_PENDING
    ensures (head + 1) % MAX_PENDING == tail <==> RingCount(head, tail) == MAX_PENDING - 1
    ensures (head + 1) % MAX_PENDING != tail ==>
      RingItems(ring[head := g], (head + 1) % MAX_PENDING, tail) == RingItems(ring, head, tail) + [g]
  {
    var n, next := RingCount(head, tail), (head + 1) % MAX_PENDING;
    RingArith(head, tail);
    if next != tail {
      var a, b := RingItems(ring[head := g], next, tail), RingItems(ring, head, tail) + [g];
      forall i | 0 <= i < n + 1 ensures a[i] == b[i] {
        if i < n { RingApart(head, tail, i); }
      }
    }
  }

  lemma RingShift(head: nat, tail: nat)
    requires head < MAX_PENDING && tail < MAX_PENDING && head != tail
    ensures RingCount(head, tail) > 0 && RingCount(head, (tail + 1) % MAX_PENDING) == RingCount(head, tail) - 1
    ensures RingSlot(tail, 0) == tail
  {
  }

  lemma RingNext(tail: nat, i: nat)
    requires tail < MAX_PENDING
    ensures RingSlot((tail + 1) % MAX_PENDING, i) == RingSlot(tail, i + 1)
  {
  }

  lemma RingPop(ring: seq<Suggestion>, head: nat, tail: nat)
    requires |ring| == MAX_PENDING && head < MAX_PENDING && tail < MAX_PENDING
    ensures head == tail <==> RingItems(ring, head, tail) == []
    ensures head != tail ==>
      var r := RingItems(ring, head, tail);
      r[0] == ring[tail] && RingItems(ring, head, (tail + 1) % MAX_PENDING) == r[1..]
  {
    if head != tail {
      var r, q := RingItems(ring, head, tail), RingItems(ring, head, (tail + 1) % MAX_PENDING);
      RingShift(head, tail);
      forall i | 0 <= i < |q| ensures q[i] == r[1..][i] { RingNext(tail, i); }
    }
  }

  lemma ScanUnfold(slots: seq<Thread>, policy: Policy, start: nat, attempt: nat, best: Option<nat>)
    requires |slots| == SLOTS && attempt <= SLOTS && (best.Some? ==> best.value < SLOTS)
    ensures SchedStub.Scan(slots, policy, start, attempt, best) ==
      if attempt == SLOTS then best
      else
        var idx := SlotAt(start, attempt);
        if !IsReady(slots[idx]) then SchedStub.Scan(slots, policy, start, attempt + 1, best)
        else if policy == RoundRobin then Some(idx)
        else
          SchedStub.Scan(slots, policy, start, attempt + 1,
                         if Better(slots, policy, idx, best) then Some(idx) else best)
  {
  }

  lemma DrainOne(s: Sched)
    requires Shape(s) && s.pending != []
    ensures var s1 := s.(pending := s.pending[1..]);
            Shape(s1) && ProcessPending(s) == ProcessPending(ApplySuggestion(s1, s.pending[0]))
  {
    hide Find;
    var g, rest := s.pending[0], s.pending[1..];
    assert ApplySuggestion(s.(pending := rest), g).(pending := []) == ApplySuggestion(s.(pending := []), g);
    assert ApplySuggestion(s.(pending := rest), g).pending == rest;
  }

  class StubScheduler {
    const slots: array<Thread>
    const ring: array<Suggestion>
    var head: nat
    var tail: nat
    var current: Option<nat>
    var nextTid: nat
    var ticks: nat
    var contextSwitches: nat
    var policy: Policy
    var numaNodes: nat

    ghost predicate Valid()
      reads this
    {
      && slots.Length == SLOTS && ring.Length == MAX_PENDING && head < MAX_PENDING && tail < MAX_PENDING
      && (current.Some? ==> current.value < SLOTS)
    }

    ghost function View(): (r: Sched)
      requires Valid()
      reads this, slots, ring
      ensures Shape(r)
    {
      Sched(slots[..], current, nextTid, ticks, contextSwitches, policy, numaNodes, RingItems(ring[..], head, tail))
    }

    constructor (nodes: nat)
      ensures Valid() && fresh(slots) && fresh(ring) && View() == Boot(nodes)
    {
      slots := new Thread[SLOTS](_ => EMPTY_SLOT);
      ring := new Suggestion[MAX_PENDING](_ => Suggestion(NoAction, 0, 0));
      head, tail, current, nextTid, ticks, contextSwitches, policy, numaNodes := 0, 0, None, 1, 0, 0, Priority, nodes;
      new;
      assert slots[..] == Boot(nodes).slots;
    }

    /** `sched_find_thread_slot_by_tid` */
    method FindSlotByTid(tid: nat) returns (r: Option<nat>)
      requires Valid()
      ensures r == Find(slots[..], tid) && (r.Some? ==> r.value < SLOTS)
    {
      for i := 0 to SLOTS
        invariant Find(slots[..], tid) == FindFrom(slots[..], tid, i)
      {
        if slots[i].inUse && slots[i].tid == tid { return Some(i); }
      }
      r := None;
    }

    /** `sched_find_free_thread_slot` */
    method FindFreeSlot() returns (r: Option<nat>)
      requires Valid()
      ensures r == FreeFrom(slots[..], 0)
    {
      for i := 0 to SLOTS
        invariant FreeFrom(slots[..], 0) == FreeFrom(slots[..], i)
      {
        if !slots[i].inUse { return Some(i); }
      }
      r := None;
    }

    method FindScanStart() returns (start: nat)
      requires Valid()
      ensures start == ScanStart(View())
    {
      hide Find, RingItems;
      start := 0;
      if current.Some? {
        var cur := FindSlotByTid(slots[current.value].tid);
        if cur.Some? { start := cur.value + 1; }
      }
    }

    /** `sched_pick_next_ready` */
    method PickNextReady() returns (r: Option<nat>)
      requires Valid()
      ensures r == PickNext(View())
    {
      hide SlotAt, Better, ScanStart, RingItems, SchedStub.Scan;
      var start := FindScanStart();
      ghost var was := slots[..];
      var best: Option<nat> := None;
      for attempt := 0 to SLOTS
        invariant best.Some? ==> best.value < SLOTS
        invariant PickNext(View()) == SchedStub.Scan(was, policy, start, attempt, best)
      {
        ScanUnfold(was, policy, start, attempt, best);
        var idx := SlotAt(start, attempt);
        if !slots[idx].inUse || slots[idx].state != Ready { continue; }
        if policy == RoundRobin { return Some(idx); }
        if Better(slots[..], policy, idx, best) { best := Some(idx); }
      }
      ScanUnfold(was, policy, start, SLOTS, best);
      r := best;
    }

    /** `sched_switch_to` */
    method SwitchToSlot(next: nat)
      requires Valid() && next < SLOTS
      modifies this`current, this`contextSwitches, slots
      ensures Valid() && View() == SwitchTo(old(View()), next)
    {
      ghost var s := View();
      if current.Some? && slots[current.value].state == Running {
        slots[current.value] := slots[current.value].(state := Ready);
        assert slots[..] == s.slots[current.value := s.slots[current.value].(state := Ready)];
      }
      ghost var mid := slots[..];
      slots[next] := slots[next].(state := Running, switches := slots[next].switches + 1);
      assert slots[..] == mid[next := mid[next].(state := Running, switches := mid[next].switches + 1)];
      contextSwitches := contextSwitches + 1;
      current := Some(next);
    }

    method SetSlot(i: nat, t: Thread)
      requires Valid() && i < SLOTS
      modifies slots
      ensures View() == old(View()).(slots := old(View()).slots[i := t])
    {
      slots[i] := t;
      assert slots[..] == old(slots[..])[i := t];
    }

    /** `sched_ai_apply_suggestion` */
    method Apply(g: Suggestion)
      requires Valid()
      modifies slots
      ensures View() == ApplySuggestion(old(View()), g)
    {
      hide Find;
      var k := FindSlotByTid(g.target);
      if k.None? { return; }
      var i, t := k.value, slots[k.value];
      match g.action {
        case AdjustPriority => SetSlot(i, t.(priority := if g.value > MAX_PRIORITY then MAX_PRIORITY else g.value));
        case MigrateTask => if g.value < numaNodes { SetSlot(i, t.(node := g.value)); }
        case KillTask => SetSlot(i, t.(inUse := false));
        case NoAction =>
        case ThrottleCore =>
      }
    }

    /** `sched_suggestion_dequeue` */
    method Dequeue() returns (g: Option<Suggestion>)
      requires Valid()
      modifies this`tail
      ensures Valid()
      ensures old(View()).pending == [] ==> g == None && View() == old(View())
      ensures old(View()).pending != [] ==>
        g == Some(old(View()).pending[0]) && View() == old(View()).(pending := old(View()).pending[1..])
    {
      hide RingItems, RingCount;
      RingPop(ring[..], head, tail);
      if head == tail { return None; }
      g := Some(ring[tail]);
      tail := (tail + 1) % MAX_PENDING;
    }

    /** `sched_process_pending_ai_suggestions` */
    method DrainSuggestions()
      requires Valid()
      modifies this`tail, slots
      ensures Valid() && View() == ProcessPending(old(View()))
    {
      hide RingItems, ApplySuggestion;
      ghost var goal := ProcessPending(View());
      var more := true;
      while more
        invariant Valid() && goal == ProcessPending(View()) && (!more ==> View().pending == [])
        invariant current == old(current) && head == old(head)
        decreases |View().pending|, more
      {
        ghost var s := View();
        var g := Dequeue();
        if g.None? {
          more := false;
        } else {
          DrainOne(s);
          Apply(g.value);
        }
      }
      assert View().(pending := []) == View();
    }

    /** `bh_thread_yield` */
    method YieldNow()
      requires Valid()
      modifies this`tail, this`current, this`contextSwitches, slots
      ensures Valid() && View() == Yield(old(View()))
    {
      hide ProcessPending, PickNext, SwitchTo, RingItems;
      DrainSuggestions();
      var next := PickNextReady();
      if next.Some? { SwitchToSlot(next.value); }
    }

    /** `thread_create` */
    method CreateThread() returns (r: Option<nat>)
      requires Valid()
      modifies this`nextTid, slots
      ensures Valid() && (View(), r) == Create(old(View()))
    {
      hide FreeFrom, RingItems;
      r := FindFreeSlot();
      if r.None? { return; }
      SetSlot(r.value, Thread(true, nextTid, Ready, 1, 1, 0, DEFAULT_SLICE, 0, 0, 0, 0));
      nextTid := nextTid + 1;
    }

    /** `thread_destroy` */
    method DestroyThread(i: nat) returns (ok: bool)
      requires Valid() && i < SLOTS
      modifies slots
      ensures View() == Destroy(old(View()), i) && (ok <==> Find(old(View()).slots, old(View()).slots[i].tid).Some?)
    {
      hide Find, RingItems;
      var k := FindSlotByTid(slots[i].tid);
      if k.None? { return false; }
      SetSlot(k.value, slots[k.value].(inUse := false));
      ok := true;
    }

    /** `sched_sleep` */
    method SleepNow(millis: nat)
      requires Valid()
      modifies this`tail, this`current, this`contextSwitches, slots
      ensures Valid() && View() == Sleep(old(View()), millis)
    {
      hide Yield, RingItems;
      if current.None? { return; }
      var c := current.value;
      SetSlot(c, slots[c].(wake := ticks + millis, state := Sleeping));
      YieldNow();
    }

    /** The loop of the timer tick that wakes due sleepers. */
    method WakeDueSleepers()
      requires Valid()
      modifies slots
      ensures View() == old(View()).(slots := WakeDue(old(View()).slots, ticks))
    {
      hide RingItems;
      ghost var was := slots[..];
      for i := 0 to SLOTS
        invariant forall k :: 0 <= k < i ==> slots[k] == WakeDue(was, ticks)[k]
        invariant forall k :: i <= k < SLOTS ==> slots[k] == was[k]
      {
        if slots[i].inUse && slots[i].state == Sleeping && slots[i].wake <= ticks {
          slots[i] := Woken(slots[i]);
        }
      }
      assert slots[..] == WakeDue(was, ticks);
    }

    /** `sched_on_timer_tick` */
    method TimerTick()
      requires Valid()
      modifies this`tail, this`current, this`contextSwitches, this`ticks, slots
      ensures Valid() && View() == Tick(old(View()))
    {
      hide RingItems, Yield, ProcessPending, Dispatch, WakeDue;
      ticks := ticks + 1;
      WakeDueSleepers();
      DrainSuggestions();
      if current.None? { YieldNow(); } else { DispatchNow(); }
    }

    method DispatchNow()
      requires Valid() && current.Some?
      modifies this`tail, this`current, this`contextSwitches, slots
      ensures Valid() && View() == Dispatch(old(View()))
    {
      hide RingItems, Yield, PickNext, SwitchTo;
      var c := current.value;
      SetSlot(c, slots[c].(cpuTime := slots[c].cpuTime + 1));
      var preempt := PickNextReady();
      if preempt.Some? && slots[preempt.value].priority > slots[c].priority {
        SwitchToSlot(preempt.value);
      } else if slots[c].cpuTime >= slots[c].slice {
        SetSlot(c, slots[c].(cpuTime := 0));
        YieldNow();
      }
    }

    /** `sched_enqueue_ai_suggestion` */
    method EnqueueSuggestion(g: Suggestion) returns (code: int)
      requires Valid()
      modifies this`head, this`tail, this`current, this`contextSwitches, slots, ring
      ensures Valid() && (code, View()) == Suggest(old(View()), g)
    {
      hide RingItems, Yield, RingCount;
      RingPush(ring[..], head, tail, g);
      ghost var s := View();
      var next := (head + 1) % MAX_PENDING;
      if next == tail { return -2; }
      ring[head] := g;
      assert ring[..] == old(ring[..])[head := g];
      head := next;
      assert View() == s.(pending := s.pending + [g]);
      code := 0;
      if (g.action == AdjustPriority || g.action == MigrateTask) && current.Some? &&
         slots[current.value].tid == g.target {
        YieldNow();
      }
    }

    /** `sched_wakeup` */
    method WakeupThread(i: nat)
      requires Valid() && i < SLOTS
      modifies slots
      ensures View() == Wakeup(old(View()), i)
    {
      hide RingItems;
      var t := slots[i];
      if t.state == Sleeping || t.state == Blocked { t := t.(state := Ready, wake := 0); }
      SetSlot(i, t);
    }

    /** `sched_block` */
    method BlockCurrent()
      requires Valid()
      modifies slots
      ensures View() == Block(old(View()))
    {
      hide RingItems;
      if current.Some? { SetSlot(current.value, slots[current.value].(state := Blocked)); }
    }

    /** `sched_inherit_priority` */
    method InheritPriority(i: nat, level: nat)
      requires Valid() && i < SLOTS
      modifies slots
      ensures View() == Inherit(old(View()), i, level)
    {
      hide RingItems;
      if level > slots[i].priority { SetSlot(i, slots[i].(priority := level)); }
    }

    /** `sched_adjust_priority` */
    method AdjustThread(i: nat, level: nat)
      requires Valid() && i < SLOTS
      modifies slots
      ensures View() == Adjust(old(View()), i, level)
    {
      hide RingItems, Find;
      var p := if level > MAX_PRIORITY then MAX_PRIORITY else level;
      SetSlot(i, slots[i].(priority := p));
      var k := FindSlotByTid(slots[i].tid);
      if k.Some? { SetSlot(k.value, slots[k.value].(priority := p)); }
    }

    /** `sched_migrate_task` */
    method MigrateThread(i: nat, node: nat) returns (code: int)
      requires Valid() && i < SLOTS
      modifies slots
      ensures View() == Migrate(old(View()), i, node) && code == if node >= numaNodes then -2 else 0
    {
      hide RingItems;
      if node >= numaNodes { return -2; }
      SetSlot(i, slots[i].(node := node));
      code := 0;
    }

    method Perform(op: Op)
      requires Valid() && Allowed(op)
      modifies this, slots, ring
      ensures Valid() && View() == SchedStub.Apply(old(View()), op)
    {
      hide Yield, Tick, Create, Destroy, Wakeup, Block, Sleep, Suggest, ApplySuggestion, Adjust, Migrate, Inherit;
      match op {
        case OpYield => YieldNow();
        case OpTick => TimerTick();
        case OpCreate => var _ := CreateThread();
        case OpDestroy(i) => var _ := DestroyThread(i);
        case OpWakeup(i) => WakeupThread(i);
        case OpEnqueue(i) => SetSlot(i, slots[i].(state := Ready));
        case OpBlock => BlockCurrent();
        case OpSleep(m) => SleepNow(m);
        case OpSuggest(g) => var _ := EnqueueSuggestion(g);
        case OpApply(g) => Apply(g);
        case OpPolicy(p) => policy := p;
        case OpAdjust(i, level) => AdjustThread(i, level);
        case OpMigrate(i, node) => var _ := MigrateThread(i, node);
        case OpInherit(i, level) => InheritPriority(i, level);
        case OpRestore(i) => SetSlot(i, slots[i].(priority := slots[i].basePriority));
      }
    }

    /** Any sequence of operations from boot: every in-use running thread is the current one. */
    method Run(ops: seq<Op>)
      requires Valid() && View() == Boot(numaNodes) && forall k :: 0 <= k < |ops| ==> Allowed(ops[k])
      modifies this, slots, ring
      ensures Valid() && View() == ApplyOps(Boot(old(numaNodes)), ops) && Inv(View())
    {
      hide SchedStub.Apply, RingItems, Inv, Boot;
      ghost var start := View();
      for k := 0 to |ops|
        invariant Valid() && View() == ApplyOps(start, ops[..k])
      {
        assert ops[..k + 1][..k] == ops[..k];
        Perform(ops[k]);
      }
      assert ops[..|ops|] == ops;
      SingleRunning(old(numaNodes), ops);
    }
  }
}
