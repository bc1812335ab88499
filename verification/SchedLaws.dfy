/** What callers of the scheduler stub rely on: how long a sleep lasts, how long a thread keeps its slice, what a yield,
    a new thread, a suggestion and an inherited priority change and what they leave alone. */
module SchedLaws {
  import opened Bytes
  import opened SchedStub

  // ---------------------------------------------------------------- sleeping

  lemma SleepStarts(s: Sched, millis: nat)
    requires Shape(s) && s.current.Some?
    ensures var r, c := Sleep(s, millis), s.current.value;
            && r.ticks == s.ticks && r.pending == [] && Shape(r)
            && r.slots[c].state == Sleeping && r.slots[c].wake == s.ticks + millis
  {
    hide PickNext, ApplyAll;
    var c := s.current.value;
    var s1 := s.(slots := s.slots[c := s.slots[c].(wake := s.ticks + millis, state := Sleeping)]);
    var s2 := ProcessPending(s1);
    SuggestionsKeepSleep(s1.(pending := []), s1.pending, c);
    NothingToApply(s2);
    YieldKeepsSleep(s2, c);
  }

  lemma {:induction false} TicksKeepUse(s: Sched, i: nat, k: nat)
    requires Shape(s) && s.pending == [] && i < SLOTS
    ensures TickN(s, k).slots[i].inUse == s.slots[i].inUse && TickN(s, k).pending == []
  {
    hide Tick;
    if k == 0 {
    } else {
      TicksKeepUse(s, i, k - 1);
      TickWakesExactly(TickN(s, k - 1), i);
    }
  }

  /** A thread that goes to sleep for some milliseconds sleeps through every tick before that many have passed and is
      awake from then on, whoever else runs; a sleep of zero lasts until the next tick. */
  lemma SleepDuration(s: Sched, millis: nat, k: nat)
    requires Shape(s) && s.current.Some? && Sleep(s, millis).slots[s.current.value].inUse
    ensures Shape(Sleep(s, millis))
    ensures TickN(Sleep(s, millis), k).slots[s.current.value].state == Sleeping <==> k == 0 || k < millis
  {
    hide Sleep, Tick;
    SleepStarts(s, millis);
    if k > 0 {
      TicksKeepUse(Sleep(s, millis), s.current.value, k);
      SleepsUntilDue(Sleep(s, millis), s.current.value, k);
    }
  }

  // ---------------------------------------------------------------- yielding

  /** A slot after the running thread has been put back. */
  function PutBack(s: Sched, i: nat): Thread
    requires Shape(s) && i < SLOTS
  {
    if s.current == Some(i) && s.slots[i].state == Running then s.slots[i].(state := Ready) else s.slots[i]
  }

  /** `r` is `s` after thread `n` took over. */
  ghost predicate TakesOver(s: Sched, r: Sched, n: nat)
    requires Shape(s) && Shape(r)
  {
    && n < SLOTS && IsReady(s.slots[n])
    && r.current == Some(n) && r.slots[n].state == Running && r.slots[n].switches == s.slots[n].switches + 1
    && r.slots[n] == s.slots[n].(state := Running, switches := r.slots[n].switches)
    && (forall i :: 0 <= i < SLOTS && i != n ==> r.slots[i] == PutBack(s, i))
    && r.contextSwitches == s.contextSwitches + 1 && r.ticks == s.ticks && r.pending == s.pending
  }

  /** A yield with nothing pending hands over to a ready thread whenever there is one, puts the thread that ran back
      among the ready ones and leaves every other slot alone; without a ready thread nothing changes. */
  lemma YieldHandsOver(s: Sched)
    requires Shape(s) && s.pending == []
    ensures (exists j :: 0 <= j < SLOTS && IsReady(s.slots[j])) ==> exists n: nat :: TakesOver(s, Yield(s), n)
    ensures (forall j :: 0 <= j < SLOTS ==> !IsReady(s.slots[j])) ==> Yield(s) == s
  {
    hide PickNext;
    NothingToApply(s);
    PickIsReady(s);
    if PickNext(s).Some? {
      assert TakesOver(s, Yield(s), PickNext(s).value);
    }
  }

  // ---------------------------------------------------------------- the time slice

  /** A running thread that no sleeper and no suggestion will disturb and no ready thread outranks. */
  ghost predicate Undisturbed(s: Sched, c: nat) {
    && Shape(s) && s.pending == [] && s.current == Some(c) && s.slots[c].inUse && s.slots[c].state == Running
    && (forall i :: 0 <= i < SLOTS ==> !(s.slots[i].inUse && s.slots[i].state == Sleeping))
    && (forall i :: 0 <= i < SLOTS && IsReady(s.slots[i]) ==> s.slots[i].priority <= s.slots[c].priority)
  }

  /** The same state some ticks later, with the thread's time set. */
  function Later(s: Sched, c: nat, ticks: nat, cpuTime: nat): Sched
    requires Shape(s) && c < SLOTS
  {
    s.(ticks := s.ticks + ticks, slots := s.slots[c := s.slots[c].(cpuTime := cpuTime)])
  }

  lemma LaterUndisturbed(s: Sched, c: nat, ticks: nat, cpuTime: nat)
    requires Undisturbed(s, c)
    ensures Undisturbed(Later(s, c, ticks, cpuTime), c)
  {
  }

  lemma OneTick(s: Sched, c: nat)
    requires Undisturbed(s, c)
    ensures Tick(s) == if s.slots[c].cpuTime + 1 >= s.slots[c].slice then Yield(Later(s, c, 1, 0))
                       else Later(s, c, 1, s.slots[c].cpuTime + 1)
  {
    hide PickNext, Yield, ProcessPending;
    var s1 := s.(ticks := s.ticks + 1, slots := WakeDue(s.slots, s.ticks + 1));
    assert s1.slots == s.slots;
    NothingToApply(s1);
    var s2 := Later(s, c, 1, s.slots[c].cpuTime + 1);
    PickIsReady(s2);
    if PickNext(s2).Some? { assert PickNext(s2).value != c; }
    assert s2.(slots := s2.slots[c := s2.slots[c].(cpuTime := 0)]) == Later(s, c, 1, 0);
  }

  lemma UndisturbedShape(s: Sched, c: nat)
    requires Undisturbed(s, c)
    ensures Shape(s) && c < SLOTS && s.pending == []
  {
  }

  lemma {:induction false} RunsOn(s: Sched, c: nat, k: nat)
    requires Undisturbed(s, c) && s.slots[c].cpuTime + k < s.slots[c].slice
    ensures TickN(s, k) == Later(s, c, k, s.slots[c].cpuTime + k)
  {
    hide Tick, Undisturbed;
    assert Shape(s) && c < SLOTS by { UndisturbedShape(s, c); }
    if k == 0 {
      assert s.slots[c := s.slots[c]] == s.slots;
    } else {
      RunsOn(s, c, k - 1);
      var was := Later(s, c, k - 1, s.slots[c].cpuTime + (k - 1));
      LaterUndisturbed(s, c, k - 1, s.slots[c].cpuTime + (k - 1));
      OneTick(was, c);
      assert Later(was, c, 1, was.slots[c].cpuTime + 1) == Later(s, c, k, s.slots[c].cpuTime + k);
    }
  }

  lemma TickLast(s: Sched, n: nat)
    requires Shape(s) && n > 0
    ensures TickN(s, n) == Tick(TickN(s, n - 1))
  {
    hide Tick;
  }

  lemma LastTick(s: Sched, c: nat)
    requires Undisturbed(s, c) && s.slots[c].cpuTime < s.slots[c].slice
    ensures Shape(s) && c < SLOTS
    ensures var n := s.slots[c].slice - s.slots[c].cpuTime; TickN(s, n) == Yield(Later(s, c, n, 0))
  {
    hide Tick, TickN, Yield, Undisturbed;
    UndisturbedShape(s, c);
    var used, n := s.slots[c].cpuTime, s.slots[c].slice - s.slots[c].cpuTime;
    TickLast(s, n);
    RunsOn(s, c, n - 1);
    var was := Later(s, c, n - 1, used + (n - 1));
    LaterUndisturbed(s, c, n - 1, used + (n - 1));
    OneTick(was, c);
    assert Later(was, c, 1, 0) == Later(s, c, n, 0);
  }

  /** An undisturbed thread runs for exactly the rest of its slice: through every earlier tick it is charged one unit
      and stays current, and the last tick of the slice starts its time again and hands over to a ready thread if there
      is one. */
  lemma SliceExpires(s: Sched, c: nat)
    requires Undisturbed(s, c) && s.slots[c].cpuTime < s.slots[c].slice
    ensures Shape(s) && c < SLOTS
    ensures var used, n := s.slots[c].cpuTime, s.slots[c].slice - s.slots[c].cpuTime;
            && (forall k :: 0 <= k < n ==>
                  var r := TickN(s, k);
                  r.current == Some(c) && r.slots[c].state == Running && r.slots[c].cpuTime == used + k)
            && TickN(s, n).slots[c].cpuTime == 0
            && ((forall j :: 0 <= j < SLOTS ==> !IsReady(s.slots[j])) ==> TickN(s, n).current == Some(c))
            && ((exists j :: 0 <= j < SLOTS && IsReady(s.slots[j])) ==>
                  && TickN(s, n).current.Some? && TickN(s, n).current != Some(c)
                  && TickN(s, n).slots[c].state == Ready)
  {
    hide Tick, Yield, TickN;
    UndisturbedShape(s, c);
    var used, n := s.slots[c].cpuTime, s.slots[c].slice - s.slots[c].cpuTime;
    forall k | 0 <= k < n
      ensures var r := TickN(s, k);
              r.current == Some(c) && r.slots[c].state == Running && r.slots[c].cpuTime == used + k
    {
      RunsOn(s, c, k);
    }
    LastTick(s, c);
    var at := Later(s, c, n, 0);
    YieldHandsOver(at);
    if j :| 0 <= j < SLOTS && IsReady(s.slots[j]) {
      assert IsReady(at.slots[j]);
    } else {
      assert forall j :: 0 <= j < SLOTS ==> !IsReady(at.slots[j]);
    }
  }

  // ---------------------------------------------------------------- threads and suggestions

  lemma {:induction false} FirstFree(slots: seq<Thread>, i: nat)
    requires i <= |slots|
    ensures var r := FreeFrom(slots, i); r.Some? ==> forall k :: i <= k < r.value ==> slots[k].inUse
    decreases |slots| - i
  {
    if i < |slots| { FirstFree(slots, i + 1); }
  }

  /** A new thread takes the lowest free slot, starts ready with priority 1 and a full slice, under an id no other
      thread has; nobody else changes. The table is refused exactly when every slot is taken. */
  lemma CreateStartsFresh(s: Sched)
    requires Inv(s)
    ensures var (r, slot) := Create(s);
            && (slot.None? <==> forall i :: 0 <= i < SLOTS ==> s.slots[i].inUse)
            && (slot.None? ==> r == s)
            && (slot.Some? ==>
                  && slot.value < SLOTS && !s.slots[slot.value].inUse
                  && (forall i :: 0 <= i < slot.value ==> s.slots[i].inUse)
                  && (forall i :: 0 <= i < SLOTS && i != slot.value ==> r.slots[i] == s.slots[i])
                  && (forall i :: 0 <= i < SLOTS && s.slots[i].inUse ==> s.slots[i].tid != r.slots[slot.value].tid)
                  && var t := r.slots[slot.value];
                     t.inUse && t.state == Ready && t.priority == 1 && t.basePriority == 1 && t.cpuTime == 0 &&
                     t.slice == 10)
  {
    FirstFree(s.slots, 0);
  }

  /** A suggestion changes exactly the thread it names, as it says: the priority up to 31, the node if it exists, or its
      removal; one that names no thread changes nothing. */
  lemma SuggestionTouchesTarget(s: Sched, g: Suggestion, i: nat)
    requires Inv(s) && i < SLOTS
    ensures var r := ApplySuggestion(s, g);
            && Shape(r) && r.current == s.current && r.nextTid == s.nextTid
            && if s.slots[i].inUse && s.slots[i].tid == g.target
               then r.slots[i] == match g.action
                                  case AdjustPriority =>
                                    s.slots[i].(priority := if g.value <= 31 then g.value else 31)
                                  case MigrateTask =>
                                    if g.value < s.numaNodes then s.slots[i].(node := g.value) else s.slots[i]
                                  case KillTask => s.slots[i].(inUse := false)
                                  case _ => s.slots[i]
               else r.slots[i] == s.slots[i]
  {
    if s.slots[i].inUse && s.slots[i].tid == g.target { FindUnique(s, i); }
  }

  /** An inherited priority is never below the thread's own, and restoring gives the base priority back whatever was
      inherited in between. */
  lemma InheritThenRestore(s: Sched, i: nat, p: nat, q: nat)
    requires Shape(s) && i < SLOTS
    ensures var t := Inherit(s, i, p).slots[i];
            && t.priority >= p && t.priority >= s.slots[i].priority
            && (t.priority == p || t.priority == s.slots[i].priority)
    ensures Shape(Inherit(s, i, p))
    ensures Restore(Inherit(Inherit(s, i, p), i, q), i) == Restore(s, i)
    ensures Restore(s, i).slots[i].priority == s.slots[i].basePriority
  {
    var a := Inherit(Inherit(s, i, p), i, q);
    assert a.slots[i].basePriority == s.slots[i].basePriority;
    assert Restore(a, i).slots == Restore(s, i).slots;
  }

  lemma WokenInv(s: Sched)
    requires Inv(s)
    ensures Inv(s.(ticks := s.ticks + 1, slots := WakeDue(s.slots, s.ticks + 1), pending := []))
  {
  }

  lemma OneSuggestion(s: Sched, g: Suggestion)
    requires Shape(s)
    ensures ApplyAll(s, [g]) == ApplySuggestion(s, g)
  {
    hide ApplySuggestion;
    SuggestionKeepsSleep(s, g, 0);
    assert [g][1..] == [];
    assert ApplyAll(ApplySuggestion(s, g), []) == ApplySuggestion(s, g);
  }

  /** A suggested priority for a thread other than the current one takes effect at the next tick. */
  lemma SuggestedPriorityLands(s: Sched, i: nat, value: nat)
    requires Inv(s) && i < SLOTS && s.slots[i].inUse && s.pending == []
    requires s.current.Some? ==> s.slots[s.current.value].tid != s.slots[i].tid
    ensures var g := Suggestion(AdjustPriority, s.slots[i].tid, value);
            var (code, r) := Suggest(s, g);
            code == 0 && r.pending == [g] && r.slots == s.slots &&
            AtDecision(r).slots[i].priority == if value <= 31 then value else 31
  {
    hide Inv;
    InvShape(s);
    var g := Suggestion(AdjustPriority, s.slots[i].tid, value);
    var r := s.(pending := [g]);
    assert s.pending + [g] == [g];
    var s1 := r.(ticks := r.ticks + 1, slots := WakeDue(r.slots, r.ticks + 1), pending := []);
    WokenInv(s);
    OneSuggestion(s1, g);
    SuggestionTouchesTarget(s1, g, i);
  }

  /** Destroying a thread frees its slot and nobody else's, so that a new thread can be made; the thread can no longer
      be selected. */
  lemma DestroyFreesSlot(s: Sched, i: nat, j: nat)
    requires Inv(s) && i < SLOTS && s.slots[i].inUse && j < SLOTS
    ensures var r := Destroy(s, i);
            && Shape(r) && (if j == i then !r.slots[i].inUse else r.slots[j] == s.slots[j])
            && Create(r).1.Some? && (PickNext(r).Some? ==> PickNext(r).value != i)
  {
    hide PickNext;
    FindUnique(s, i);
    var r := Destroy(s, i);
    PickIsReady(r);
    assert !r.slots[i].inUse;
  }

  /** A thread put on the queue is ready, so the next selection does not come back empty. */
  lemma EnqueuedCanRun(s: Sched, i: nat, j: nat)
    requires Shape(s) && i < SLOTS && s.slots[i].inUse && j < SLOTS
    ensures var r := Enqueue(s, i);
            && Shape(r) && IsReady(r.slots[i]) && PickNext(r).Some? && (j != i ==> r.slots[j] == s.slots[j])
  {
    hide PickNext;
    PickIsReady(Enqueue(s, i));
  }

  /** The ring refuses a suggestion exactly when it holds 63, and keeps every other one behind those it holds until they
      are applied. */
  lemma SuggestLimit(s: Sched, g: Suggestion)
    requires Shape(s)
    ensures Suggest(s, g).0 == -2 <==> |s.pending| == 63
    ensures |s.pending| == 63 ==> Suggest(s, g).1 == s
    ensures |s.pending| != 63 ==>
      Suggest(s, g) == (0, if g.action in {AdjustPriority, MigrateTask} && s.current.Some? &&
                              s.slots[s.current.value].tid == g.target
                           then Yield(s.(pending := s.pending + [g])) else s.(pending := s.pending + [g]))
  {
    hide Yield;
  }

  // ---------------------------------------------------------------- blocking

  lemma YieldKeepsBlocked(s: Sched, i: nat)
    requires Shape(s) && s.pending == [] && i < SLOTS && s.slots[i].state == Blocked
    ensures Yield(s).slots[i].state == Blocked
  {
    hide PickNext;
    NothingToApply(s);
    PickIsReady(s);
  }

  lemma TickKeepsBlocked(s: Sched, i: nat)
    requires Shape(s) && i < SLOTS && s.slots[i].state == Blocked
    ensures Tick(s).slots[i].state == Blocked
  {
    hide PickNext, Yield, ApplyAll;
    var s1 := s.(ticks := s.ticks + 1, slots := WakeDue(s.slots, s.ticks + 1), pending := []);
    SuggestionsKeepSleep(s1, s.pending, i);
    var s2 := AtDecision(s);
    if s2.current.None? {
      YieldKeepsBlocked(s2, i);
    } else {
      var c := s2.current.value;
      var s3 := s2.(slots := s2.slots[c := s2.slots[c].(cpuTime := s2.slots[c].cpuTime + 1)]);
      PickIsReady(s3);
      YieldKeepsBlocked(s3.(slots := s3.slots[c := s3.slots[c].(cpuTime := 0)]), i);
    }
  }

  /** A thread that blocks stays blocked through any number of ticks; a wake-up makes it ready and clears its wake
      time. */
  lemma {:induction false} BlockedUntilWoken(s: Sched, k: nat)
    requires Shape(s) && s.current.Some?
    ensures Shape(Block(s))
    ensures var c := s.current.value; var r := TickN(Block(s), k);
            && r.slots[c].state == Blocked
            && Wakeup(r, c).slots[c].state == Ready && Wakeup(r, c).slots[c].wake == 0
  {
    hide Tick;
    if k == 0 {
    } else {
      BlockedUntilWoken(s, k - 1);
      TickKeepsBlocked(TickN(Block(s), k - 1), s.current.value);
    }
  }

  // ---------------------------------------------------------------- bounds over whole runs

  /** A thread on a node that exists, with priorities of at most 31. */
  predicate ThreadBounded(t: Thread, nodes: nat) {
    (t.node == 0 || t.node < nodes) && t.priority <= 31 && t.basePriority <= 31
  }

  predicate Bounded(s: Sched) {
    && Shape(s) && |s.pending| <= 63
    && forall i :: 0 <= i < SLOTS ==> ThreadBounded(s.slots[i], s.numaNodes)
  }

  lemma UpdateBounded(s: Sched, i: nat, t: Thread)
    requires Bounded(s) && i < SLOTS && ThreadBounded(t, s.numaNodes)
    ensures Bounded(s.(slots := s.slots[i := t]))
  {
    hide ThreadBounded;
  }

  lemma SuggestionBounded(s: Sched, g: Suggestion)
    requires Bounded(s)
    ensures Bounded(ApplySuggestion(s, g)) && ApplySuggestion(s, g).numaNodes == s.numaNodes
  {
  }

  lemma {:induction false} SuggestionsBounded(s: Sched, gs: seq<Suggestion>)
    requires Bounded(s)
    ensures Bounded(ApplyAll(s, gs)) && ApplyAll(s, gs).numaNodes == s.numaNodes
    decreases |gs|
  {
    hide ApplySuggestion, ThreadBounded;
    if gs == [] {
    } else {
      SuggestionBounded(s, gs[0]);
      SuggestionsBounded(ApplySuggestion(s, gs[0]), gs[1..]);
    }
  }

  lemma SwitchBounded(s: Sched, next: nat)
    requires Bounded(s) && next < SLOTS
    ensures Bounded(SwitchTo(s, next)) && SwitchTo(s, next).numaNodes == s.numaNodes
  {
  }

  lemma YieldBounded(s: Sched)
    requires Bounded(s)
    ensures Bounded(Yield(s)) && Yield(s).numaNodes == s.numaNodes
  {
    hide PickNext, SwitchTo, ApplyAll, ThreadBounded;
    var s1 := ProcessPending(s);
    assert Bounded(s.(pending := []));
    SuggestionsBounded(s.(pending := []), s.pending);
    if PickNext(s1).Some? { SwitchBounded(s1, PickNext(s1).value); }
  }

  lemma WakeBounded(s: Sched)
    requires Bounded(s)
    ensures Bounded(s.(ticks := s.ticks + 1, slots := WakeDue(s.slots, s.ticks + 1), pending := []))
  {
  }

  lemma BoundedShape(s: Sched)
    requires Bounded(s)
    ensures Shape(s)
  {
  }

  lemma TimeBounded(s: Sched, c: nat, time: nat)
    requires Bounded(s) && c < SLOTS
    ensures Bounded(s.(slots := s.slots[c := s.slots[c].(cpuTime := time)]))
  {
  }

  lemma DispatchBounded(s: Sched)
    requires Bounded(s) && s.current.Some?
    ensures Shape(s) && Bounded(Dispatch(s)) && Dispatch(s).numaNodes == s.numaNodes
  {
    hide PickNext, SwitchTo, Yield, Bounded;
    assert Shape(s) by { BoundedShape(s); }
    var c := s.current.value;
    var s1 := s.(slots := s.slots[c := s.slots[c].(cpuTime := s.slots[c].cpuTime + 1)]);
    TimeBounded(s, c, s.slots[c].cpuTime + 1);
    TimeBounded(s1, c, 0);
    if PickNext(s1).Some? { SwitchBounded(s1, PickNext(s1).value); }
    YieldBounded(s1.(slots := s1.slots[c := s1.slots[c].(cpuTime := 0)]));
  }

  lemma TickBounded(s: Sched)
    requires Bounded(s)
    ensures Bounded(Tick(s)) && Tick(s).numaNodes == s.numaNodes
  {
    hide PickNext, SwitchTo, Yield, ApplyAll, Bounded, ThreadBounded;
    assert Shape(s) by { BoundedShape(s); }
    WakeBounded(s);
    SuggestionsBounded(s.(ticks := s.ticks + 1, slots := WakeDue(s.slots, s.ticks + 1), pending := []), s.pending);
    var s2 := AtDecision(s);
    if s2.current.None? {
      YieldBounded(s2);
    } else {
      DispatchBounded(s2);
    }
  }

  lemma AdjustBounded(s: Sched, i: nat, level: nat)
    requires Bounded(s) && i < SLOTS
    ensures Bounded(Adjust(s, i, level))
  {
  }

  lemma SleepBounded(s: Sched, millis: nat)
    requires Bounded(s)
    ensures Bounded(Sleep(s, millis)) && Sleep(s, millis).numaNodes == s.numaNodes
  {
    hide Yield;
    if s.current.Some? {
      var c := s.current.value;
      var s1 := s.(slots := s.slots[c := s.slots[c].(wake := s.ticks + millis, state := Sleeping)]);
      assert Bounded(s1);
      YieldBounded(s1);
    }
  }

  lemma SuggestBounded(s: Sched, g: Suggestion)
    requires Bounded(s)
    ensures Bounded(Suggest(s, g).1) && Suggest(s, g).1.numaNodes == s.numaNodes
  {
    hide Yield, ThreadBounded;
    if |s.pending| != MAX_PENDING - 1 {
      assert Bounded(s.(pending := s.pending + [g]));
      YieldBounded(s.(pending := s.pending + [g]));
    }
  }

  lemma AdjustNodes(s: Sched, i: nat, level: nat)
    requires Shape(s) && i < SLOTS
    ensures Adjust(s, i, level).numaNodes == s.numaNodes
  {
  }

  lemma ApplyBounded(s: Sched, op: Op)
    requires Bounded(s) && Allowed(op) && (op.OpInherit? ==> op.level <= 31)
    ensures Bounded(Apply(s, op)) && Apply(s, op).numaNodes == s.numaNodes
  {
    hide Yield, Tick, Sleep, Suggest, Adjust, ApplySuggestion;
    match op
    case OpYield => YieldBounded(s);
    case OpTick => TickBounded(s);
    case OpSleep(m) => SleepBounded(s, m);
    case OpSuggest(g) => SuggestBounded(s, g);
    case OpApply(g) => SuggestionBounded(s, g);
    case OpAdjust(i, level) => AdjustBounded(s, i, level); AdjustNodes(s, i, level);
    case _ =>
  }

  lemma BootBounded(numaNodes: nat)
    ensures Bounded(Boot(numaNodes))
  {
  }

  /** After any sequence of operations from boot no thread has a priority above 31 or a node that does not exist, and
      the suggestion ring never holds more than 63, as long as no higher priority is inherited. */
  lemma {:induction false} RunBounded(numaNodes: nat, ops: seq<Op>)
    requires forall i :: 0 <= i < |ops| ==> Allowed(ops[i])
    requires forall i :: 0 <= i < |ops| && ops[i].OpInherit? ==> ops[i].level <= 31
    ensures Bounded(ApplyOps(Boot(numaNodes), ops)) && ApplyOps(Boot(numaNodes), ops).numaNodes == numaNodes
    decreases |ops|
  {
    hide Apply, Bounded;
    if ops == [] {
      assert Bounded(Boot(numaNodes)) by { BootBounded(numaNodes); }
    } else {
      RunBounded(numaNodes, ops[..|ops| - 1]);
      ApplyBounded(ApplyOps(Boot(numaNodes), ops[..|ops| - 1]), ops[|ops| - 1]);
    }
  }

  /** Setting a priority or a node changes exactly that thread, and only to a value that exists. */
  lemma SettersTouchOne(s: Sched, i: nat, value: nat, j: nat)
    requires Inv(s) && i < SLOTS && s.slots[i].inUse && j < SLOTS
    ensures Adjust(s, i, value).slots[j] ==
            if j == i then s.slots[i].(priority := if value <= 31 then value else 31) else s.slots[j]
    ensures Migrate(s, i, value).slots[j] ==
            if j == i && value < s.numaNodes then s.slots[i].(node := value) else s.slots[j]
  {
    var p := if value > 31 then 31 else value;
    var s1 := s.(slots := s.slots[i := s.slots[i].(priority := p)]);
    SlotUpdate(s, i, s.slots[i].(priority := p));
    FindUnique(s1, i);
  }
}
