/** Whole runs of the run queue: bounded unfairness and freedom from starvation, first for every run of the
    selection rule, then for the heap that implements it. */
module Fairness {
  import opened Arith
  import opened Bytes
  import opened RunQueue

  /** The virtual runtimes of all tasks, queued or running, and the task last returned. */
  datatype Sys = Sys(vr: seq<nat>, running: Option<nat>)

  predicate IsMin(vr: seq<nat>, r: nat) {
    r < |vr| && forall j :: 0 <= j < |vr| ==> vr[r] <= vr[j]
  }

  function Charged(s: Sys, charge: nat): seq<nat>
    requires s.running.Some? ==> s.running.value < |s.vr|
  {
    if s.running.None? then s.vr else s.vr[s.running.value := s.vr[s.running.value] + charge]
  }

  /** One call: charge the task handed back, return any task of least virtual runtime. */
  predicate Step(s: Sys, charge: nat, s': Sys) {
    && (s.running.Some? ==> s.running.value < |s.vr|)
    && s'.vr == Charged(s, charge)
    && s'.running.Some? && IsMin(s'.vr, s'.running.value)
  }

  /** A run: it starts with nothing running, and each call hands back the task last returned. */
  ghost predicate Run(states: seq<Sys>, charges: seq<nat>) {
    && |states| == |charges| + 1 && states[0].running.None?
    && forall i :: 0 <= i < |charges| ==> Step(states[i], charges[i], states[i + 1])
  }

  ghost predicate Spread(vr: seq<nat>, d: nat) {
    forall i, j :: 0 <= i < |vr| && 0 <= j < |vr| ==> vr[i] <= vr[j] + d
  }

  lemma StepKeepsSpread(s: Sys, charge: nat, s': Sys, d: nat)
    requires Step(s, charge, s') && Spread(s.vr, d) && charge <= d
    requires s.running.Some? ==> IsMin(s.vr, s.running.value)
    ensures Spread(s'.vr, d)
  {
  }

  /** Fairness over whole runs: charges of at most `d` on tasks that start within `d` of each other keep all of
      them within `d` of each other after every call, and the task returned is always a least one. */
  lemma {:induction false} RunIsFair(states: seq<Sys>, charges: seq<nat>, d: nat, k: nat)
    requires Run(states, charges) && Spread(states[0].vr, d) && k < |states|
    requires forall i :: 0 <= i < |charges| ==> charges[i] <= d
    ensures Spread(states[k].vr, d) && |states[k].vr| == |states[0].vr|
    ensures k > 0 ==> states[k].running.Some? && IsMin(states[k].vr, states[k].running.value)
  {
    if k > 0 {
      RunIsFair(states, charges, d, k - 1);
      assert Step(states[k - 1], charges[k - 1], states[k]);
      StepKeepsSpread(states[k - 1], charges[k - 1], states[k], d);
    }
  }

  // -------------------------------------------------------------------- starvation

  /** How far task `u` lies at or below task `t`. */
  function Term(vr: seq<nat>, t: nat, u: nat): nat
    requires t < |vr| && u < |vr|
  {
    if u != t && vr[u] <= vr[t] then vr[t] - vr[u] + 1 else 0
  }

  /** The sum of the terms of the first `k` tasks. */
  function Lag(vr: seq<nat>, t: nat, k: nat): nat
    requires t < |vr| && k <= |vr|
  {
    if k == 0 then 0 else Lag(vr, t, k - 1) + Term(vr, t, k - 1)
  }

  lemma TermBound(vr: seq<nat>, t: nat, u: nat, d: nat)
    requires t < |vr| && u < |vr| && Spread(vr, d)
    ensures Term(vr, t, u) <= if u == t then 0 else d + 1
  {
  }

  lemma OneMoreTerm(m: nat, d: nat)
    ensures (m + 1) * (d + 1) == m * (d + 1) + (d + 1)
  {
  }

  lemma {:induction false} LagBound(vr: seq<nat>, t: nat, k: nat, d: nat)
    requires t < |vr| && k <= |vr| && Spread(vr, d)
    ensures Lag(vr, t, k) <= (if t < k then k - 1 else k) * (d + 1)
  {
    hide Spread, Term;
    if k > 0 {
      LagBound(vr, t, k - 1, d);
      TermBound(vr, t, k - 1, d);
      if t != k - 1 { OneMoreTerm(if t < k - 1 then k - 2 else k - 1, d); }
    }
  }

  lemma {:induction false} LagAtLeast(vr: seq<nat>, t: nat, u: nat, k: nat)
    requires t < |vr| && u < k <= |vr|
    ensures Lag(vr, t, k) >= Term(vr, t, u)
    decreases k
  {
    if u < k - 1 { LagAtLeast(vr, t, u, k - 1); }
  }

  /** Charging some other task that lies at or below `t` brings the sum down. */
  lemma {:induction false} LagCharge(vr: seq<nat>, t: nat, u: nat, c: nat, k: nat)
    requires t < |vr| && u < |vr| && u != t && vr[u] <= vr[t] && c >= 1 && k <= |vr|
    ensures var vr' := vr[u := vr[u] + c];
            if u < k then Lag(vr', t, k) + 1 <= Lag(vr, t, k) else Lag(vr', t, k) == Lag(vr, t, k)
    decreases k
  {
    if k > 0 { LagCharge(vr, t, u, c, k - 1); }
  }

  /** One call that charges some task at or below `t` and returns another than `t`. */
  lemma LagStep(s: Sys, charge: nat, s': Sys, t: nat)
    requires Step(s, charge, s') && t < |s.vr| && s'.running != Some(t)
    requires s.running.Some? ==> charge >= 1 && s.running != Some(t) && IsMin(s.vr, s.running.value)
    ensures var n := |s.vr|;
            && |s'.vr| == n && 0 < Lag(s'.vr, t, n) && s'.running.Some? && IsMin(s'.vr, s'.running.value)
            && Lag(s'.vr, t, n) + (if s.running.Some? then 1 else 0) <= Lag(s.vr, t, n)
  {
    hide Lag;
    var n := |s.vr|;
    if s.running.Some? { LagCharge(s.vr, t, s.running.value, charge, n); }
    LagAtLeast(s'.vr, t, s'.running.value, n);
  }

  /** If `t` is not returned by any of the calls after state `from`, each of them after the first brings the
      sum down by one, and it stays positive. */
  lemma {:induction false} LagFalls(states: seq<Sys>, charges: seq<nat>, t: nat, from: nat, m: nat)
    requires Run(states, charges) && from + m < |states| && 0 < m && t < |states[from].vr|
    requires forall i :: 0 < i < |charges| ==> charges[i] >= 1
    requires forall i :: from < i <= from + m ==> states[i].running != Some(t)
    requires states[from].running != Some(t)
    requires from > 0 ==> states[from].running.Some? && IsMin(states[from].vr, states[from].running.value)
    ensures var n := |states[from].vr|;
            && |states[from + m].vr| == n && states[from + m].running.Some?
            && IsMin(states[from + m].vr, states[from + m].running.value)
            && 0 < Lag(states[from + m].vr, t, n)
            && Lag(states[from + m].vr, t, n) + m <= Lag(states[from].vr, t, n) + (if from == 0 then 1 else 0)
    decreases m
  {
    hide Lag, Step, IsMin;
    var i := from + m;
    if m > 1 { LagFalls(states, charges, t, from, m - 1); }
    assert Step(states[i - 1], charges[i - 1], states[i]);
    LagStep(states[i - 1], charges[i - 1], states[i], t);
  }

  lemma OnlyTask(s: Sys)
    requires |s.vr| == 1 && s.running.Some? && IsMin(s.vr, s.running.value)
    ensures s.running == Some(0)
  {
  }

  /** No starvation: from any point of such a run on, every task is returned within (n - 1) * (d + 1) + 1 calls. */
  lemma NoStarvation(states: seq<Sys>, charges: seq<nat>, d: nat, t: nat, from: nat)
    requires Run(states, charges) && Spread(states[0].vr, d) && t < |states[0].vr|
    requires forall i :: 0 <= i < |charges| ==> charges[i] <= d && (i > 0 ==> 1 <= charges[i])
    requires from + (|states[0].vr| - 1) * (d + 1) + 1 < |states|
    ensures exists i :: from < i <= from + (|states[0].vr| - 1) * (d + 1) + 1 && states[i].running == Some(t)
  {
    hide Lag, Step, IsMin, Spread;
    var n, bound := |states[0].vr|, (|states[0].vr| - 1) * (d + 1) + 1;
    RunIsFair(states, charges, d, from);
    RunIsFair(states, charges, d, from + 1);
    if forall i :: from < i <= from + bound ==> states[i].running != Some(t) {
      if states[from].running != Some(t) {
        LagFalls(states, charges, t, from, bound);
        LagBound(states[from].vr, t, n, d);
      } else if n > 1 {
        LagFalls(states, charges, t, from + 1, bound - 1);
        LagBound(states[from + 1].vr, t, n, d);
      } else {
        OnlyTask(states[from + 1]);
      }
      assert false;
    }
  }

  // ------------------------------------------------------------ the heap implements it

  ghost predicate Distinct(tasks: seq<Task>) {
    forall i, j :: 0 <= i < j < |tasks| ==> tasks[i] != tasks[j]
  }

  ghost function Runtimes(tasks: seq<Task>): (vr: seq<nat>)
    reads tasks
    ensures |vr| == |tasks| && forall i :: 0 <= i < |tasks| ==> vr[i] == tasks[i].vruntime
  {
    if tasks == [] then [] else Runtimes(tasks[..|tasks| - 1]) + [tasks[|tasks| - 1].vruntime]
  }

  ghost function Wide(tasks: seq<Task>): (r: seq<Task?>)
    ensures |r| == |tasks| && forall i :: 0 <= i < |tasks| ==> r[i] == tasks[i]
  {
    if tasks == [] then [] else Wide(tasks[..|tasks| - 1]) + [tasks[|tasks| - 1]]
  }

  /** The queue holds every task except the running one. */
  ghost predicate Queued(heap: TaskHeap, tasks: seq<Task>, running: Task?)
    requires heap.Shaped()
    reads heap, heap.nodes
  {
    multiset(Wide(tasks)) == multiset(heap.Contents()) + (if running == null then multiset{} else multiset{running})
  }

  lemma CountOne<T>(w: seq<T>, i: nat)
    requires i < |w| && forall j :: 0 <= j < |w| && j != i ==> w[j] != w[i]
    ensures multiset(w)[w[i]] == 1
  {
    var a, b := w[..i], w[i + 1..];
    assert w == a + [w[i]] + b;
    assert w[i] !in a && w[i] !in b;
  }

  lemma MultisetOfDistinct(tasks: seq<Task>)
    requires Distinct(tasks)
    ensures forall i :: 0 <= i < |tasks| ==> multiset(Wide(tasks))[Wide(tasks)[i]] == 1
  {
    hide Wide;
    var w := Wide(tasks);
    forall i | 0 <= i < |tasks| ensures multiset(w)[w[i]] == 1 { CountOne(w, i); }
  }

  predicate WorkWithin(work: nat, baseWeight: int, d: nat) {
    var w := if baseWeight > 0 then baseWeight else 1;
    w <= work < w * (d + 1)
  }

  /** The weight of each task divides into the work of one call at least once and at most `d` times. */
  ghost predicate ChargesWithin(exec: nat, weight: nat, tasks: seq<Task>, d: nat) {
    exec * weight < TWO64 && forall t :: t in tasks ==> WorkWithin(exec * weight, t.baseWeight, d)
  }

  lemma Scaled(w: nat, c: nat, work: nat, d: nat)
    requires w <= work < w * (d + 1) && w * c <= work < w * (c + 1)
    ensures 1 <= c <= d
  {
    if c > d { assert w * c == c * w && w * (d + 1) == (d + 1) * w; MulMono(d + 1, c, w); }
  }

  lemma ChargeWithin(exec: nat, weight: nat, baseWeight: int, d: nat)
    requires exec * weight < TWO64 && WorkWithin(exec * weight, baseWeight, d)
    ensures 1 <= Charge(exec, weight, baseWeight) <= d
    ensures ChargedFor(exec, weight, baseWeight, Charge(exec, weight, baseWeight))
  {
    hide Charge;
    var c, w := Charge(exec, weight, baseWeight), if baseWeight > 0 then baseWeight else 1;
    ChargeMeaning(exec, weight, baseWeight, c);
    Scaled(w, c, exec * weight, d);
  }

  /** With all tasks accounted for, the running task is not queued and there is room to put it back. */
  lemma QueueFacts(c: seq<Task?>, tasks: seq<Task>, running: Task?)
    requires Distinct(tasks) && tasks != []
    requires multiset(Wide(tasks)) == multiset(c) + (if running == null then multiset{} else multiset{running})
    ensures running != null ==> running in Wide(tasks) && running !in c && |tasks| == |c| + 1
    ensures running == null ==> c != []
    ensures forall t :: t in c ==> t in Wide(tasks)
  {
    hide Wide;
    var w := Wide(tasks);
    MultisetOfDistinct(tasks);
    assert |multiset(w)| == |w| && |multiset(c)| == |c|;
    forall t | t in c ensures t in w { assert t in multiset(w); }
    if running != null {
      assert running in multiset(w);
      assert running in w;
      assert multiset(w)[running] == 1;
      assert multiset(c)[running] == 0;
    }
  }

  /** Once the task that ran is back, the queue holds all tasks. */
  lemma RequeuedAll(c: seq<Task?>, tasks: seq<Task>, running: Task?, capacity: nat)
    requires multiset(Wide(tasks)) == multiset(c) + (if running == null then multiset{} else multiset{running})
    requires running != null ==> |tasks| == |c| + 1
    requires |tasks| <= capacity
    ensures Requeued(multiset(c), running, |c| < capacity) == multiset(Wide(tasks))
  {
    hide Wide;
  }

  /** One call of the heap, seen from the tasks: only the task handed back changes, and the task returned is a
      least one among all of them. */
  method CallHeap(heap: TaskHeap, prev: Task?, exec: nat, weight: nat, ghost tasks: seq<Task>) returns (best: Task)
    requires heap.Valid() && Distinct(tasks) && 0 < |tasks| <= heap.nodes.Length && Queued(heap, tasks, prev)
    modifies heap`size, heap.nodes, if prev != null then {prev} else {}
    ensures heap.Valid() && Queued(heap, tasks, best) && best in Wide(tasks)
    ensures prev != null ==>
      prev.vruntime == (old(prev.vruntime) + Charge(exec, weight, prev.baseWeight)) % TWO64
    ensures forall t :: t in Wide(tasks) && t != null ==> best.vruntime <= t.vruntime
  {
    hide Charge, Wide, Keys, Ordered, Distinct, Requeued;
    QueueFacts(heap.Contents(), tasks, prev);
    ghost var all := multiset(Wide(tasks));
    RequeuedAll(heap.Contents(), tasks, prev, heap.nodes.Length);
    best := SelectAndUpdate(heap, prev, exec, weight);
    assert best in all;
  }

  /** One call of the heap is one step of the selection rule. */
  method Call(heap: TaskHeap, prev: Task?, exec: nat, weight: nat, ghost tasks: seq<Task>, ghost s: Sys)
    returns (best: Task, ghost charge: nat, ghost s': Sys)
    requires heap.Valid() && Distinct(tasks) && 0 < |tasks| <= heap.nodes.Length && Queued(heap, tasks, prev)
    requires s.vr == Runtimes(tasks) && (prev == null <==> s.running.None?)
    requires prev != null ==> s.running.value < |tasks| && tasks[s.running.value] == prev
    requires prev != null ==> prev.vruntime + Charge(exec, weight, prev.baseWeight) < TWO64
    modifies heap`size, heap.nodes, if prev != null then {prev} else {}
    ensures heap.Valid() && Queued(heap, tasks, best) && s'.vr == Runtimes(tasks)
    ensures s'.running.Some? && s'.running.value < |tasks| && tasks[s'.running.value] == best
    ensures charge == if prev == null then 0 else Charge(exec, weight, prev.baseWeight)
    ensures Step(s, charge, s')
  {
    hide Charge, Runtimes, Wide, Keys, Ordered, Queued;
    charge := if prev == null then 0 else Charge(exec, weight, prev.baseWeight);
    best := CallHeap(heap, prev, exec, weight, tasks);
    ghost var r :| 0 <= r < |tasks| && Wide(tasks)[r] == best;
    ghost var vr := Charged(s, charge);
    forall i | 0 <= i < |tasks| ensures tasks[i].vruntime == vr[i] {
      if prev != null && i != s.running.value { assert tasks[i] != prev; }
    }
    forall j | 0 <= j < |tasks| ensures vr[r] <= vr[j] {
      assert Wide(tasks)[j] == tasks[j];
    }
    assert Runtimes(tasks) == vr;
    s' := Sys(vr, Some(r));
  }

  /** The task last returned, as the system state names it. */
  ghost predicate Current(s: Sys, tasks: seq<Task>, running: Task?) {
    && |s.vr| == |tasks|
    && (running == null <==> s.running.None?)
    && (running != null ==> s.running.value < |tasks| && tasks[s.running.value] == running)
  }

  /** The tasks returned so far are those the run names, and each charge after the first call is in range. */
  ghost predicate Traced(states: seq<Sys>, charges: seq<nat>, picks: seq<Task>, tasks: seq<Task>, d: nat) {
    && Run(states, charges) && |picks| == |charges|
    && (forall i :: 0 <= i < |charges| ==> charges[i] <= d && (i > 0 ==> 1 <= charges[i]))
    && (forall k :: 0 <= k < |picks| ==> Current(states[k + 1], tasks, picks[k]))
  }

  lemma GrowTrace(states: seq<Sys>, charges: seq<nat>, picks: seq<Task>, tasks: seq<Task>, d: nat,
                  charge: nat, s': Sys, pick: Task)
    requires Traced(states, charges, picks, tasks, d) && Step(states[|charges|], charge, s')
    requires charge <= d && (charges != [] ==> 1 <= charge) && Current(s', tasks, pick)
    ensures Traced(states + [s'], charges + [charge], picks + [pick], tasks, d)
  {
    hide Step, Current;
    var st, ch, pk := states + [s'], charges + [charge], picks + [pick];
    forall i | 0 <= i < |ch| ensures Step(st[i], ch[i], st[i + 1]) {
      if i < |charges| { assert Step(states[i], charges[i], states[i + 1]); }
    }
    forall k | 0 <= k < |pk| ensures Current(st[k + 1], tasks, pk[k]) {
      if k < |picks| { assert Current(states[k + 1], tasks, picks[k]); }
    }
  }

  /** No runtime has grown past its share of the calls made. */
  ghost predicate Grown(vr0: seq<nat>, vr: seq<nat>, n: nat, d: nat) {
    |vr| == |vr0| && forall i :: 0 <= i < |vr| ==> vr[i] <= vr0[i] + n * d
  }

  lemma GrowTimes(s: Sys, charge: nat, s': Sys, vr0: seq<nat>, n: nat, d: nat)
    requires Step(s, charge, s') && charge <= d && Grown(vr0, s.vr, n, d)
    ensures Grown(vr0, s'.vr, n + 1, d)
  {
    assert (n + 1) * d == n * d + d;
  }

  lemma NoWrap(v: nat, n: nat, total: nat, d: nat)
    requires v + total * d < TWO64 && n < total
    ensures v + n * d + d < TWO64
  {
    MulMono(n + 1, total, d);
    assert (n + 1) * d == n * d + d;
  }

  /** Each task can be charged for every call of the run without wrapping. */
  ghost predicate Headroom(vr0: seq<nat>, total: nat, d: nat) {
    forall i :: 0 <= i < |vr0| ==> vr0[i] + total * d < TWO64
  }

  /** After every call all runtimes lie within `d` of each other and the task returned has a least one. */
  ghost predicate FairThroughout(states: seq<Sys>, d: nat) {
    forall k :: 0 <= k < |states| ==>
      Spread(states[k].vr, d) && (k > 0 ==> states[k].running.Some? && IsMin(states[k].vr, states[k].running.value))
  }

  function Window(picks: seq<Task>, from: nat, n: nat): seq<Task>
    requires from + n <= |picks|
  {
    picks[from..from + n]
  }

  /** Every task is among those returned by any (n - 1) * (d + 1) + 1 successive calls. */
  ghost predicate AllServed(picks: seq<Task>, tasks: seq<Task>, d: nat)
    requires |tasks| > 0
  {
    var bound := (|tasks| - 1) * (d + 1) + 1;
    forall from, t :: 0 <= from <= from + bound <= |picks| && 0 <= t < |tasks| ==>
      tasks[t] in Window(picks, from, bound)
  }

  /** One more call of a run in progress. */
  method NextCall(heap: TaskHeap, prev: Task?, exec: nat, weight: nat, ghost tasks: seq<Task>, ghost s: Sys,
                  ghost vr0: seq<nat>, ghost n: nat, ghost total: nat, ghost d: nat)
    returns (best: Task, ghost charge: nat, ghost s': Sys)
    requires heap.Valid() && Distinct(tasks) && 0 < |tasks| <= heap.nodes.Length && Queued(heap, tasks, prev)
    requires s.vr == Runtimes(tasks) && Current(s, tasks, prev) && ChargesWithin(exec, weight, tasks, d)
    requires n < total && Headroom(vr0, total, d) && Grown(vr0, s.vr, n, d)
    modifies heap`size, heap.nodes, tasks
    ensures heap.Valid() && Queued(heap, tasks, best) && s'.vr == Runtimes(tasks) && Current(s', tasks, best)
    ensures charge <= d && (prev != null ==> 1 <= charge) && Step(s, charge, s') && Grown(vr0, s'.vr, n + 1, d)
    ensures prev != null ==> ChargedFor(exec, weight, prev.baseWeight, charge)
  {
    hide Charge, ChargedFor, WorkWithin, Runtimes, Wide, Keys, Ordered, Queued, Distinct;
    if prev != null {
      var r := s.running.value;
      NoWrap(vr0[r], n, total, d);
      assert prev in tasks;
      ChargeWithin(exec, weight, prev.baseWeight, d);
    }
    best, charge, s' := Call(heap, prev, exec, weight, tasks, s);
    GrowTimes(s, charge, s', vr0, n, d);
  }

  lemma GrownZero(vr0: seq<nat>, d: nat)
    ensures Grown(vr0, vr0, 0, d)
  {
  }

  lemma RunFacts(states: seq<Sys>, charges: seq<nat>, picks: seq<Task>, tasks: seq<Task>, d: nat)
    requires Traced(states, charges, picks, tasks, d) && Spread(states[0].vr, d) && |states[0].vr| == |tasks| > 0
    ensures FairThroughout(states, d) && AllServed(picks, tasks, d)
  {
    hide Spread, Step;
    forall k | 0 <= k < |states|
      ensures Spread(states[k].vr, d)
      ensures k > 0 ==> states[k].running.Some? && IsMin(states[k].vr, states[k].running.value)
    {
      RunIsFair(states, charges, d, k);
    }
    var bound := (|tasks| - 1) * (d + 1) + 1;
    forall from, t | 0 <= from <= from + bound <= |picks| && 0 <= t < |tasks|
      ensures tasks[t] in Window(picks, from, bound)
    {
      NoStarvation(states, charges, d, t, from);
      var i :| from < i <= from + bound && states[i].running == Some(t);
      assert Current(states[i], tasks, picks[i - 1]);
      assert Window(picks, from, bound)[i - 1 - from] == tasks[t];
    }
  }

  // ---------------------------------------------------------------- weighted share

  /** The work, execution time times system weight, of the calls before `k` that charged task `i`. */
  ghost function Work(states: seq<Sys>, calls: seq<(nat, nat)>, i: nat, k: nat): nat
    requires k <= |calls| && k <= |states|
  {
    if k == 0 then 0
    else
      Work(states, calls, i, k - 1) +
      if states[k - 1].running == Some(i) then calls[k - 1].0 * calls[k - 1].1 else 0
  }

  /** How many of the calls before `k` charged task `i`. */
  ghost function Turns(states: seq<Sys>, i: nat, k: nat): nat
    requires k <= |states|
  {
    if k == 0 then 0 else Turns(states, i, k - 1) + if states[k - 1].running == Some(i) then 1 else 0
  }

  /** Each call charged the task handed back by the work of the call over that task's weight. */
  ghost predicate ChargedTrace(states: seq<Sys>, charges: seq<nat>, calls: seq<(nat, nat)>, tasks: seq<Task>) {
    && |charges| <= |calls| && |states| == |charges| + 1
    && forall m :: 0 <= m < |charges| && states[m].running.Some? ==>
         && states[m].running.value < |tasks|
         && ChargedFor(calls[m].0, calls[m].1, tasks[states[m].running.value].baseWeight, charges[m])
  }

  /** `gained` units of weight `w` account for the work, up to one unit for each of the turns. */
  predicate Served(w: nat, gained: int, turns: nat, work: nat) {
    w * gained <= work <= w * (gained + turns)
  }

  lemma ServedNext(w: nat, gained: nat, turns: nat, work: nat, c: nat, more: nat)
    requires Served(w, gained, turns, work) && w * c <= more < w * (c + 1)
    ensures Served(w, gained + c, turns + 1, work + more)
  {
    assert w * (gained + c) == w * gained + w * c;
    assert w * (gained + c + (turns + 1)) == w * (gained + turns) + w * (c + 1);
  }

  /** A task's weight; without a positive one it counts as 1. */
  function WeightOf(t: Task): (w: nat)
    ensures w > 0
  {
    if t.baseWeight > 0 then t.baseWeight else 1
  }

  lemma WorkOfCharge(exec: nat, weight: nat, baseWeight: int, c: nat)
    requires exec * weight < TWO64 && ChargedFor(exec, weight, baseWeight, c)
    ensures var w := if baseWeight > 0 then baseWeight else 1; w * c <= exec * weight < w * (c + 1)
  {
  }

  lemma ServedByCharge(t: Task, gained: nat, turns: nat, work: nat, c: nat, call: (nat, nat))
    requires Served(WeightOf(t), gained, turns, work)
    requires call.0 * call.1 < TWO64 && ChargedFor(call.0, call.1, t.baseWeight, c)
    ensures Served(WeightOf(t), gained + c, turns + 1, work + call.0 * call.1)
  {
    hide Served;
    WorkOfCharge(call.0, call.1, t.baseWeight, c);
    ServedNext(WeightOf(t), gained, turns, work, c, call.0 * call.1);
  }

  lemma StepGain(s: Sys, charge: nat, s': Sys, i: nat)
    requires Step(s, charge, s') && i < |s.vr|
    ensures |s'.vr| == |s.vr|
    ensures s'.vr[i] == if s.running == Some(i) then s.vr[i] + charge else s.vr[i]
  {
  }

  lemma NothingServed(w: nat)
    ensures Served(w, 0, 0, 0)
  {
  }

  ghost predicate AllSmall(calls: seq<(nat, nat)>) { forall m :: 0 <= m < |calls| ==> calls[m].0 * calls[m].1 < TWO64 }

  /** What a task has gained in virtual runtime is its work over its weight, up to one unit per charge. */
  lemma {:induction false} GainIsWork(states: seq<Sys>, charges: seq<nat>, calls: seq<(nat, nat)>, tasks: seq<Task>,
                                      i: nat, k: nat)
    requires Run(states, charges) && ChargedTrace(states, charges, calls, tasks) && k <= |charges|
    requires i < |tasks| == |states[0].vr| && AllSmall(calls)
    ensures |states[k].vr| == |states[0].vr| && states[0].vr[i] <= states[k].vr[i]
    ensures Served(WeightOf(tasks[i]), states[k].vr[i] - states[0].vr[i], Turns(states, i, k),
                   Work(states, calls, i, k))
  {
    hide Step, ChargedFor, Served;
    if k == 0 {
      NothingServed(WeightOf(tasks[i]));
    } else {
      GainIsWork(states, charges, calls, tasks, i, k - 1);
      assert Step(states[k - 1], charges[k - 1], states[k]);
      StepGain(states[k - 1], charges[k - 1], states[k], i);
      if states[k - 1].running == Some(i) {
        ServedByCharge(tasks[i], states[k - 1].vr[i] - states[0].vr[i], Turns(states, i, k - 1),
                       Work(states, calls, i, k - 1), charges[k - 1], calls[k - 1]);
      }
    }
  }

  lemma CrossShares(wi: nat, wj: nat, ni: int, nj: int, worki: nat, workj: nat, slack: int)
    requires wi >= 1 && wj >= 1 && worki <= wi * ni && wj * nj <= workj && ni <= nj + slack
    ensures wj * worki <= wi * workj + wi * wj * slack
  {
    assert wj * worki <= wj * (wi * ni) by { assert wj * (wi * ni - worki) >= 0; }
    assert wi * (wj * nj) <= wi * workj by { assert wi * (workj - wj * nj) >= 0; }
    var w := wi * wj;
    assert wj * (wi * ni) == w * ni && wi * (wj * nj) == w * nj;
    assert w * ni <= w * (nj + slack) by { assert w * (nj + slack - ni) >= 0; }
  }

  /** Task `i` is not ahead of task `j` in work per weight by more than their starting gap, `d` and one unit per charge:
      work over weight, cross-multiplied. */
  ghost predicate ShareBound(states: seq<Sys>, calls: seq<(nat, nat)>, tasks: seq<Task>, d: nat, i: nat, j: nat, k: nat)
    requires k <= |calls| && k <= |states| && i < |tasks| && j < |tasks| && |states| > 0 && |states[0].vr| == |tasks|
  {
    var wi, wj := WeightOf(tasks[i]), WeightOf(tasks[j]);
    wj * Work(states, calls, i, k) <=
    wi * Work(states, calls, j, k) + wi * wj * (states[0].vr[j] - states[0].vr[i] + d + Turns(states, i, k))
  }

  /** The share of every task is in proportion to its weight over every prefix of a run. */
  lemma WeightedShare(states: seq<Sys>, charges: seq<nat>, calls: seq<(nat, nat)>, tasks: seq<Task>, d: nat, i: nat,
                      j: nat, k: nat)
    requires Run(states, charges) && ChargedTrace(states, charges, calls, tasks) && k <= |charges|
    requires i < |tasks| && j < |tasks| && |tasks| == |states[0].vr| && Spread(states[0].vr, d)
    requires AllSmall(calls) && forall m :: 0 <= m < |charges| ==> charges[m] <= d
    ensures ShareBound(states, calls, tasks, d, i, j, k)
  {
    hide Step, ChargedFor, Work, Turns;
    RunIsFair(states, charges, d, k);
    GainIsWork(states, charges, calls, tasks, i, k);
    GainIsWork(states, charges, calls, tasks, j, k);
    var wi, wj := WeightOf(tasks[i]), WeightOf(tasks[j]);
    CrossShares(wi, wj, states[k].vr[i] - states[0].vr[i] + Turns(states, i, k), states[k].vr[j] - states[0].vr[j],
                Work(states, calls, i, k), Work(states, calls, j, k),
                states[0].vr[j] - states[0].vr[i] + d + Turns(states, i, k));
  }

  ghost predicate AllShares(states: seq<Sys>, calls: seq<(nat, nat)>, tasks: seq<Task>, d: nat)
    requires |states| == |calls| + 1 && |states[0].vr| == |tasks|
  {
    forall i, j, k :: 0 <= i < |tasks| && 0 <= j < |tasks| && 0 <= k <= |calls| ==>
      ShareBound(states, calls, tasks, d, i, j, k)
  }

  lemma SharesHold(states: seq<Sys>, charges: seq<nat>, calls: seq<(nat, nat)>, picks: seq<Task>, tasks: seq<Task>,
                   d: nat)
    requires Traced(states, charges, picks, tasks, d) && |charges| == |calls| && Spread(states[0].vr, d)
    requires ChargedTrace(states, charges, calls, tasks) && |states[0].vr| == |tasks|
    requires forall m :: 0 <= m < |calls| ==> ChargesWithin(calls[m].0, calls[m].1, tasks, d)
    ensures AllShares(states, calls, tasks, d)
  {
    hide ShareBound, ChargedTrace, Spread, Step, Current;
    forall i, j, k | 0 <= i < |tasks| && 0 <= j < |tasks| && 0 <= k <= |calls|
      ensures ShareBound(states, calls, tasks, d, i, j, k)
    {
      WeightedShare(states, charges, calls, tasks, d, i, j, k);
    }
  }

  lemma GrowCharged(states: seq<Sys>, charges: seq<nat>, calls: seq<(nat, nat)>, tasks: seq<Task>, charge: nat, s': Sys)
    requires ChargedTrace(states, charges, calls, tasks) && |charges| < |calls|
    requires var s, c := states[|charges|], calls[|charges|];
             s.running.Some? ==>
               s.running.value < |tasks| && ChargedFor(c.0, c.1, tasks[s.running.value].baseWeight, charge)
    ensures ChargedTrace(states + [s'], charges + [charge], calls, tasks)
  {
    hide ChargedFor;
  }

  lemma NothingCharged(states: seq<Sys>, calls: seq<(nat, nat)>, tasks: seq<Task>)
    requires |states| == 1
    ensures ChargedTrace(states, [], calls, tasks)
  {
  }

  /** A whole run on the heap: `calls` lists execution time and system weight of each call, and each call hands
      back the task last returned. Its trace is a run of the selection rule, so it is fair throughout, and every
      task is returned by any (n - 1) * (d + 1) + 1 successive calls, and all tasks share the work by weight. */
  method Drive(heap: TaskHeap, calls: seq<(nat, nat)>, ghost tasks: seq<Task>, ghost d: nat)
    returns (picks: seq<Task>, ghost states: seq<Sys>, ghost charges: seq<nat>)
    requires heap.Valid() && Distinct(tasks) && 0 < |tasks| <= heap.nodes.Length && Queued(heap, tasks, null)
    requires Spread(Runtimes(tasks), d) && Headroom(Runtimes(tasks), |calls|, d)
    requires forall i :: 0 <= i < |calls| ==> ChargesWithin(calls[i].0, calls[i].1, tasks, d)
    modifies heap`size, heap.nodes, tasks
    ensures heap.Valid() && |picks| == |calls| && Traced(states, charges, picks, tasks, d)
    ensures states[0].vr == old(Runtimes(tasks)) && states[|calls|].vr == Runtimes(tasks)
    ensures FairThroughout(states, d) && AllServed(picks, tasks, d)
    ensures ChargedTrace(states, charges, calls, tasks) && AllShares(states, calls, tasks, d)
  {
    hide Charge, ChargedFor, Runtimes, Wide, Keys, Ordered, Queued, Distinct, ChargesWithin, Spread, Grown, Headroom,
         Step, FairThroughout, AllServed, AllShares, ChargedTrace;
    var prev: Task? := null;
    picks, charges := [], [];
    ghost var vr0 := Runtimes(tasks);
    states := [Sys(vr0, None)];
    assert Grown(vr0, vr0, 0, d) by { GrownZero(vr0, d); }
    assert ChargedTrace(states, charges, calls, tasks) by { NothingCharged(states, calls, tasks); }
    while |picks| < |calls|
      invariant heap.Valid() && |picks| <= |calls| && Traced(states, charges, picks, tasks, d)
      invariant states[0].vr == vr0 && states[|picks|].vr == Runtimes(tasks) && Current(states[|picks|], tasks, prev)
      invariant Queued(heap, tasks, prev) && Grown(vr0, states[|picks|].vr, |picks|, d)
      invariant picks != [] ==> prev != null
      invariant ChargedTrace(states, charges, calls, tasks)
      decreases |calls| - |picks|
    {
      var (exec, weight) := calls[|picks|];
      ghost var charge, s';
      prev, charge, s' := NextCall(heap, prev, exec, weight, tasks, states[|picks|], vr0, |picks|, |calls|, d);
      GrowTrace(states, charges, picks, tasks, d, charge, s', prev);
      GrowCharged(states, charges, calls, tasks, charge, s');
      states, charges, picks := states + [s'], charges + [charge], picks + [prev];
    }
    RunFacts(states, charges, picks, tasks, d);
    SharesHold(states, charges, calls, picks, tasks, d);
  }
}
