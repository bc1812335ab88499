/** The lock-based 64-bit atomics of 32-bit targets, as interleaved steps. A 64-bit access is two 32-bit
    accesses, so without the lock values would tear; every schedule of every number of threads is covered. */
module Atomic64 {
  import opened Bytes

  type Word = bv64

  datatype Cell = Cell(hi: bv32, lo: bv32)

  function Lo(w: Word): bv32 { (w & 0xFFFF_FFFF) as bv32 }

  function Hi(w: Word): bv32 { (w >> 32) as bv32 }

  function Join(hi: bv32, lo: bv32): Word { ((hi as bv64) << 32) | (lo as bv64) }

  function Split(w: Word): Cell { Cell(Hi(w), Lo(w)) }

  lemma JoinSplit(w: Word)
    ensures Join(Hi(w), Lo(w)) == w
  {
  }

  // ------------------------------------------------------------ sequential meaning

  datatype Op =
    | Load
    | Store(v: Word)
    | FetchAdd(v: Word)
    | AddFetch(v: Word)
    | FetchOr(v: Word)
    | FetchAnd(v: Word)
    | Exchange(v: Word)
    | CompareExchange(expected: Word, desired: Word)

  /** What one call does: the new word, the value returned, and what `expected` holds afterwards. */
  datatype Effect = Effect(value: Word, returned: Word, expectedAfter: Word)

  const TRUE: Word := 1
  const FALSE: Word := 0

  /** 64-bit addition, wrapping. */
  function Plus(x: Word, y: Word): Word { x + y }

  function Apply(op: Op, cur: Word): Effect {
    match op
    case Load => Effect(cur, cur, 0)
    case Store(v) => Effect(v, 0, 0)
    case FetchAdd(v) => Effect(Plus(cur, v), cur, 0)
    case AddFetch(v) => Effect(Plus(cur, v), Plus(cur, v), 0)
    case FetchOr(v) => Effect(cur | v, cur, 0)
    case FetchAnd(v) => Effect(cur & v, cur, 0)
    case Exchange(v) => Effect(v, cur, 0)
    case CompareExchange(e, d) => if cur == e then Effect(d, TRUE, e) else Effect(cur, FALSE, cur)
  }

  /** Whether the call stores through the pointer. */
  predicate Writes(op: Op, cur: Word) {
    match op
    case Load => false
    case CompareExchange(e, d) => cur == e
    case _ => true
  }

  datatype Call = Call(addr: nat, op: Op)

  /** A call in lock order, with the time it took the lock. */
  datatype Entry = Entry(tid: nat, call: Call, time: nat)

  type Memory = map<nat, Word>

  /** The calls of a log executed one after the other. */
  function Sequential(init: Memory, log: seq<Entry>): (m: Memory)
    requires forall i :: 0 <= i < |log| ==> log[i].call.addr in init
    ensures m.Keys == init.Keys
  {
    if log == [] then init
    else
      var m, c := Sequential(init, log[..|log| - 1]), log[|log| - 1].call;
      m[c.addr := Apply(c.op, m[c.addr]).value]
  }

  /** What the `k`-th call of the log yields in the sequential execution. */
  function Expected(init: Memory, log: seq<Entry>, k: nat): Effect
    requires k < |log| && forall i :: 0 <= i < |log| ==> log[i].call.addr in init
  {
    Apply(log[k].call.op, Sequential(init, log[..k])[log[k].call.addr])
  }

  function Cells(m: Memory): map<nat, Cell> { map a | a in m :: Split(m[a]) }

  // -------------------------------------------------------------------- the machine

  /** Where a thread stands in a call. `invoked` is the time of the call, `at` its place in the log. */
  datatype Pc =
    | Idle
    | Spin(call: Call, invoked: nat)
    | Held(call: Call, invoked: nat, at: nat)
    | GotLo(call: Call, invoked: nat, at: nat, lo: bv32)
    | Loaded(call: Call, invoked: nat, at: nat, cur: Word)
    | WroteLo(call: Call, invoked: nat, at: nat, eff: Effect)
    | Done(call: Call, invoked: nat, at: nat, eff: Effect)
    | Released(call: Call, invoked: nat, at: nat, eff: Effect)

  /** A completed call. */
  datatype Response = Response(tid: nat, call: Call, eff: Effect, at: nat, invoked: nat, responded: nat)

  /** `holder`, `log`, `history` and `clock` are auxiliary: no step reads them to decide anything shared. */
  datatype State = State(lock: bool, mem: map<nat, Cell>, threads: map<nat, Pc>,
                         holder: Option<nat>, log: seq<Entry>, history: seq<Response>, clock: nat)

  datatype Action = Invoke(call: Call) | TestAndSet | ReadLo | ReadHi | WriteLo | WriteHi | Clear | Return

  function PcOf(s: State, t: nat): Pc { if t in s.threads then s.threads[t] else Idle }

  function Move(s: State, t: nat, pc: Pc): State {
    s.(threads := s.threads[t := pc], clock := s.clock + 1)
  }

  /** Effect of the value read, or of a store that reads nothing. */
  function EffectAt(pc: Pc): Option<Effect> {
    match pc
    case Held(call, _, _) => if call.op.Store? then Some(Apply(call.op, 0)) else None
    case Loaded(call, _, _, cur) => Some(Apply(call.op, cur))
    case _ => None
  }

  /** One step of thread `t`; `None` when the action is not the thread's next one. A test-and-set that finds
      the lock taken changes nothing but the time. */
  function Step(s: State, t: nat, a: Action): Option<State> {
    var pc := PcOf(s, t);
    match a
    case Invoke(call) =>
      if pc.Idle? && call.addr in s.mem then Some(Move(s, t, Spin(call, s.clock))) else None
    case TestAndSet =>
      if !pc.Spin? then None
      else if s.lock then Some(Move(s, t, pc))
      else Some(Move(s, t, Held(pc.call, pc.invoked, |s.log|))
                .(lock := true, holder := Some(t), log := s.log + [Entry(t, pc.call, s.clock)]))
    case ReadLo =>
      if pc.Held? && !pc.call.op.Store? && pc.call.addr in s.mem
      then Some(Move(s, t, GotLo(pc.call, pc.invoked, pc.at, s.mem[pc.call.addr].lo))) else None
    case ReadHi =>
      if pc.GotLo? && pc.call.addr in s.mem then
        var cur := Join(s.mem[pc.call.addr].hi, pc.lo);
        Some(Move(s, t, if Writes(pc.call.op, cur) then Loaded(pc.call, pc.invoked, pc.at, cur)
                        else Done(pc.call, pc.invoked, pc.at, Apply(pc.call.op, cur))))
      else None
    case WriteLo =>
      if EffectAt(pc).Some? && pc.call.addr in s.mem then
        var e := EffectAt(pc).value;
        Some(Move(s, t, WroteLo(pc.call, pc.invoked, pc.at, e))
             .(mem := s.mem[pc.call.addr := Cell(s.mem[pc.call.addr].hi, Lo(e.value))]))
      else None
    case WriteHi =>
      if pc.WroteLo? && pc.call.addr in s.mem then
        Some(Move(s, t, Done(pc.call, pc.invoked, pc.at, pc.eff))
             .(mem := s.mem[pc.call.addr := Cell(Hi(pc.eff.value), s.mem[pc.call.addr].lo)]))
      else None
    case Clear =>
      if pc.Done? then Some(Move(s, t, Released(pc.call, pc.invoked, pc.at, pc.eff)).(lock := false, holder := None))
      else None
    case Return =>
      if pc.Released? then
        Some(Move(s, t, Idle)
             .(history := s.history + [Response(t, pc.call, pc.eff, pc.at, pc.invoked, s.clock)]))
      else None
  }

  function Start(init: Memory): State {
    State(false, Cells(init), map[], None, [], [], 0)
  }

  /** The state a schedule reaches, if every action in it is enabled. */
  function Execute(init: Memory, schedule: seq<(nat, Action)>): Option<State> {
    if schedule == [] then Some(Start(init))
    else
      var n := |schedule| - 1;
      match Execute(init, schedule[..n])
      case None => None
      case Some(s) => Step(s, schedule[n].0, schedule[n].1)
  }

  // ------------------------------------------------------------------ the invariant

  predicate InSection(pc: Pc) { pc.Held? || pc.GotLo? || pc.Loaded? || pc.WroteLo? || pc.Done? }

  predicate Logged(init: Memory, log: seq<Entry>) {
    forall i :: 0 <= i < |log| ==> log[i].call.addr in init
  }

  /** The word a logged call finds. */
  function Found(init: Memory, log: seq<Entry>, at: nat): Word
    requires Logged(init, log) && at < |log|
  {
    Sequential(init, log[..at])[log[at].call.addr]
  }

  /** What a thread has read or computed agrees with the sequential execution of the log. */
  predicate PcOk(init: Memory, log: seq<Entry>, clock: nat, t: nat, pc: Pc)
    requires Logged(init, log)
  {
    && (pc.Spin? ==> pc.call.addr in init && pc.invoked < clock)
    && (InSection(pc) || pc.Released? ==>
         && pc.at < |log| && log[pc.at].tid == t && log[pc.at].call == pc.call
         && pc.invoked < log[pc.at].time)
    && (InSection(pc) ==> pc.at == |log| - 1)
    && (pc.GotLo? ==> pc.lo == Lo(Found(init, log, pc.at)) && !pc.call.op.Store?)
    && (pc.Loaded? ==> pc.cur == Found(init, log, pc.at) && Writes(pc.call.op, pc.cur))
    && (pc.WroteLo? || pc.Done? || pc.Released? ==> pc.eff == Expected(init, log, pc.at))
  }

  /** Memory as the holder of the lock leaves it step by step. */
  predicate MemOk(init: Memory, s: State)
    requires Logged(init, s.log)
  {
    match s.holder
    case None => s.mem == Cells(Sequential(init, s.log))
    case Some(t) =>
      var pc, n := PcOf(s, t), |s.log| - 1;
      && n >= 0
      && (pc.Held? || pc.GotLo? || pc.Loaded? ==> s.mem == Cells(Sequential(init, s.log[..n])))
      && (pc.WroteLo? ==>
           var base, a := Cells(Sequential(init, s.log[..n])), s.log[n].call.addr;
           a in base && s.mem == base[a := Cell(base[a].hi, Lo(pc.eff.value))])
      && (pc.Done? ==> s.mem == Cells(Sequential(init, s.log)))
  }

  /** Every completed call took effect between its invocation and its response, as the log says. */
  predicate ResponseOk(init: Memory, log: seq<Entry>, clock: nat, r: Response)
    requires Logged(init, log)
  {
    && r.at < |log| && log[r.at].tid == r.tid && log[r.at].call == r.call
    && r.eff == Expected(init, log, r.at)
    && r.invoked < log[r.at].time < r.responded < clock
  }

  predicate LogOk(s: State) {
    && (forall i :: 0 <= i < |s.log| ==> s.log[i].time < s.clock)
    && (forall i, j :: 0 <= i < j < |s.log| ==> s.log[i].time < s.log[j].time)
  }

  predicate InFlight(pc: Pc) { InSection(pc) || pc.Released? }

  ghost predicate ResponsesOk(init: Memory, s: State)
    requires Logged(init, s.log)
  {
    forall i :: 0 <= i < |s.history| ==> ResponseOk(init, s.log, s.clock, s.history[i])
  }

  /** A thread's completed calls stand in the log in the order they completed. */
  ghost predicate InOrder(history: seq<Response>) {
    forall i, j :: 0 <= i < j < |history| && history[i].tid == history[j].tid ==> history[i].at < history[j].at
  }

  /** A thread's completed calls come before the one it is in. */
  ghost predicate BeforeFlight(history: seq<Response>, threads: map<nat, Pc>) {
    forall i :: 0 <= i < |history| && history[i].tid in threads && InFlight(threads[history[i].tid]) ==>
      history[i].at < threads[history[i].tid].at
  }

  predicate SectionOk(s: State) {
    && (s.lock <==> s.holder.Some?)
    && (forall t :: t in s.threads ==> (InSection(s.threads[t]) <==> s.holder == Some(t)))
    && (s.holder.Some? ==> s.holder.value in s.threads)
  }

  ghost predicate ThreadsOk(init: Memory, s: State)
    requires Logged(init, s.log)
  {
    forall t :: t in s.threads ==> PcOk(init, s.log, s.clock, t, s.threads[t])
  }

  ghost predicate Inv(init: Memory, s: State) {
    && Logged(init, s.log)
    && s.mem.Keys == init.Keys
    && SectionOk(s)
    && ThreadsOk(init, s)
    && MemOk(init, s)
    && LogOk(s)
    && ResponsesOk(init, s)
    && InOrder(s.history)
    && BeforeFlight(s.history, s.threads)
  }

  // --------------------------------------------------------------------- log growth

  lemma PrefixStable(init: Memory, log: seq<Entry>, e: Entry, k: nat)
    requires Logged(init, log) && e.call.addr in init && k < |log|
    ensures Logged(init, log + [e])
    ensures Expected(init, log + [e], k) == Expected(init, log, k)
    ensures Found(init, log + [e], k) == Found(init, log, k)
  {
    assert (log + [e])[..k] == log[..k];
  }

  lemma GrowPc(init: Memory, log: seq<Entry>, e: Entry, clock: nat, t: nat, pc: Pc)
    requires Logged(init, log) && e.call.addr in init && PcOk(init, log, clock, t, pc) && !InSection(pc)
    ensures Logged(init, log + [e]) && PcOk(init, log + [e], clock + 1, t, pc)
  {
    if pc.Released? { PrefixStable(init, log, e, pc.at); }
  }

  lemma GrowResponse(init: Memory, log: seq<Entry>, e: Entry, clock: nat, r: Response)
    requires Logged(init, log) && e.call.addr in init && ResponseOk(init, log, clock, r)
    ensures Logged(init, log + [e]) && ResponseOk(init, log + [e], clock + 1, r)
  {
    PrefixStable(init, log, e, r.at);
  }

  // --------------------------------------------------------------- steps keep it

  lemma ThreadsLater(init: Memory, s: State, t: nat, pc: Pc, s': State)
    requires Logged(init, s.log) && ThreadsOk(init, s) && PcOk(init, s.log, s.clock + 1, t, pc)
    requires s'.log == s.log && s'.clock == s.clock + 1 && s'.threads == s.threads[t := pc]
    ensures ThreadsOk(init, s')
  {
    hide Expected, Found;
    forall u | u in s'.threads ensures PcOk(init, s'.log, s'.clock, u, s'.threads[u]) {
      if u != t { assert PcOk(init, s.log, s.clock, u, s.threads[u]); }
    }
  }

  lemma ResponsesLater(init: Memory, s: State, s': State)
    requires Logged(init, s.log) && ResponsesOk(init, s) && s'.log == s.log && s'.history == s.history
    requires s'.clock == s.clock + 1
    ensures ResponsesOk(init, s')
  {
    hide Expected;
    forall i | 0 <= i < |s.history| ensures ResponseOk(init, s'.log, s'.clock, s.history[i]) {
      assert ResponseOk(init, s.log, s.clock, s.history[i]);
    }
  }

  /** A step of `t` that touches neither lock, log nor history keeps every other thread's facts. */
  lemma LocalStep(init: Memory, s: State, t: nat, pc: Pc, s': State)
    requires Inv(init, s) && s' == Move(s, t, pc).(mem := s'.mem) && s'.mem.Keys == init.Keys
    requires PcOk(init, s.log, s.clock + 1, t, pc)
    requires InSection(pc) <==> InSection(PcOf(s, t))
    requires InFlight(pc) ==> InFlight(PcOf(s, t)) && PcOf(s, t).at == pc.at
    requires MemOk(init, s')
    ensures Inv(init, s')
  {
    hide PcOk, MemOk, ResponseOk, ThreadsOk, ResponsesOk;
    ThreadsLater(init, s, t, pc, s');
    ResponsesLater(init, s, s');
  }

  /** A thread that does not hold the lock moves without touching what is said of memory. */
  lemma MemMoved(init: Memory, s: State, t: nat, pc: Pc)
    requires Logged(init, s.log) && MemOk(init, s) && s.holder != Some(t)
    ensures MemOk(init, Move(s, t, pc))
  {
    hide Sequential, Cells;
  }

  lemma StepInvoke(init: Memory, s: State, t: nat, call: Call)
    requires Inv(init, s) && Step(s, t, Invoke(call)).Some?
    ensures Inv(init, Step(s, t, Invoke(call)).value)
  {
    hide Sequential, Expected, Found, Cells, MemOk, ThreadsOk, LogOk, ResponsesOk, InOrder, BeforeFlight;
    var pc := Spin(call, s.clock);
    assert s.holder != Some(t);
    MemMoved(init, s, t, pc);
    LocalStep(init, s, t, pc, Move(s, t, pc));
  }

  lemma StepSpin(init: Memory, s: State, t: nat)
    requires Inv(init, s) && PcOf(s, t).Spin? && s.lock
    ensures Inv(init, Step(s, t, TestAndSet).value)
  {
    LocalStep(init, s, t, PcOf(s, t), Move(s, t, PcOf(s, t)));
  }

  lemma SpinFacts(init: Memory, s: State, t: nat)
    requires Logged(init, s.log) && ThreadsOk(init, s) && t in s.threads && s.threads[t].Spin?
    ensures s.threads[t].call.addr in init && s.threads[t].invoked < s.clock
  {
    assert PcOk(init, s.log, s.clock, t, s.threads[t]);
  }

  lemma AcquireThreads(init: Memory, s: State, t: nat, e: Entry, s': State)
    requires Inv(init, s) && t in s.threads && s.threads[t].Spin? && !s.lock
    requires e == Entry(t, s.threads[t].call, s.clock) && e.call.addr in init && s.threads[t].invoked < s.clock
    requires s'.log == s.log + [e] && s'.clock == s.clock + 1
    requires s'.threads == s.threads[t := Held(e.call, s.threads[t].invoked, |s.log|)]
    ensures Logged(init, s'.log) && ThreadsOk(init, s')
  {
    hide Expected, Found, MemOk, LogOk, ResponsesOk, InOrder, BeforeFlight;
    forall u | u in s'.threads ensures PcOk(init, s'.log, s'.clock, u, s'.threads[u]) {
      if u != t {
        assert PcOk(init, s.log, s.clock, u, s.threads[u]);
        GrowPc(init, s.log, e, s.clock, u, s.threads[u]);
      }
    }
  }

  lemma AcquireFlight(init: Memory, s: State, t: nat, s': State)
    requires Logged(init, s.log) && ResponsesOk(init, s) && BeforeFlight(s.history, s.threads)
    requires t in s.threads && s'.history == s.history
    requires exists pc: Pc :: pc.Held? && pc.at == |s.log| && s'.threads == s.threads[t := pc]
    ensures BeforeFlight(s'.history, s'.threads)
  {
    hide Expected;
    forall i | 0 <= i < |s.history| && s.history[i].tid == t ensures s.history[i].at < |s.log| {
      assert ResponseOk(init, s.log, s.clock, s.history[i]);
    }
  }

  lemma ResponsesGrow(init: Memory, s: State, e: Entry, s': State)
    requires Logged(init, s.log) && ResponsesOk(init, s) && e.call.addr in init
    requires s'.log == s.log + [e] && s'.clock == s.clock + 1 && s'.history == s.history
    ensures Logged(init, s'.log) && ResponsesOk(init, s')
  {
    hide Expected, Found;
    forall i | 0 <= i < |s.history| ensures ResponseOk(init, s'.log, s'.clock, s.history[i]) {
      GrowResponse(init, s.log, e, s.clock, s.history[i]);
    }
  }

  lemma StepAcquire(init: Memory, s: State, t: nat)
    requires Inv(init, s) && PcOf(s, t).Spin? && !s.lock
    ensures Inv(init, Step(s, t, TestAndSet).value)
  {
    hide PcOk, ResponseOk, Expected, Found, Sequential, ThreadsOk, ResponsesOk, Cells;
    var pc := s.threads[t];
    var e := Entry(t, pc.call, s.clock);
    var s' := Step(s, t, TestAndSet).value;
    SpinFacts(init, s, t);
    assert s'.log == s.log + [e] && s'.log[..|s.log|] == s.log;
    AcquireThreads(init, s, t, e, s');
    AcquireFlight(init, s, t, s');
    ResponsesGrow(init, s, e, s');
  }

  lemma CellsLo(m: Memory, a: nat)
    requires a in m
    ensures Cells(m)[a] == Cell(Hi(m[a]), Lo(m[a]))
  {
  }

  lemma CellKeys(m: Memory)
    ensures Cells(m).Keys == m.Keys
  {
  }

  lemma CellsUpdate(m: Memory, a: nat, w: Word)
    requires a in m
    ensures Cells(m[a := w]) == Cells(m)[a := Cell(Hi(w), Lo(w))]
  {
    hide Hi, Lo;
  }

  /** Writing the high half after the low half completes the word. */
  lemma WordComplete(base: Memory, a: nat, w: Word, mem: map<nat, Cell>)
    requires a in base && a in Cells(base) && mem == Cells(base)[a := Cell(Cells(base)[a].hi, Lo(w))]
    ensures mem[a := Cell(Hi(w), mem[a].lo)] == Cells(base[a := w])
  {
    hide Hi, Lo, Cells;
    CellsUpdate(base, a, w);
  }

  lemma StepReadLo(init: Memory, s: State, t: nat)
    requires Inv(init, s) && Step(s, t, ReadLo).Some?
    ensures Inv(init, Step(s, t, ReadLo).value)
  {
    hide Lo, Hi, Sequential;
    var pc, n := s.threads[t], |s.log| - 1;
    CellsLo(Sequential(init, s.log[..n]), pc.call.addr);
    LocalStep(init, s, t, GotLo(pc.call, pc.invoked, pc.at, s.mem[pc.call.addr].lo), Step(s, t, ReadLo).value);
  }

  lemma SequentialStep(init: Memory, log: seq<Entry>)
    requires log != [] && Logged(init, log)
    ensures var n := |log| - 1; var base := Sequential(init, log[..n]);
            Sequential(init, log) == base[log[n].call.addr := Expected(init, log, n).value]
  {
  }

  lemma NoWriteKeeps(init: Memory, log: seq<Entry>)
    requires log != [] && Logged(init, log)
    requires !Writes(log[|log| - 1].call.op, Found(init, log, |log| - 1))
    ensures Sequential(init, log) == Sequential(init, log[..|log| - 1])
  {
    SequentialStep(init, log);
  }

  lemma StepReadHi(init: Memory, s: State, t: nat)
    requires Inv(init, s) && Step(s, t, ReadHi).Some?
    ensures Inv(init, Step(s, t, ReadHi).value)
  {
    hide Lo, Hi, Join, Sequential, Apply;
    var pc, n, s' := s.threads[t], |s.log| - 1, Step(s, t, ReadHi).value;
    var cur := Found(init, s.log, n);
    CellsLo(Sequential(init, s.log[..n]), pc.call.addr);
    JoinSplit(cur);
    if !Writes(pc.call.op, cur) { NoWriteKeeps(init, s.log); }
    LocalStep(init, s, t, s'.threads[t], s');
  }

  lemma StoreIgnoresOld(op: Op, cur: Word)
    requires op.Store?
    ensures Apply(op, 0) == Apply(op, cur)
  {
  }

  /** What a thread about to store its low half knows. */
  lemma WriteLoPc(init: Memory, s: State, t: nat)
    requires Inv(init, s) && Step(s, t, WriteLo).Some?
    ensures var pc, pc' := s.threads[t], Step(s, t, WriteLo).value.threads[t];
            && s.holder == Some(t) && s.log != [] && s.log[|s.log| - 1].call == pc.call && (pc.Held? || pc.Loaded?)
            && pc'.WroteLo? && pc'.call == pc.call && pc'.at == pc.at && PcOk(init, s.log, s.clock + 1, t, pc')
  {
    hide Lo, Sequential, Apply, Cells, MemOk, LogOk, ResponsesOk, InOrder, BeforeFlight;
    var pc, n := s.threads[t], |s.log| - 1;
    assert PcOk(init, s.log, s.clock, t, pc);
    if pc.call.op.Store? { StoreIgnoresOld(pc.call.op, Found(init, s.log, n)); }
  }

  lemma WriteLoMem(init: Memory, s: State, t: nat)
    requires Logged(init, s.log) && s.mem.Keys == init.Keys && MemOk(init, s) && s.holder == Some(t)
    requires Step(s, t, WriteLo).Some? && (s.threads[t].Held? || s.threads[t].Loaded?)
    requires s.log != [] && s.log[|s.log| - 1].call == s.threads[t].call
    ensures MemOk(init, Step(s, t, WriteLo).value) && Step(s, t, WriteLo).value.mem.Keys == init.Keys
  {
    hide Lo, Sequential, Apply, Cells;
  }

  lemma StepWriteLo(init: Memory, s: State, t: nat)
    requires Inv(init, s) && Step(s, t, WriteLo).Some?
    ensures Inv(init, Step(s, t, WriteLo).value)
  {
    hide Lo, Sequential, Expected, Found, Apply, Cells, MemOk, PcOk, ThreadsOk, LogOk, ResponsesOk, InOrder,
         BeforeFlight;
    var s' := Step(s, t, WriteLo).value;
    WriteLoPc(init, s, t);
    WriteLoMem(init, s, t);
    LocalStep(init, s, t, s'.threads[t], s');
  }

  /** Where a thread stands between the two halves of its store. */
  lemma WroteLoFacts(init: Memory, s: State, t: nat)
    requires Inv(init, s) && t in s.threads && s.threads[t].WroteLo?
    ensures var pc, n := s.threads[t], |s.log| - 1;
            && s.holder == Some(t) && n >= 0 && s.log[n].call == pc.call && pc.eff == Expected(init, s.log, n)
            && PcOk(init, s.log, s.clock + 1, t, Done(pc.call, pc.invoked, pc.at, pc.eff))
  {
    hide Expected, Found, Sequential, Cells, MemOk, LogOk, ResponsesOk, InOrder, BeforeFlight;
    assert PcOk(init, s.log, s.clock, t, s.threads[t]);
  }

  /** The second half completes the word, and with it the effect of the call. */
  lemma WriteHiMem(init: Memory, s: State, t: nat)
    requires Logged(init, s.log) && MemOk(init, s) && s.holder == Some(t) && t in s.threads && s.threads[t].WroteLo?
    requires s.log != [] && s.log[|s.log| - 1].call == s.threads[t].call
    requires s.threads[t].eff == Expected(init, s.log, |s.log| - 1)
    ensures var a := s.threads[t].call.addr;
            a in s.mem && s.mem[a := Cell(Hi(s.threads[t].eff.value), s.mem[a].lo)] == Cells(Sequential(init, s.log))
  {
    hide Lo, Hi, Sequential, Expected, Cells;
    var pc, n := s.threads[t], |s.log| - 1;
    SequentialStep(init, s.log);
    WordComplete(Sequential(init, s.log[..n]), pc.call.addr, pc.eff.value, s.mem);
  }

  lemma StepWriteHi(init: Memory, s: State, t: nat)
    requires Inv(init, s) && Step(s, t, WriteHi).Some?
    ensures Inv(init, Step(s, t, WriteHi).value)
  {
    hide Hi, Sequential, Expected, Cells, PcOk, ThreadsOk, LogOk, ResponsesOk, InOrder, BeforeFlight;
    var s' := Step(s, t, WriteHi).value;
    WroteLoFacts(init, s, t);
    WriteHiMem(init, s, t);
    CellKeys(Sequential(init, s.log));
    LocalStep(init, s, t, s'.threads[t], s');
  }

  lemma ReleaseOk(init: Memory, s: State, t: nat)
    requires Logged(init, s.log) && ThreadsOk(init, s) && t in s.threads && s.threads[t].Done?
    ensures var pc := s.threads[t]; PcOk(init, s.log, s.clock + 1, t, Released(pc.call, pc.invoked, pc.at, pc.eff))
  {
    assert PcOk(init, s.log, s.clock, t, s.threads[t]);
  }

  lemma StepClear(init: Memory, s: State, t: nat)
    requires Inv(init, s) && Step(s, t, Clear).Some?
    ensures Inv(init, Step(s, t, Clear).value)
  {
    hide PcOk, ResponseOk, ThreadsOk, ResponsesOk, Cells;
    var s' := Step(s, t, Clear).value;
    ReleaseOk(init, s, t);
    ThreadsLater(init, s, t, s'.threads[t], s');
    ResponsesLater(init, s, s');
  }

  lemma IdleOk(init: Memory, s: State, t: nat)
    requires Logged(init, s.log)
    ensures PcOk(init, s.log, s.clock + 1, t, Idle)
  {
  }

  lemma ReturnResponses(init: Memory, s: State, t: nat, s': State)
    requires Inv(init, s) && t in s.threads && s.threads[t].Released? && s'.log == s.log && s'.clock == s.clock + 1
    requires var pc := s.threads[t];
             s'.history == s.history + [Response(t, pc.call, pc.eff, pc.at, pc.invoked, s.clock)]
    ensures ResponsesOk(init, s')
  {
    hide Expected, Found, MemOk, SectionOk, InOrder, BeforeFlight;
    assert PcOk(init, s.log, s.clock, t, s.threads[t]);
    forall i | 0 <= i < |s'.history| ensures ResponseOk(init, s'.log, s'.clock, s'.history[i]) {
      if i < |s.history| { assert ResponseOk(init, s.log, s.clock, s.history[i]); }
    }
  }

  lemma MemKept(init: Memory, s: State, s': State)
    requires Logged(init, s.log) && MemOk(init, s) && s'.log == s.log && s'.mem == s.mem && s'.holder == s.holder
    requires s.holder.Some? ==> PcOf(s', s.holder.value) == PcOf(s, s.holder.value)
    ensures MemOk(init, s')
  {
  }

  lemma LogLater(s: State, s': State)
    requires LogOk(s) && s'.log == s.log && s'.clock == s.clock + 1
    ensures LogOk(s')
  {
  }

  lemma ReturnOrder(s: State, t: nat, pc: Pc, s': State)
    requires InOrder(s.history) && BeforeFlight(s.history, s.threads) && t in s.threads && s.threads[t] == pc
    requires pc.Released? && s'.history == s.history + [Response(t, pc.call, pc.eff, pc.at, pc.invoked, s.clock)]
    ensures InOrder(s'.history)
  {
  }

  lemma StepReturn(init: Memory, s: State, t: nat)
    requires Inv(init, s) && Step(s, t, Return).Some?
    ensures Inv(init, Step(s, t, Return).value)
  {
    hide PcOk, ResponseOk, ThreadsOk, ResponsesOk, Cells, LogOk, MemOk;
    var pc, s' := s.threads[t], Step(s, t, Return).value;
    IdleOk(init, s, t);
    ThreadsLater(init, s, t, Idle, s');
    ReturnResponses(init, s, t, s');
    assert MemOk(init, s') by { MemKept(init, s, s'); }
    assert LogOk(s') by { LogLater(s, s'); }
    assert InOrder(s'.history) by { ReturnOrder(s, t, pc, s'); }
  }

  lemma StepKeepsInv(init: Memory, s: State, t: nat, a: Action)
    requires Inv(init, s) && Step(s, t, a).Some?
    ensures Inv(init, Step(s, t, a).value)
  {
    match a
    case Invoke(call) => StepInvoke(init, s, t, call);
    case TestAndSet => if s.lock { StepSpin(init, s, t); } else { StepAcquire(init, s, t); }
    case ReadLo => StepReadLo(init, s, t);
    case ReadHi => StepReadHi(init, s, t);
    case WriteLo => StepWriteLo(init, s, t);
    case WriteHi => StepWriteHi(init, s, t);
    case Clear => StepClear(init, s, t);
    case Return => StepReturn(init, s, t);
  }

  /** Every state of every interleaving satisfies the invariant. */
  lemma {:induction false} Reachable(init: Memory, schedule: seq<(nat, Action)>)
    requires Execute(init, schedule).Some?
    ensures Inv(init, Execute(init, schedule).value)
    decreases |schedule|
  {
    hide Step;
    if schedule == [] {
      assert Sequential(init, []) == init;
    } else {
      var n := |schedule| - 1;
      Reachable(init, schedule[..n]);
      StepKeepsInv(init, Execute(init, schedule[..n]).value, schedule[n].0, schedule[n].1);
    }
  }

  // ------------------------------------------------------------------- consequences

  /** At most one thread is in the critical section, and only while the lock is set. */
  lemma MutualExclusion(init: Memory, schedule: seq<(nat, Action)>, t: nat, u: nat)
    requires Execute(init, schedule).Some?
    requires var s := Execute(init, schedule).value; InSection(PcOf(s, t)) && InSection(PcOf(s, u))
    ensures t == u && Execute(init, schedule).value.lock
  {
    Reachable(init, schedule);
  }

  /** Lock order is a linearisation: each completed call returned, and left in `expected`, what the sequential
      execution of the log gives at its place, and that place lies between its invocation and its response. */
  lemma Linearisable(init: Memory, schedule: seq<(nat, Action)>, i: nat)
    requires Execute(init, schedule).Some? && i < |Execute(init, schedule).value.history|
    ensures var s := Execute(init, schedule).value; var r := s.history[i];
            && Logged(init, s.log) && r.at < |s.log|
            && s.log[r.at].tid == r.tid && s.log[r.at].call == r.call && r.eff == Expected(init, s.log, r.at)
            && r.invoked < s.log[r.at].time < r.responded
  {
    Reachable(init, schedule);
    var s := Execute(init, schedule).value;
    assert ResponseOk(init, s.log, s.clock, s.history[i]);
  }

  /** A call that returned before another was made comes before it in the log; no two completed calls share a place. */
  lemma RealTimeOrder(init: Memory, schedule: seq<(nat, Action)>, i: nat, j: nat)
    requires Execute(init, schedule).Some?
    requires var h := Execute(init, schedule).value.history; i < |h| && j < |h| && i != j
    ensures var h := Execute(init, schedule).value.history;
            h[i].at != h[j].at && (h[i].responded <= h[j].invoked ==> h[i].at < h[j].at)
  {
    hide Expected, Found, Sequential;
    Reachable(init, schedule);
    var s := Execute(init, schedule).value;
    assert ResponseOk(init, s.log, s.clock, s.history[i]) && ResponseOk(init, s.log, s.clock, s.history[j]);
  }

  /** No update is lost: whenever the lock is free, memory is the result of executing every logged call in order,
      with no torn word. */
  lemma NoLostUpdate(init: Memory, schedule: seq<(nat, Action)>, a: nat)
    requires Execute(init, schedule).Some? && a in init
    requires !Execute(init, schedule).value.lock
    ensures var s := Execute(init, schedule).value;
            Logged(init, s.log) && a in s.mem && Join(s.mem[a].hi, s.mem[a].lo) == Sequential(init, s.log)[a]
  {
    hide Lo, Hi, Join;
    Reachable(init, schedule);
    var s := Execute(init, schedule).value;
    CellsLo(Sequential(init, s.log), a);
    JoinSplit(Sequential(init, s.log)[a]);
  }

  /** The action that takes a thread forward. */
  function NextAction(pc: Pc): Action
    requires !pc.Idle?
  {
    match pc
    case Spin(_, _) => TestAndSet
    case Held(call, _, _) => if call.op.Store? then WriteLo else ReadLo
    case GotLo(_, _, _, _) => ReadHi
    case Loaded(_, _, _, _) => WriteLo
    case WroteLo(_, _, _, _) => WriteHi
    case Done(_, _, _, _) => Clear
    case Released(_, _, _, _) => Return
  }

  lemma ForwardEnabled(init: Memory, s: State, t: nat)
    requires Inv(init, s) && t in s.threads && !s.threads[t].Idle?
    ensures Step(s, t, NextAction(s.threads[t])).Some?
  {
    hide Sequential, Expected, Found, Apply, MemOk, LogOk, ResponsesOk, InOrder, BeforeFlight, Join;
    assert PcOk(init, s.log, s.clock, t, s.threads[t]);
  }

  /** No deadlock: a thread in a call always has its next step enabled, and when it can only spin, the holder of
      the lock can move forward instead. */
  lemma NoDeadlock(init: Memory, schedule: seq<(nat, Action)>, t: nat)
    requires Execute(init, schedule).Some? && !PcOf(Execute(init, schedule).value, t).Idle?
    ensures var s := Execute(init, schedule).value;
            && Step(s, t, NextAction(PcOf(s, t))).Some?
            && (PcOf(s, t).Spin? && s.lock ==>
                 exists u :: u in s.threads && InSection(s.threads[u]) && Step(s, u, NextAction(s.threads[u])).Some?)
  {
    hide Step, Execute;
    Reachable(init, schedule);
    var s := Execute(init, schedule).value;
    ForwardEnabled(init, s, t);
    if s.lock { ForwardEnabled(init, s, s.holder.value); }
  }

  lemma PlusFacts(x: Word, y: Word, z: Word)
    ensures Plus(Plus(x, y), z) == Plus(x, Plus(y, z)) && Plus(x, 0) == x
  {
  }

  /** What a call adds to the word at `a`. */
  function Increment(c: Call, a: nat): Word {
    if c.addr != a then 0
    else if c.op.FetchAdd? then c.op.v else if c.op.AddFetch? then c.op.v else 0
  }

  /** The sum of the increments of a log at one address. */
  function Added(log: seq<Entry>, a: nat): Word {
    if log == [] then 0 else Plus(Added(log[..|log| - 1], a), Increment(log[|log| - 1].call, a))
  }

  predicate OnlyAdds(log: seq<Entry>, a: nat) {
    forall i :: 0 <= i < |log| && log[i].call.addr == a ==>
      log[i].call.op.FetchAdd? || log[i].call.op.AddFetch? || log[i].call.op.Load?
  }

  lemma AddsIncrement(c: Call, a: nat, w: Word)
    requires c.addr == a && (c.op.FetchAdd? || c.op.AddFetch? || c.op.Load?)
    ensures Apply(c.op, w).value == Plus(w, Increment(c, a))
  {
    hide Plus;
    PlusFacts(w, 0, 0);
  }

  lemma OtherAddress(c: Call, a: nat)
    requires c.addr != a
    ensures Increment(c, a) == 0
  {
  }

  /** A counter only incremented and read holds its initial value plus every increment. */
  lemma {:induction false} CounterCountsAll(init: Memory, log: seq<Entry>, a: nat)
    requires Logged(init, log) && a in init && OnlyAdds(log, a)
    ensures Sequential(init, log)[a] == Plus(init[a], Added(log, a))
    decreases |log|
  {
    hide Plus, Apply, Increment;
    if log == [] {
      PlusFacts(init[a], 0, 0);
    } else {
      var n := |log| - 1;
      var c, rest := log[n].call, log[..n];
      CounterCountsAll(init, rest, a);
      PlusFacts(init[a], Added(rest, a), Increment(c, a));
      if c.addr == a {
        AddsIncrement(c, a, Sequential(init, rest)[a]);
      } else {
        OtherAddress(c, a);
        PlusFacts(Added(rest, a), 0, 0);
      }
    }
  }

  /** In every run, once the lock is free, a word that is only added to and read holds its initial value plus every
      increment made. */
  lemma CounterInMemory(init: Memory, schedule: seq<(nat, Action)>, a: nat)
    requires Execute(init, schedule).Some? && a in init
    requires !Execute(init, schedule).value.lock && OnlyAdds(Execute(init, schedule).value.log, a)
    ensures var s := Execute(init, schedule).value;
            a in s.mem && Join(s.mem[a].hi, s.mem[a].lo) == Plus(init[a], Added(s.log, a))
  {
    hide Execute, Join, Plus, Sequential;
    NoLostUpdate(init, schedule, a);
    CounterCountsAll(init, Execute(init, schedule).value.log, a);
  }
}
