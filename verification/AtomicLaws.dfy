/** What callers of the 64-bit atomics rely on, for every schedule of every number of threads: one winner per
    compare-exchange election, distinct tickets from fetch-add, hand-over by exchange, and flag bits. */
module AtomicLaws {
  import opened Atomic64
  import opened Bits
  import opened Bytes

  /** The word at `a` once the first `n` calls of the log are done. */
  ghost function WordAt(init: Memory, log: seq<Entry>, a: nat, n: nat): Word
    requires Logged(init, log) && a in init && n <= |log|
  {
    Sequential(init, log[..n])[a]
  }

  lemma WordStart(init: Memory, log: seq<Entry>, a: nat)
    requires Logged(init, log) && a in init
    ensures WordAt(init, log, a, 0) == init[a]
  {
    assert log[..0] == [];
  }

  lemma WordNext(init: Memory, log: seq<Entry>, a: nat, n: nat)
    requires Logged(init, log) && a in init && n < |log|
    ensures WordAt(init, log, a, n + 1) ==
            if log[n].call.addr == a then Apply(log[n].call.op, WordAt(init, log, a, n)).value
            else WordAt(init, log, a, n)
  {
    hide Apply;
    assert log[..n + 1][..n] == log[..n];
  }

  /** The state a schedule reaches. */
  ghost function Final(init: Memory, schedule: seq<(nat, Action)>): State
    requires Execute(init, schedule).Some?
  {
    Execute(init, schedule).value
  }

  lemma Answer(init: Memory, schedule: seq<(nat, Action)>, i: nat)
    requires Execute(init, schedule).Some? && i < |Final(init, schedule).history|
    ensures var s := Final(init, schedule); var r := s.history[i];
            && Logged(init, s.log) && r.at < |s.log| && s.log[r.at].call == r.call && r.call.addr in init
            && r.eff == Apply(r.call.op, WordAt(init, s.log, r.call.addr, r.at))
  {
    hide Execute, Apply, Sequential;
    Linearisable(init, schedule, i);
  }

  lemma LogIsLogged(init: Memory, schedule: seq<(nat, Action)>)
    requires Execute(init, schedule).Some?
    ensures Logged(init, Final(init, schedule).log)
  {
    hide Execute;
    Reachable(init, schedule);
  }

  /** What memory holds at `a` while nobody has the lock. */
  ghost predicate Holds(s: State, a: nat, w: Word) {
    a in s.mem && Join(s.mem[a].hi, s.mem[a].lo) == w
  }

  lemma FinalWord(init: Memory, schedule: seq<(nat, Action)>, a: nat)
    requires Execute(init, schedule).Some? && a in init && !Final(init, schedule).lock
    ensures var s := Final(init, schedule);
            Logged(init, s.log) && Holds(s, a, WordAt(init, s.log, a, |s.log|))
  {
    hide Execute, Join, Sequential;
    var s := Final(init, schedule);
    NoLostUpdate(init, schedule, a);
    assert s.log[..|s.log|] == s.log;
  }

  // ---------------------------------------------------------------- every call is answered

  ghost predicate Answered(s: State, k: nat) {
    exists i :: 0 <= i < |s.history| && s.history[i].at == k
  }

  ghost predicate Pending(s: State, k: nat) {
    exists t :: t in s.threads && InFlight(s.threads[t]) && s.threads[t].at == k
  }

  /** Every logged call has been answered or is still on its way out of its thread. */
  ghost predicate Accounted(s: State) {
    forall k :: 0 <= k < |s.log| ==> Answered(s, k) || Pending(s, k)
  }

  lemma PendingMoves(s: State, s': State, t: nat, k: nat)
    requires Answered(s, k) || Pending(s, k)
    requires s.history <= s'.history && t in s'.threads
    requires forall u :: u in s.threads && u != t ==> u in s'.threads && s'.threads[u] == s.threads[u]
    requires t in s.threads && InFlight(s.threads[t]) ==>
               (InFlight(s'.threads[t]) && s'.threads[t].at == s.threads[t].at) || Answered(s', s.threads[t].at)
    ensures Answered(s', k) || Pending(s', k)
  {
    if Answered(s, k) {
      var i :| 0 <= i < |s.history| && s.history[i].at == k;
      assert s'.history[i] == s.history[i];
    } else {
      var u :| u in s.threads && InFlight(s.threads[u]) && s.threads[u].at == k;
      assert u != t ==> InFlight(s'.threads[u]);
    }
  }

  lemma StepAccounts(s: State, t: nat, a: Action)
    requires Step(s, t, a).Some? && Accounted(s)
    ensures Accounted(Step(s, t, a).value)
  {
    hide Apply, Join, Lo, Hi, Writes;
    var s' := Step(s, t, a).value;
    if a.Return? {
      var i := |s.history|;
      assert s'.history[i].at == s.threads[t].at;
      assert Answered(s', s.threads[t].at);
    }
    forall k | 0 <= k < |s'.log| ensures Answered(s', k) || Pending(s', k) {
      if k < |s.log| {
        PendingMoves(s, s', t, k);
      } else {
        assert InFlight(s'.threads[t]) && s'.threads[t].at == k;
      }
    }
  }

  lemma NothingLogged(init: Memory)
    ensures Accounted(Start(init))
  {
  }

  lemma {:induction false} AllAccounted(init: Memory, schedule: seq<(nat, Action)>)
    requires Execute(init, schedule).Some?
    ensures Accounted(Final(init, schedule))
    decreases |schedule|
  {
    hide Step, Accounted;
    if schedule == [] {
      assert Accounted(Start(init)) by { NothingLogged(init); }
    } else {
      var n := |schedule| - 1;
      AllAccounted(init, schedule[..n]);
      StepAccounts(Final(init, schedule[..n]), schedule[n].0, schedule[n].1);
    }
  }

  /** No thread is between taking the lock and returning. */
  predicate Quiet(s: State) {
    forall t :: t in s.threads ==> !InFlight(s.threads[t])
  }

  /** When no call is under way, each place in the log belongs to exactly one completed call. */
  lemma ExactlyOnce(init: Memory, schedule: seq<(nat, Action)>, k: nat)
    requires Execute(init, schedule).Some? && Quiet(Final(init, schedule)) && k < |Final(init, schedule).log|
    ensures var h := Final(init, schedule).history;
            exists i :: 0 <= i < |h| && h[i].at == k && forall j :: 0 <= j < |h| && h[j].at == k ==> j == i
  {
    hide Execute;
    AllAccounted(init, schedule);
    var s := Final(init, schedule);
    assert Answered(s, k);
    var i :| 0 <= i < |s.history| && s.history[i].at == k;
    forall j | 0 <= j < |s.history| && s.history[j].at == k ensures j == i {
      if j != i { RealTimeOrder(init, schedule, i, j); }
    }
  }

  // ---------------------------------------------------------------- election by compare-exchange

  /** The calls on `a` are loads and compare-exchanges from `e` to something else. */
  predicate Election(log: seq<Entry>, a: nat, e: Word) {
    forall k :: 0 <= k < |log| && log[k].call.addr == a ==>
      log[k].call.op.Load? ||
      (log[k].call.op.CompareExchange? && log[k].call.op.expected == e && log[k].call.op.desired != e)
  }

  predicate Candidate(log: seq<Entry>, a: nat, k: nat)
    requires k < |log|
  {
    log[k].call.addr == a && log[k].call.op.CompareExchange?
  }

  /** The first compare-exchange on `a` to take the lock. */
  predicate Winner(log: seq<Entry>, a: nat, w: nat) {
    w < |log| && Candidate(log, a, w) && forall k :: 0 <= k < w ==> !Candidate(log, a, k)
  }

  lemma {:induction false} ElectionWord(init: Memory, log: seq<Entry>, a: nat, w: nat, n: nat)
    requires Logged(init, log) && a in init && Election(log, a, init[a]) && Winner(log, a, w) && n <= |log|
    ensures WordAt(init, log, a, n) == if n <= w then init[a] else log[w].call.op.desired
  {
    hide WordAt;
    if n == 0 {
      WordStart(init, log, a);
    } else {
      ElectionWord(init, log, a, w, n - 1);
      WordNext(init, log, a, n - 1);
      assert !Candidate(log, a, n - 1) || n - 1 >= w;
    }
  }

  /** What a completed call on the elected word answers: the first compare-exchange succeeds, every other one fails and
      learns the winner's value, and a load sees the old value before the winner and the winner's value after. */
  ghost predicate ElectionAnswer(log: seq<Entry>, e: Word, w: nat, r: Response)
    requires w < |log| && log[w].call.op.CompareExchange?
  {
    var chosen := log[w].call.op.desired;
    && (r.call.op.CompareExchange? && r.at == w ==> r.eff.returned == 1 && r.eff.expectedAfter == e)
    && (r.call.op.CompareExchange? && r.at != w ==>
          r.at > w && r.eff.returned == 0 && r.eff.expectedAfter == chosen)
    && (r.call.op.Load? ==> r.eff.returned == if r.at < w then e else chosen)
  }

  lemma ElectionAnswers(init: Memory, schedule: seq<(nat, Action)>, a: nat, w: nat, i: nat)
    requires Execute(init, schedule).Some? && a in init && i < |Final(init, schedule).history|
    requires var s := Final(init, schedule);
             Election(s.log, a, init[a]) && Winner(s.log, a, w) && s.history[i].call.addr == a
    ensures ElectionAnswer(Final(init, schedule).log, init[a], w, Final(init, schedule).history[i])
  {
    hide Execute, WordAt;
    var s := Final(init, schedule);
    var r := s.history[i];
    Answer(init, schedule, i);
    ElectionWord(init, s.log, a, w, r.at);
    assert r.call.op.CompareExchange? ==> Candidate(s.log, a, r.at);
  }

  lemma {:induction false} FirstCandidate(log: seq<Entry>, a: nat, k: nat) returns (w: nat)
    requires k < |log| && Candidate(log, a, k)
    ensures Winner(log, a, w) && w <= k
  {
    if j :| 0 <= j < k && Candidate(log, a, j) {
      w := FirstCandidate(log, a, j);
    } else {
      w := k;
    }
  }

  /** Whether a completed call is a compare-exchange on `a` that reported success. */
  predicate Won(r: Response, a: nat) {
    r.call.addr == a && r.call.op.CompareExchange? && r.eff.returned == 1
  }

  lemma ElectionDesired(log: seq<Entry>, a: nat, e: Word, w: nat)
    requires Election(log, a, e) && Winner(log, a, w)
    ensures log[w].call.op.desired != e
  {
  }

  lemma WonAt(log: seq<Entry>, e: Word, w: nat, a: nat, r: Response)
    requires w < |log| && Candidate(log, a, w) && r.call.addr == a && ElectionAnswer(log, e, w, r)
    ensures Won(r, a) ==> r.at == w
    ensures r.at == w && r.call == log[w].call ==> Won(r, a)
  {
  }

  /** However many threads try to move a word from its initial value with compare-exchange, in every schedule at most
      one completed call reports success. As soon as one has completed there is a winner: memory holds the winner's
      value whenever the lock is free and every completed loser has that value in `expected`. The success has been
      reported exactly when the winner's call has completed, and so once no call is under way. */
  lemma OneWinner(init: Memory, schedule: seq<(nat, Action)>, a: nat, done: nat) returns (w: nat)
    requires Execute(init, schedule).Some? && a in init && Election(Final(init, schedule).log, a, init[a])
    requires var h := Final(init, schedule).history;
             done < |h| && h[done].call.addr == a && h[done].call.op.CompareExchange?
    ensures var s := Final(init, schedule);
            && Winner(s.log, a, w) && s.log[w].call.op.desired != init[a]
            && (!s.lock ==> Holds(s, a, s.log[w].call.op.desired))
            && (forall i :: 0 <= i < |s.history| && s.history[i].call.addr == a ==>
                  ElectionAnswer(s.log, init[a], w, s.history[i]))
            && (forall i, j :: 0 <= i < j < |s.history| ==> !(Won(s.history[i], a) && Won(s.history[j], a)))
            && ((exists i :: 0 <= i < |s.history| && Won(s.history[i], a)) <==> Answered(s, w))
            && (Quiet(s) ==> Answered(s, w))
  {
    hide Execute, WordAt, Join, Election, Quiet, ElectionAnswer;
    var s := Final(init, schedule);
    Answer(init, schedule, done);
    w := FirstCandidate(s.log, a, s.history[done].at);
    ElectionDesired(s.log, a, init[a], w);
    if !s.lock { FinalWord(init, schedule, a); ElectionWord(init, s.log, a, w, |s.log|); }
    forall i | 0 <= i < |s.history| && s.history[i].call.addr == a
      ensures ElectionAnswer(s.log, init[a], w, s.history[i]) && (Won(s.history[i], a) ==> s.history[i].at == w)
    {
      ElectionAnswers(init, schedule, a, w, i);
      WonAt(s.log, init[a], w, a, s.history[i]);
    }
    forall i, j | 0 <= i < j < |s.history| ensures !(Won(s.history[i], a) && Won(s.history[j], a)) {
      RealTimeOrder(init, schedule, i, j);
    }
    if Quiet(s) { ExactlyOnce(init, schedule, w); }
    if Answered(s, w) {
      var i :| 0 <= i < |s.history| && s.history[i].at == w;
      Answer(init, schedule, i);
      WonAt(s.log, init[a], w, a, s.history[i]);
    }
  }

  /** The halves and effects of the small words below. */
  lemma SmallWords()
    ensures Lo(0) == 0 && Hi(0) == 0 && Join(0, 0) == 0
    ensures Lo(1) == 1 && Hi(1) == 0 && Join(0, 1) == 1
  {
  }

  function Try(desired: Word): Call { Call(0, CompareExchange(0, desired)) }

  /** Thread 1 has won and given the lock back, but not returned yet. */
  function WonNotReturned(): State {
    State(false, map[0 := Cell(0, 1)], map[1 := Released(Try(1), 0, 0, Effect(1, 1, 0))], None,
          [Entry(1, Try(1), 1)], [], 7)
  }

  ghost predicate Gets(s: State, t: nat, a: Action, r: State) { Step(s, t, a) == Some(r) }

  lemma {:induction false} ExecuteNext(init: Memory, schedule: seq<(nat, Action)>, s: State, t: nat, a: Action,
                                       r: State)
    requires Execute(init, schedule) == Some(s) && Gets(s, t, a, r)
    ensures Execute(init, schedule + [(t, a)]) == Some(r)
  {
    hide Step;
    var all := schedule + [(t, a)];
    assert all[..|all| - 1] == schedule && all[|all| - 1] == (t, a);
  }

  /** Thread 1 alone in the critical section, at `pc`, over the cell `c`. */
  function InsideOne(c: Cell, pc: Pc, clock: nat): State {
    State(true, map[0 := c], map[1 := pc], Some(1), [Entry(1, Try(1), 1)], [], clock)
  }

  lemma Overwritten<V>(k: nat, x: V, y: V)
    ensures map[k := x][k := y] == map[k := y]
  {
  }

  lemma SecondEntry<V>(x: V, y: V, z: V)
    ensures map[1 := x][2 := y] == map[1 := x, 2 := y] && map[1 := x, 2 := y][2 := z] == map[1 := x, 2 := z]
  {
  }

  lemma FirstEnters()
    ensures var spin := State(false, map[0 := Cell(0, 0)], map[1 := Spin(Try(1), 0)], None, [], [], 1);
            && Gets(Start(map[0 := 0]), 1, Invoke(Try(1)), spin)
            && Gets(spin, 1, TestAndSet, InsideOne(Cell(0, 0), Held(Try(1), 0, 0), 2))
  {
    hide Lo, Hi, Join;
    SmallWords();
    assert Cells(map[0 := 0]) == map[0 := Cell(0, 0)];
    assert map[][1 := Spin(Try(1), 0)] == map[1 := Spin(Try(1), 0)];
    Overwritten(1, Spin(Try(1), 0), Held(Try(1), 0, 0));
    assert [] + [Entry(1, Try(1), 1)] == [Entry(1, Try(1), 1)];
  }

  lemma FirstReads()
    ensures Gets(InsideOne(Cell(0, 0), Held(Try(1), 0, 0), 2), 1, ReadLo,
                 InsideOne(Cell(0, 0), GotLo(Try(1), 0, 0, 0), 3))
    ensures Gets(InsideOne(Cell(0, 0), GotLo(Try(1), 0, 0, 0), 3), 1, ReadHi,
                 InsideOne(Cell(0, 0), Loaded(Try(1), 0, 0, 0), 4))
  {
    hide Lo, Hi, Join;
    SmallWords();
    Overwritten(1, Held(Try(1), 0, 0), GotLo(Try(1), 0, 0, 0));
    Overwritten(1, GotLo(Try(1), 0, 0, 0), Loaded(Try(1), 0, 0, 0));
  }

  lemma FirstWritesLo()
    ensures Gets(InsideOne(Cell(0, 0), Loaded(Try(1), 0, 0, 0), 4), 1, WriteLo,
                 InsideOne(Cell(0, 1), WroteLo(Try(1), 0, 0, Effect(1, 1, 0)), 5))
  {
    hide Lo, Hi, Join;
    SmallWords();
    Overwritten(0, Cell(0, 0), Cell(0, 1));
    Overwritten(1, Loaded(Try(1), 0, 0, 0), WroteLo(Try(1), 0, 0, Effect(1, 1, 0)));
  }

  lemma FirstWritesHi()
    ensures var eff := Effect(1, 1, 0);
            && Gets(InsideOne(Cell(0, 1), WroteLo(Try(1), 0, 0, eff), 5), 1, WriteHi,
                    InsideOne(Cell(0, 1), Done(Try(1), 0, 0, eff), 6))
            && Gets(InsideOne(Cell(0, 1), Done(Try(1), 0, 0, eff), 6), 1, Clear, WonNotReturned())
  {
    hide Lo, Hi, Join, Apply;
    SmallWords();
    var eff := Effect(1, 1, 0);
    Overwritten(0, Cell(0, 1), Cell(0, 1));
    Overwritten(1, WroteLo(Try(1), 0, 0, eff), Done(Try(1), 0, 0, eff));
    Overwritten(1, Done(Try(1), 0, 0, eff), Released(Try(1), 0, 0, eff));
  }

  lemma FirstWins() returns (schedule: seq<(nat, Action)>)
    ensures Execute(map[0 := 0], schedule) == Some(WonNotReturned())
  {
    hide Gets;
    FirstEnters();
    FirstReads();
    FirstWritesLo();
    FirstWritesHi();
    var init: Memory, eff := map[0 := 0], Effect(1, 1, 0);
    var spin := State(false, map[0 := Cell(0, 0)], map[1 := Spin(Try(1), 0)], None, [], [], 1);
    schedule := [];
    ExecuteNext(init, schedule, Start(init), 1, Invoke(Try(1)), spin);
    schedule := schedule + [(1, Invoke(Try(1)))];
    ExecuteNext(init, schedule, spin, 1, TestAndSet, InsideOne(Cell(0, 0), Held(Try(1), 0, 0), 2));
    schedule := schedule + [(1, TestAndSet)];
    ExecuteNext(init, schedule, InsideOne(Cell(0, 0), Held(Try(1), 0, 0), 2), 1, ReadLo,
                InsideOne(Cell(0, 0), GotLo(Try(1), 0, 0, 0), 3));
    schedule := schedule + [(1, ReadLo)];
    ExecuteNext(init, schedule, InsideOne(Cell(0, 0), GotLo(Try(1), 0, 0, 0), 3), 1, ReadHi,
                InsideOne(Cell(0, 0), Loaded(Try(1), 0, 0, 0), 4));
    schedule := schedule + [(1, ReadHi)];
    ExecuteNext(init, schedule, InsideOne(Cell(0, 0), Loaded(Try(1), 0, 0, 0), 4), 1, WriteLo,
                InsideOne(Cell(0, 1), WroteLo(Try(1), 0, 0, eff), 5));
    schedule := schedule + [(1, WriteLo)];
    ExecuteNext(init, schedule, InsideOne(Cell(0, 1), WroteLo(Try(1), 0, 0, eff), 5), 1, WriteHi,
                InsideOne(Cell(0, 1), Done(Try(1), 0, 0, eff), 6));
    schedule := schedule + [(1, WriteHi)];
    ExecuteNext(init, schedule, InsideOne(Cell(0, 1), Done(Try(1), 0, 0, eff), 6), 1, Clear, WonNotReturned());
    schedule := schedule + [(1, Clear)];
  }

  /** Thread 2 at `pc` after the winner. */
  function AfterWinner(lock: bool, pc: Pc, log: seq<Entry>, history: seq<Response>, clock: nat): State {
    State(lock, map[0 := Cell(0, 1)], map[1 := Released(Try(1), 0, 0, Effect(1, 1, 0)), 2 := pc],
          if lock then Some(2) else None, log, history, clock)
  }

  /** The log with the winner's call alone and with both. */
  function OneCall(): seq<Entry> { [Entry(1, Try(1), 1)] }

  function TwoCalls(): seq<Entry> { [Entry(1, Try(1), 1), Entry(2, Try(2), 8)] }

  lemma SecondEnters()
    ensures Gets(WonNotReturned(), 2, Invoke(Try(2)), AfterWinner(false, Spin(Try(2), 7), OneCall(), [], 8))
    ensures Gets(AfterWinner(false, Spin(Try(2), 7), OneCall(), [], 8), 2, TestAndSet,
                 AfterWinner(true, Held(Try(2), 7, 1), TwoCalls(), [], 9))
  {
    var won := Released(Try(1), 0, 0, Effect(1, 1, 0));
    SecondEntry(won, Spin(Try(2), 7), Held(Try(2), 7, 1));
    assert OneCall() + [Entry(2, Try(2), 8)] == TwoCalls();
  }

  lemma SecondReads()
    ensures Gets(AfterWinner(true, Held(Try(2), 7, 1), TwoCalls(), [], 9), 2, ReadLo,
                 AfterWinner(true, GotLo(Try(2), 7, 1, 1), TwoCalls(), [], 10))
    ensures Gets(AfterWinner(true, GotLo(Try(2), 7, 1, 1), TwoCalls(), [], 10), 2, ReadHi,
                 AfterWinner(true, Done(Try(2), 7, 1, Effect(1, 0, 1)), TwoCalls(), [], 11))
  {
    hide Lo, Hi, Join;
    SmallWords();
    var won := Released(Try(1), 0, 0, Effect(1, 1, 0));
    SecondEntry(won, Held(Try(2), 7, 1), GotLo(Try(2), 7, 1, 1));
    SecondEntry(won, GotLo(Try(2), 7, 1, 1), Done(Try(2), 7, 1, Effect(1, 0, 1)));
  }

  lemma SecondLoses()
    ensures var eff := Effect(1, 0, 1);
            && Gets(AfterWinner(true, Done(Try(2), 7, 1, eff), TwoCalls(), [], 11), 2, Clear,
                    AfterWinner(false, Released(Try(2), 7, 1, eff), TwoCalls(), [], 12))
            && Gets(AfterWinner(false, Released(Try(2), 7, 1, eff), TwoCalls(), [], 12), 2, Return,
                    AfterWinner(false, Idle, TwoCalls(), [Response(2, Try(2), eff, 1, 7, 12)], 13))
  {
    var won, eff := Released(Try(1), 0, 0, Effect(1, 1, 0)), Effect(1, 0, 1);
    SecondEntry(won, Done(Try(2), 7, 1, eff), Released(Try(2), 7, 1, eff));
    SecondEntry(won, Released(Try(2), 7, 1, eff), Idle);
    assert [] + [Response(2, Try(2), eff, 1, 7, 12)] == [Response(2, Try(2), eff, 1, 7, 12)];
  }

  lemma LoserRun() returns (schedule: seq<(nat, Action)>)
    ensures Execute(map[0 := 0], schedule) ==
            Some(AfterWinner(false, Idle, TwoCalls(), [Response(2, Try(2), Effect(1, 0, 1), 1, 7, 12)], 13))
  {
    hide Gets, Execute;
    schedule := FirstWins();
    SecondEnters();
    SecondReads();
    SecondLoses();
    var init: Memory, eff := map[0 := 0], Effect(1, 0, 1);
    ExecuteNext(init, schedule, WonNotReturned(), 2, Invoke(Try(2)),
                AfterWinner(false, Spin(Try(2), 7), OneCall(), [], 8));
    schedule := schedule + [(2, Invoke(Try(2)))];
    ExecuteNext(init, schedule, AfterWinner(false, Spin(Try(2), 7), OneCall(), [], 8), 2, TestAndSet,
                AfterWinner(true, Held(Try(2), 7, 1), TwoCalls(), [], 9));
    schedule := schedule + [(2, TestAndSet)];
    ExecuteNext(init, schedule, AfterWinner(true, Held(Try(2), 7, 1), TwoCalls(), [], 9), 2, ReadLo,
                AfterWinner(true, GotLo(Try(2), 7, 1, 1), TwoCalls(), [], 10));
    schedule := schedule + [(2, ReadLo)];
    ExecuteNext(init, schedule, AfterWinner(true, GotLo(Try(2), 7, 1, 1), TwoCalls(), [], 10), 2, ReadHi,
                AfterWinner(true, Done(Try(2), 7, 1, eff), TwoCalls(), [], 11));
    schedule := schedule + [(2, ReadHi)];
    ExecuteNext(init, schedule, AfterWinner(true, Done(Try(2), 7, 1, eff), TwoCalls(), [], 11), 2, Clear,
                AfterWinner(false, Released(Try(2), 7, 1, eff), TwoCalls(), [], 12));
    schedule := schedule + [(2, Clear)];
    ExecuteNext(init, schedule, AfterWinner(false, Released(Try(2), 7, 1, eff), TwoCalls(), [], 12), 2, Return,
                AfterWinner(false, Idle, TwoCalls(), [Response(2, Try(2), eff, 1, 7, 12)], 13));
    schedule := schedule + [(2, Return)];
  }

  /** The success may be reported late: with two threads there is a schedule after which the loser has completed and the
      winner, whose value memory already holds, has not. */
  lemma LoserReturnsFirst()
    ensures exists schedule: seq<(nat, Action)> ::
      && Execute(map[0 := 0], schedule).Some?
      && var s := Final(map[0 := 0], schedule);
         && Election(s.log, 0, 0) && |s.history| == 1 && s.history[0].call == Try(2)
         && s.history[0].eff == Effect(1, 0, 1) && s.mem == map[0 := Cell(0, 1)] && !s.lock
  {
    hide Execute;
    var schedule := LoserRun();
    assert Election(TwoCalls(), 0, 0);
    assert Execute(map[0 := 0], schedule).Some?;
  }

  // ---------------------------------------------------------------- counters and tickets

  lemma CounterWord(init: Memory, log: seq<Entry>, a: nat, n: nat)
    requires Logged(init, log) && a in init && OnlyAdds(log, a) && n <= |log|
    ensures WordAt(init, log, a, n) == Plus(init[a], Added(log[..n], a))
  {
    hide Plus, Sequential, Added;
    CounterCountsAll(init, log[..n], a);
  }

  /** A call on a word that is only added to and read sees the initial value plus every increment logged before it;
      fetch-add and load return that value, add-fetch the value with its own increment. */
  lemma CounterAnswers(init: Memory, schedule: seq<(nat, Action)>, a: nat, i: nat)
    requires Execute(init, schedule).Some? && a in init && i < |Final(init, schedule).history|
    requires OnlyAdds(Final(init, schedule).log, a) && Final(init, schedule).history[i].call.addr == a
    ensures var s := Final(init, schedule); var r := s.history[i];
            && r.at < |s.log|
            && var seen := Plus(init[a], Added(s.log[..r.at], a));
               match r.call.op
               case AddFetch(v) => r.eff.returned == Plus(seen, v)
               case _ => r.eff.returned == seen
  {
    hide Execute, WordAt, Plus, Added;
    var s := Final(init, schedule);
    Answer(init, schedule, i);
    CounterWord(init, s.log, a, s.history[i].at);
    assert s.log[s.history[i].at].call == s.history[i].call;
  }

  /** The calls on `a` are loads and additions of one. */
  predicate TicketLog(log: seq<Entry>, a: nat) {
    forall k :: 0 <= k < |log| && log[k].call.addr == a ==>
      log[k].call.op.Load? || log[k].call.op == FetchAdd(1) || log[k].call.op == AddFetch(1)
  }

  predicate Draws(log: seq<Entry>, a: nat, k: nat)
    requires k < |log|
  {
    log[k].call.addr == a && (log[k].call.op.FetchAdd? || log[k].call.op.AddFetch?)
  }

  /** How many of the first `n` calls drew a ticket. */
  function Drawn(log: seq<Entry>, a: nat, n: nat): (c: nat)
    requires n <= |log|
    ensures c <= n
  {
    if n == 0 then 0 else Drawn(log, a, n - 1) + if Draws(log, a, n - 1) then 1 else 0
  }

  /** `w` counted up `n` times, wrapping at 64 bits. */
  function Nth(w: Word, n: nat): Word { if n == 0 then w else Plus(Nth(w, n - 1), 1) }

  lemma TicketOp(op: Op, w: Word)
    requires op.Load? || op == FetchAdd(1) || op == AddFetch(1)
    ensures Apply(op, w).value == if op.Load? then w else Plus(w, 1)
    ensures Apply(op, w).returned == if op.AddFetch? then Plus(w, 1) else w
  {
    hide Plus;
  }

  lemma {:induction false} TicketWord(init: Memory, log: seq<Entry>, a: nat, n: nat)
    requires Logged(init, log) && a in init && TicketLog(log, a) && n <= |log|
    ensures WordAt(init, log, a, n) == Nth(init[a], Drawn(log, a, n))
  {
    hide WordAt, Plus, Apply;
    if n == 0 {
      WordStart(init, log, a);
    } else {
      TicketWord(init, log, a, n - 1);
      WordNext(init, log, a, n - 1);
      if log[n - 1].call.addr == a { TicketOp(log[n - 1].call.op, WordAt(init, log, a, n - 1)); }
    }
  }

  lemma {:induction false} DrawnMono(log: seq<Entry>, a: nat, m: nat, n: nat)
    requires m <= n <= |log|
    ensures Drawn(log, a, m) <= Drawn(log, a, n)
    ensures m < n && Draws(log, a, m) ==> Drawn(log, a, m) < Drawn(log, a, n)
    decreases n - m
  {
    hide Draws;
    if m == n {
    } else {
      DrawnMono(log, a, m + 1, n);
      assert Drawn(log, a, m + 1) == Drawn(log, a, m) + if Draws(log, a, m) then 1 else 0;
    }
  }

  lemma {:induction false} DrawAt(log: seq<Entry>, a: nat, n: nat, c: nat) returns (k: nat)
    requires n <= |log| && c < Drawn(log, a, n)
    ensures k < n && Draws(log, a, k) && Drawn(log, a, k) == c
  {
    hide Draws;
    if c < Drawn(log, a, n - 1) { k := DrawAt(log, a, n - 1, c); } else { k := n - 1; }
  }

  /** The `c`-th ticket, counted from the initial value: fetch-add returns it, add-fetch the next number. */
  ghost predicate Ticket(init: Memory, log: seq<Entry>, a: nat, r: Response, c: nat) {
    && r.call.addr == a && a in init && r.at < |log| && Drawn(log, a, r.at) == c
    && ((r.call.op.FetchAdd? && r.eff.returned == Nth(init[a], c)) ||
        (r.call.op.AddFetch? && r.eff.returned == Nth(init[a], c + 1)))
  }

  predicate DrawsOne(c: Call, a: nat) { c.addr == a && (c.op == FetchAdd(1) || c.op == AddFetch(1)) }

  lemma NthNext(w: Word, n: nat)
    ensures Nth(w, n + 1) == Plus(Nth(w, n), 1)
  {
    hide Plus;
  }

  /** A completed addition of one holds the ticket of its place in the log. */
  lemma TicketOf(init: Memory, schedule: seq<(nat, Action)>, a: nat, i: nat)
    requires Execute(init, schedule).Some? && a in init && TicketLog(Final(init, schedule).log, a)
    requires i < |Final(init, schedule).history| && DrawsOne(Final(init, schedule).history[i].call, a)
    ensures var s := Final(init, schedule); var r := s.history[i];
            && r.at < |s.log| && Draws(s.log, a, r.at) && Ticket(init, s.log, a, r, Drawn(s.log, a, r.at))
  {
    hide Execute, WordAt, Drawn, Nth, Apply, Plus;
    var s := Final(init, schedule);
    var r := s.history[i];
    Answer(init, schedule, i);
    TicketWord(init, s.log, a, r.at);
    TicketOp(r.call.op, WordAt(init, s.log, a, r.at));
    NthNext(init[a], Drawn(s.log, a, r.at));
  }

  /** Every completed addition of one has a ticket of its own, counted from the initial value. */
  lemma TicketsDistinct(init: Memory, schedule: seq<(nat, Action)>, a: nat, i: nat, j: nat)
    requires Execute(init, schedule).Some? && a in init && TicketLog(Final(init, schedule).log, a)
    requires var h := Final(init, schedule).history;
             i < |h| && j < |h| && i != j && DrawsOne(h[i].call, a) && DrawsOne(h[j].call, a)
    ensures var s := Final(init, schedule);
            exists c: nat, d: nat :: c != d && c < Drawn(s.log, a, |s.log|) && d < Drawn(s.log, a, |s.log|) &&
                           Ticket(init, s.log, a, s.history[i], c) && Ticket(init, s.log, a, s.history[j], d)
  {
    hide Execute, Drawn, Ticket, Draws;
    var s := Final(init, schedule);
    var m, n := s.history[i].at, s.history[j].at;
    TicketOf(init, schedule, a, i);
    TicketOf(init, schedule, a, j);
    RealTimeOrder(init, schedule, i, j);
    DrawnMono(s.log, a, m, |s.log|);
    DrawnMono(s.log, a, n, |s.log|);
    if m < n { DrawnMono(s.log, a, m, n); } else { DrawnMono(s.log, a, n, m); }
  }

  lemma TicketFacts(init: Memory, log: seq<Entry>, a: nat, r: Response, c: nat)
    requires Ticket(init, log, a, r, c)
    ensures r.at < |log| && Drawn(log, a, r.at) == c && (log[r.at].call == r.call ==> Draws(log, a, r.at))
  {
  }

  /** When no call is under way, each of the tickets from the initial value on belongs to exactly one completed call,
      and memory holds the next one. */
  lemma TicketsComplete(init: Memory, schedule: seq<(nat, Action)>, a: nat, c: nat)
    requires Execute(init, schedule).Some? && a in init && TicketLog(Final(init, schedule).log, a)
    requires var s := Final(init, schedule); Quiet(s) && !s.lock && c < Drawn(s.log, a, |s.log|)
    ensures var s := Final(init, schedule);
            && Holds(s, a, Nth(init[a], Drawn(s.log, a, |s.log|)))
            && exists i :: 0 <= i < |s.history| && Ticket(init, s.log, a, s.history[i], c) &&
                 forall j :: 0 <= j < |s.history| && Ticket(init, s.log, a, s.history[j], c) ==> j == i
  {
    hide Execute, WordAt, Drawn, Nth, Join, Quiet, Apply, Ticket;
    var s := Final(init, schedule);
    FinalWord(init, schedule, a);
    TicketWord(init, s.log, a, |s.log|);
    var k := DrawAt(s.log, a, |s.log|, c);
    ExactlyOnce(init, schedule, k);
    var i :| 0 <= i < |s.history| && s.history[i].at == k &&
             forall j :: 0 <= j < |s.history| && s.history[j].at == k ==> j == i;
    Answer(init, schedule, i);
    TicketOf(init, schedule, a, i);
    forall j | 0 <= j < |s.history| && Ticket(init, s.log, a, s.history[j], c) ensures j == i {
      Answer(init, schedule, j);
      TicketFacts(init, s.log, a, s.history[j], c);
      var m := s.history[j].at;
      if m < k { DrawnMono(s.log, a, m, k); } else if k < m { DrawnMono(s.log, a, k, m); }
    }
  }

  // ---------------------------------------------------------------- hand-over by exchange

  /** The calls on `a` are loads, stores and exchanges. */
  predicate HandOver(log: seq<Entry>, a: nat) {
    forall k :: 0 <= k < |log| && log[k].call.addr == a ==>
      log[k].call.op.Load? || log[k].call.op.Store? || log[k].call.op.Exchange?
  }

  predicate Puts(log: seq<Entry>, a: nat, k: nat)
    requires k < |log|
  {
    log[k].call.addr == a && (log[k].call.op.Store? || log[k].call.op.Exchange?)
  }

  /** The last store or exchange among the first `n` calls. */
  predicate LastPut(log: seq<Entry>, a: nat, n: nat, k: nat) {
    k < n <= |log| && Puts(log, a, k) && forall m :: k < m < n ==> !Puts(log, a, m)
  }

  /** `w` is what the last of the first `n` stores and exchanges put there, or the initial value if there was none. */
  ghost predicate LastValue(init: Memory, log: seq<Entry>, a: nat, n: nat, w: Word)
    requires a in init && n <= |log|
  {
    && ((forall m :: 0 <= m < n ==> !Puts(log, a, m)) ==> w == init[a])
    && (forall k: nat :: LastPut(log, a, n, k) ==> w == log[k].call.op.v)
  }

  lemma LastValueNext(init: Memory, log: seq<Entry>, a: nat, n: nat, w: Word)
    requires Logged(init, log) && a in init && n < |log| && LastValue(init, log, a, n, w)
    ensures LastValue(init, log, a, n + 1, if Puts(log, a, n) then log[n].call.op.v else w)
  {
    var w' := if Puts(log, a, n) then log[n].call.op.v else w;
    forall k: nat | LastPut(log, a, n + 1, k) ensures w' == log[k].call.op.v {
      if k < n { assert !Puts(log, a, n) && LastPut(log, a, n, k); }
    }
  }

  lemma NothingPut(init: Memory, log: seq<Entry>, a: nat)
    requires a in init
    ensures LastValue(init, log, a, 0, init[a])
  {
  }

  lemma {:induction false} HandOverWord(init: Memory, log: seq<Entry>, a: nat, n: nat)
    requires Logged(init, log) && a in init && HandOver(log, a) && n <= |log|
    ensures LastValue(init, log, a, n, WordAt(init, log, a, n))
  {
    hide WordAt, LastValue;
    if n == 0 {
      WordStart(init, log, a);
      NothingPut(init, log, a);
    } else {
      HandOverWord(init, log, a, n - 1);
      WordNext(init, log, a, n - 1);
      LastValueNext(init, log, a, n - 1, WordAt(init, log, a, n - 1));
    }
  }

  /** On a word that is only stored, exchanged and read, every exchange and load returns what the last store or exchange
      before it put there, so each value is handed to the next exchange; memory holds the last one. */
  lemma ExchangeHandsOver(init: Memory, schedule: seq<(nat, Action)>, a: nat, i: nat)
    requires Execute(init, schedule).Some? && a in init && HandOver(Final(init, schedule).log, a)
    requires var h := Final(init, schedule).history; i < |h| && h[i].call.addr == a && !h[i].call.op.Store?
    ensures var s := Final(init, schedule); var r := s.history[i];
            && r.at < |s.log| && LastValue(init, s.log, a, r.at, r.eff.returned)
            && (!s.lock ==> exists w :: Holds(s, a, w) && LastValue(init, s.log, a, |s.log|, w))
  {
    hide Execute, WordAt, LastValue, Join;
    var s := Final(init, schedule);
    var r := s.history[i];
    Answer(init, schedule, i);
    assert s.log[r.at].call == r.call;
    HandOverWord(init, s.log, a, r.at);
    if !s.lock { FinalWord(init, schedule, a); HandOverWord(init, s.log, a, |s.log|); }
  }

  // ---------------------------------------------------------------- flag bits

  /** The calls on `a` are loads, fetch-ors and fetch-ands. */
  predicate FlagLog(log: seq<Entry>, a: nat) {
    forall k :: 0 <= k < |log| && log[k].call.addr == a ==>
      log[k].call.op.Load? || log[k].call.op.FetchOr? || log[k].call.op.FetchAnd?
  }

  predicate Sets(log: seq<Entry>, a: nat, f: nat, k: nat)
    requires k < |log| && f < 64
  {
    log[k].call.addr == a && log[k].call.op.FetchOr? && Test(log[k].call.op.v, f)
  }

  predicate Clears(log: seq<Entry>, a: nat, f: nat, k: nat)
    requires k < |log| && f < 64
  {
    log[k].call.addr == a && log[k].call.op.FetchAnd? && !Test(log[k].call.op.v, f)
  }

  /** Bit `f` after the first `n` calls: set by a fetch-or or set from the start, and not cleared since. */
  ghost predicate FlagOn(init: Memory, log: seq<Entry>, a: nat, f: nat, n: nat)
    requires a in init && n <= |log| && f < 64
  {
    || (Test(init[a], f) && forall m :: 0 <= m < n ==> !Clears(log, a, f, m))
    || exists k :: 0 <= k < n && Sets(log, a, f, k) && forall m :: k < m < n ==> !Clears(log, a, f, m)
  }

  lemma FlagNext(init: Memory, log: seq<Entry>, a: nat, f: nat, n: nat)
    requires a in init && n < |log| && f < 64
    ensures FlagOn(init, log, a, f, n + 1) <==>
            (Sets(log, a, f, n) || (FlagOn(init, log, a, f, n) && !Clears(log, a, f, n)))
  {
    hide Test;
    if exists k :: 0 <= k < n && Sets(log, a, f, k) && forall m :: k < m < n ==> !Clears(log, a, f, m) {
      var k :| 0 <= k < n && Sets(log, a, f, k) && forall m :: k < m < n ==> !Clears(log, a, f, m);
      assert !Clears(log, a, f, n) ==> forall m :: k < m < n + 1 ==> !Clears(log, a, f, m);
    }
  }

  lemma FlagOp(op: Op, w: Word, f: nat)
    requires f < 64 && (op.Load? || op.FetchOr? || op.FetchAnd?)
    ensures Apply(op, w).returned == w
    ensures Test(Apply(op, w).value, f) <==>
            (op.FetchOr? && Test(op.v, f)) || (Test(w, f) && !(op.FetchAnd? && !Test(op.v, f)))
  {
    hide Test;
    if op.FetchOr? { OrTest(w, op.v, f); } else if op.FetchAnd? { AndTest(w, op.v, f); }
  }

  lemma FlagStart(init: Memory, log: seq<Entry>, a: nat, f: nat)
    requires a in init && f < 64
    ensures FlagOn(init, log, a, f, 0) <==> Test(init[a], f)
  {
  }

  lemma {:induction false} FlagWord(init: Memory, log: seq<Entry>, a: nat, f: nat, n: nat)
    requires Logged(init, log) && a in init && FlagLog(log, a) && n <= |log| && f < 64
    ensures Test(WordAt(init, log, a, n), f) <==> FlagOn(init, log, a, f, n)
  {
    hide WordAt, FlagOn, Test, Apply;
    if n == 0 {
      WordStart(init, log, a);
      FlagStart(init, log, a, f);
    } else {
      FlagWord(init, log, a, f, n - 1);
      WordNext(init, log, a, n - 1);
      FlagNext(init, log, a, f, n - 1);
      if log[n - 1].call.addr == a { FlagOp(log[n - 1].call.op, WordAt(init, log, a, n - 1), f); }
    }
  }

  /** On a word of flags every completed call returns, bit by bit, what the calls logged before it left: a bit is set
      exactly when it was set and not cleared since. */
  lemma FlagAnswers(init: Memory, schedule: seq<(nat, Action)>, a: nat, i: nat, f: nat)
    requires Execute(init, schedule).Some? && a in init && FlagLog(Final(init, schedule).log, a) && f < 64
    requires var h := Final(init, schedule).history; i < |h| && h[i].call.addr == a
    ensures var s := Final(init, schedule); var r := s.history[i];
            && r.at < |s.log| && (Test(r.eff.returned, f) <==> FlagOn(init, s.log, a, f, r.at))
            && (!s.lock ==> exists w :: Holds(s, a, w) && (Test(w, f) <==> FlagOn(init, s.log, a, f, |s.log|)))
  {
    hide Execute, WordAt, FlagOn, Test, Join, Apply;
    var s := Final(init, schedule);
    var r := s.history[i];
    Answer(init, schedule, i);
    assert s.log[r.at].call == r.call;
    FlagOp(r.call.op, WordAt(init, s.log, a, r.at), f);
    FlagWord(init, s.log, a, f, r.at);
    if !s.lock { FinalWord(init, schedule, a); FlagWord(init, s.log, a, f, |s.log|); }
  }
}
