/** The boot-event monitor: a loop over the events of a log that keeps one small record per service. Its records say
    what the history says, event by event, and it stays silent exactly on lawful histories. */
module BootLog {
  import opened Bytes

  datatype Kind = Spawned | Bound | Ready | Healthy | Crashed | Other

  /** A parsed `BOOT_EVT` line; `service` and `incarnation` may be missing. */
  datatype Event = Event(session: int, service: Option<string>, incarnation: Option<int>, kind: Kind)

  datatype Violation =
    | MismatchedSession | DuplicateSpawn | BoundBeforeSpawned | StaleBound | ReadyBeforeSpawned | ReadyBeforeBound
    | StaleReady | HealthyBeforeReady | StaleHealthy

  /** The event names this service; a missing or empty service name counts as none. */
  predicate About(e: Event, s: string) { e.service == Some(s) && s != "" && e.kind != Other }

  predicate Is(e: Event, s: string, k: Kind) { About(e, s) && e.kind == k }

  // --------------------------------------------------------------- what the history says

  ghost predicate NoReset(trace: seq<Event>, j: nat, i: nat, s: string, resets: set<Kind>)
    requires j < i <= |trace|
  {
    forall k :: j < k < i && About(trace[k], s) ==> trace[k].kind !in resets
  }

  /** Some `good` event of the service before `i` has no event of the `resets` kinds after it. */
  ghost predicate Since(trace: seq<Event>, i: nat, s: string, good: Kind, resets: set<Kind>)
    requires i <= |trace|
  {
    exists j :: 0 <= j < i && Is(trace[j], s, good) && NoReset(trace, j, i, s, resets)
  }

  /** The last SPAWNED of the service before `i`. */
  function LatestSpawn(trace: seq<Event>, i: nat, s: string): (r: Option<nat>)
    requires i <= |trace|
    ensures r.Some? ==> r.value < i && Is(trace[r.value], s, Spawned)
    ensures forall k :: 0 <= k < i && Is(trace[k], s, Spawned) ==> r.Some? && k <= r.value
  {
    if i == 0 then None else if Is(trace[i - 1], s, Spawned) then Some(i - 1) else LatestSpawn(trace, i - 1, s)
  }

  function LatestIncarnation(trace: seq<Event>, i: nat, s: string): Option<int>
    requires i <= |trace|
  {
    match LatestSpawn(trace, i, s)
    case None => None
    case Some(j) => trace[j].incarnation
  }

  ghost predicate BoundSince(trace: seq<Event>, i: nat, s: string)
    requires i <= |trace|
  {
    Since(trace, i, s, Bound, {Spawned})
  }

  ghost predicate ReadySince(trace: seq<Event>, i: nat, s: string)
    requires i <= |trace|
  {
    Since(trace, i, s, Ready, {Spawned, Crashed})
  }

  function When(b: bool, v: Violation): seq<Violation> { if b then [v] else [] }

  /** What is wrong with event `i`, read off the history before it. */
  ghost function Faults(trace: seq<Event>, i: nat, strict: bool): seq<Violation>
    requires i < |trace|
  {
    var e := trace[i];
    When(e.session != trace[0].session, MismatchedSession) +
    if e.service.None? || e.service.value == "" then []
    else
      var s := e.service.value;
      var spawned, stale := LatestSpawn(trace, i, s).Some?, LatestIncarnation(trace, i, s) != e.incarnation;
      match e.kind
      case Spawned => When(spawned && !stale, DuplicateSpawn)
      case Bound => When(!spawned, BoundBeforeSpawned) + When(stale, StaleBound)
      case Ready => When(!spawned, ReadyBeforeSpawned) + When(strict && !BoundSince(trace, i, s), ReadyBeforeBound) +
                    When(stale, StaleReady)
      case Healthy => When(!ReadySince(trace, i, s), HealthyBeforeReady) + When(stale, StaleHealthy)
      case Crashed => []
      case Other => []
  }

  function Tagged(i: nat, vs: seq<Violation>): seq<(nat, Violation)> {
    seq(|vs|, k requires 0 <= k < |vs| => (i, vs[k]))
  }

  ghost function AllFaults(trace: seq<Event>, n: nat, strict: bool): (r: seq<(nat, Violation)>)
    requires n <= |trace|
  {
    if n == 0 then [] else AllFaults(trace, n - 1, strict) + Tagged(n - 1, Faults(trace, n - 1, strict))
  }

  // --------------------------------------------------------------- lawful histories

  /** The lifecycle rules for event `i`. */
  ghost predicate LawfulAt(trace: seq<Event>, i: nat, strict: bool)
    requires i < |trace|
  {
    var e := trace[i];
    && e.session == trace[0].session
    && (forall s :: About(e, s) ==>
          var j := LatestSpawn(trace, i, s);
          && (e.kind == Spawned && j.Some? ==> trace[j.value].incarnation != e.incarnation)
          && (e.kind in {Bound, Ready, Healthy} ==> j.Some? && trace[j.value].incarnation == e.incarnation)
          && (strict && e.kind == Ready ==> BoundSince(trace, i, s))
          && (e.kind == Healthy ==> ReadySince(trace, i, s)))
  }

  ghost predicate Lawful(trace: seq<Event>, strict: bool) {
    forall i :: 0 <= i < |trace| ==> LawfulAt(trace, i, strict)
  }

  lemma ReadyWasSpawned(trace: seq<Event>, i: nat, s: string, strict: bool)
    requires i <= |trace| && ReadySince(trace, i, s) && forall k :: 0 <= k < i ==> Faults(trace, k, strict) == []
    ensures LatestSpawn(trace, i, s).Some?
  {
    var j :| 0 <= j < i && Is(trace[j], s, Ready) && NoReset(trace, j, i, s, {Spawned, Crashed});
    assert Faults(trace, j, strict) == [];
    assert LatestSpawn(trace, j, s).Some?;
    assert Is(trace[LatestSpawn(trace, j, s).value], s, Spawned);
  }

  /** One event is lawful exactly when the monitor's rules find nothing, given a faultless past. */
  lemma FaultlessIffLawful(trace: seq<Event>, i: nat, strict: bool)
    requires i < |trace| && forall k :: 0 <= k < i ==> Faults(trace, k, strict) == []
    ensures Faults(trace, i, strict) == [] <==> LawfulAt(trace, i, strict)
  {
    hide Since, LatestSpawn;
    var e := trace[i];
    if e.service.Some? && e.service.value != "" {
      var s := e.service.value;
      if e.kind == Healthy && ReadySince(trace, i, s) { ReadyWasSpawned(trace, i, s, strict); }
      assert e.kind != Other ==> About(e, s);
    }
  }

  lemma {:induction false} AllFaultless(trace: seq<Event>, n: nat, strict: bool)
    requires n <= |trace|
    ensures AllFaults(trace, n, strict) == [] <==> forall i :: 0 <= i < n ==> Faults(trace, i, strict) == []
  {
    hide Faults;
    if n > 0 {
      AllFaultless(trace, n - 1, strict);
      assert |Tagged(n - 1, Faults(trace, n - 1, strict))| == |Faults(trace, n - 1, strict)|;
    }
  }

  lemma {:induction false} LawfulPrefix(trace: seq<Event>, n: nat, strict: bool)
    requires n <= |trace|
    ensures (forall i :: 0 <= i < n ==> Faults(trace, i, strict) == []) <==>
            (forall i :: 0 <= i < n ==> LawfulAt(trace, i, strict))
  {
    hide Faults, LawfulAt;
    if n > 0 {
      LawfulPrefix(trace, n - 1, strict);
      if forall i :: 0 <= i < n - 1 ==> Faults(trace, i, strict) == [] {
        FaultlessIffLawful(trace, n - 1, strict);
      }
    }
  }

  /** The monitor's rules find nothing in a trace exactly when the trace is lawful. */
  lemma SilentIffLawful(trace: seq<Event>, strict: bool)
    ensures AllFaults(trace, |trace|, strict) == [] <==> Lawful(trace, strict)
  {
    hide LawfulAt;
    AllFaultless(trace, |trace|, strict);
    LawfulPrefix(trace, |trace|, strict);
  }

  // --------------------------------------------------------------------- the monitor

  datatype Record = Record(spawned: bool, bound: bool, ready: bool, healthy: bool, incarnation: Option<int>)

  const FRESH := Record(false, false, false, false, None)

  function Lookup(services: map<string, Record>, s: string): Record {
    if s in services then services[s] else FRESH
  }

  ghost predicate RecordSays(r: Record, trace: seq<Event>, i: nat, s: string)
    requires i <= |trace|
  {
    && (r.spawned <==> LatestSpawn(trace, i, s).Some?)
    && r.incarnation == LatestIncarnation(trace, i, s)
    && (r.bound <==> BoundSince(trace, i, s))
    && (r.ready <==> ReadySince(trace, i, s))
    && (r.healthy <==> Since(trace, i, s, Healthy, {Spawned, Crashed}))
  }

  ghost predicate Mentioned(trace: seq<Event>, i: nat, s: string)
    requires i <= |trace|
  {
    exists k :: 0 <= k < i && About(trace[k], s)
  }

  /** The dictionary has a record for every service mentioned so far, and each says what the history says. */
  ghost predicate Tracks(services: map<string, Record>, trace: seq<Event>, i: nat)
    requires i <= |trace|
  {
    forall s :: (s in services <==> Mentioned(trace, i, s)) && RecordSays(Lookup(services, s), trace, i, s)
  }

  lemma SinceStep(trace: seq<Event>, i: nat, s: string, good: Kind, resets: set<Kind>)
    requires i < |trace| && good !in resets
    ensures Since(trace, i + 1, s, good, resets) <==>
            || Is(trace[i], s, good)
            || (Since(trace, i, s, good, resets) && !(About(trace[i], s) && trace[i].kind in resets))
  {
    if Is(trace[i], s, good) {
      assert NoReset(trace, i, i + 1, s, resets);
    } else if Since(trace, i, s, good, resets) && !(About(trace[i], s) && trace[i].kind in resets) {
      var j :| 0 <= j < i && Is(trace[j], s, good) && NoReset(trace, j, i, s, resets);
      assert NoReset(trace, j, i + 1, s, resets);
    }
    if Since(trace, i + 1, s, good, resets) && !Is(trace[i], s, good) {
      var j :| 0 <= j < i + 1 && Is(trace[j], s, good) && NoReset(trace, j, i + 1, s, resets);
      assert NoReset(trace, j, i, s, resets);
    }
  }

  /** How one event changes the record of the service it is about. */
  function After(r: Record, e: Event): Record {
    match e.kind
    case Spawned => Record(true, false, false, false, e.incarnation)
    case Bound => r.(bound := true)
    case Ready => r.(ready := true)
    case Healthy => r.(healthy := true)
    case Crashed => r.(ready := false, healthy := false)
    case Other => r
  }

  lemma RecordStep(r: Record, trace: seq<Event>, i: nat, s: string)
    requires i < |trace| && RecordSays(r, trace, i, s)
    ensures RecordSays(if About(trace[i], s) then After(r, trace[i]) else r, trace, i + 1, s)
  {
    hide Since;
    SinceStep(trace, i, s, Bound, {Spawned});
    SinceStep(trace, i, s, Ready, {Spawned, Crashed});
    SinceStep(trace, i, s, Healthy, {Spawned, Crashed});
  }

  lemma MentionedStep(trace: seq<Event>, i: nat, s: string)
    requires i < |trace|
    ensures Mentioned(trace, i + 1, s) <==> Mentioned(trace, i, s) || About(trace[i], s)
  {
  }

  lemma TracksStep(before: map<string, Record>, after: map<string, Record>, trace: seq<Event>, i: nat)
    requires i < |trace| && Tracks(before, trace, i)
    requires forall s :: s in after <==> s in before || About(trace[i], s)
    requires forall s ::
      Lookup(after, s) == if About(trace[i], s) then After(Lookup(before, s), trace[i]) else Lookup(before, s)
    ensures Tracks(after, trace, i + 1)
  {
    hide RecordSays, Mentioned, Lookup, After;
    forall s ensures (s in after <==> Mentioned(trace, i + 1, s)) && RecordSays(Lookup(after, s), trace, i + 1, s) {
      MentionedStep(trace, i, s);
      RecordStep(Lookup(before, s), trace, i, s);
    }
  }

  lemma TracksNothing(trace: seq<Event>)
    ensures Tracks(map[], trace, 0)
  {
  }

  /** What the record of a service says against an event about it. */
  function Objections(r: Record, e: Event, strict: bool): seq<Violation> {
    match e.kind
    case Spawned => When(r.spawned && r.incarnation == e.incarnation, DuplicateSpawn)
    case Bound => When(!r.spawned, BoundBeforeSpawned) + When(r.incarnation != e.incarnation, StaleBound)
    case Ready => When(!r.spawned, ReadyBeforeSpawned) + When(strict && !r.bound, ReadyBeforeBound) +
                  When(r.incarnation != e.incarnation, StaleReady)
    case Healthy => When(!r.ready, HealthyBeforeReady) + When(r.incarnation != e.incarnation, StaleHealthy)
    case Crashed => []
    case Other => []
  }

  lemma RecordAt(services: map<string, Record>, trace: seq<Event>, i: nat, s: string)
    requires i <= |trace| && Tracks(services, trace, i)
    ensures RecordSays(Lookup(services, s), trace, i, s)
  {
  }

  /** A record that says what the history says objects to exactly what the history shows. */
  lemma ObjectionsAreFaults(services: map<string, Record>, trace: seq<Event>, i: nat, strict: bool)
    requires i < |trace| && Tracks(services, trace, i)
    ensures var e := trace[i];
            Faults(trace, i, strict) ==
            When(e.session != trace[0].session, MismatchedSession) +
            if e.service.Some? && e.service.value != ""
            then Objections(Lookup(services, e.service.value), e, strict) else []
  {
    hide Since, LatestSpawn, Tracks, Lookup;
    var e := trace[i];
    if e.service.Some? { RecordAt(services, trace, i, e.service.value); }
  }

  lemma NoObjection(r: Record, e: Event, strict: bool)
    ensures e.kind == Other ==> Objections(r, e, strict) == []
  {
  }

  /** The checks and the update for one event about a service. */
  method CheckEvent(r: Record, e: Event, strict: bool) returns (vs: seq<Violation>, r': Record)
    ensures r' == After(r, e) && vs == Objections(r, e, strict)
  {
    vs, r' := [], r;
    match e.kind {
      case Spawned =>
        if r.spawned && r.incarnation == e.incarnation { vs := vs + [DuplicateSpawn]; }
        r' := Record(true, false, false, false, e.incarnation);
      case Bound =>
        if !r.spawned { vs := vs + [BoundBeforeSpawned]; }
        if r.incarnation != e.incarnation { vs := vs + [StaleBound]; }
        r' := r.(bound := true);
      case Ready =>
        if !r.spawned { vs := vs + [ReadyBeforeSpawned]; }
        if strict && !r.bound { vs := vs + [ReadyBeforeBound]; }
        if r.incarnation != e.incarnation { vs := vs + [StaleReady]; }
        r' := r.(ready := true);
      case Healthy =>
        if !r.ready { vs := vs + [HealthyBeforeReady]; }
        if r.incarnation != e.incarnation { vs := vs + [StaleHealthy]; }
        r' := r.(healthy := true);
      case Crashed =>
        r' := r.(ready := false, healthy := false);
      case Other =>
    }
  }

  /** The loop of `BootLogParser.parse` over the structured events of a log. */
  method Monitor(trace: seq<Event>, strict: bool) returns (found: seq<(nat, Violation)>, services: map<string, Record>)
    ensures found == AllFaults(trace, |trace|, strict)
    ensures found == [] <==> Lawful(trace, strict)
    ensures Tracks(services, trace, |trace|)
  {
    hide Tracks, After, Lawful, Faults, Objections;
    var session: Option<int> := None;
    found, services := [], map[];
    TracksNothing(trace);
    for i := 0 to |trace|
      invariant session == if i == 0 then None else Some(trace[0].session)
      invariant found == AllFaults(trace, i, strict)
      invariant Tracks(services, trace, i)
    {
      var e := trace[i];
      ghost var before := services;
      var here := [];
      if session.None? {
        session := Some(e.session);
      } else if e.session != session.value {
        here := [MismatchedSession];
      }
      if e.service.Some? && e.service.value != "" && e.kind != Other {
        var s := e.service.value;
        var r := Lookup(services, s);
        var more, r' := CheckEvent(r, e, strict);
        here := here + more;
        services := services[s := r'];
      }
      TracksStep(before, services, trace, i);
      ObjectionsAreFaults(before, trace, i, strict);
      NoObjection(Lookup(before, if e.service.Some? then e.service.value else ""), e, strict);
      assert here == Faults(trace, i, strict);
      found := found + Tagged(i, here);
    }
    SilentIffLawful(trace, strict);
  }

  /** The end-of-log check: the services that were mentioned and are not ready now. */
  method UnreadyServices(services: map<string, Record>, ghost trace: seq<Event>) returns (unready: set<string>)
    requires Tracks(services, trace, |trace|)
    ensures forall s :: s in unready <==> Mentioned(trace, |trace|, s) && !ReadySince(trace, |trace|, s)
  {
    hide Since;
    unready := {};
    var left := services.Keys;
    while left != {}
      invariant left <= services.Keys
      invariant forall s :: s in unready <==> s in services && s !in left && !services[s].ready
      decreases left
    {
      var s :| s in left;
      left := left - {s};
      if !services[s].ready { unready := unready + {s}; }
    }
    forall s ensures s in unready <==> Mentioned(trace, |trace|, s) && !ReadySince(trace, |trace|, s) {
      RecordAt(services, trace, |trace|, s);
    }
  }
}
