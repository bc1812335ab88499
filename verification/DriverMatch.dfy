/** Driver matching: one scan of the driver table keeps the best candidate and whether it is tied; the outcome depends
    only on which drivers the table holds, and the chosen driver is the unique lexicographic maximum. */
module DriverMatch {
  import opened Bytes

  const MATCH_ANY := 0xFFFF_FFFF
  const CLASS_UNKNOWN := 0
  const MAX_BINDINGS := 128
  const SYS_ENOENT := 2
  const SYS_EBUSY := 16
  const SYS_ENOSPC := 28

  datatype Device = Device(compatible: Option<string>, vendor: nat, device: nat, class_: nat)

  datatype Driver = Driver(name: string, compatible: Option<string>, vendor: nat, device: nat, matchClass: nat,
                           supportedClass: nat, priority: int)

  // ---------------------------------------------------------------------------- scoring

  predicate Specific(id: nat) { id != 0 && id != MATCH_ANY }

  predicate CompatibleMatches(dev: Device, drv: Driver) { drv.compatible.Some? && dev.compatible == drv.compatible }

  predicate VendorMatches(dev: Device, drv: Driver) { Specific(drv.vendor) && dev.vendor == drv.vendor }

  predicate ClassMatches(dev: Device, drv: Driver) { drv.matchClass != CLASS_UNKNOWN && dev.class_ == drv.matchClass }

  /** `calculate_match_score` */
  function Score(dev: Device, drv: Driver): nat {
    var compatible := if CompatibleMatches(dev, drv) then 1000 else 0;
    var vendor := if !VendorMatches(dev, drv) then 0 else if !Specific(drv.device) then 250
                  else if dev.device == drv.device then 500 else 0;
    var class_ := if ClassMatches(dev, drv) then 100 else 0;
    var score := compatible + vendor + class_;
    if score == 0 && drv.supportedClass != CLASS_UNKNOWN && dev.class_ == drv.supportedClass then 10 else score
  }

  /** How well the identifiers match: not at all, vendor only, vendor and device. */
  function IdRank(dev: Device, drv: Driver): nat {
    if !VendorMatches(dev, drv) then 0
    else if !Specific(drv.device) then 1
    else if dev.device == drv.device then 2 else 0
  }

  predicate Fallback(dev: Device, drv: Driver) {
    && !CompatibleMatches(dev, drv) && IdRank(dev, drv) == 0 && !ClassMatches(dev, drv)
    && drv.supportedClass != CLASS_UNKNOWN && dev.class_ == drv.supportedClass
  }

  /** The criteria compared one after the other: compatible string, identifiers, class, generic fallback. */
  predicate MoreSpecific(dev: Device, a: Driver, b: Driver) {
    var ca, cb := CompatibleMatches(dev, a), CompatibleMatches(dev, b);
    var ia, ib := IdRank(dev, a), IdRank(dev, b);
    var ka, kb := ClassMatches(dev, a), ClassMatches(dev, b);
    if ca != cb then ca
    else if ia != ib then ia > ib
    else if ka != kb then ka
    else Fallback(dev, a) && !Fallback(dev, b)
  }

  lemma ScoreByCriteria(dev: Device, drv: Driver)
    ensures Score(dev, drv) == (if CompatibleMatches(dev, drv) then 1000 else 0) + 250 * IdRank(dev, drv) +
                               (if ClassMatches(dev, drv) then 100 else 0) + (if Fallback(dev, drv) then 10 else 0)
  {
  }

  /** The score from the fields alone: 1000 for the same compatible string, 500 for the same vendor and device, 250 for
      the same vendor when the driver names no device, 100 for the same class, and 10 for a supported class when nothing
      else matches. Identifiers 0 and 0xFFFFFFFF and class 0 name nothing. */
  lemma ScoreByFields(dev: Device, drv: Driver)
    ensures var same := drv.compatible.Some? && dev.compatible.Some? && dev.compatible.value == drv.compatible.value;
            var vendor := dev.vendor == drv.vendor && drv.vendor != 0 && drv.vendor != 0xFFFF_FFFF;
            var anyDevice := drv.device == 0 || drv.device == 0xFFFF_FFFF;
            var class_ := dev.class_ == drv.matchClass && drv.matchClass != 0;
            var points := (if same then 1000 else 0) + (if class_ then 100 else 0) +
                          (if vendor && anyDevice then 250
                           else if vendor && dev.device == drv.device then 500 else 0);
            Score(dev, drv) == if points > 0 then points
                               else if dev.class_ == drv.supportedClass && drv.supportedClass != 0 then 10 else 0
  {
  }

  /** The sum of weights orders drivers exactly as comparing the criteria one after the other. */
  lemma ScoreIsLexicographic(dev: Device, a: Driver, b: Driver)
    ensures Score(dev, a) > Score(dev, b) <==> MoreSpecific(dev, a, b)
  {
    ScoreByCriteria(dev, a);
    ScoreByCriteria(dev, b);
  }

  // ---------------------------------------------------------------------------- selection

  type Table = seq<Option<Driver>>

  predicate Scores(dev: Device, slot: Option<Driver>) { slot.Some? && Score(dev, slot.value) > 0 }

  predicate SameRank(dev: Device, a: Driver, b: Driver) { Score(dev, a) == Score(dev, b) && a.priority == b.priority }

  predicate Beats(dev: Device, a: Driver, b: Driver) {
    Score(dev, a) > Score(dev, b) || (Score(dev, a) == Score(dev, b) && a.priority > b.priority)
  }

  datatype Best = Best(slot: Option<nat>, score: nat, ambiguous: bool)

  /** One iteration of the scan. */
  function Consider(dev: Device, table: Table, best: Best, i: nat): (r: Best)
    requires i < |table| && (best.slot.Some? ==> best.slot.value < |table| && table[best.slot.value].Some?)
    requires best.slot.None? ==> best.score == 0
    ensures r.slot.Some? ==> r.slot.value < |table| && table[r.slot.value].Some?
    ensures r.slot.None? ==> r.score == 0
  {
    if !Scores(dev, table[i]) then best
    else
      var drv := table[i].value;
      if Score(dev, drv) > best.score then Best(Some(i), Score(dev, drv), false)
      else if Score(dev, drv) < best.score then best
      else
        var top := table[best.slot.value].value;
        if drv.priority > top.priority then best.(slot := Some(i), ambiguous := false)
        else if drv.priority == top.priority then best.(ambiguous := true)
        else best
  }

  function Select(dev: Device, table: Table, n: nat): (r: Best)
    requires n <= |table|
    ensures r.slot.Some? ==> r.slot.value < |table| && table[r.slot.value].Some?
    ensures r.slot.None? ==> r.score == 0
  {
    if n == 0 then Best(None, 0, false) else Consider(dev, table, Select(dev, table, n - 1), n - 1)
  }

  ghost predicate Tied(dev: Device, table: Table, n: nat, b: nat)
    requires n <= |table| && b < |table| && table[b].Some?
  {
    exists j :: 0 <= j < n && j != b && Scores(dev, table[j]) && SameRank(dev, table[j].value, table[b].value)
  }

  /** What the scan knows after `n` slots: its candidate is unbeaten, and the flag says whether another one ties. */
  ghost predicate Summary(dev: Device, table: Table, n: nat, best: Best)
    requires n <= |table|
  {
    match best.slot
    case None => best.score == 0 && !best.ambiguous && forall j :: 0 <= j < n ==> !Scores(dev, table[j])
    case Some(b) =>
      && b < n && Scores(dev, table[b]) && best.score == Score(dev, table[b].value)
      && (forall j :: 0 <= j < n && Scores(dev, table[j]) ==> !Beats(dev, table[j].value, table[b].value))
      && (best.ambiguous <==> Tied(dev, table, n, b))
  }

  lemma ConsiderSummary(dev: Device, table: Table, n: nat, best: Best)
    requires n < |table| && Summary(dev, table, n, best)
    ensures Summary(dev, table, n + 1, Consider(dev, table, best, n))
  {
    hide Score;
    var next := Consider(dev, table, best, n);
    if Scores(dev, table[n]) && best.slot.Some? {
      var b := best.slot.value;
      if next.slot == best.slot && SameRank(dev, table[n].value, table[b].value) {
        assert Tied(dev, table, n + 1, b);
      } else if next.slot == best.slot {
        assert Tied(dev, table, n, b) <==> Tied(dev, table, n + 1, b);
      }
    } else if best.slot.Some? {
      assert Tied(dev, table, n, best.slot.value) <==> Tied(dev, table, n + 1, best.slot.value);
    }
  }

  lemma EmptySummary(dev: Device, table: Table)
    ensures Summary(dev, table, 0, Best(None, 0, false))
  {
  }

  lemma {:induction false} SelectSummary(dev: Device, table: Table, n: nat)
    requires n <= |table|
    ensures Summary(dev, table, n, Select(dev, table, n))
  {
    hide Summary, Consider;
    if n == 0 {
      EmptySummary(dev, table);
    } else {
      SelectSummary(dev, table, n - 1);
      ConsiderSummary(dev, table, n - 1, Select(dev, table, n - 1));
    }
  }

  // --------------------------------------------------- the outcome as a property of the set of drivers

  /** `d` is the one driver of greatest (score, priority). */
  ghost predicate Winner(dev: Device, drivers: multiset<Option<Driver>>, d: Driver) {
    && drivers[Some(d)] == 1 && Score(dev, d) > 0
    && forall e :: e in drivers && Scores(dev, e) && e != Some(d) ==> Beats(dev, d, e.value)
  }

  ghost predicate TopPair(dev: Device, drivers: multiset<Option<Driver>>, d: Driver, e: Driver) {
    && multiset{Some(d), Some(e)} <= drivers && Score(dev, d) > 0 && SameRank(dev, d, e)
    && forall f :: f in drivers && Scores(dev, f) ==> !Beats(dev, f.value, d)
  }

  /** Two drivers share the greatest (score, priority). */
  ghost predicate Shared(dev: Device, drivers: multiset<Option<Driver>>) {
    exists d, e :: TopPair(dev, drivers, d, e)
  }

  ghost predicate NoneScores(dev: Device, drivers: multiset<Option<Driver>>) {
    forall e :: e in drivers ==> !Scores(dev, e)
  }

  lemma TakeOut<T>(s: seq<T>, i: nat)
    requires i < |s|
    ensures multiset(s) == multiset(s[..i] + s[i + 1..]) + multiset{s[i]}
  {
    assert s == s[..i] + [s[i]] + s[i + 1..];
  }

  /** Different slots hold different occurrences. */
  lemma TwoSlots<T>(s: seq<T>, i: nat, j: nat)
    requires i < |s| && j < |s| && i != j
    ensures multiset{s[i], s[j]} <= multiset(s)
  {
    TakeOut(s, i);
    var rest := s[..i] + s[i + 1..];
    assert rest[if j < i then j else j - 1] == s[j];
    assert s[j] in multiset(rest);
  }

  /** A value that occurs in one slot only occurs once. */
  lemma OneSlot<T>(s: seq<T>, i: nat)
    requires i < |s| && forall j :: 0 <= j < |s| && j != i ==> s[j] != s[i]
    ensures multiset(s)[s[i]] == 1
  {
    assert s == s[..i] + [s[i]] + s[i + 1..];
    assert s[i] !in s[..i] && s[i] !in s[i + 1..];
    assert multiset(s[..i])[s[i]] == 0 && multiset(s[i + 1..])[s[i]] == 0;
  }

  lemma NoWinnerWhenShared(dev: Device, drivers: multiset<Option<Driver>>, d: Driver, e: Driver, w: Driver)
    requires TopPair(dev, drivers, d, e)
    ensures !Winner(dev, drivers, w)
  {
    assert Some(d) in drivers && Some(e) in drivers && Scores(dev, Some(d)) && Scores(dev, Some(e));
    assert d == e ==> drivers[Some(d)] >= multiset{Some(d), Some(e)}[Some(d)] == 2;
    assert Winner(dev, drivers, w) ==> Some(w) in drivers;
  }

  ghost predicate Outcome(dev: Device, drivers: multiset<Option<Driver>>, table: Table, best: Best)
    requires best.slot.Some? ==> best.slot.value < |table| && table[best.slot.value].Some?
  {
    && (best.ambiguous <==> Shared(dev, drivers))
    && (best.slot.None? <==> NoneScores(dev, drivers))
    && (best.slot.Some? && !best.ambiguous ==>
          Winner(dev, drivers, table[best.slot.value].value) && best.score == Score(dev, table[best.slot.value].value))
    && forall w :: Winner(dev, drivers, w) ==>
         best.slot.Some? && !best.ambiguous && table[best.slot.value] == Some(w)
  }

  lemma NothingWins(dev: Device, drivers: multiset<Option<Driver>>, w: Driver)
    requires NoneScores(dev, drivers)
    ensures !Winner(dev, drivers, w) && !Shared(dev, drivers)
  {
    if drivers[Some(w)] == 1 { assert Some(w) in drivers; }
    forall d, e ensures !TopPair(dev, drivers, d, e) {
      assert multiset{Some(d), Some(e)} <= drivers ==> Some(d) in drivers;
    }
  }

  lemma TiedShared(dev: Device, table: Table, b: nat)
    requires b < |table| && Scores(dev, table[b]) && Tied(dev, table, |table|, b)
    requires forall j :: 0 <= j < |table| && Scores(dev, table[j]) ==> !Beats(dev, table[j].value, table[b].value)
    ensures Shared(dev, multiset(table)) && forall w :: !Winner(dev, multiset(table), w)
  {
    hide Score;
    var drivers, d := multiset(table), table[b].value;
    var j :| 0 <= j < |table| && j != b && Scores(dev, table[j]) && SameRank(dev, table[j].value, d);
    TwoSlots(table, b, j);
    var e := table[j].value;
    assert multiset{Some(d), Some(e)} == multiset{table[b], table[j]};
    assert TopPair(dev, drivers, d, e);
    forall w ensures !Winner(dev, drivers, w) { NoWinnerWhenShared(dev, drivers, d, e, w); }
  }

  lemma UntiedWins(dev: Device, table: Table, b: nat)
    requires b < |table| && Scores(dev, table[b]) && !Tied(dev, table, |table|, b)
    requires forall j :: 0 <= j < |table| && Scores(dev, table[j]) ==> !Beats(dev, table[j].value, table[b].value)
    ensures Winner(dev, multiset(table), table[b].value) && !Shared(dev, multiset(table))
    ensures forall w :: Winner(dev, multiset(table), w) ==> w == table[b].value
  {
    hide Score;
    var drivers, d := multiset(table), table[b].value;
    forall j | 0 <= j < |table| && j != b ensures table[j] != table[b] {
      assert table[j] == table[b] ==> Scores(dev, table[j]) && SameRank(dev, table[j].value, d);
    }
    OneSlot(table, b);
    forall e | e in drivers && Scores(dev, e) && e != Some(d) ensures Beats(dev, d, e.value) {
      var j :| 0 <= j < |table| && table[j] == e;
      assert !SameRank(dev, table[j].value, d);
    }
    assert Winner(dev, drivers, d);
    forall x, y ensures !TopPair(dev, drivers, x, y) {
      if TopPair(dev, drivers, x, y) { NoWinnerWhenShared(dev, drivers, x, y, d); }
    }
    forall w | Winner(dev, drivers, w) ensures w == d {
      assert Some(w) in drivers && Some(d) in drivers;
      assert w != d ==> Beats(dev, w, d) && Beats(dev, d, w);
    }
  }

  /** The scan's outcome in terms of the drivers alone: a tie exactly when two share the top rank, nothing exactly when
      none scores, and otherwise the unique driver that beats every other. */
  lemma SelectOutcome(dev: Device, table: Table)
    ensures Outcome(dev, multiset(table), table, Select(dev, table, |table|))
  {
    hide Select, Score;
    var best, drivers := Select(dev, table, |table|), multiset(table);
    SelectSummary(dev, table, |table|);
    forall e | e in drivers ensures exists j :: 0 <= j < |table| && table[j] == e {}
    if best.slot.None? {
      forall j | 0 <= j < |table| ensures table[j] in drivers {}
      assert NoneScores(dev, drivers);
      forall w ensures !Winner(dev, drivers, w) { NothingWins(dev, drivers, w); }
    } else {
      var b := best.slot.value;
      var d := table[b].value;
      assert table[b] in drivers && Scores(dev, table[b]);
      if best.ambiguous {
        TiedShared(dev, table, b);
      } else {
        UntiedWins(dev, table, b);
      }
    }
  }

  /** Reordering the table changes neither the outcome nor the driver chosen. */
  lemma OrderDoesNotMatter(dev: Device, a: Table, b: Table)
    requires multiset(a) == multiset(b)
    ensures var x, y := Select(dev, a, |a|), Select(dev, b, |b|);
            && x.ambiguous == y.ambiguous && x.slot.Some? == y.slot.Some?
            && (x.slot.Some? && !x.ambiguous ==> a[x.slot.value] == b[y.slot.value] && x.score == y.score)
  {
    hide Select, Winner, Shared, NoneScores;
    SelectOutcome(dev, a);
    SelectOutcome(dev, b);
  }

  // ---------------------------------------------------------------------------- bindings

  datatype Binding = Free | Bound(id: nat, device: Device, driver: Driver, score: nat, priority: nat)

  function UsedSlots(bindings: seq<Binding>): nat {
    if bindings == [] then 0 else (if bindings[0].Bound? then 1 else 0) + UsedSlots(bindings[1..])
  }

  lemma {:induction false} FullMeansAllUsed(bindings: seq<Binding>)
    ensures UsedSlots(bindings) <= |bindings|
    ensures UsedSlots(bindings) == |bindings| <==> forall i :: 0 <= i < |bindings| ==> bindings[i].Bound?
  {
    if bindings != [] {
      FullMeansAllUsed(bindings[1..]);
      assert forall i :: 0 <= i < |bindings| ==> bindings[i] == ([bindings[0]] + bindings[1..])[i];
    }
  }

  lemma {:induction false} UsedAfterUpdate(bindings: seq<Binding>, i: nat, x: Binding)
    requires i < |bindings| && bindings[i].Free? && x.Bound?
    ensures UsedSlots(bindings[i := x]) == UsedSlots(bindings) + 1
  {
    if i == 0 {
      assert bindings[0 := x][1..] == bindings[1..];
    } else {
      assert bindings[i := x][1..] == bindings[1..][i - 1 := x];
      UsedAfterUpdate(bindings[1..], i - 1, x);
    }
  }

  /** One free slot took the new entry, every other kept what it had. */
  ghost predicate BindingAdded(before: seq<Binding>, after: seq<Binding>, slot: nat, entry: Binding) {
    slot < |before| && before[slot].Free? && after == before[slot := entry]
  }

  lemma {:induction false} NoneUsed(bindings: seq<Binding>)
    requires forall i :: 0 <= i < |bindings| ==> bindings[i].Free?
    ensures UsedSlots(bindings) == 0
  {
    if bindings != [] { NoneUsed(bindings[1..]); }
  }

  lemma ConsiderCases(dev: Device, table: Table, best: Best, i: nat)
    requires i < |table| && (best.slot.Some? ==> best.slot.value < |table| && table[best.slot.value].Some?)
    requires best.slot.None? ==> best.score == 0
    ensures var r := Consider(dev, table, best, i);
            if table[i].None? || Score(dev, table[i].value) == 0 || Score(dev, table[i].value) < best.score
            then r == best
            else if Score(dev, table[i].value) > best.score then r == Best(Some(i), Score(dev, table[i].value), false)
            else
              && best.slot.Some?
              && (var drv, top := table[i].value, table[best.slot.value].value;
                  r == if drv.priority > top.priority then Best(Some(i), best.score, false)
                       else if drv.priority == top.priority then best.(ambiguous := true) else best)
  {
  }

  /** Exactly one of tie, nothing and a winner. */
  lemma WhoWins(dev: Device, table: Table)
    ensures var drivers, best := multiset(table), Select(dev, table, |table|);
            && (exists d :: Winner(dev, drivers, d)) == (best.slot.Some? && !best.ambiguous)
            && !(Shared(dev, drivers) && NoneScores(dev, drivers))
  {
    hide Select;
    SelectOutcome(dev, table);
    var drivers := multiset(table);
    if Shared(dev, drivers) {
      var d, e :| TopPair(dev, drivers, d, e);
      assert Some(d) in drivers && Scores(dev, Some(d));
    }
  }

  /** The binding registry. */
  class Registry {
    const bindings: array<Binding>
    var count: nat
    var nextId: nat

    ghost predicate Valid()
      reads this, bindings
    {
      bindings.Length == MAX_BINDINGS && count == UsedSlots(bindings[..]) && nextId > 0
    }

    constructor ()
      ensures Valid() && fresh(bindings) && count == 0
    {
      bindings := new Binding[MAX_BINDINGS](_ => Free);
      count, nextId := 0, 1;
      new;
      NoneUsed(bindings[..]);
    }

    /** `device_binding_create`: fails exactly when all bindings are taken. */
    method CreateBinding(dev: Device, drv: Driver, score: nat) returns (slot: Option<nat>)
      requires Valid()
      modifies this, bindings
      ensures Valid()
      ensures slot.None? <==> old(count) == MAX_BINDINGS
      ensures slot.None? ==> bindings[..] == old(bindings[..]) && count == old(count) && nextId == old(nextId)
      ensures slot.Some? ==>
        && slot.value < MAX_BINDINGS && old(bindings[slot.value]).Free? && count == old(count) + 1
        && nextId == old(nextId) + 1
        && bindings[..] == old(bindings[..])[slot.value := Bound(old(nextId), dev, drv, score, drv.priority % TWO32)]
    {
      FullMeansAllUsed(bindings[..]);
      if count >= MAX_BINDINGS { return None; }
      for i := 0 to MAX_BINDINGS
        invariant forall k :: 0 <= k < i ==> bindings[k].Bound?
        invariant bindings[..] == old(bindings[..]) && count == old(count) && nextId == old(nextId)
      {
        if bindings[i].Free? {
          var entry := Bound(nextId, dev, drv, score, drv.priority % TWO32);
          UsedAfterUpdate(bindings[..], i, entry);
          bindings[i] := entry;
          assert bindings[..] == old(bindings[..])[i := entry];
          count, nextId := count + 1, nextId + 1;
          return Some(i);
        }
      }
      assert false;
    }

    /** `driver_match_device`: 0 with a new binding to the unique best driver, or the error that applies. */
    method MatchDevice(table: array<Option<Driver>>, dev: Device) returns (code: int)
      requires Valid()
      modifies this, bindings
      ensures Valid()
      ensures var drivers := old(multiset(table[..]));
              && (code == -16 <==> Shared(dev, drivers))
              && (code == -2 <==> NoneScores(dev, drivers))
              && (code == -28 <==> old(count) == 128 && exists d :: Winner(dev, drivers, d))
              && (code == 0 <==> old(count) < 128 && exists d :: Winner(dev, drivers, d))
              && code in {0, -16, -2, -28}
      ensures code != 0 ==> bindings[..] == old(bindings[..]) && count == old(count)
      ensures code == 0 ==> exists slot: nat, d: Driver ::
        && Winner(dev, old(multiset(table[..])), d)
        && BindingAdded(old(bindings[..]), bindings[..], slot,
                        Bound(old(nextId), dev, d, Score(dev, d), d.priority % TWO32))
    {
      hide Winner, Shared, NoneScores, UsedSlots, Score, Consider;
      ghost var was := table[..];
      var best: Option<Driver>, bestScore, ambiguous := None, 0, false;
      ghost var chosen := Best(None, 0, false);
      for i := 0 to table.Length
        invariant table[..] == was && bindings[..] == old(bindings[..]) && count == old(count) && nextId == old(nextId)
        invariant chosen == Select(dev, was, i) && chosen.score == bestScore && chosen.ambiguous == ambiguous
        invariant best == if chosen.slot.None? then None else was[chosen.slot.value]
      {
        ConsiderCases(dev, was, chosen, i);
        chosen := Consider(dev, was, chosen, i);
        if table[i].None? { continue; }
        var drv := table[i].value;
        var score := Score(dev, drv);
        if score > 0 {
          if score > bestScore {
            bestScore, best, ambiguous := score, Some(drv), false;
          } else if score == bestScore {
            if drv.priority > best.value.priority {
              best, ambiguous := Some(drv), false;
            } else if drv.priority == best.value.priority {
              ambiguous := true;
            }
          }
        }
      }
      SelectOutcome(dev, was);
      WhoWins(dev, was);
      FullMeansAllUsed(bindings[..]);
      if ambiguous { return -SYS_EBUSY; }
      if best.None? { return -SYS_ENOENT; }
      var slot := CreateBinding(dev, best.value, bestScore);
      if slot.None? { return -SYS_ENOSPC; }
      assert BindingAdded(old(bindings[..]), bindings[..], slot.value,
                          Bound(old(nextId), dev, best.value, Score(dev, best.value), best.value.priority % TWO32));
      code := 0;
    }
  }
}
