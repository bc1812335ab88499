/** What `boot_info_finalize` leaves in an accepted table: which descriptor is the root, and what lies behind each
    descriptor in memory. */
module BootRoot {
  import opened BootModules
  import opened Bytes

  // ---------------------------------------------------------------- the root is a descriptor of the table

  /** The root is the earlier one or the payload of one of the first `n` descriptors. */
  ghost predicate RootListed(ms: seq<Module>, n: nat, init: Option<Payload>, was: Option<Payload>) {
    init == was || exists j :: 0 <= j < n && j < |ms| && init == Some(Payload(ms[j].phys, ms[j].size))
  }

  lemma ListedContainer(mem: Memory, s: Boot, i: nat, was: Option<Payload>)
    requires i < |s.modules| <= MAX_MODULES && s.modules[i].size >= 128 && RootListed(s.modules, i, s.init, was)
    requires VisitContainer(mem, s, i).Keep?
    ensures var r := VisitContainer(mem, s, i).s; RootListed(r.modules, i + 1, r.init, was)
  {
    hide ValidHeader, ValidSuffix, Word;
    var r := VisitContainer(mem, s, i).s;
    assert r.modules[..i] == s.modules[..i];
    if r.init != s.init {
      assert r.init == Some(Payload(r.modules[i].phys, r.modules[i].size));
    } else if s.init != was {
      var j :| 0 <= j < i && s.init == Some(Payload(s.modules[j].phys, s.modules[j].size));
      assert r.modules[j] == s.modules[j];
    }
  }

  lemma ListedRaw(mem: Memory, s: Boot, i: nat, was: Option<Payload>)
    requires i < |s.modules| && RootListed(s.modules, i, s.init, was)
    ensures var r := VisitRaw(mem, s, i); RootListed(r.modules, i + 1, r.init, was)
  {
    hide NameIs, Ascii;
    var r := VisitRaw(mem, s, i);
    if r.init != s.init {
      assert r.init == Some(Payload(r.modules[i].phys, r.modules[i].size));
    } else if s.init != was {
      var j :| 0 <= j < i && s.init == Some(Payload(s.modules[j].phys, s.modules[j].size));
      assert r.modules[j] == s.modules[j];
    }
  }

  lemma {:induction false} ListedFrom(mem: Memory, nullAtZero: bool, s: Boot, i: nat, was: Option<Payload>)
    requires |s.modules| <= MAX_MODULES && RootListed(s.modules, i, s.init, was)
    requires Finalise(mem, nullAtZero, s, i).0 == 0
    ensures var r := Finalise(mem, nullAtZero, s, i).1; RootListed(r.modules, |r.modules|, r.init, was)
    decreases MAX_MODULES - i
  {
    hide VisitContainer, VisitRaw, Word, Finalise;
    FinaliseStep(mem, nullAtZero, s, i);
    if i < |s.modules| {
      var m := s.modules[i];
      if m.size >= 128 && !Unmapped(m, nullAtZero) {
        if Word(mem, m.phys) == CONTAINER_MAGIC { ListedContainer(mem, s, i, was); } else { ListedRaw(mem, s, i, was); }
      }
      ListedFrom(mem, nullAtZero, Visit(mem, nullAtZero, s, i).s, i + 1, was);
    }
  }

  /** Whatever memory and table hold, the root of an accepted table is the earlier one or a descriptor of the table. */
  lemma RootIsListed(mem: Memory, nullAtZero: bool, s: Boot)
    requires |s.modules| <= MAX_MODULES && Finalise(mem, nullAtZero, s, 0).0 == 0
    ensures var r := Finalise(mem, nullAtZero, s, 0).1;
            r.init == s.init ||
            exists j :: 0 <= j < |r.modules| && r.init == Some(Payload(r.modules[j].phys, r.modules[j].size))
  {
    hide Finalise;
    ListedFrom(mem, nullAtZero, s, 0, s.init);
  }

  // ---------------------------------------------------------------- what an accepted table holds

  /** A payload behind a container header that is well formed in every field the loader relies on. */
  predicate Behind(mem: Memory, m: Module) {
    && m.phys >= 128 && m.name == Field(m.phys - 128 + 76)
    && Word(mem, m.phys - 128) == 0xB4A2_D1A5
    && Word(mem, m.phys - 128 + 4) == 0x100
    && Word(mem, m.phys - 128 + 8) == 128
    && 1 <= Word(mem, m.phys - 128 + 12) <= 3
    && Word(mem, m.phys - 128 + 16) == 128
    && Word(mem, m.phys - 128 + 20) == m.size > 0
    && 0 < Word(mem, m.phys - 128 + 36) <= 31
    && mem(m.phys - 128 + 76 + Word(mem, m.phys - 128 + 36)) == 0
    && m.phys + m.size < TWO64
  }

  /** A module with no container in front: too short for one, unmapped, or without the magic word. */
  predicate Plain(mem: Memory, nullAtZero: bool, m: Module) {
    !m.name.Field? && (m.size < 128 || (nullAtZero && m.phys == 0) || Word(mem, m.phys) != 0xB4A2_D1A5)
  }

  /** A root or user image by its container's kind, or a mapped raw module of 128 bytes or more with the root's name. */
  predicate IsRoot(mem: Memory, nullAtZero: bool, m: Module) {
    if m.name.Field? then m.phys >= 128 && Word(mem, m.phys - 128 + 12) in {1, 2}
    else m.name == Text(Ascii("services/init")) && m.size >= 128 && !(nullAtZero && m.phys == 0)
  }

  ghost predicate RootAt(mem: Memory, nullAtZero: bool, ms: seq<Module>, n: nat, j: nat)
    requires j < n <= |ms|
  {
    IsRoot(mem, nullAtZero, ms[j]) && forall k :: j < k < n ==> !IsRoot(mem, nullAtZero, ms[k])
  }

  /** The root is the last of the first `n` descriptors that is one; without any it is the earlier one. */
  ghost predicate LastRoot(mem: Memory, nullAtZero: bool, ms: seq<Module>, n: nat, init: Option<Payload>,
                           was: Option<Payload>)
    requires n <= |ms|
  {
    || (init == was && forall k :: 0 <= k < n ==> !IsRoot(mem, nullAtZero, ms[k]))
    || exists j :: 0 <= j < n && RootAt(mem, nullAtZero, ms, n, j) && init == Some(Payload(ms[j].phys, ms[j].size))
  }

  ghost predicate Settled(mem: Memory, nullAtZero: bool, ms: seq<Module>, n: nat)
    requires n <= |ms|
  {
    forall k :: 0 <= k < n ==> Behind(mem, ms[k]) || Plain(mem, nullAtZero, ms[k])
  }

  /** One more descriptor settled: the root moves to it exactly when it is one. */
  lemma LastRootNext(mem: Memory, nullAtZero: bool, ms: seq<Module>, ms': seq<Module>, i: nat, init: Option<Payload>,
                     init': Option<Payload>, was: Option<Payload>)
    requires i < |ms| <= |ms'| && LastRoot(mem, nullAtZero, ms, i, init, was) && ms[..i] == ms'[..i]
    requires init' == if IsRoot(mem, nullAtZero, ms'[i]) then Some(Payload(ms'[i].phys, ms'[i].size)) else init
    ensures LastRoot(mem, nullAtZero, ms', i + 1, init', was)
  {
    hide IsRoot;
    assert forall k :: 0 <= k < i ==> ms[k] == ms[..i][k] == ms'[..i][k] == ms'[k];
    if IsRoot(mem, nullAtZero, ms'[i]) {
      assert RootAt(mem, nullAtZero, ms', i + 1, i);
    } else if !(init == was && forall k :: 0 <= k < i ==> !IsRoot(mem, nullAtZero, ms[k])) {
      var j :| 0 <= j < i && RootAt(mem, nullAtZero, ms, i, j) && init == Some(Payload(ms[j].phys, ms[j].size));
      assert RootAt(mem, nullAtZero, ms', i + 1, j);
    }
  }

  lemma SettledNext(mem: Memory, nullAtZero: bool, ms: seq<Module>, ms': seq<Module>, i: nat)
    requires i < |ms| <= |ms'| && Settled(mem, nullAtZero, ms, i) && ms[..i] == ms'[..i]
    requires Behind(mem, ms'[i]) || Plain(mem, nullAtZero, ms'[i])
    ensures Settled(mem, nullAtZero, ms', i + 1)
  {
    hide Behind, Plain;
    assert forall k :: 0 <= k < i ==> ms[k] == ms[..i][k] == ms'[..i][k] == ms'[k];
  }

  lemma ContainerSettles(mem: Memory, nullAtZero: bool, s: Boot, i: nat)
    requires i < |s.modules| <= MAX_MODULES && s.modules[i].size >= 128
    requires Word(mem, s.modules[i].phys) == 0xB4A2_D1A5 && VisitContainer(mem, s, i).Keep?
    ensures var r := VisitContainer(mem, s, i).s;
            && |s.modules| <= |r.modules| && r.modules[..i] == s.modules[..i] && Behind(mem, r.modules[i])
            && r.init == (if IsRoot(mem, nullAtZero, r.modules[i])
                          then Some(Payload(r.modules[i].phys, r.modules[i].size)) else s.init)
            && forall k :: i < k < |r.modules| ==>
                 if k < |s.modules| then r.modules[k] == s.modules[k] else r.modules[k].name == NullName
  {
    hide ValidSuffix, Word, Ascii;
    var m, r := s.modules[i], VisitContainer(mem, s, i).s;
    assert ValidHeader(mem, m);
    assert r.modules[i] == Stripped(mem, m);
    assert r.modules[i].phys - 128 == m.phys;
  }

  lemma RawSettles(mem: Memory, nullAtZero: bool, s: Boot, i: nat)
    requires i < |s.modules| && s.modules[i].size >= 128 && !Unmapped(s.modules[i], nullAtZero)
    requires Word(mem, s.modules[i].phys) != 0xB4A2_D1A5 && !s.modules[i].name.Field?
    ensures var r := VisitRaw(mem, s, i);
            && |s.modules| == |r.modules| && r.modules[..i] == s.modules[..i]
            && Plain(mem, nullAtZero, r.modules[i])
            && r.init == (if IsRoot(mem, nullAtZero, r.modules[i])
                          then Some(Payload(r.modules[i].phys, r.modules[i].size)) else s.init)
            && forall k :: i < k < |r.modules| ==> r.modules[k] == s.modules[k]
  {
    hide Word, Ascii;
  }

  lemma VisitSettles(mem: Memory, nullAtZero: bool, s: Boot, i: nat)
    requires i < |s.modules| <= MAX_MODULES && Fresh(s.modules, i) && Visit(mem, nullAtZero, s, i).Keep?
    ensures var r := Visit(mem, nullAtZero, s, i).s;
            && |s.modules| <= |r.modules| && r.modules[..i] == s.modules[..i] && Fresh(r.modules, i + 1)
            && (Behind(mem, r.modules[i]) || Plain(mem, nullAtZero, r.modules[i]))
            && r.init == if IsRoot(mem, nullAtZero, r.modules[i])
                         then Some(Payload(r.modules[i].phys, r.modules[i].size)) else s.init
  {
    hide VisitContainer, VisitRaw, Word, Ascii, Behind;
    var m := s.modules[i];
    if m.size >= 128 && !Unmapped(m, nullAtZero) {
      if Word(mem, m.phys) == CONTAINER_MAGIC {
        ContainerSettles(mem, nullAtZero, s, i);
      } else {
        RawSettles(mem, nullAtZero, s, i);
      }
    }
  }

  lemma {:induction false} SettlesFrom(mem: Memory, nullAtZero: bool, s: Boot, i: nat, was: Option<Payload>)
    requires i <= |s.modules| <= MAX_MODULES && Fresh(s.modules, i) && Finalise(mem, nullAtZero, s, i).0 == 0
    requires Settled(mem, nullAtZero, s.modules, i) && LastRoot(mem, nullAtZero, s.modules, i, s.init, was)
    ensures var r := Finalise(mem, nullAtZero, s, i).1;
            && Settled(mem, nullAtZero, r.modules, |r.modules|)
            && LastRoot(mem, nullAtZero, r.modules, |r.modules|, r.init, was)
    decreases MAX_MODULES - i
  {
    hide Visit, Finalise, Fresh, Settled, LastRoot, IsRoot, Behind, Plain;
    FinaliseStep(mem, nullAtZero, s, i);
    if i < |s.modules| {
      VisitSettles(mem, nullAtZero, s, i);
      var r := Visit(mem, nullAtZero, s, i).s;
      SettledNext(mem, nullAtZero, s.modules, r.modules, i);
      LastRootNext(mem, nullAtZero, s.modules, r.modules, i, s.init, r.init, was);
      SettlesFrom(mem, nullAtZero, r, i + 1, was);
    }
  }

  /** In an accepted table every descriptor is the payload behind a well-formed header or a module without a
      container, so no header is left in place, and the root is the last descriptor that is one. */
  lemma AcceptedTable(mem: Memory, nullAtZero: bool, s: Boot)
    requires |s.modules| <= MAX_MODULES && Fresh(s.modules, 0) && Finalise(mem, nullAtZero, s, 0).0 == 0
    ensures var r := Finalise(mem, nullAtZero, s, 0).1;
            && (forall k :: 0 <= k < |r.modules| ==> Behind(mem, r.modules[k]) || Plain(mem, nullAtZero, r.modules[k]))
            && LastRoot(mem, nullAtZero, r.modules, |r.modules|, r.init, s.init)
  {
    hide Finalise, Fresh, IsRoot, Behind, Plain;
    SettlesFrom(mem, nullAtZero, s, 0, s.init);
  }

  // ---------------------------------------------------------------- what expansion appends

  /** A service: the payload behind a header of kind 3, or a part still to be visited that starts with one. */
  predicate Service(mem: Memory, m: Module) {
    if m.name.Field? then m.phys >= 128 && Word(mem, m.phys - 128 + 12) == 3
    else m.phys > 0 && m.size >= 128 && Word(mem, m.phys) == 0xB4A2_D1A5 && Word(mem, m.phys + 12) == 3
  }

  ghost predicate ServicesFrom(mem: Memory, ms: seq<Module>, n: nat) {
    forall k :: n <= k < |ms| ==> Service(mem, ms[k])
  }

  lemma VisitAppendsServices(mem: Memory, nullAtZero: bool, s: Boot, i: nat, n: nat)
    requires i < |s.modules| <= MAX_MODULES && Fresh(s.modules, i) && n <= |s.modules|
    requires Visit(mem, nullAtZero, s, i).Keep? && ServicesFrom(mem, s.modules, n)
    ensures var r := Visit(mem, nullAtZero, s, i).s.modules;
            ServicesFrom(mem, r, n) && (n <= i ==> Behind(mem, r[i]))
  {
    hide ValidHeader, NameIs, Word, Ascii, Behind;
    var m, r := s.modules[i], Visit(mem, nullAtZero, s, i).s.modules;
    assert n <= i ==> Service(mem, m);
    if m.size >= 128 && !Unmapped(m, nullAtZero) {
      if Word(mem, m.phys) == CONTAINER_MAGIC {
        assert r[i] == Stripped(mem, m) && r[i].phys - 128 == m.phys;
        ContainerSettles(mem, nullAtZero, s, i);
      } else {
        assert forall k :: 0 <= k < |r| && k != i ==> r[k] == s.modules[k];
      }
    }
  }

  lemma {:induction false} ServicesFromHere(mem: Memory, nullAtZero: bool, s: Boot, i: nat, n: nat)
    requires i <= |s.modules| <= MAX_MODULES && Fresh(s.modules, i) && Finalise(mem, nullAtZero, s, i).0 == 0
    requires n <= |s.modules| && ServicesFrom(mem, s.modules, n)
    requires forall k :: n <= k < i ==> Behind(mem, s.modules[k])
    ensures var r := Finalise(mem, nullAtZero, s, i).1.modules;
            ServicesFrom(mem, r, n) && forall k :: n <= k < |r| ==> Behind(mem, r[k])
    decreases MAX_MODULES - i
  {
    hide Visit, Finalise, Fresh, ServicesFrom, IsRoot, Behind, Plain;
    FinaliseStep(mem, nullAtZero, s, i);
    if i < |s.modules| {
      VisitAppendsServices(mem, nullAtZero, s, i, n);
      VisitSettles(mem, nullAtZero, s, i);
      var r := Visit(mem, nullAtZero, s, i).s;
      assert forall k :: 0 <= k < i ==> r.modules[k] == r.modules[..i][k] == s.modules[..i][k] == s.modules[k];
      ServicesFromHere(mem, nullAtZero, r, i + 1, n);
    }
  }

  /** Every descriptor that expansion appends to an accepted table is the payload of a service container, so only a
      module the loader registered can be the root. */
  lemma AppendedAreServices(mem: Memory, nullAtZero: bool, s: Boot)
    requires |s.modules| <= MAX_MODULES && Fresh(s.modules, 0) && Finalise(mem, nullAtZero, s, 0).0 == 0
    ensures var r := Finalise(mem, nullAtZero, s, 0).1.modules;
            forall k :: |s.modules| <= k < |r| ==>
              Behind(mem, r[k]) && Word(mem, r[k].phys - 128 + 12) == 3 && !IsRoot(mem, nullAtZero, r[k])
  {
    hide Finalise, Fresh, Word;
    ServicesFromHere(mem, nullAtZero, s, 0, |s.modules|);
    var r := Finalise(mem, nullAtZero, s, 0).1.modules;
    assert forall k :: |s.modules| <= k < |r| ==> Behind(mem, r[k]) && Service(mem, r[k]);
  }

  // ---------------------------------------------------------------- tables of raw modules

  /** A mapped module of 128 bytes or more that the loader called `services/init` or `initrd`. */
  predicate RawRoot(mem: Memory, nullAtZero: bool, m: Module) {
    && m.size >= 128 && !(nullAtZero && m.phys == 0)
    && (NameIs(mem, m.name, Ascii("services/init")) || NameIs(mem, m.name, Ascii("initrd")))
  }

  /** Module `j` is a raw root with none behind it. */
  ghost predicate LastRawRoot(mem: Memory, nullAtZero: bool, ms: seq<Module>, j: nat)
    requires j < |ms|
  {
    RawRoot(mem, nullAtZero, ms[j]) && forall k :: j < k < |ms| ==> !RawRoot(mem, nullAtZero, ms[k])
  }

  /** The module as the loop leaves it. */
  function Renamed(mem: Memory, nullAtZero: bool, m: Module): Module {
    if RawRoot(mem, nullAtZero, m) then Module(m.phys, m.size, Text(Ascii("services/init"))) else m
  }

  ghost predicate NoContainer(mem: Memory, nullAtZero: bool, ms: seq<Module>) {
    forall k :: 0 <= k < |ms| ==>
      ms[k].size < 128 || (nullAtZero && ms[k].phys == 0) || Word(mem, ms[k].phys) != 0xB4A2_D1A5
  }

  /** The last raw root at or behind index `i`, else the earlier root. */
  function LastRaw(mem: Memory, nullAtZero: bool, ms: seq<Module>, i: nat, was: Option<Payload>): Option<Payload>
    requires i <= |ms|
    decreases |ms| - i
  {
    if i == |ms| then was
    else
      LastRaw(mem, nullAtZero, ms, i + 1,
              if RawRoot(mem, nullAtZero, ms[i]) then Some(Payload(ms[i].phys, ms[i].size)) else was)
  }

  /** The last raw root gives the payload; without one the earlier root stays. */
  lemma {:induction false} LastRawMeaning(mem: Memory, nullAtZero: bool, ms: seq<Module>, i: nat, was: Option<Payload>)
    requires i <= |ms|
    ensures var r := LastRaw(mem, nullAtZero, ms, i, was);
            && ((forall k :: i <= k < |ms| ==> !RawRoot(mem, nullAtZero, ms[k])) ==> r == was)
            && forall j :: i <= j < |ms| && LastRawRoot(mem, nullAtZero, ms, j) ==>
                 r == Some(Payload(ms[j].phys, ms[j].size))
    decreases |ms| - i
  {
    hide RawRoot;
    if i == |ms| {
    } else {
      LastRawMeaning(mem, nullAtZero, ms, i + 1,
                     if RawRoot(mem, nullAtZero, ms[i]) then Some(Payload(ms[i].phys, ms[i].size)) else was);
    }
  }

  lemma RawVisit(mem: Memory, nullAtZero: bool, s: Boot, i: nat)
    requires i < |s.modules| <= MAX_MODULES && NoContainer(mem, nullAtZero, s.modules[i..i + 1])
    ensures Visit(mem, nullAtZero, s, i) ==
            Keep(s.(modules := s.modules[i := Renamed(mem, nullAtZero, s.modules[i])],
                    init := if RawRoot(mem, nullAtZero, s.modules[i])
                            then Some(Payload(s.modules[i].phys, s.modules[i].size)) else s.init))
  {
    hide VisitContainer, Word, NameIs, Ascii;
    assert s.modules[i..i + 1][0] == s.modules[i];
    assert s.modules == s.modules[i := s.modules[i]];
  }

  lemma {:induction false} RawFrom(mem: Memory, nullAtZero: bool, s: Boot, i: nat, ms: seq<Module>)
    requires |s.modules| == |ms| <= MAX_MODULES && i <= |ms| && NoContainer(mem, nullAtZero, ms)
    requires s.modules[i..] == ms[i..]
    requires forall k :: 0 <= k < i ==> s.modules[k] == Renamed(mem, nullAtZero, ms[k])
    ensures var r := Finalise(mem, nullAtZero, s, i);
            && r.0 == 0 && r.1.degraded == s.degraded && r.1.init == LastRaw(mem, nullAtZero, ms, i, s.init)
            && |r.1.modules| == |ms| && forall k :: 0 <= k < |ms| ==> r.1.modules[k] == Renamed(mem, nullAtZero, ms[k])
    decreases |ms| - i
  {
    hide Visit, Finalise, Renamed, RawRoot, Word;
    FinaliseStep(mem, nullAtZero, s, i);
    if i < |ms| {
      assert s.modules[i] == s.modules[i..][0] == ms[i..][0] == ms[i];
      assert s.modules[i..i + 1] == [ms[i]];
      RawVisit(mem, nullAtZero, s, i);
      var r := Visit(mem, nullAtZero, s, i).s;
      assert r.modules[i + 1..] == s.modules[i..][1..] == ms[i..][1..] == ms[i + 1..];
      RawFrom(mem, nullAtZero, r, i + 1, ms);
    }
  }

  /** A table without containers is accepted; every range stays, exactly the raw roots are renamed, and the last of
      them is the root, or the earlier root stays when there is none. */
  lemma RawTable(mem: Memory, nullAtZero: bool, s: Boot)
    requires |s.modules| <= MAX_MODULES && NoContainer(mem, nullAtZero, s.modules)
    ensures var (code, r) := Finalise(mem, nullAtZero, s, 0);
            && code == 0 && r.degraded == s.degraded && |r.modules| == |s.modules|
            && (forall k :: 0 <= k < |s.modules| ==>
                  && r.modules[k].phys == s.modules[k].phys && r.modules[k].size == s.modules[k].size
                  && r.modules[k].name == if RawRoot(mem, nullAtZero, s.modules[k]) then Text(Ascii("services/init"))
                                          else s.modules[k].name)
            && ((forall k :: 0 <= k < |s.modules| ==> !RawRoot(mem, nullAtZero, s.modules[k])) ==> r.init == s.init)
            && forall j :: 0 <= j < |s.modules| && LastRawRoot(mem, nullAtZero, s.modules, j) ==>
                 r.init == Some(Payload(s.modules[j].phys, s.modules[j].size))
  {
    hide Finalise, RawRoot, Ascii, NoContainer, LastRaw;
    RawFrom(mem, nullAtZero, s, 0, s.modules);
    LastRawMeaning(mem, nullAtZero, s.modules, 0, s.init);
    assert forall k :: 0 <= k < |s.modules| ==>
      Finalise(mem, nullAtZero, s, 0).1.modules[k] == Renamed(mem, nullAtZero, s.modules[k]);
  }
}
