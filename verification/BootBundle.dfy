/** The packager's bundle writer and its round trip through `boot_info_finalize`. */
module BootBundle {
  import opened Bytes
  import opened BootModules

  /** An executable with its boot name in UTF-8. */
  datatype Binary = Binary(name: seq<byte>, payload: seq<byte>)

  /** A container: root (kind 1) or service (kind 3), and the name length its header states. */
  datatype Item = Item(kind: nat, name: seq<byte>, nameLen: nat, payload: seq<byte>)

  /** Characters of a UTF-8 text: its bytes that do not continue a character. */
  function CharCount(text: seq<byte>): (n: nat)
    ensures n <= |text|
  {
    if text == [] then 0 else CharCount(text[..|text| - 1]) + if 0x80 <= text[|text| - 1] < 0xC0 then 0 else 1
  }

  /** The root's header states the length of its name in characters, a service's in bytes. */
  function RootItem(b: Binary): Item { Item(1, b.name, CharCount(b.name), b.payload) }

  function ServiceItem(b: Binary): Item { Item(3, b.name, |b.name|, b.payload) }

  function Items(root: Binary, services: seq<Binary>): (r: seq<Item>)
    ensures |r| == |services| + 1 && r[0] == RootItem(root)
    ensures forall i :: 0 <= i < |services| ==> r[i + 1] == ServiceItem(services[i])
  {
    [RootItem(root)] + seq(|services|, i requires 0 <= i < |services| => ServiceItem(services[i]))
  }

  function PutLeWords(w: seq<nat>): (r: seq<byte>)
    ensures |r| == 4 * |w|
  {
    if w == [] then [] else PutLeWords(w[..|w| - 1]) + PutLe32(w[|w| - 1])
  }

  /** The 32-byte name field: truncated or zero-padded. */
  function NameBytes(name: seq<byte>): (r: seq<byte>)
    ensures |r| == 32
  {
    if |name| >= 32 then name[..32] else name + Zeros(32 - |name|)
  }

  function HeaderWords(c: Item): seq<nat> {
    [CONTAINER_MAGIC, 0x100, HEADER, c.kind, HEADER, |c.payload|, 0, 0, 0, c.nameLen, 0]
  }

  function PrintHeader(c: Item): (r: seq<byte>)
    ensures |r| == HEADER
  {
    PutLeWords(HeaderWords(c)) + Zeros(32) + NameBytes(c.name) + Zeros(20)
  }

  function PrintItem(c: Item): (r: seq<byte>)
    ensures |r| == HEADER + |c.payload|
  {
    PrintHeader(c) + c.payload
  }

  function Print(cs: seq<Item>): seq<byte> {
    if cs == [] then [] else PrintItem(cs[0]) + Print(cs[1..])
  }

  /** The `struct.pack` field widths. */
  predicate Fits(c: Item) { |c.payload| < TWO32 && c.nameLen < TWO32 }

  lemma {:induction false} PrintAppend(cs: seq<Item>, c: Item)
    ensures Print(cs + [c]) == Print(cs) + PrintItem(c)
    decreases |cs|
  {
    if cs == [] {
      assert cs + [c] == [c];
      assert Print([]) + PrintItem(c) == PrintItem(c) == PrintItem(c) + Print([]);
    } else {
      assert (cs + [c])[1..] == cs[1..] + [c];
      PrintAppend(cs[1..], c);
    }
  }

  lemma PrintOne(c: Item)
    ensures Print([c]) == PrintItem(c)
  {
    assert Print([c]) == PrintItem(c) + Print([]);
  }

  /** The bundle written by `execute_package`: the root first, then one container per service;
      `None` is the `struct.error` of a payload or name that does not fit its size field. */
  method WriteBundle(root: Binary, services: seq<Binary>) returns (r: Option<seq<byte>>)
    ensures r.Some? <==> forall i :: 0 <= i <= |services| ==> Fits(Items(root, services)[i])
    ensures r.Some? ==> r.value == Print(Items(root, services))
  {
    hide Print, PrintHeader, CharCount, Items, Fits;
    ghost var cs := Items(root, services);
    var item := RootItem(root);
    if !Fits(item) {
      assert !Fits(cs[0]);
      return None;
    }
    var bundle := PrintHeader(item) + root.payload;
    PrintOne(item);
    assert cs[..1] == [item];
    for i := 0 to |services|
      invariant bundle == Print(cs[..i + 1])
      invariant forall k :: 0 <= k <= i ==> Fits(cs[k])
    {
      item := ServiceItem(services[i]);
      assert cs[i + 1] == item;
      if !Fits(item) { return None; }
      PrintAppend(cs[..i + 1], item);
      assert cs[..i + 2] == cs[..i + 1] + [item];
      bundle := bundle + PrintHeader(item);
      bundle := bundle + services[i].payload;
    }
    assert cs[..|services| + 1] == cs;
    r := Some(bundle);
  }

  // ------------------------------------------------------------- reading it back

  /** Memory holds `x` from address `a` on. */
  ghost predicate Loaded(mem: Memory, a: nat, x: seq<byte>) {
    forall i :: 0 <= i < |x| ==> mem(a + i) == x[i]
  }

  lemma LoadedSplit(mem: Memory, a: nat, x: seq<byte>, y: seq<byte>)
    requires Loaded(mem, a, x + y)
    ensures Loaded(mem, a, x) && Loaded(mem, a + |x|, y)
  {
    forall i | 0 <= i < |x| ensures mem(a + i) == x[i] { assert (x + y)[i] == x[i]; }
    forall i | 0 <= i < |y| ensures mem(a + |x| + i) == y[i] { assert (x + y)[|x| + i] == y[i]; }
  }

  lemma LoadedWord(mem: Memory, a: nat, v: nat)
    requires Loaded(mem, a, PutLe32(v)) && v < TWO32
    ensures Word(mem, a) == v
  {
    var x := PutLe32(v);
    assert mem(a) == mem(a + 0) == x[0] && mem(a + 1) == x[1] && mem(a + 2) == x[2] && mem(a + 3) == x[3];
    var y := [mem(a), mem(a + 1), mem(a + 2), mem(a + 3)];
    assert y == x && At(y, 0, x);
    GetPutLe32(y, 0, v);
  }

  lemma {:induction false} LoadedWords(mem: Memory, a: nat, w: seq<nat>, i: nat)
    requires Loaded(mem, a, PutLeWords(w)) && i < |w| && w[i] < TWO32
    ensures Word(mem, a + 4 * i) == w[i]
    decreases |w|
  {
    var init := w[..|w| - 1];
    LoadedSplit(mem, a, PutLeWords(init), PutLe32(w[|w| - 1]));
    if i == |w| - 1 { LoadedWord(mem, a + 4 * i, w[i]); } else { LoadedWords(mem, a, init, i); }
  }

  /** The header fields the loader reads are the ones the packager wrote. */
  lemma HeaderReadsBack(mem: Memory, a: nat, c: Item)
    requires Loaded(mem, a, PrintHeader(c)) && Fits(c) && c.kind < TWO32
    ensures Word(mem, a) == CONTAINER_MAGIC && Word(mem, a + 4) == 0x100 && Word(mem, a + 8) == HEADER
    ensures Word(mem, a + 12) == c.kind && Word(mem, a + 16) == HEADER && Word(mem, a + 20) == |c.payload|
    ensures Word(mem, a + 36) == c.nameLen && Loaded(mem, a + NAME_FIELD, NameBytes(c.name))
  {
    hide PutLeWords, Loaded, Word;
    var w := HeaderWords(c);
    LoadedSplit(mem, a, PutLeWords(w) + Zeros(32) + NameBytes(c.name), Zeros(20));
    LoadedSplit(mem, a, PutLeWords(w) + Zeros(32), NameBytes(c.name));
    LoadedSplit(mem, a, PutLeWords(w), Zeros(32));
    LoadedWords(mem, a, w, 0);
    LoadedWords(mem, a, w, 1);
    LoadedWords(mem, a, w, 2);
    LoadedWords(mem, a, w, 3);
    LoadedWords(mem, a, w, 4);
    LoadedWords(mem, a, w, 5);
    LoadedWords(mem, a, w, 9);
  }

  /** In memory a packaged root announces itself as kind 1 and a service as kind 3, with its name length in front of the
      name field and its payload size, in the words the loader reads. */
  lemma PackagedHeaders(mem: Memory, a: nat, b: Binary)
    requires Fits(RootItem(b)) && Fits(ServiceItem(b))
    ensures Loaded(mem, a, PrintHeader(RootItem(b))) ==>
      && Word(mem, a) == 0xB4A2_D1A5 && Word(mem, a + 4) == 0x100 && Word(mem, a + 12) == 1
      && Word(mem, a + 20) == |b.payload| && Word(mem, a + 36) == CharCount(b.name)
    ensures Loaded(mem, a, PrintHeader(ServiceItem(b))) ==>
      && Word(mem, a) == 0xB4A2_D1A5 && Word(mem, a + 4) == 0x100 && Word(mem, a + 12) == 3
      && Word(mem, a + 20) == |b.payload| && Word(mem, a + 36) == |b.name|
  {
    hide Word, PrintHeader, Loaded;
    if Loaded(mem, a, PrintHeader(RootItem(b))) { HeaderReadsBack(mem, a, RootItem(b)); }
    if Loaded(mem, a, PrintHeader(ServiceItem(b))) { HeaderReadsBack(mem, a, ServiceItem(b)); }
  }

  /** What the loader asks of a container: a payload, and a name that ends where its stated length says, within 31
      bytes. */
  predicate Acceptable(c: Item) { c.payload != [] && 0 < c.nameLen < 32 && NameBytes(c.name)[c.nameLen] == 0 }

  /** The field of a name without NUL is zero exactly behind the name. */
  lemma NameFieldZero(name: seq<byte>, k: nat)
    requires NoNul(name) && k < 32
    ensures NameBytes(name)[k] == 0 <==> |name| <= k
  {
    var n := NameBytes(name);
    if |name| < 32 {
      assert n == name + Zeros(32 - |name|);
      if k >= |name| { assert n[k] == Zeros(32 - |name|)[k - |name|]; } else { assert n[k] == name[k]; }
    } else {
      assert n[k] == name[k];
    }
  }

  lemma {:induction false} SingleByteNames(text: seq<byte>)
    ensures CharCount(text) == |text| <==> forall i :: 0 <= i < |text| ==> !(0x80 <= text[i] < 0xC0)
  {
    if text != [] {
      var n := |text| - 1;
      SingleByteNames(text[..n]);
      assert forall i :: 0 <= i < n ==> text[..n][i] == text[i];
    }
  }

  /** A service is acceptable with any name of 1 to 31 bytes. A root needs in addition that no character of its name
      takes more than one byte, because its header states the length in characters. */
  lemma AcceptableNames(b: Binary)
    requires NoNul(b.name)
    ensures Acceptable(ServiceItem(b)) <==> b.payload != [] && 0 < |b.name| < 32
    ensures Acceptable(RootItem(b)) <==>
            b.payload != [] && 0 < |b.name| < 32 && forall i :: 0 <= i < |b.name| ==> !(0x80 <= b.name[i] < 0xC0)
  {
    hide NameBytes;
    SingleByteNames(b.name);
    if |b.name| < 32 { NameFieldZero(b.name, |b.name|); }
    if CharCount(b.name) < 32 { NameFieldZero(b.name, CharCount(b.name)); }
  }

  /** A name the loader takes for a service and refuses for a root: its last character takes two bytes. */
  lemma RootNameRefused()
    ensures var b := Binary([0x61, 0xC3, 0xA9], [0]);
            NoNul(b.name) && Acceptable(ServiceItem(b)) && !Acceptable(RootItem(b))
  {
    var b := Binary([0x61, 0xC3, 0xA9], [0]);
    AcceptableNames(b);
    assert 0x80 <= b.name[2] < 0xC0;
  }

  /** A printed header passes validation exactly when the item is acceptable and the range fits 64 bits. */
  lemma ValidIffAcceptable(mem: Memory, c: Item, m: Module)
    requires Loaded(mem, m.phys, PrintItem(c)) && Fits(c) && 1 <= c.kind <= 3 && |PrintItem(c)| <= m.size
    ensures ValidHeader(mem, m) <==> Acceptable(c) && m.phys + m.size < TWO64
  {
    hide Word, PrintHeader;
    LoadedSplit(mem, m.phys, PrintHeader(c), c.payload);
    HeaderReadsBack(mem, m.phys, c);
    if 0 < c.nameLen < 32 { assert mem(m.phys + NAME_FIELD + c.nameLen) == NameBytes(c.name)[c.nameLen]; }
  }

  function Descriptor(c: Item, a: nat): Module { Module(a + HEADER, |c.payload|, Field(a + NAME_FIELD)) }

  /** One descriptor per container, in order. */
  function Descriptors(cs: seq<Item>, a: nat): (r: seq<Module>)
    ensures |r| == |cs|
  {
    if cs == [] then [] else [Descriptor(cs[0], a)] + Descriptors(cs[1..], a + |PrintItem(cs[0])|)
  }

  predicate AllAcceptable(cs: seq<Item>) { forall i :: 0 <= i < |cs| ==> Acceptable(cs[i]) }

  /** A first container of any kind followed by services. */
  predicate Bundle(cs: seq<Item>) {
    && cs != []
    && (forall i :: 0 <= i < |cs| ==> Fits(cs[i]) && 1 <= cs[i].kind <= 3)
    && (forall i :: 1 <= i < |cs| ==> cs[i].kind == 3)
  }

  lemma PrintSize(cs: seq<Item>)
    ensures cs != [] ==> |Print(cs)| >= HEADER + |cs[0].payload|
    ensures |cs| >= 2 ==> |Print(cs)| >= 2 * HEADER + |cs[0].payload|
  {
    if |cs| >= 2 { assert Print(cs[1..]) == PrintItem(cs[1]) + Print(cs[1..][1..]); }
  }

  /** The boot record after a bundle whose first container was at index `i` has been expanded. */
  function Expanded(s: Boot, i: nat, cs: seq<Item>, a: nat): Boot
    requires i <= |s.modules| && cs != []
  {
    s.(modules := s.modules[..i] + Descriptors(cs, a),
       init := if cs[0].kind == 3 then s.init else Some(Payload(a + HEADER, |cs[0].payload|)))
  }

  lemma PrintCons(cs: seq<Item>)
    requires cs != []
    ensures Print(cs) == PrintItem(cs[0]) + Print(cs[1..])
  {
  }

  lemma PrintNone()
    ensures Print([]) == []
  {
  }

  /** What follows the head of a bundle starts with a service's header. */
  lemma NextHeader(mem: Memory, b: nat, cs: seq<Item>)
    requires cs != [] && Fits(cs[0]) && cs[0].kind == 3 && Loaded(mem, b, Print(cs))
    ensures |Print(cs)| >= HEADER && ValidSuffix(mem, b)
  {
    hide Word, Print, PrintHeader, Loaded;
    PrintCons(cs);
    LoadedSplit(mem, b, PrintItem(cs[0]), Print(cs[1..]));
    LoadedSplit(mem, b, PrintHeader(cs[0]), cs[0].payload);
    HeaderReadsBack(mem, b, cs[0]);
  }

  /** Everything the loop reads at the head of a printed bundle. */
  lemma HeadFacts(mem: Memory, m: Module, cs: seq<Item>)
    requires Bundle(cs) && m.size == |Print(cs)| && Loaded(mem, m.phys, Print(cs))
    ensures m.size >= HEADER && Word(mem, m.phys) == CONTAINER_MAGIC
    ensures Word(mem, m.phys + 12) == cs[0].kind && Word(mem, m.phys + 20) == |cs[0].payload|
    ensures ValidHeader(mem, m) <==> Acceptable(cs[0]) && m.phys + m.size < TWO64
    ensures |Print(cs[1..])| == m.size - HEADER - |cs[0].payload|
    ensures if |cs| == 1 then |Print(cs[1..])| == 0
            else |Print(cs[1..])| >= HEADER && ValidSuffix(mem, m.phys + HEADER + |cs[0].payload|)
    ensures Loaded(mem, m.phys + HEADER + |cs[0].payload|, Print(cs[1..]))
  {
    hide Word, Print, PrintHeader, ValidHeader, ValidSuffix, Loaded, Acceptable;
    PrintSize(cs);
    PrintCons(cs);
    LoadedSplit(mem, m.phys, PrintItem(cs[0]), Print(cs[1..]));
    LoadedSplit(mem, m.phys, PrintHeader(cs[0]), cs[0].payload);
    HeaderReadsBack(mem, m.phys, cs[0]);
    ValidIffAcceptable(mem, cs[0], m);
    if |cs| > 1 {
      NextHeader(mem, m.phys + HEADER + |cs[0].payload|, cs[1..]);
    } else {
      assert cs[1..] == [];
      PrintNone();
    }
  }

  /** The table after the head of the bundle: its descriptor, then the rest of the bundle, if any. */
  function AfterHead(s: Boot, cs: seq<Item>, a: nat): seq<Module>
    requires s.modules != [] && cs != []
  {
    s.modules[..|s.modules| - 1] + [Descriptor(cs[0], a)]
    + if |cs| > 1 then [Module(a + HEADER + |cs[0].payload|, |Print(cs[1..])|, NullName)] else []
  }

  lemma BundleNonEmpty(cs: seq<Item>)
    requires Bundle(cs)
    ensures cs != []
  {
  }

  /** One visit of the loop at the head of a printed bundle that is last in the table. */
  lemma VisitHead(mem: Memory, s: Boot, cs: seq<Item>, a: nat)
    requires s.modules != [] && |s.modules| <= MAX_MODULES && Bundle(cs)
    requires var m := s.modules[|s.modules| - 1]; m.phys == a && m.size == |Print(cs)|
    requires Loaded(mem, a, Print(cs))
    ensures s.modules[|s.modules| - 1].size >= HEADER && Word(mem, a) == CONTAINER_MAGIC
    ensures var i, v := |s.modules| - 1, VisitContainer(mem, s, |s.modules| - 1);
            && (v.Keep? <==> Acceptable(cs[0]) && a + |Print(cs)| < TWO64 && (|cs| > 1 ==> |s.modules| < MAX_MODULES))
            && (v.Keep? ==> v.s == s.(modules := AfterHead(s, cs, a),
                 init := if cs[0].kind == 3 then s.init else Some(Payload(a + HEADER, |cs[0].payload|))))
  {
    hide Word, ValidHeader, ValidSuffix, Loaded, Print, Bundle, Acceptable;
    var i, m := |s.modules| - 1, s.modules[|s.modules| - 1];
    assert cs != [] by { BundleNonEmpty(cs); }
    HeadFacts(mem, m, cs);
    assert Stripped(mem, m) == Descriptor(cs[0], a);
    assert s.modules[i := Descriptor(cs[0], a)] == s.modules[..i] + [Descriptor(cs[0], a)];
    assert s.modules[i := Descriptor(cs[0], a)] + [] == s.modules[i := Descriptor(cs[0], a)];
  }

  lemma Reassociate(x: seq<Module>, d: seq<Module>, t: seq<Module>, e: seq<Module>)
    ensures (x + d + e)[..|x| + |d|] + t == x + (d + t)
  {
    assert (x + d + e)[..|x| + |d|] == x + d;
    assert x + d + t == x + (d + t);
  }

  lemma DescriptorsCons(cs: seq<Item>, a: nat)
    requires cs != []
    ensures Descriptors(cs, a) == [Descriptor(cs[0], a)] + Descriptors(cs[1..], a + HEADER + |cs[0].payload|)
  {
    hide PrintItem;
  }

  lemma ExpandedStep(s: Boot, cs: seq<Item>, a: nat)
    requires s.modules != [] && cs != []
    ensures var i := |s.modules| - 1;
            && AfterHead(s, cs, a)[..i + 1] + Descriptors(cs[1..], a + HEADER + |cs[0].payload|)
               == s.modules[..i] + Descriptors(cs, a)
            && (|cs| == 1 ==> AfterHead(s, cs, a) == s.modules[..i] + Descriptors(cs, a))
  {
    hide Print, Descriptors, PrintItem;
    var i, b := |s.modules| - 1, a + HEADER + |cs[0].payload|;
    var x, d, t := s.modules[..i], [Descriptor(cs[0], a)], Descriptors(cs[1..], b);
    DescriptorsCons(cs, a);
    Reassociate(x, d, t, if |cs| > 1 then [Module(b, |Print(cs[1..])|, NullName)] else []);
    if |cs| == 1 {
      assert |t| == 0;
      assert x + d + [] == x + (d + []);
    }
  }

  lemma BundleTail(cs: seq<Item>)
    requires Bundle(cs) && |cs| > 1
    ensures Bundle(cs[1..]) && cs[1].kind == 3
  {
    assert forall k :: 0 <= k < |cs[1..]| ==> cs[1..][k] == cs[k + 1];
  }

  lemma AcceptableTail(cs: seq<Item>)
    requires cs != []
    ensures AllAcceptable(cs) <==> Acceptable(cs[0]) && AllAcceptable(cs[1..])
  {
    assert forall k :: 0 <= k < |cs[1..]| ==> cs[1..][k] == cs[k + 1];
  }

  lemma AcceptableNone(cs: seq<Item>)
    requires cs == []
    ensures AllAcceptable(cs)
  {
  }

  /** The central induction over the growing loop. */
  lemma {:induction false} ExpandBundle(mem: Memory, nullAtZero: bool, s: Boot, cs: seq<Item>, a: nat)
    requires s.modules != [] && |s.modules| <= MAX_MODULES && Bundle(cs)
    requires var m := s.modules[|s.modules| - 1]; m.phys == a && m.size == |Print(cs)|
    requires Loaded(mem, a, Print(cs)) && (nullAtZero ==> a > 0)
    ensures var r := Finalise(mem, nullAtZero, s, |s.modules| - 1);
            && (r.0 == 0 <==> AllAcceptable(cs) && |s.modules| - 1 + |cs| <= MAX_MODULES && a + |Print(cs)| < TWO64)
            && (r.0 == 0 ==> cs != [] && r.1 == Expanded(s, |s.modules| - 1, cs, a))
            && (r.0 == 0 || r.0 == -1)
    decreases |cs|
  {
    hide Word, VisitContainer, VisitRaw, Loaded, Print, Bundle, AllAcceptable, Acceptable, Descriptors, ValidHeader,
         ValidSuffix;
    var i := |s.modules| - 1;
    BundleNonEmpty(cs);
    VisitHead(mem, s, cs, a);
    HeadFacts(mem, s.modules[i], cs);
    AcceptableTail(cs);
    ExpandedStep(s, cs, a);
    var v := VisitContainer(mem, s, i);
    assert Visit(mem, nullAtZero, s, i) == v;
    if v.Keep? && |cs| > 1 {
      BundleTail(cs);
      ExpandBundle(mem, nullAtZero, v.s, cs[1..], a + HEADER + |cs[0].payload|);
    } else if v.Keep? {
      assert Finalise(mem, nullAtZero, v.s, i + 1) == (0, v.s);
      AcceptableNone(cs[1..]);
    }
  }

  predicate Apart128(a: Module, b: Module) { a.phys + a.size + HEADER <= b.phys }

  lemma HeaderNames(mem: Memory, a: nat, c: Item)
    requires Loaded(mem, a, PrintHeader(c)) && Fits(c) && c.kind < TWO32 && Acceptable(c) && NoNul(c.name)
    ensures NameIs(mem, Field(a + NAME_FIELD), c.name)
  {
    hide PrintHeader, Word;
    HeaderReadsBack(mem, a, c);
    NameFieldZero(c.name, c.nameLen);
    var n, at := NameBytes(c.name), a + NAME_FIELD;
    assert n == c.name + Zeros(32 - |c.name|);
    forall k | 0 <= k < |c.name| ensures mem(at + k) == c.name[k] { assert n[k] == c.name[k]; }
    assert n[|c.name|] == Zeros(32 - |c.name|)[0];
  }

  /** Where each descriptor of a bundle lies, what it is called, and how the ranges tile the bundle. */
  lemma {:induction false} DescriptorFacts(mem: Memory, cs: seq<Item>, a: nat, k: nat)
    requires Loaded(mem, a, Print(cs)) && AllAcceptable(cs) && k < |cs|
    requires forall i :: 0 <= i < |cs| ==> Fits(cs[i]) && 1 <= cs[i].kind <= 3
    ensures var d := Descriptors(cs, a)[k];
            && a + HEADER <= d.phys && d.phys + d.size <= a + |Print(cs)|
            && d.size == |cs[k].payload| && Loaded(mem, d.phys, cs[k].payload)
            && (NoNul(cs[k].name) ==> NameIs(mem, d.name, cs[k].name))
            && (k + 1 < |cs| ==> Apart128(d, Descriptors(cs, a)[k + 1]))
            && (k + 1 == |cs| ==> d.phys + d.size == a + |Print(cs)|)
    decreases |cs|
  {
    hide PrintHeader, NameIs, Acceptable, NoNul;
    var b, rest := a + |PrintItem(cs[0])|, cs[1..];
    LoadedSplit(mem, a, PrintItem(cs[0]), Print(rest));
    LoadedSplit(mem, a, PrintHeader(cs[0]), cs[0].payload);
    assert forall i :: 0 <= i < |rest| ==> rest[i] == cs[i + 1];
    if k > 0 {
      DescriptorFacts(mem, rest, b, k - 1);
    } else {
      if NoNul(cs[0].name) { HeaderNames(mem, a, cs[0]); }
      if |cs| > 1 { DescriptorFacts(mem, rest, b, 0); }
    }
  }

  function SumSizes(ms: seq<Module>): nat {
    if ms == [] then 0 else HEADER + ms[0].size + SumSizes(ms[1..])
  }

  lemma {:induction false} SizesTile(cs: seq<Item>, a: nat)
    ensures SumSizes(Descriptors(cs, a)) == |Print(cs)|
    decreases |cs|
  {
    hide PrintItem;
    if cs != [] {
      SizesTile(cs[1..], a + |PrintItem(cs[0])|);
      assert Descriptors(cs, a)[1..] == Descriptors(cs[1..], a + |PrintItem(cs[0])|);
    }
  }

  /** Round trip: a table whose single module is the printed bundle is accepted exactly when every payload is
      non-empty, every name ends where its header says (`AcceptableNames`), the containers fit the table and the range
      fits 64 bits. Then it holds one descriptor per container in order, the root is the init payload, and payloads plus
      headers add up to the bundle. */
  lemma BundleRoundTrip(mem: Memory, nullAtZero: bool, root: Binary, services: seq<Binary>, a: nat, loader: Name)
    requires forall i :: 0 <= i <= |services| ==> Fits(Items(root, services)[i])
    requires Loaded(mem, a, Print(Items(root, services))) && (nullAtZero ==> a > 0)
    ensures var cs := Items(root, services);
            var r := Finalise(mem, nullAtZero, Boot([Module(a, |Print(cs)|, loader)], None, false), 0);
            && (r.0 == 0 <==> AllAcceptable(cs) && |services| <= 15 && a + |Print(cs)| < TWO64)
            && (r.0 == 0 ==> r.1 == Boot(Descriptors(cs, a), Some(Payload(a + 128, |root.payload|)), false))
            && (r.0 != 0 ==> r.0 == -1)
            && SumSizes(Descriptors(cs, a)) == |Print(cs)|
  {
    hide Word, Print, Descriptors, SumSizes, Finalise;
    var cs := Items(root, services);
    assert forall i :: 0 < i < |cs| ==> cs[i] == ServiceItem(services[i - 1]);
    assert Bundle(cs);
    var s := Boot([Module(a, |Print(cs)|, loader)], None, false);
    ExpandBundle(mem, nullAtZero, s, cs, a);
    assert s.modules[..0] + Descriptors(cs, a) == Descriptors(cs, a);
    SizesTile(cs, a);
  }

  /** The descriptors of an accepted bundle are pairwise disjoint and separated by the stripped headers. */
  lemma {:induction false} BundleDisjoint(mem: Memory, cs: seq<Item>, a: nat, j: nat, k: nat)
    requires Loaded(mem, a, Print(cs)) && AllAcceptable(cs) && j < k < |cs|
    requires forall i :: 0 <= i < |cs| ==> Fits(cs[i]) && 1 <= cs[i].kind <= 3
    ensures Apart128(Descriptors(cs, a)[j], Descriptors(cs, a)[k])
    decreases k
  {
    hide Print, Descriptors, Loaded, AllAcceptable;
    DescriptorFacts(mem, cs, a, k - 1);
    if j < k - 1 { BundleDisjoint(mem, cs, a, j, k - 1); }
  }
}
