/** The emulator runner's devicetree writer. What it prints is the encoding of a two-node tree, so the
    kernel's reader finds exactly the memory range the writer was given. */
module MinimalDtb {
  import opened Bytes
  import opened Devicetree
  import opened FdtReader
  import opened FdtRefinement

  // ----------------------------------------------------------------- blob layout

  /** 32-bit big-endian words, as `struct.pack(">II...")` lays them out. */
  function PutWords(w: seq<nat>): (r: seq<byte>)
    ensures |r| == 4 * |w|
  {
    if w == [] then [] else PutWords(w[..|w| - 1]) + PutBe32(w[|w| - 1])
  }

  lemma {:induction false} WordAt(w: seq<nat>, i: nat, b: seq<byte>)
    requires i < |w| && At(b, 0, PutWords(w)) && w[i] < TWO32
    ensures Be32(b, 4 * i) == w[i]
    decreases |w|
  {
    var init := w[..|w| - 1];
    AtSplit(b, 0, PutWords(init), PutBe32(w[|w| - 1]));
    if i == |w| - 1 { GetPutBe32(b, 4 * i, w[i]); } else { WordAt(init, i, b); }
  }

  /** Header, one empty reservation entry, structure block, strings block (sections 5.2 to 5.5). */
  function HeaderWords(dtStruct: seq<byte>, strings: seq<byte>): seq<nat> {
    var offStrings := 56 + |dtStruct|;
    [0xD00D_FEED, offStrings + |strings|, 56, offStrings, 40, 17, 16, 0, |strings|, |dtStruct|]
  }

  function Image(dtStruct: seq<byte>, strings: seq<byte>): seq<byte> {
    PutWords(HeaderWords(dtStruct, strings)) + (PutBe64(0) + PutBe64(0)) + dtStruct + strings
  }

  lemma ImageHeader(dtStruct: seq<byte>, strings: seq<byte>)
    requires 56 + |dtStruct| + |strings| < TWO32
    ensures var b := Image(dtStruct, strings);
            && |b| == 56 + |dtStruct| + |strings|
            && Be32(b, 0) == FDT_MAGIC
            && ReadHeader(b) == Header(56, |dtStruct|, 56 + |dtStruct|, |strings|)
            && At(b, 56, dtStruct) && At(b, 56 + |dtStruct|, strings)
  {
    hide PutWords;
    var b, w := Image(dtStruct, strings), HeaderWords(dtStruct, strings);
    assert b[0..40] == PutWords(w);
    WordAt(w, 0, b);
    WordAt(w, 2, b);
    WordAt(w, 3, b);
    WordAt(w, 8, b);
    WordAt(w, 9, b);
  }

  /** Printing any forest with any strings block yields a blob that holds it. */
  lemma ImageHolds(f: Forest, strings: seq<byte>)
    requires 60 + |SerForest(f)| + |strings| < TWO32
    ensures Holds(Image(SerForest(f) + PutBe32(FDT_END), strings), f, strings)
  {
    ImageHeader(SerForest(f) + PutBe32(FDT_END), strings);
  }

  /** Round trip for every well-formed devicetree: print it, read it, get what the walk collects. */
  lemma PrintedTreeReadsBack(f: Forest, strings: seq<byte>, d: Discovery)
    requires 60 + |SerForest(f)| + |strings| < TWO32
    requires WfForest(f, strings, TOP_CELLS, 0) && !d.fdtParsed
    ensures Parse(Image(SerForest(f) + PutBe32(FDT_END), strings), d)
            == Parsed(0, Walk(f, strings, TOP_CELLS, d).(fdtParsed := true))
  {
    ImageHolds(f, strings);
    ReaderRefinesWalk(Image(SerForest(f) + PutBe32(FDT_END), strings), f, strings, d);
  }

  // ------------------------------------------------------------------- the writer

  function Text(s: string): (r: seq<byte>)
    ensures |r| == |s| + 1
  {
    Ascii(s) + [0]
  }

  /** The two bytearrays the nested helpers extend. */
  class Builder {
    var strings: seq<byte>
    var dtStruct: seq<byte>

    constructor ()
      ensures strings == [] && dtStruct == []
    {
      strings, dtStruct := [], [];
    }

    method AddString(s: string) returns (offset: nat)
      modifies this`strings
      ensures offset == old(|strings|) && strings == old(strings) + Text(s)
    {
      offset := |strings|;
      strings := strings + (Ascii(s) + [0]);
    }

    method OpenNode(name: seq<byte>)
      modifies this`dtStruct
      ensures dtStruct == old(dtStruct) + BeginNode(name)
    {
      dtStruct := dtStruct + PutBe32(FDT_BEGIN_NODE);
      var raw := name + [0];
      dtStruct := dtStruct + raw;
      var pad := (4 - |raw| % 4) % 4;
      dtStruct := dtStruct + Zeros(pad);
      assert raw + Zeros(pad) == Padded(raw);
      assert dtStruct == old(dtStruct) + BeginNode(name);
    }

    method CloseNode()
      modifies this`dtStruct
      ensures dtStruct == old(dtStruct) + PutBe32(FDT_END_NODE)
    {
      dtStruct := dtStruct + PutBe32(FDT_END_NODE);
    }

    method AddProp(nameOff: nat, data: seq<byte>)
      modifies this`dtStruct
      ensures dtStruct == old(dtStruct) + PropToken(nameOff, data)
    {
      dtStruct := dtStruct + (PutBe32(FDT_PROP) + PutBe32(|data|) + PutBe32(nameOff));
      dtStruct := dtStruct + data;
      var pad := (4 - |data| % 4) % 4;
      dtStruct := dtStruct + Zeros(pad);
      assert data + Zeros(pad) == Padded(data);
      assert dtStruct == old(dtStruct) + PropToken(nameOff, data);
    }
  }

  const OFF_COMPAT := 0
  const OFF_ADDR_CELLS := 11
  const OFF_SIZE_CELLS := 26
  const OFF_DEVICE_TYPE := 38
  const OFF_REG := 50
  const OFF_BOOTARGS := 54
  const OFF_INITRD_START := 63
  const OFF_INITRD_END := 82

  function Strings(): (r: seq<byte>)
    ensures |r| == 99
  {
    Text("compatible") + Text("#address-cells") + Text("#size-cells") + Text("device_type") + Text("reg")
    + Text("bootargs") + Text("linux,initrd-start") + Text("linux,initrd-end")
  }

  function RootProps(): Props {
    Prop(OFF_COMPAT, Text("linux,dummy-virt"),
         Prop(OFF_ADDR_CELLS, PutBe32(2), Prop(OFF_SIZE_CELLS, PutBe32(2), NoProps)))
  }

  function MemoryProps(ramBase: nat, ramSize: nat): Props {
    Prop(OFF_DEVICE_TYPE, Text("memory"), Prop(OFF_REG, PutBe64(ramBase) + PutBe64(ramSize), NoProps))
  }

  /** The `chosen` node names the initrd only when both its start and its size are given. */
  function ChosenProps(initrdStart: int, initrdSize: int): Props
    requires initrdStart != 0 && initrdSize != 0 ==> U64(initrdStart) && U64(initrdStart + initrdSize)
  {
    Prop(OFF_BOOTARGS, Text("console=uart0"),
         if initrdStart != 0 && initrdSize != 0
         then Prop(OFF_INITRD_START, PutBe64(initrdStart),
                   Prop(OFF_INITRD_END, PutBe64(initrdStart + initrdSize), NoProps))
         else NoProps)
  }

  function Tree(ramBase: nat, ramSize: nat, chosen: Props): Forest {
    Sub([], RootProps(),
        Sub(Ascii("memory@40000000"), MemoryProps(ramBase, ramSize), NoNodes,
            Sub(Ascii("chosen"), chosen, NoNodes, NoNodes)),
        NoNodes)
  }

  /** `struct.pack` accepts exactly the arguments that fit 64 bits. */
  predicate Packable(initrdStart: int, initrdSize: int, ramBase: int, ramSize: int) {
    U64(ramBase) && U64(ramSize) &&
    (initrdStart != 0 && initrdSize != 0 ==> U64(initrdStart) && U64(initrdStart + initrdSize))
  }

  method WriteStrings(b: Builder)
    requires b.strings == []
    modifies b`strings
    ensures b.strings == Strings()
  {
    hide Ascii, Text;
    var none: seq<byte> := [];
    assert none + Text("compatible") == Text("compatible");
    var offCompat := b.AddString("compatible");
    var offAddrCells := b.AddString("#address-cells");
    var offSizeCells := b.AddString("#size-cells");
    var offDeviceType := b.AddString("device_type");
    var offReg := b.AddString("reg");
    var offBootargs := b.AddString("bootargs");
    var offInitrdStart := b.AddString("linux,initrd-start");
    var offInitrdEnd := b.AddString("linux,initrd-end");
    assert offCompat == OFF_COMPAT && offAddrCells == OFF_ADDR_CELLS && offSizeCells == OFF_SIZE_CELLS;
    assert offDeviceType == OFF_DEVICE_TYPE && offReg == OFF_REG && offBootargs == OFF_BOOTARGS;
    assert offInitrdStart == OFF_INITRD_START && offInitrdEnd == OFF_INITRD_END;
  }

  method WriteRoot(b: Builder)
    modifies b`dtStruct
    ensures b.dtStruct == old(b.dtStruct) + (BeginNode([]) + SerProps(RootProps()))
  {
    hide BeginNode, PropToken, Text;
    b.OpenNode([]);
    b.AddProp(OFF_COMPAT, Text("linux,dummy-virt"));
    b.AddProp(OFF_ADDR_CELLS, PutBe32(2));
    b.AddProp(OFF_SIZE_CELLS, PutBe32(2));
    var sizes := Prop(OFF_SIZE_CELLS, PutBe32(2), NoProps);
    assert SerProps(sizes) == PropToken(OFF_SIZE_CELLS, PutBe32(2));
    assert SerProps(Prop(OFF_ADDR_CELLS, PutBe32(2), sizes)) ==
           PropToken(OFF_ADDR_CELLS, PutBe32(2)) + SerProps(sizes);
  }

  method WriteMemory(b: Builder, ramBase: nat, ramSize: nat)
    modifies b`dtStruct
    ensures b.dtStruct == old(b.dtStruct) + (BeginNode(Ascii("memory@40000000"))
                          + SerProps(MemoryProps(ramBase, ramSize))) + PutBe32(FDT_END_NODE)
  {
    hide BeginNode, PropToken, Text, Ascii;
    b.OpenNode(Ascii("memory@40000000"));
    b.AddProp(OFF_DEVICE_TYPE, Text("memory"));
    b.AddProp(OFF_REG, PutBe64(ramBase) + PutBe64(ramSize));
    b.CloseNode();
    var reg := Prop(OFF_REG, PutBe64(ramBase) + PutBe64(ramSize), NoProps);
    assert SerProps(reg) == PropToken(OFF_REG, PutBe64(ramBase) + PutBe64(ramSize));
  }

  method WriteChosen(b: Builder, initrdStart: int, initrdSize: int) returns (ok: bool)
    modifies b`dtStruct
    ensures ok <==> (initrdStart != 0 && initrdSize != 0 ==> U64(initrdStart) && U64(initrdStart + initrdSize))
    ensures ok ==> b.dtStruct == old(b.dtStruct) + (BeginNode(Ascii("chosen"))
                   + SerProps(ChosenProps(initrdStart, initrdSize)) + PutBe32(FDT_END_NODE))
  {
    hide BeginNode, PropToken, Text, Ascii;
    b.OpenNode(Ascii("chosen"));
    b.AddProp(OFF_BOOTARGS, Text("console=uart0"));
    if initrdStart != 0 && initrdSize != 0 {
      if !U64(initrdStart) { return false; }
      b.AddProp(OFF_INITRD_START, PutBe64(initrdStart));
      if !U64(initrdStart + initrdSize) { return false; }
      b.AddProp(OFF_INITRD_END, PutBe64(initrdStart + initrdSize));
      var end := Prop(OFF_INITRD_END, PutBe64(initrdStart + initrdSize), NoProps);
      assert SerProps(end) == PropToken(OFF_INITRD_END, PutBe64(initrdStart + initrdSize));
    }
    b.CloseNode();
    ok := true;
  }

  lemma TreeSerialises(ramBase: nat, ramSize: nat, chosen: Props)
    ensures SerForest(Tree(ramBase, ramSize, chosen)) ==
            BeginNode([]) + SerProps(RootProps()) + (BeginNode(Ascii("memory@40000000"))
            + SerProps(MemoryProps(ramBase, ramSize))) + PutBe32(FDT_END_NODE)
            + (BeginNode(Ascii("chosen")) + SerProps(chosen) + PutBe32(FDT_END_NODE)) + PutBe32(FDT_END_NODE)
  {
    hide Ascii, BeginNode, SerProps;
    var last := Sub(Ascii("chosen"), chosen, NoNodes, NoNodes);
    var kids := Sub(Ascii("memory@40000000"), MemoryProps(ramBase, ramSize), NoNodes, last);
    assert SerForest(last) == BeginNode(Ascii("chosen")) + SerProps(chosen) + PutBe32(FDT_END_NODE);
    assert SerForest(kids) == BeginNode(Ascii("memory@40000000")) + SerProps(MemoryProps(ramBase, ramSize))
                              + PutBe32(FDT_END_NODE) + SerForest(last);
  }

  /** `build_minimal_dtb`: `None` is the `struct.error` of an argument that does not fit. */
  method BuildMinimalDtb(initrdStart: int, initrdSize: int, ramBase: int, ramSize: int)
    returns (r: Option<seq<byte>>)
    ensures r.Some? <==> Packable(initrdStart, initrdSize, ramBase, ramSize)
    ensures r.Some? ==>
      r.value == Image(SerForest(Tree(ramBase, ramSize, ChosenProps(initrdStart, initrdSize)))
                       + PutBe32(FDT_END), Strings())
  {
    hide Ascii, BeginNode, PropToken, Image, SerProps, Tree, Strings;
    var b := new Builder();
    WriteStrings(b);
    WriteRoot(b);
    if !U64(ramBase) || !U64(ramSize) { return None; }
    WriteMemory(b, ramBase, ramSize);
    var none: seq<byte> := [];
    assert none + (BeginNode([]) + SerProps(RootProps())) == BeginNode([]) + SerProps(RootProps());
    var ok := WriteChosen(b, initrdStart, initrdSize);
    if !ok { return None; }
    b.CloseNode();
    TreeSerialises(ramBase, ramSize, ChosenProps(initrdStart, initrdSize));
    b.dtStruct := b.dtStruct + PutBe32(FDT_END);
    r := Some(Image(b.dtStruct, b.strings));
  }

  // --------------------------------------------------------------- what is read back

  /** A string laid out in a strings block is what its offset names. */
  lemma NamesItself(pre: seq<byte>, key: seq<byte>, post: seq<byte>)
    requires NoNul(key)
    ensures Named(pre + (key + [0]) + post, |pre|, key)
  {
    var s := pre + (key + [0]) + post;
    assert s[|pre|..|pre| + |key + [0]|] == key + [0];
    StrnlenOf(s, |pre|, |s| - |pre|, key);
    assert s[|pre|..|pre| + |key|] == key;
  }

  /** Four texts laid out behind `pre` and before `post`. */
  lemma FourNames(pre: seq<byte>, k: seq<seq<byte>>, post: seq<byte>)
    requires |k| == 4 && forall i :: 0 <= i < 4 ==> NoNul(k[i])
    ensures var s := pre + ((k[0] + [0]) + (k[1] + [0]) + (k[2] + [0]) + (k[3] + [0])) + post;
            && Named(s, |pre|, k[0])
            && Named(s, |pre| + |k[0]| + 1, k[1])
            && Named(s, |pre| + |k[0]| + |k[1]| + 2, k[2])
            && Named(s, |pre| + |k[0]| + |k[1]| + |k[2]| + 3, k[3])
  {
    hide Named, NoNul;
    var a, b, c, d := k[0] + [0], k[1] + [0], k[2] + [0], k[3] + [0];
    var s := pre + (a + b + c + d) + post;
    assert s == pre + a + (b + c + d + post);
    NamesItself(pre, k[0], b + c + d + post);
    assert s == (pre + a) + b + (c + d + post);
    NamesItself(pre + a, k[1], c + d + post);
    assert s == (pre + a + b) + c + (d + post);
    NamesItself(pre + a + b, k[2], d + post);
    assert s == (pre + a + b + c) + d + post;
    NamesItself(pre + a + b + c, k[3], post);
  }

  lemma EightNames(k: seq<seq<byte>>)
    requires |k| == 8 && forall i :: 0 <= i < 8 ==> NoNul(k[i])
    ensures var s := (k[0] + [0]) + (k[1] + [0]) + (k[2] + [0]) + (k[3] + [0])
                     + (k[4] + [0]) + (k[5] + [0]) + (k[6] + [0]) + (k[7] + [0]);
            && Named(s, 0, k[0])
            && Named(s, |k[0]| + 1, k[1])
            && Named(s, |k[0]| + |k[1]| + 2, k[2])
            && Named(s, |k[0]| + |k[1]| + |k[2]| + 3, k[3])
            && Named(s, |k[0]| + |k[1]| + |k[2]| + |k[3]| + 4, k[4])
            && Named(s, |k[0]| + |k[1]| + |k[2]| + |k[3]| + |k[4]| + 5, k[5])
            && Named(s, |k[0]| + |k[1]| + |k[2]| + |k[3]| + |k[4]| + |k[5]| + 6, k[6])
            && Named(s, |k[0]| + |k[1]| + |k[2]| + |k[3]| + |k[4]| + |k[5]| + |k[6]| + 7, k[7])
  {
    hide Named, NoNul;
    var x := (k[0] + [0]) + (k[1] + [0]) + (k[2] + [0]) + (k[3] + [0]);
    var y := (k[4] + [0]) + (k[5] + [0]) + (k[6] + [0]) + (k[7] + [0]);
    var s := x + (k[4] + [0]) + (k[5] + [0]) + (k[6] + [0]) + (k[7] + [0]);
    assert s == [] + x + y;
    FourNames([], k[..4], y);
    assert s == x + y + [];
    FourNames(x, k[4..], []);
  }

  lemma CompatibleKey()
    ensures NoNul(COMPATIBLE)
  {
  }

  lemma CellKeys()
    ensures NoNul(ADDRESS_CELLS) && NoNul(SIZE_CELLS)
  {
  }

  lemma OtherKeys()
    ensures NoNul(REG) && NoNul(Ascii("device_type")) && NoNul(Ascii("bootargs"))
  {
  }

  lemma InitrdStartKey()
    ensures NoNul(Ascii("linux,initrd-start"))
  {
  }

  lemma InitrdEndKey()
    ensures NoNul(Ascii("linux,initrd-end"))
  {
  }

  lemma KeysHaveNoNul()
    ensures NoNul(COMPATIBLE) && NoNul(ADDRESS_CELLS) && NoNul(SIZE_CELLS) && NoNul(REG)
    ensures NoNul(Ascii("device_type")) && NoNul(Ascii("bootargs"))
    ensures NoNul(Ascii("linux,initrd-start")) && NoNul(Ascii("linux,initrd-end"))
  {
    hide NoNul, Ascii;
    CompatibleKey();
    CellKeys();
    OtherKeys();
    InitrdStartKey();
    InitrdEndKey();
  }

  lemma StringNames()
    ensures Named(Strings(), OFF_COMPAT, COMPATIBLE)
    ensures Named(Strings(), OFF_ADDR_CELLS, ADDRESS_CELLS)
    ensures Named(Strings(), OFF_SIZE_CELLS, SIZE_CELLS)
    ensures Named(Strings(), OFF_DEVICE_TYPE, Ascii("device_type"))
    ensures Named(Strings(), OFF_REG, REG)
    ensures Named(Strings(), OFF_BOOTARGS, Ascii("bootargs"))
    ensures Named(Strings(), OFF_INITRD_START, Ascii("linux,initrd-start"))
    ensures Named(Strings(), OFF_INITRD_END, Ascii("linux,initrd-end"))
  {
    hide Named;
    KeysHaveNoNul();
    hide NoNul;
    EightNames([COMPATIBLE, ADDRESS_CELLS, SIZE_CELLS, Ascii("device_type"), REG, Ascii("bootargs"),
                Ascii("linux,initrd-start"), Ascii("linux,initrd-end")]);
  }

  lemma RootCells()
    ensures CellsOf(RootProps(), Strings(), TOP_CELLS) == Cells(2, 2)
    ensures RegOf(RootProps(), Strings(), None) == None
    ensures WfProps(RootProps(), Strings())
  {
    StringNames();
    hide NameAt;
    GetPutBe32(PutBe32(2), 0, 2);
    assert |REG| == 3 && |COMPATIBLE| == 10 && |ADDRESS_CELLS| == 14 && |SIZE_CELLS| == 11;
  }

  lemma MemoryReg(ramBase: nat, ramSize: nat)
    requires U64(ramBase) && U64(ramSize)
    ensures var r := RegOf(MemoryProps(ramBase, ramSize), Strings(), None);
            && r.Some? && RegOk(r.value, Cells(2, 2))
            && RegBase(r.value, Cells(2, 2)) == ramBase && RegSize(r.value, Cells(2, 2)) == ramSize
    ensures WfProps(MemoryProps(ramBase, ramSize), Strings())
  {
    StringNames();
    hide NameAt;
    assert |REG| == 3 && |Ascii("device_type")| == 11 && |ADDRESS_CELLS| == 14 && |SIZE_CELLS| == 11;
    assert Ascii("device_type") != SIZE_CELLS by {
      assert Ascii("device_type")[0] == 'd' as int && SIZE_CELLS[0] == '#' as int;
    }
    var v := PutBe64(ramBase) + PutBe64(ramSize);
    assert RegOf(Prop(OFF_REG, v, NoProps), Strings(), None) == RegOf(NoProps, Strings(), Some(v)) == Some(v);
    assert WfProps(NoProps, Strings());
    assert WfProps(Prop(OFF_REG, v, NoProps), Strings());
    assert v[0..8] == PutBe64(ramBase) && v[8..16] == PutBe64(ramSize);
    GetPutBe64(v, 0, ramBase);
    GetPutBe64(v, 8, ramSize);
    CellValues(v, 0);
    CellValues(v, 8);
  }

  /** A property under a name of no interest to the reader changes nothing. */
  lemma PlainProp(off: nat, value: seq<byte>, rest: Props, key: seq<byte>, strings: seq<byte>)
    requires Named(strings, off, key) && |key| != |REG| && key != ADDRESS_CELLS && key != SIZE_CELLS
    ensures RegOf(Prop(off, value, rest), strings, None) == RegOf(rest, strings, None)
    ensures WfProps(rest, strings) ==> WfProps(Prop(off, value, rest), strings)
  {
    hide NameAt;
  }

  lemma NoPropsPlain(strings: seq<byte>)
    ensures RegOf(NoProps, strings, None) == None && WfProps(NoProps, strings)
  {
  }

  lemma KeyLengths()
    ensures |REG| == 3 && |ADDRESS_CELLS| == 14 && |SIZE_CELLS| == 11
    ensures |Ascii("bootargs")| == 8 && |Ascii("linux,initrd-start")| == 18 && |Ascii("linux,initrd-end")| == 16
  {
  }

  lemma ChosenHasNoReg(initrdStart: int, initrdSize: int)
    requires initrdStart != 0 && initrdSize != 0 ==> U64(initrdStart) && U64(initrdStart + initrdSize)
    ensures RegOf(ChosenProps(initrdStart, initrdSize), Strings(), None) == None
    ensures WfProps(ChosenProps(initrdStart, initrdSize), Strings())
  {
    hide RegOf, WfProps, Named, Ascii;
    StringNames();
    KeyLengths();
    NoPropsPlain(Strings());
    var rest := NoProps;
    if initrdStart != 0 && initrdSize != 0 {
      PlainProp(OFF_INITRD_END, PutBe64(initrdStart + initrdSize), rest, Ascii("linux,initrd-end"), Strings());
      rest := Prop(OFF_INITRD_END, PutBe64(initrdStart + initrdSize), rest);
      PlainProp(OFF_INITRD_START, PutBe64(initrdStart), rest, Ascii("linux,initrd-start"), Strings());
      rest := Prop(OFF_INITRD_START, PutBe64(initrdStart), rest);
    }
    PlainProp(OFF_BOOTARGS, Text("console=uart0"), rest, Ascii("bootargs"), Strings());
  }

  /** The value of the first property with this name. */
  function PropValue(p: Props, strings: seq<byte>, key: seq<byte>): Option<seq<byte>> {
    match p
    case NoProps => None
    case NopP(rest) => PropValue(rest, strings, key)
    case Prop(off, value, rest) => if Named(strings, off, key) then Some(value) else PropValue(rest, strings, key)
  }

  lemma PropValueStep(off: nat, value: seq<byte>, rest: Props, strings: seq<byte>, name: seq<byte>, key: seq<byte>)
    requires Named(strings, off, name)
    ensures PropValue(Prop(off, value, rest), strings, key) ==
            if name == key then Some(value) else PropValue(rest, strings, key)
    ensures PropValue(NoProps, strings, key) == None
  {
    hide NameAt;
  }

  /** Two big-endian words read as one number. */
  predicate Says(v: Option<seq<byte>>, n: int) { v.Some? && |v.value| == 8 && Be64(v.value, 0) == n }

  /** With a start and a size given, `chosen` tells a kernel where the initrd starts and where it ends; otherwise it
      says nothing of an initrd. */
  lemma ChosenNamesInitrd(initrdStart: int, initrdSize: int)
    requires initrdStart != 0 && initrdSize != 0 ==> U64(initrdStart) && U64(initrdStart + initrdSize)
    ensures var p, s := ChosenProps(initrdStart, initrdSize), Strings();
            var first, end := PropValue(p, s, Ascii("linux,initrd-start")), PropValue(p, s, Ascii("linux,initrd-end"));
            && (if initrdStart != 0 && initrdSize != 0
                then Says(first, initrdStart) && Says(end, initrdStart + initrdSize)
                else first == None && end == None)
            && PropValue(p, s, Ascii("bootargs")) == Some(Ascii("console=uart0") + [0])
  {
    hide PropValue, Named, Ascii, Strings;
    StringNames();
    KeyLengths();
    var s, a, b := Strings(), Ascii("linux,initrd-start"), Ascii("linux,initrd-end");
    var rest := NoProps;
    if initrdStart != 0 && initrdSize != 0 {
      var v, w := PutBe64(initrdStart), PutBe64(initrdStart + initrdSize);
      GetPutBe64(v, 0, initrdStart);
      GetPutBe64(w, 0, initrdStart + initrdSize);
      rest := Prop(OFF_INITRD_END, w, rest);
      PropValueStep(OFF_INITRD_END, w, NoProps, s, b, b);
      PropValueStep(OFF_INITRD_START, v, rest, s, a, a);
      PropValueStep(OFF_INITRD_START, v, rest, s, a, b);
      rest := Prop(OFF_INITRD_START, v, rest);
    }
    PropValueStep(OFF_BOOTARGS, Text("console=uart0"), rest, s, Ascii("bootargs"), a);
    PropValueStep(OFF_BOOTARGS, Text("console=uart0"), rest, s, Ascii("bootargs"), b);
    PropValueStep(OFF_BOOTARGS, Text("console=uart0"), rest, s, Ascii("bootargs"), Ascii("bootargs"));
  }

  lemma NodeNamesHold()
    ensures MemoryName(Ascii("memory@40000000"))
    ensures NoNul(Ascii("memory@40000000")) && NoNul(Ascii("chosen"))
  {
    assert Ascii("memory@40000000")[..7] == Ascii("memory@");
  }

  lemma PlainLeaf(name: seq<byte>, props: Props, strings: seq<byte>, c: Cells)
    requires RegOf(props, strings, None) == None
    ensures var f := Sub(name, props, NoNodes, NoNodes);
            Regions(f, strings, c) == [] && HwIds(f, strings, c) == [] && Irqs(f, strings, c) == []
  {
    hide RegOf, CellsOf, GicCompatible, PlicCompatible, MemoryName, CpuName;
    var s, kc := Summarise(name, props, strings), CellsOf(props, strings, c);
    assert OwnRegion(s, c) == [] && OwnCpu(s, c) == [] && OwnIrq(s, c) == [];
    assert HwIds(Sub(name, props, NoNodes, NoNodes), strings, c) ==
           HwIds(NoNodes, strings, kc) + OwnCpu(s, c) + HwIds(NoNodes, strings, c);
  }

  /** Any such two-node tree is well formed and describes one memory range. */
  lemma TwoNodes(memory: seq<byte>, other: seq<byte>, root: Props, props: Props, chosen: Props,
                 strings: seq<byte>, base: nat, size: nat)
    requires MemoryName(memory) && NoNul(memory) && NoNul(other)
    requires WfProps(root, strings) && WfProps(props, strings) && WfProps(chosen, strings)
    requires CellsOf(root, strings, TOP_CELLS) == Cells(2, 2)
    requires RegOf(root, strings, None) == None && RegOf(chosen, strings, None) == None
    requires var r := RegOf(props, strings, None);
             && r.Some? && RegOk(r.value, Cells(2, 2))
             && RegBase(r.value, Cells(2, 2)) == base && RegSize(r.value, Cells(2, 2)) == size
    ensures var f := Sub([], root, Sub(memory, props, NoNodes, Sub(other, chosen, NoNodes, NoNodes)), NoNodes);
            && WfForest(f, strings, TOP_CELLS, 0)
            && Regions(f, strings, TOP_CELLS) == [Region(base, size)]
            && HwIds(f, strings, TOP_CELLS) == [] && Irqs(f, strings, TOP_CELLS) == []
  {
    hide MemoryName, CpuName, RegOf, WfProps, RegOk, RegBase, RegSize, CellsOf, GicCompatible, PlicCompatible;
    var kc := Cells(2, 2);
    var last := Sub(other, chosen, NoNodes, NoNodes);
    var kids := Sub(memory, props, NoNodes, last);
    PlainLeaf(other, chosen, strings, kc);
    assert Regions(kids, strings, kc) == [Region(base, size)];
    assert |HwIds(kids, strings, kc)| == |Irqs(kids, strings, kc)| == 0;
    assert WfForest(last, strings, kc, 1);
    assert WfForest(kids, strings, kc, 1);
  }

  lemma TreeFacts(ramBase: nat, ramSize: nat, chosen: Props, initrdStart: int, initrdSize: int)
    requires Packable(initrdStart, initrdSize, ramBase, ramSize) && chosen == ChosenProps(initrdStart, initrdSize)
    ensures var f := Tree(ramBase, ramSize, chosen);
            && WfForest(f, Strings(), TOP_CELLS, 0)
            && Regions(f, Strings(), TOP_CELLS) == [Region(ramBase, ramSize)]
            && HwIds(f, Strings(), TOP_CELLS) == [] && Irqs(f, Strings(), TOP_CELLS) == []
  {
    RootCells();
    MemoryReg(ramBase, ramSize);
    ChosenHasNoReg(initrdStart, initrdSize);
    NodeNamesHold();
    TwoNodes(Ascii("memory@40000000"), Ascii("chosen"), RootProps(), MemoryProps(ramBase, ramSize), chosen,
             Strings(), ramBase, ramSize);
  }

  lemma PropSize(off: nat, value: seq<byte>, rest: Props)
    ensures |SerProps(Prop(off, value, rest))| <= |value| + 15 + |SerProps(rest)|
  {
  }

  lemma RootIsSmall()
    ensures |SerProps(RootProps())| < 1000
  {
  }

  lemma NoPropsSize()
    ensures |SerProps(NoProps)| == 0
  {
  }

  lemma MemoryIsSmall(ramBase: nat, ramSize: nat)
    requires U64(ramBase) && U64(ramSize)
    ensures |SerProps(MemoryProps(ramBase, ramSize))| < 1000
  {
    hide SerProps;
    NoPropsSize();
    var v := PutBe64(ramBase) + PutBe64(ramSize);
    PropSize(OFF_REG, v, NoProps);
    PropSize(OFF_DEVICE_TYPE, Text("memory"), Prop(OFF_REG, v, NoProps));
  }

  lemma ChosenIsSmall(initrdStart: int, initrdSize: int)
    requires initrdStart != 0 && initrdSize != 0 ==> U64(initrdStart) && U64(initrdStart + initrdSize)
    ensures |SerProps(ChosenProps(initrdStart, initrdSize))| < 1000
  {
    hide SerProps, Ascii;
    assert |SerProps(NoProps)| == 0 by { NoPropsSize(); }
    var rest := NoProps;
    if initrdStart != 0 && initrdSize != 0 {
      PropSize(OFF_INITRD_END, PutBe64(initrdStart + initrdSize), rest);
      rest := Prop(OFF_INITRD_END, PutBe64(initrdStart + initrdSize), rest);
      PropSize(OFF_INITRD_START, PutBe64(initrdStart), rest);
      rest := Prop(OFF_INITRD_START, PutBe64(initrdStart), rest);
    }
    PropSize(OFF_BOOTARGS, Text("console=uart0"), rest);
  }

  lemma TreeIsSmall(initrdStart: int, initrdSize: int, ramBase: nat, ramSize: nat)
    requires Packable(initrdStart, initrdSize, ramBase, ramSize)
    ensures 60 + |SerForest(Tree(ramBase, ramSize, ChosenProps(initrdStart, initrdSize)))| + |Strings()| < TWO32
  {
    hide SerProps, SerForest, ChosenProps, MemoryProps, RootProps, Strings, Ascii;
    TreeSerialises(ramBase, ramSize, ChosenProps(initrdStart, initrdSize));
    RootIsSmall();
    MemoryIsSmall(ramBase, ramSize);
    ChosenIsSmall(initrdStart, initrdSize);
    assert |Ascii("memory@40000000")| == 15 && |Ascii("chosen")| == 6;
  }

  /** The kernel's reader finds in the runner's devicetree exactly the memory range it was built for. */
  lemma MinimalDtbReadsBack(initrdStart: int, initrdSize: int, ramBase: nat, ramSize: nat)
    requires Packable(initrdStart, initrdSize, ramBase, ramSize)
    ensures var f := Tree(ramBase, ramSize, ChosenProps(initrdStart, initrdSize));
            Parse(Image(SerForest(f) + PutBe32(FDT_END), Strings()), Discovery([], [], [], false))
            == Parsed(0, Discovery([Region(ramBase, ramSize)], [], [], true))
  {
    var chosen := ChosenProps(initrdStart, initrdSize);
    var f := Tree(ramBase, ramSize, chosen);
    TreeFacts(ramBase, ramSize, chosen, initrdStart, initrdSize);
    TreeIsSmall(initrdStart, initrdSize, ramBase, ramSize);
    ImageHolds(f, Strings());
    ReaderFindsAll(Image(SerForest(f) + PutBe32(FDT_END), Strings()), f, Strings(), Discovery([], [], [], false));
    assert Numbered([], 0) == [];
  }
}
