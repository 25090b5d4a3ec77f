/** The HID report descriptor served by the Report Map characteristic, and a
    short-item parser for it following the USB Device Class Definition for HID
    1.11: section 6.2.2.2 (Short Items) for the byte layout, sections 6.2.2.4,
    6.2.2.7 and 6.2.2.8 for what the items mean. */
module ReportDescriptor {
  import opened Types

  /** The descriptor bytes, with `n` = `DAP_PACKET_SIZE` as the one-byte
      REPORT_COUNT of both the input and the output report. */
  function Descriptor(n: PacketSize): (d: seq<byte>)
    ensures |d| == 34
    ensures d[16] == 0x95 && d[17] == n as byte
    ensures d[29] == 0x95 && d[30] == n as byte
  {
    [ 0x06, 0x00, 0xff,   // USAGE_PAGE (Vendor Defined Page 1)
      0x09, 0x01,         // USAGE (Vendor Usage 1)
      0xa1, 0x01,         // COLLECTION (Application)
      0x09, 0x01,         //   USAGE (Vendor Usage 1)
      0x15, 0x00,         //   LOGICAL_MINIMUM (0)
      0x26, 0xff, 0x00,   //   LOGICAL_MAXIMUM (255)
      0x75, 0x08,         //   REPORT_SIZE (8)
      0x95, n as byte,    //   REPORT_COUNT (n)
      0x81, 0x02,         //   INPUT (Data,Var,Abs)
      0x09, 0x02,         //   USAGE (Vendor Usage 2)
      0x15, 0x00,         //   LOGICAL_MINIMUM (0)
      0x26, 0xff, 0x00,   //   LOGICAL_MAXIMUM (255)
      0x75, 0x08,         //   REPORT_SIZE (8)
      0x95, n as byte,    //   REPORT_COUNT (n)
      0x91, 0x02,         //   OUTPUT (Data,Var,Abs)
      0xc0 ]              // END_COLLECTION
  }

  // ---------------------------------------------------------------------
  // Short items: prefix byte = bTag (bits 7..4) | bType (bits 3..2) | bSize (bits 1..0)
  // ---------------------------------------------------------------------

  type Nibble = x: int | 0 <= x < 16

  /** Short items carry 0, 1, 2 or 4 data bytes. */
  type ItemData = d: seq<byte> | |d| == 0 || |d| == 1 || |d| == 2 || |d| == 4

  datatype ItemType = Main | Global | Local | Reserved

  datatype Item = Item(tag: Nibble, itemType: ItemType, data: ItemData)

  /** The prefix byte 0xFE introduces a long item, which this parser rejects. */
  const LONG_ITEM_PREFIX: byte := 0xFE

  function TypeOfCode(code: int): ItemType
    requires 0 <= code < 4
  {
    if code == 0 then Main else if code == 1 then Global else if code == 2 then Local else Reserved
  }

  function CodeOfType(t: ItemType): (code: int)
    ensures 0 <= code < 4 && TypeOfCode(code) == t
  {
    match t
    case Main => 0
    case Global => 1
    case Local => 2
    case Reserved => 3
  }

  /** bSize 0, 1, 2, 3 mean 0, 1, 2 and 4 data bytes. */
  function DataSize(code: int): (size: nat)
    requires 0 <= code < 4
    ensures size <= 4
  {
    if code == 3 then 4 else code
  }

  function SizeCode(size: nat): (code: int)
    requires size == 0 || size == 1 || size == 2 || size == 4
    ensures 0 <= code < 4 && DataSize(code) == size
  {
    if size == 4 then 3 else size
  }

  function Prefix(item: Item): byte
  {
    16 * item.tag + 4 * CodeOfType(item.itemType) + SizeCode(|item.data|)
  }

  /** An item whose prefix is not the long-item prefix. */
  predicate IsShort(item: Item)
  {
    Prefix(item) != LONG_ITEM_PREFIX
  }

  predicate AllShort(items: seq<Item>)
  {
    forall i :: 0 <= i < |items| ==> IsShort(items[i])
  }

  function EncodeItem(item: Item): (s: seq<byte>)
  {
    [Prefix(item)] + item.data
  }

  function EncodeItems(items: seq<Item>): (s: seq<byte>)
  {
    if items == [] then [] else EncodeItem(items[0]) + EncodeItems(items[1..])
  }

  /** Reads one short item off the front of `s`; fails on an empty input, a
      long-item prefix, or fewer data bytes than bSize announces. */
  function ParseItem(s: seq<byte>): (r: Option<(Item, seq<byte>)>)
    ensures r.Some? ==> IsShort(r.value.0) && s == EncodeItem(r.value.0) + r.value.1
  {
    if |s| == 0 || s[0] == LONG_ITEM_PREFIX then None
    else
      var size := DataSize(s[0] % 4);
      if |s| < 1 + size then None
      else
        var item := Item(s[0] / 16, TypeOfCode(s[0] / 4 % 4), s[1..1 + size]);
        assert Prefix(item) == s[0];
        assert s == [s[0]] + s[1..1 + size] + s[1 + size..];
        Some((item, s[1 + size..]))
  }

  /** Splits a whole descriptor into short items; fails unless every byte is
      consumed by some item. */
  function ParseItems(s: seq<byte>): (r: Option<seq<Item>>)
    decreases |s|
  {
    if s == [] then Some([])
    else
      var first := ParseItem(s);
      if first.None? then None
      else
        var rest := ParseItems(first.value.1);
        if rest.None? then None else Some([first.value.0] + rest.value)
  }

  /** Parsing an encoded item gives it back, with the remaining input untouched. */
  lemma {:induction false} ParseEncodeItem(item: Item, rest: seq<byte>)
    requires IsShort(item)
    ensures ParseItem(EncodeItem(item) + rest) == Some((item, rest))
  {
    var s := EncodeItem(item) + rest;
    var size := |item.data|;
    var p := s[0];
    assert p == Prefix(item);
    assert p % 4 == SizeCode(size) && p / 4 % 4 == CodeOfType(item.itemType) && p / 16 == item.tag;
    assert s[1..1 + size] == item.data;
    assert s[1 + size..] == rest;
  }

  /** A sequence of short items survives encoding and parsing. */
  lemma {:induction false} ParseEncode(items: seq<Item>)
    requires AllShort(items)
    ensures ParseItems(EncodeItems(items)) == Some(items)
  {
    if items != [] {
      assert AllShort(items[1..]) by {
        assert forall i :: 0 <= i < |items[1..]| ==> items[1..][i] == items[i + 1];
      }
      ParseEncode(items[1..]);
      ParseEncodeItem(items[0], EncodeItems(items[1..]));
      assert [items[0]] + items[1..] == items;
    }
  }

  /** Whatever parses is the encoding of what it parsed to, and consists of
      short items only. */
  lemma {:induction false} EncodeParse(s: seq<byte>)
    requires ParseItems(s).Some?
    ensures AllShort(ParseItems(s).value)
    ensures EncodeItems(ParseItems(s).value) == s
    decreases |s|
  {
    if s != [] {
      var (item, rest) := ParseItem(s).value;
      EncodeParse(rest);
      var items := ParseItems(s).value;
      assert items == [item] + ParseItems(rest).value;
      assert items[1..] == ParseItems(rest).value;
      assert forall i :: 1 <= i < |items| ==> items[i] == items[1..][i - 1];
    }
  }

  // ---------------------------------------------------------------------
  // Item meanings
  // ---------------------------------------------------------------------

  /** Item data read as an unsigned little-endian number. */
  function Unsigned(data: seq<byte>): (v: nat)
  {
    if data == [] then 0 else data[0] + 0x100 * Unsigned(data[1..])
  }

  /** Item data read as a two's-complement little-endian number, as HID 1.11
      section 6.2.2.7 prescribes for the logical extents. */
  function Signed(data: seq<byte>): (v: int)
  {
    if data != [] && data[|data| - 1] >= 0x80 then Unsigned(data) - Pow256(|data|)
    else Unsigned(data)
  }

  function Pow256(k: nat): (p: nat)
  {
    if k == 0 then 1 else 0x100 * Pow256(k - 1)
  }

  /** Bits 0, 1 and 2 of an Input or Output item's data: Data/Constant,
      Array/Variable, Absolute/Relative. */
  datatype MainFlags = MainFlags(constant: bool, variable: bool, relative: bool)

  function Flags(v: nat): MainFlags
  {
    MainFlags(v % 2 == 1, v / 2 % 2 == 1, v / 4 % 2 == 1)
  }

  datatype Meaning =
    | UsagePage(page: nat)
    | Usage(usage: nat)
    | Collection(kind: nat)
    | EndCollection
    | LogicalMinimum(min: int)
    | LogicalMaximum(max: int)
    | ReportSize(bits: nat)
    | ReportCount(count: nat)
    | Input(flags: MainFlags)
    | Output(flags: MainFlags)
    | Other

  /** The meaning of the tags this descriptor uses (HID 1.11 sections 6.2.2.4,
      6.2.2.7 and 6.2.2.8). Tags it does not use read as `Other`. */
  function MeaningOf(item: Item): Meaning
  {
    var v := Unsigned(item.data);
    match item.itemType
    case Main =>
      if item.tag == 0x8 then Input(Flags(v))
      else if item.tag == 0x9 then Output(Flags(v))
      else if item.tag == 0xA then Collection(v)
      else if item.tag == 0xC then EndCollection
      else Other
    case Global =>
      if item.tag == 0x0 then UsagePage(v)
      else if item.tag == 0x1 then LogicalMinimum(Signed(item.data))
      else if item.tag == 0x2 then LogicalMaximum(Signed(item.data))
      else if item.tag == 0x7 then ReportSize(v)
      else if item.tag == 0x9 then ReportCount(v)
      else Other
    case Local =>
      if item.tag == 0x0 then Usage(v) else Other
    case Reserved => Other
  }

  function Meanings(items: seq<Item>): (m: seq<Meaning>)
  {
    if items == [] then [] else [MeaningOf(items[0])] + Meanings(items[1..])
  }

  // ---------------------------------------------------------------------
  // Reports declared by the main items
  // ---------------------------------------------------------------------

  datatype Direction = In | Out

  /** One report field: its direction and the global state in force when its
      main item was read. */
  datatype Field = Field(direction: Direction, reportSize: nat, reportCount: nat,
                         logicalMin: int, logicalMax: int, flags: MainFlags)

  /** The item-state table of HID 1.11 section 6.2.2.7, reduced to the
      globals this descriptor sets, and the collection nesting depth. */
  datatype ParserState = ParserState(reportSize: Option<nat>, reportCount: Option<nat>,
                                     logicalMin: Option<int>, logicalMax: Option<int>,
                                     depth: nat)

  const INITIAL: ParserState := ParserState(None, None, None, None, 0)

  /** One item's effect on the parser state, and the field it declares if it
      is an Input or Output item. Fails on an End Collection with no open
      collection and on a main item read before its globals are set. */
  function Apply(m: Meaning, st: ParserState): Option<(ParserState, seq<Field>)>
  {
    match m
    case LogicalMinimum(v) => Some((st.(logicalMin := Some(v)), []))
    case LogicalMaximum(v) => Some((st.(logicalMax := Some(v)), []))
    case ReportSize(v) => Some((st.(reportSize := Some(v)), []))
    case ReportCount(v) => Some((st.(reportCount := Some(v)), []))
    case Collection(_) => Some((st.(depth := st.depth + 1), []))
    case EndCollection => if st.depth == 0 then None else Some((st.(depth := st.depth - 1), []))
    case Input(f) => Emit(In, f, st)
    case Output(f) => Emit(Out, f, st)
    case _ => Some((st, []))
  }

  function Emit(dir: Direction, f: MainFlags, st: ParserState): Option<(ParserState, seq<Field>)>
  {
    if st.reportSize.None? || st.reportCount.None? || st.logicalMin.None? || st.logicalMax.None? then None
    else Some((st, [Field(dir, st.reportSize.value, st.reportCount.value,
                          st.logicalMin.value, st.logicalMax.value, f)]))
  }

  /** Applies the items in order, collecting the fields they declare. */
  function Walk(items: seq<Item>, st: ParserState): Option<(ParserState, seq<Field>)>
    decreases |items|
  {
    if items == [] then Some((st, []))
    else Then(Apply(MeaningOf(items[0]), st), Walk(items[1..], NextState(Apply(MeaningOf(items[0]), st), st)))
  }

  /** The state after a step, or `st` unchanged if the step failed. */
  function NextState(step: Option<(ParserState, seq<Field>)>, st: ParserState): ParserState
  {
    if step.Some? then step.value.0 else st
  }

  /** Runs `first`, then `second` from the state `first` left behind: fails
      if either fails, and otherwise collects the fields of both in order. */
  function Then(first: Option<(ParserState, seq<Field>)>, second: Option<(ParserState, seq<Field>)>): Option<(ParserState, seq<Field>)>
  {
    if first.None? || second.None? then None
    else Some((second.value.0, first.value.1 + second.value.1))
  }

  /** The fields a whole descriptor declares; fails as `Walk` does, and also
      when a collection is left open at the end. */
  function Fields(items: seq<Item>): Option<seq<Field>>
  {
    var w := Walk(items, INITIAL);
    if w.Some? && w.value.0.depth == 0 then Some(w.value.1) else None
  }

  /** Bytes one field occupies in a report. */
  function ReportBytes(f: Field): nat
  {
    f.reportSize * f.reportCount / 8
  }

  lemma {:induction false} WalkCons(x: Item, rest: seq<Item>, st: ParserState)
    ensures Walk([x] + rest, st) ==
      Then(Apply(MeaningOf(x), st), Walk(rest, NextState(Apply(MeaningOf(x), st), st)))
  {
    assert ([x] + rest)[1..] == rest;
  }

  /** Walking a concatenation is walking one part after the other. */
  lemma {:induction false} WalkAppend(a: seq<Item>, b: seq<Item>, st: ParserState)
    ensures Walk(a + b, st) == Then(Walk(a, st), Walk(b, NextState(Walk(a, st), st)))
    decreases |a|
  {
    if a == [] {
      assert a + b == b;
      var w := Walk(b, st);
      if w.Some? {
        assert [] + w.value.1 == w.value.1;
      }
    } else {
      assert a + b == [a[0]] + (a[1..] + b);
      assert a == [a[0]] + a[1..];
      WalkCons(a[0], a[1..] + b, st);
      WalkCons(a[0], a[1..], st);
      var step := Apply(MeaningOf(a[0]), st);
      if step.Some? {
        var st' := step.value.0;
        WalkAppend(a[1..], b, st');
        var w1 := Walk(a[1..], st');
        if w1.Some? {
          var w2 := Walk(b, w1.value.0);
          if w2.Some? {
            assert step.value.1 + (w1.value.1 + w2.value.1) == (step.value.1 + w1.value.1) + w2.value.1;
          }
        }
      }
    }
  }

  lemma {:induction false} EncodeCons(x: Item, rest: seq<Item>)
    ensures EncodeItems([x] + rest) == EncodeItem(x) + EncodeItems(rest)
  {
    assert ([x] + rest)[1..] == rest;
  }

  lemma {:induction false} EncodeItemsAppend(a: seq<Item>, b: seq<Item>)
    ensures EncodeItems(a + b) == EncodeItems(a) + EncodeItems(b)
    decreases |a|
  {
    if a == [] {
      assert a + b == b;
    } else {
      var x, rest := a[0], a[1..];
      assert a == [x] + rest;
      assert a + b == [x] + (rest + b);
      calc {
        EncodeItems(a + b);
      == { EncodeCons(x, rest + b); }
        EncodeItem(x) + EncodeItems(rest + b);
      == { EncodeItemsAppend(rest, b); }
        EncodeItem(x) + (EncodeItems(rest) + EncodeItems(b));
      == { EncodeCons(x, rest); }
        EncodeItems(a) + EncodeItems(b);
      }
    }
  }

  lemma {:induction false} MeaningsCons(x: Item, rest: seq<Item>)
    ensures Meanings([x] + rest) == [MeaningOf(x)] + Meanings(rest)
  {
    assert ([x] + rest)[1..] == rest;
  }

  lemma {:induction false} MeaningsAppend(a: seq<Item>, b: seq<Item>)
    ensures Meanings(a + b) == Meanings(a) + Meanings(b)
    decreases |a|
  {
    if a == [] {
      assert a + b == b;
    } else {
      MeaningsAppend(a[1..], b);
      assert a + b == [a[0]] + (a[1..] + b);
      assert a == [a[0]] + a[1..];
      MeaningsCons(a[0], a[1..] + b);
      MeaningsCons(a[0], a[1..]);
    }
  }

  // ---------------------------------------------------------------------
  // The descriptor, decoded
  // ---------------------------------------------------------------------

  const USAGE_PAGE_VENDOR: Item := Item(0x0, Global, [0x00, 0xff])
  const COLLECTION_APPLICATION: Item := Item(0xA, Main, [0x01])
  const LOGICAL_MINIMUM_0: Item := Item(0x1, Global, [0x00])
  const LOGICAL_MAXIMUM_255: Item := Item(0x2, Global, [0xff, 0x00])
  const REPORT_SIZE_8: Item := Item(0x7, Global, [0x08])
  const INPUT_DATA_VAR_ABS: Item := Item(0x8, Main, [0x02])
  const OUTPUT_DATA_VAR_ABS: Item := Item(0x9, Main, [0x02])
  const END_COLLECTION: Item := Item(0xC, Main, [])

  function UsageItem(usage: byte): Item
  {
    Item(0x0, Local, [usage])
  }

  function ReportCountItem(n: PacketSize): Item
  {
    Item(0x9, Global, [n as byte])
  }

  /** The three items that open the descriptor: usage page, usage and the
      application collection. Here and in `ReportBlock` the list is written
      as nested one-element concatenations so that the cons lemmas
      (`EncodeCons`, `MeaningsCons`, `WalkCons`) apply to it step by step. */
  function Head(): seq<Item>
  {
    [USAGE_PAGE_VENDOR] + ([UsageItem(1)] + [COLLECTION_APPLICATION])
  }

  /** The six items that declare one report: usage, logical extents, report
      size, report count, and the Input or Output item itself. */
  function ReportBlock(usage: byte, main: Item, n: PacketSize): seq<Item>
  {
    [UsageItem(usage)] + ([LOGICAL_MINIMUM_0] + ([LOGICAL_MAXIMUM_255] + ([REPORT_SIZE_8] + ([ReportCountItem(n)] + [main]))))
  }

  /** The items the descriptor is made of, in order. */
  function DescriptorItems(n: PacketSize): (items: seq<Item>)
  {
    Head() + ReportBlock(1, INPUT_DATA_VAR_ABS, n) + ReportBlock(2, OUTPUT_DATA_VAR_ABS, n) + [END_COLLECTION]
  }

  const DATA_VAR_ABS: MainFlags := MainFlags(false, true, false)

  lemma {:induction false} EncodeHead()
    ensures EncodeItems(Head()) == [0x06, 0x00, 0xff, 0x09, 0x01, 0xa1, 0x01]
  {
    EncodeCons(COLLECTION_APPLICATION, []);
    EncodeCons(UsageItem(1), [COLLECTION_APPLICATION]);
    EncodeCons(USAGE_PAGE_VENDOR, [UsageItem(1)] + [COLLECTION_APPLICATION]);
  }

  lemma {:induction false} EncodeReportBlock(usage: byte, main: Item, n: PacketSize)
    requires main == INPUT_DATA_VAR_ABS || main == OUTPUT_DATA_VAR_ABS
    ensures EncodeItems(ReportBlock(usage, main, n)) ==
      [0x09, usage, 0x15, 0x00, 0x26, 0xff, 0x00, 0x75, 0x08, 0x95, n as byte, Prefix(main), 0x02]
  {
    var t4 := [ReportCountItem(n)] + [main];
    var t3 := [REPORT_SIZE_8] + t4;
    var t2 := [LOGICAL_MAXIMUM_255] + t3;
    var t1 := [LOGICAL_MINIMUM_0] + t2;
    EncodeCons(main, []);
    EncodeCons(ReportCountItem(n), [main]);
    assert EncodeItems(t4) == [0x95, n as byte, Prefix(main), 0x02];
    EncodeCons(REPORT_SIZE_8, t4);
    EncodeCons(LOGICAL_MAXIMUM_255, t3);
    EncodeCons(LOGICAL_MINIMUM_0, t2);
    EncodeCons(UsageItem(usage), t1);
  }

  lemma {:induction false} DescriptorItemsShort(n: PacketSize)
    ensures AllShort(DescriptorItems(n))
  {
    var items := DescriptorItems(n);
    assert items == [USAGE_PAGE_VENDOR, UsageItem(1), COLLECTION_APPLICATION,
                     UsageItem(1), LOGICAL_MINIMUM_0, LOGICAL_MAXIMUM_255, REPORT_SIZE_8, ReportCountItem(n), INPUT_DATA_VAR_ABS,
                     UsageItem(2), LOGICAL_MINIMUM_0, LOGICAL_MAXIMUM_255, REPORT_SIZE_8, ReportCountItem(n), OUTPUT_DATA_VAR_ABS,
                     END_COLLECTION];
  }

  lemma {:induction false} EncodeParts(n: PacketSize)
    ensures EncodeItems(DescriptorItems(n)) ==
      EncodeItems(Head()) + EncodeItems(ReportBlock(1, INPUT_DATA_VAR_ABS, n))
        + EncodeItems(ReportBlock(2, OUTPUT_DATA_VAR_ABS, n)) + EncodeItems([END_COLLECTION])
  {
    var head := Head();
    var inBlock := ReportBlock(1, INPUT_DATA_VAR_ABS, n);
    var outBlock := ReportBlock(2, OUTPUT_DATA_VAR_ABS, n);
    EncodeItemsAppend(head, inBlock);
    EncodeItemsAppend(head + inBlock, outBlock);
    EncodeItemsAppend(head + inBlock + outBlock, [END_COLLECTION]);
  }

  function HeadBytes(): seq<byte>
  {
    [0x06, 0x00, 0xff, 0x09, 0x01, 0xa1, 0x01]
  }

  function BlockBytes(usage: byte, prefix: byte, n: PacketSize): seq<byte>
  {
    [0x09, usage, 0x15, 0x00, 0x26, 0xff, 0x00, 0x75, 0x08, 0x95, n as byte, prefix, 0x02]
  }

  lemma {:induction false} DescriptorConcat(n: PacketSize)
    ensures HeadBytes() + BlockBytes(1, 0x81, n) + BlockBytes(2, 0x91, n) + [0xc0] == Descriptor(n)
  {
  }

  /** The descriptor is the encoding of its sixteen items. */
  lemma {:induction false} EncodeDescriptorItems(n: PacketSize)
    ensures EncodeItems(DescriptorItems(n)) == Descriptor(n)
  {
    EncodeParts(n);
    assert EncodeItems(Head()) == HeadBytes() by {
      EncodeHead();
    }
    assert EncodeItems(ReportBlock(1, INPUT_DATA_VAR_ABS, n)) == BlockBytes(1, 0x81, n) by {
      EncodeReportBlock(1, INPUT_DATA_VAR_ABS, n);
    }
    assert EncodeItems(ReportBlock(2, OUTPUT_DATA_VAR_ABS, n)) == BlockBytes(2, 0x91, n) by {
      EncodeReportBlock(2, OUTPUT_DATA_VAR_ABS, n);
    }
    assert EncodeItems([END_COLLECTION]) == [0xc0] by {
      EncodeCons(END_COLLECTION, []);
    }
    DescriptorConcat(n);
  }

  /** The descriptor is exactly 34 bytes of short items with nothing left
      over, and they are the sixteen items above. */
  lemma {:induction false} DescriptorParses(n: PacketSize)
    ensures |Descriptor(n)| == 34
    ensures ParseItems(Descriptor(n)) == Some(DescriptorItems(n))
  {
    EncodeDescriptorItems(n);
    DescriptorItemsShort(n);
    ParseEncode(DescriptorItems(n));
  }

  lemma {:induction false} UnsignedOne(b: byte)
    ensures Unsigned([b]) == b
  {
    assert [b][1..] == [];
  }

  lemma {:induction false} UnsignedTwo(lo: byte, hi: byte)
    ensures Unsigned([lo, hi]) == lo + 0x100 * hi
  {
    assert [lo, hi][1..] == [hi];
    UnsignedOne(hi);
  }

  /** Each item decodes to what its comment in the descriptor says:
      vendor page 0xFF00, an application collection, logical extents 0 and
      255 (the maximum needs two bytes, since 0xFF alone would read as -1),
      8-bit fields, N of them, and Data,Var,Abs main items. */
  lemma {:induction false} ItemMeanings(n: PacketSize, usage: byte)
    ensures MeaningOf(USAGE_PAGE_VENDOR) == UsagePage(0xFF00)
    ensures MeaningOf(UsageItem(usage)) == Usage(usage)
    ensures MeaningOf(COLLECTION_APPLICATION) == Collection(1)
    ensures MeaningOf(LOGICAL_MINIMUM_0) == LogicalMinimum(0)
    ensures MeaningOf(LOGICAL_MAXIMUM_255) == LogicalMaximum(255)
    ensures MeaningOf(REPORT_SIZE_8) == ReportSize(8)
    ensures MeaningOf(ReportCountItem(n)) == ReportCount(n)
    ensures MeaningOf(INPUT_DATA_VAR_ABS) == Input(DATA_VAR_ABS)
    ensures MeaningOf(OUTPUT_DATA_VAR_ABS) == Output(DATA_VAR_ABS)
    ensures MeaningOf(END_COLLECTION) == EndCollection
    ensures Signed([0xff]) == -1
  {
    UnsignedTwo(0x00, 0xff);
    UnsignedTwo(0xff, 0x00);
    UnsignedOne(usage);
    UnsignedOne(0x01);
    UnsignedOne(0x00);
    UnsignedOne(0x08);
    UnsignedOne(n as byte);
    UnsignedOne(0x02);
    UnsignedOne(0xff);
  }

  function ExpectedMeanings(n: PacketSize): seq<Meaning>
  {
    [ UsagePage(0xFF00), Usage(1), Collection(1),
      Usage(1), LogicalMinimum(0), LogicalMaximum(255), ReportSize(8), ReportCount(n), Input(DATA_VAR_ABS),
      Usage(2), LogicalMinimum(0), LogicalMaximum(255), ReportSize(8), ReportCount(n), Output(DATA_VAR_ABS),
      EndCollection ]
  }

  function BlockMeanings(usage: byte, main: Meaning, n: PacketSize): seq<Meaning>
  {
    [Usage(usage), LogicalMinimum(0), LogicalMaximum(255), ReportSize(8), ReportCount(n), main]
  }

  lemma {:induction false} ReportBlockMeanings(usage: byte, main: Item, n: PacketSize)
    requires main == INPUT_DATA_VAR_ABS || main == OUTPUT_DATA_VAR_ABS
    ensures Meanings(ReportBlock(usage, main, n)) == BlockMeanings(usage, MeaningOf(main), n)
  {
    ItemMeanings(n, usage);
    var t4 := [ReportCountItem(n)] + [main];
    var t3 := [REPORT_SIZE_8] + t4;
    var t2 := [LOGICAL_MAXIMUM_255] + t3;
    var t1 := [LOGICAL_MINIMUM_0] + t2;
    MeaningsCons(main, []);
    MeaningsCons(ReportCountItem(n), [main]);
    MeaningsCons(REPORT_SIZE_8, t4);
    MeaningsCons(LOGICAL_MAXIMUM_255, t3);
    MeaningsCons(LOGICAL_MINIMUM_0, t2);
    MeaningsCons(UsageItem(usage), t1);
  }

  lemma {:induction false} HeadMeanings()
    ensures Meanings(Head()) == [UsagePage(0xFF00), Usage(1), Collection(1)]
  {
    ItemMeanings(1, 1);
    MeaningsCons(COLLECTION_APPLICATION, []);
    MeaningsCons(UsageItem(1), [COLLECTION_APPLICATION]);
    MeaningsCons(USAGE_PAGE_VENDOR, [UsageItem(1)] + [COLLECTION_APPLICATION]);
  }

  lemma {:induction false} MeaningsParts(n: PacketSize)
    ensures Meanings(DescriptorItems(n)) ==
      Meanings(Head()) + Meanings(ReportBlock(1, INPUT_DATA_VAR_ABS, n))
        + Meanings(ReportBlock(2, OUTPUT_DATA_VAR_ABS, n)) + Meanings([END_COLLECTION])
  {
    var head := Head();
    var inBlock := ReportBlock(1, INPUT_DATA_VAR_ABS, n);
    var outBlock := ReportBlock(2, OUTPUT_DATA_VAR_ABS, n);
    MeaningsAppend(head, inBlock);
    MeaningsAppend(head + inBlock, outBlock);
    MeaningsAppend(head + inBlock + outBlock, [END_COLLECTION]);
  }

  lemma {:induction false} MeaningsConcat(n: PacketSize)
    ensures [UsagePage(0xFF00), Usage(1), Collection(1)] + BlockMeanings(1, Input(DATA_VAR_ABS), n)
      + BlockMeanings(2, Output(DATA_VAR_ABS), n) + [EndCollection] == ExpectedMeanings(n)
  {
  }

  /** Every item of the descriptor decodes to what its comment says. */
  lemma {:induction false} DescriptorMeanings(n: PacketSize)
    ensures Meanings(DescriptorItems(n)) == ExpectedMeanings(n)
  {
    MeaningsParts(n);
    HeadMeanings();
    assert Meanings(ReportBlock(1, INPUT_DATA_VAR_ABS, n)) == BlockMeanings(1, Input(DATA_VAR_ABS), n) by {
      ItemMeanings(n, 1);
      ReportBlockMeanings(1, INPUT_DATA_VAR_ABS, n);
    }
    assert Meanings(ReportBlock(2, OUTPUT_DATA_VAR_ABS, n)) == BlockMeanings(2, Output(DATA_VAR_ABS), n) by {
      ItemMeanings(n, 2);
      ReportBlockMeanings(2, OUTPUT_DATA_VAR_ABS, n);
    }
    assert Meanings([END_COLLECTION]) == [EndCollection] by {
      ItemMeanings(n, 1);
      MeaningsCons(END_COLLECTION, []);
    }
    MeaningsConcat(n);
  }

  /** Exactly one Collection and one End Collection appear among the items,
      the Collection third and the End Collection last. */
  lemma {:induction false} OneCollection(n: PacketSize)
    ensures |Meanings(DescriptorItems(n))| == 16
    ensures forall i :: 0 <= i < 16 ==>
      (Meanings(DescriptorItems(n))[i].Collection? <==> i == 2)
    ensures forall i :: 0 <= i < 16 ==>
      (Meanings(DescriptorItems(n))[i] == EndCollection <==> i == 15)
  {
    DescriptorMeanings(n);
  }

  /** With the globals `st` in force, one report block declares one field
      carrying the block's globals. */
  lemma {:induction false} WalkReportBlock(usage: byte, main: Item, dir: Direction, n: PacketSize, st: ParserState)
    requires (main == INPUT_DATA_VAR_ABS && dir == In) || (main == OUTPUT_DATA_VAR_ABS && dir == Out)
    ensures Walk(ReportBlock(usage, main, n), st) ==
      Some((st.(logicalMin := Some(0), logicalMax := Some(255), reportSize := Some(8), reportCount := Some(n)),
            [Field(dir, 8, n, 0, 255, DATA_VAR_ABS)]))
  {
    ItemMeanings(n, usage);
    var s1 := st.(logicalMin := Some(0));
    var s2 := s1.(logicalMax := Some(255));
    var s3 := s2.(reportSize := Some(8));
    var s4 := s3.(reportCount := Some(n));
    var f := Field(dir, 8, n, 0, 255, DATA_VAR_ABS);
    WalkCons(main, [], s4);
    assert Apply(MeaningOf(main), s4) == Some((s4, [f]));
    assert [f] + [] == [f];
    assert Walk([main], s4) == Some((s4, [f]));
    var t4 := [ReportCountItem(n)] + [main];
    var t3 := [REPORT_SIZE_8] + t4;
    var t2 := [LOGICAL_MAXIMUM_255] + t3;
    var t1 := [LOGICAL_MINIMUM_0] + t2;
    var t0 := [UsageItem(usage)] + t1;
    WalkCons(ReportCountItem(n), [main], s3);
    assert [] + [f] == [f];
    assert Walk(t4, s3) == Some((s4, [f]));
    WalkCons(REPORT_SIZE_8, t4, s2);
    assert Walk(t3, s2) == Some((s4, [f]));
    WalkCons(LOGICAL_MAXIMUM_255, t3, s1);
    assert Walk(t2, s1) == Some((s4, [f]));
    WalkCons(LOGICAL_MINIMUM_0, t2, st);
    assert Walk(t1, st) == Some((s4, [f]));
    WalkCons(UsageItem(usage), t1, st);
  }

  lemma {:induction false} WalkHead()
    ensures Walk(Head(), INITIAL) == Some((INITIAL.(depth := 1), []))
  {
    var open := INITIAL.(depth := 1);
    var empty: seq<Field> := [];
    assert Walk([COLLECTION_APPLICATION], INITIAL) == Some((open, empty)) by {
      ItemMeanings(1, 1);
      WalkCons(COLLECTION_APPLICATION, [], INITIAL);
      assert Apply(MeaningOf(COLLECTION_APPLICATION), INITIAL) == Some((open, empty));
      assert Walk([], open) == Some((open, empty));
      assert empty + empty == empty;
    }
    assert Walk([UsageItem(1)] + [COLLECTION_APPLICATION], INITIAL) == Some((open, empty)) by {
      ItemMeanings(1, 1);
      WalkCons(UsageItem(1), [COLLECTION_APPLICATION], INITIAL);
      assert Apply(MeaningOf(UsageItem(1)), INITIAL) == Some((INITIAL, empty));
      assert empty + empty == empty;
    }
    ItemMeanings(1, 1);
    WalkCons(USAGE_PAGE_VENDOR, [UsageItem(1)] + [COLLECTION_APPLICATION], INITIAL);
    assert Apply(MeaningOf(USAGE_PAGE_VENDOR), INITIAL) == Some((INITIAL, empty));
    assert empty + empty == empty;
  }

  lemma {:induction false} WalkEnd(st: ParserState)
    requires st.depth > 0
    ensures Walk([END_COLLECTION], st) == Some((st.(depth := st.depth - 1), []))
  {
    var closed := st.(depth := st.depth - 1);
    var empty: seq<Field> := [];
    ItemMeanings(1, 1);
    WalkCons(END_COLLECTION, [], st);
    assert Apply(MeaningOf(END_COLLECTION), st) == Some((closed, empty));
    assert Walk([], closed) == Some((closed, empty));
    assert empty + empty == empty;
  }

  /** The descriptor declares exactly two fields, one input and one output,
      each N 8-bit values ranging over 0..255, inside one Collection that its
      End Collection closes again; each field therefore spans exactly N
      report bytes. */
  lemma {:induction false} DescriptorFields(n: PacketSize)
    ensures Fields(DescriptorItems(n)) ==
      Some([ Field(In, 8, n, 0, 255, DATA_VAR_ABS), Field(Out, 8, n, 0, 255, DATA_VAR_ABS) ])
    ensures ReportBytes(Field(In, 8, n, 0, 255, DATA_VAR_ABS)) == n
    ensures ReportBytes(Field(Out, 8, n, 0, 255, DATA_VAR_ABS)) == n
  {
    var head := Head();
    var inBlock := ReportBlock(1, INPUT_DATA_VAR_ABS, n);
    var outBlock := ReportBlock(2, OUTPUT_DATA_VAR_ABS, n);
    var tail := [END_COLLECTION];
    var g := ParserState(Some(8), Some(n), Some(0), Some(255), 1);
    var fin := Field(In, 8, n, 0, 255, DATA_VAR_ABS);
    var fout := Field(Out, 8, n, 0, 255, DATA_VAR_ABS);
    assert Walk(head + inBlock, INITIAL) == Some((g, [fin])) by {
      WalkHead();
      WalkReportBlock(1, INPUT_DATA_VAR_ABS, In, n, INITIAL.(depth := 1));
      WalkAppend(head, inBlock, INITIAL);
      assert [] + [fin] == [fin];
    }
    assert Walk(head + inBlock + outBlock, INITIAL) == Some((g, [fin, fout])) by {
      WalkReportBlock(2, OUTPUT_DATA_VAR_ABS, Out, n, g);
      WalkAppend(head + inBlock, outBlock, INITIAL);
      assert [fin] + [fout] == [fin, fout];
    }
    assert Walk(DescriptorItems(n), INITIAL) == Some((g.(depth := 0), [fin, fout])) by {
      WalkEnd(g);
      WalkAppend(head + inBlock + outBlock, tail, INITIAL);
      assert [fin, fout] + [] == [fin, fout];
    }
  }
}
