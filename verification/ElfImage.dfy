/**
  What the loader reads from an ELF image: little-endian fields, program headers, the dynamic table
  and relocation records (chapters 4 and 5 of the System V gABI, section 4.4.1 of its AMD64
  supplement for R_X86_64_RELATIVE).
 */
module ElfImage {
  import opened Common
  import opened Bits

  type Bytes = seq<byte>

  const WORD64: nat := 0x1_0000_0000_0000_0000

  const SEGTYPE_LOAD: nat := 1
  const SEGTYPE_DYNAMIC: nat := 2
  const DE_TAG_RELA: nat := 7
  const DE_TAG_RELASZ: nat := 8
  const R_RELATIVE: nat := 8

  // ----- Little-endian fields

  function FromLE(s: Bytes): nat {
    if s == [] then 0 else s[0] + 256 * FromLE(s[1..])
  }

  function ToLE(v: nat, n: nat): (s: Bytes)
    ensures |s| == n
  {
    if n == 0 then [] else [v % 256] + ToLE(v / 256, n - 1)
  }

  function Pow256(n: nat): (r: nat)
    ensures r > 0
  {
    if n == 0 then 1 else 256 * Pow256(n - 1)
  }

  lemma {:induction false} LERoundTrip(v: nat, n: nat)
    requires v < Pow256(n)
    ensures FromLE(ToLE(v, n)) == v
  {
    if n > 0 {
      LERoundTrip(v / 256, n - 1);
      assert ToLE(v, n)[1..] == ToLE(v / 256, n - 1);
    }
  }

  lemma Pow256Of8()
    ensures Pow256(8) == WORD64
  {}

  /** Byte i of a little-endian number has weight 256^i. */
  lemma {:induction false} LEByte(v: nat, n: nat, i: nat)
    requires i < n
    ensures v / Pow256(i) >= 0 && ToLE(v, n)[i] == v / Pow256(i) % 256
    decreases i
  {
    DivideTwice(v, if i == 0 then 1 else Pow256(i - 1));
    if i > 0 { LEByte(v / 256, n - 1, i - 1); }
  }

  lemma DivideTwice(v: nat, d: nat)
    requires d > 0
    ensures v / (256 * d) >= 0 && v / 256 / d == v / (256 * d)
  {
    var q, r := v / 256 / d, v / 256 % d;
    assert v / 256 == d * q + r && v == 256 * (v / 256) + v % 256;
    assert v == (256 * d) * q + (256 * r + v % 256);
    assert 256 * r + v % 256 < 256 * d;
    DivModUnique(v, 256 * d, q, 256 * r + v % 256);
  }

  lemma {:induction false} FromLEBound(s: Bytes)
    ensures FromLE(s) < Pow256(|s|)
  {
    if s != [] { FromLEBound(s[1..]); }
  }

  lemma {:induction false} FromLEConcat(a: Bytes, b: Bytes)
    ensures FromLE(a + b) == FromLE(a) + Pow256(|a|) * FromLE(b)
    decreases |a|
  {
    if a == [] {
      assert a + b == b;
    } else {
      assert (a + b)[1..] == a[1..] + b;
      FromLEConcat(a[1..], b);
      Distribute(a[0], FromLE(a[1..]), Pow256(|a| - 1), FromLE(b));
    }
  }

  lemma Distribute(x: nat, y: nat, p: nat, f: nat)
    ensures x + 256 * (y + p * f) == (x + 256 * y) + 256 * p * f
  {}

  /** The low 32 bits of an 8-byte field are its first four bytes. */
  lemma LowHalfOfField(m: Bytes, at: nat)
    requires at + 8 <= |m|
    ensures Field(m, at, 8) % 0x1_0000_0000 == Field(m, at, 4)
  {
    var a, b := m[at..at + 4], m[at + 4..at + 8];
    assert m[at..at + 8] == a + b;
    FromLEConcat(a, b);
    FromLEBound(a);
    assert Pow256(4) == 0x1_0000_0000;
  }

  function Field(m: Bytes, at: nat, n: nat): nat
    requires at + n <= |m|
  {
    FromLE(m[at..at + n])
  }

  // ----- Header and program headers

  datatype Segment = Segment(kind: nat, dataOffset: nat, virtAddr: nat, dataSize: nat, virtSize: nat)

  predicate HeaderReadable(image: Bytes) {
    |image| >= 64 && Field(image, 32, 8) + 56 * Field(image, 56, 2) <= |image|
  }

  function EntryPoint(image: Bytes): nat
    requires HeaderReadable(image)
  {
    Field(image, 24, 8)
  }

  function SegmentCount(image: Bytes): nat
    requires HeaderReadable(image)
  {
    Field(image, 56, 2)
  }

  function SegmentAt(image: Bytes, i: nat): Segment
    requires HeaderReadable(image) && i < SegmentCount(image)
  {
    var at := Field(image, 32, 8) + 56 * i;
    Segment(Field(image, at, 4), Field(image, at + 8, 8), Field(image, at + 16, 8),
            Field(image, at + 32, 8), Field(image, at + 40, 8))
  }

  function Segments(image: Bytes): (r: seq<Segment>)
    requires HeaderReadable(image)
    ensures |r| == SegmentCount(image)
  {
    seq(SegmentCount(image), i requires 0 <= i < SegmentCount(image) => SegmentAt(image, i))
  }

  // ----- Records laid out field by field

  datatype Item = Item(value: nat, width: nat)

  /** Fields one after the other, without gaps. */
  function Layout(fs: seq<Item>): (r: Bytes)
    ensures |r| == Offset(fs, |fs|)
  {
    if fs == [] then []
    else
      var n := |fs| - 1;
      SameOffset(fs, n, n);
      Layout(fs[..n]) + ToLE(fs[n].value, fs[n].width)
  }

  /** Where field i starts. */
  function Offset(fs: seq<Item>, i: nat): nat
    requires i <= |fs|
  {
    if i == 0 then 0 else Offset(fs, i - 1) + fs[i - 1].width
  }

  lemma {:induction false} SameOffset(fs: seq<Item>, n: nat, i: nat)
    requires i <= n <= |fs|
    ensures Offset(fs[..n], i) == Offset(fs, i)
  {
    if i > 0 { SameOffset(fs, n, i - 1); }
  }

  ghost predicate ItemsFit(fs: seq<Item>) {
    forall i :: 0 <= i < |fs| ==> fs[i].value < Pow256(fs[i].width)
  }

  /** A field read at its offset has the value it was laid out with. */
  lemma {:induction false} LayoutField(fs: seq<Item>, i: nat)
    requires i < |fs| && ItemsFit(fs)
    ensures Offset(fs, i) + fs[i].width <= |Layout(fs)|
    ensures Field(Layout(fs), Offset(fs, i), fs[i].width) == fs[i].value
    decreases |fs|
  {
    var n := |fs| - 1;
    SameOffset(fs, n, n);
    SameOffset(fs, n, i);
    var r, a, b := Layout(fs), Layout(fs[..n]), ToLE(fs[n].value, fs[n].width);
    var at, w := Offset(fs, i), fs[i].width;
    if i == n {
      assert r[at..at + w] == b;
      LERoundTrip(fs[n].value, fs[n].width);
    } else {
      LayoutField(fs[..n], i);
      assert fs[..n][i] == fs[i];
      assert r[at..at + w] == a[at..at + w];
    }
  }

  /** Memory holds the bytes s at position `at`. */
  ghost predicate HoldsAt(m: Bytes, at: nat, s: Bytes) {
    at + |s| <= |m| && m[at..at + |s|] == s
  }

  /** The same in memory that holds the record. */
  lemma FieldInMemory(m: Bytes, at: nat, fs: seq<Item>, i: nat)
    requires HoldsAt(m, at, Layout(fs)) && ItemsFit(fs) && i < |fs|
    ensures at + Offset(fs, i) + fs[i].width <= |m|
    ensures Field(m, at + Offset(fs, i), fs[i].width) == fs[i].value
  {
    hide Layout, FromLE, Offset, ItemsFit;
    LayoutField(fs, i);
    SliceOfSlice(m, at, |Layout(fs)|, Offset(fs, i), fs[i].width);
  }

  lemma SliceOfSlice(m: Bytes, at: nat, n: nat, o: nat, w: nat)
    requires at + n <= |m| && o + w <= n
    ensures m[at..at + n][o..o + w] == m[at + o..at + o + w]
  {
    var s := m[at..at + n];
    var a, b := s[o..o + w], m[at + o..at + o + w];
    forall x | 0 <= x < w ensures a[x] == b[x] {
      assert a[x] == s[o + x];
    }
  }

  /** The source's `Header`, in the order of its fields. */
  datatype FileHeader = FileHeader(
    magic: nat, bits: nat, endian: nat, version: nat, abi: nat, padding: nat, objectType: nat, machineType: nat,
    xVersion: nat, entryPoint: nat, phOffset: nat, shOffset: nat, flags: nat, headerSize: nat, phEntrySize: nat,
    phEntryCount: nat, shEntrySize: nat, shEntryCount: nat, nameStringTableIndex: nat)

  function HeaderItems(h: FileHeader): seq<Item> {
    [Item(h.magic, 4), Item(h.bits, 1), Item(h.endian, 1), Item(h.version, 1), Item(h.abi, 1), Item(h.padding, 8),
     Item(h.objectType, 2), Item(h.machineType, 2), Item(h.xVersion, 4), Item(h.entryPoint, 8),
     Item(h.phOffset, 8), Item(h.shOffset, 8), Item(h.flags, 4), Item(h.headerSize, 2), Item(h.phEntrySize, 2),
     Item(h.phEntryCount, 2), Item(h.shEntrySize, 2), Item(h.shEntryCount, 2), Item(h.nameStringTableIndex, 2)]
  }

  /** The source's `SegmentHeader`, in the order of its fields. */
  datatype SegmentHeader = SegmentHeader(
    segType: nat, flags: nat, dataOffset: nat, virtAddr: nat, unused: nat, dataSize: nat, virtSize: nat,
    alignment: nat)

  function SegmentItems(s: SegmentHeader): seq<Item> {
    [Item(s.segType, 4), Item(s.flags, 4), Item(s.dataOffset, 8), Item(s.virtAddr, 8), Item(s.unused, 8),
     Item(s.dataSize, 8), Item(s.virtSize, 8), Item(s.alignment, 8)]
  }

  lemma HeaderOffsets(h: FileHeader)
    ensures var fs := HeaderItems(h);
            && |fs| == 19 && Offset(fs, 9) == 24 && Offset(fs, 10) == 32 && Offset(fs, 15) == 56 && Offset(fs, 19) == 64
            && fs[9] == Item(h.entryPoint, 8) && fs[10] == Item(h.phOffset, 8) && fs[15] == Item(h.phEntryCount, 2)
  {
    var fs := HeaderItems(h);
    assert Offset(fs, 0) == 0 && Offset(fs, 1) == 4 && Offset(fs, 2) == 5 && Offset(fs, 3) == 6;
    assert Offset(fs, 4) == 7 && Offset(fs, 5) == 8;
    assert Offset(fs, 6) == 16 && Offset(fs, 8) == 20 && Offset(fs, 9) == 24;
    assert Offset(fs, 10) == 32 && Offset(fs, 11) == 40 && Offset(fs, 12) == 48;
    assert Offset(fs, 13) == 52 && Offset(fs, 15) == 56;
    assert Offset(fs, 17) == 60;
  }

  lemma SegmentOffsets(s: SegmentHeader)
    ensures var fs := SegmentItems(s);
            && |fs| == 8 && Offset(fs, 0) == 0 && Offset(fs, 2) == 8 && Offset(fs, 3) == 16 && Offset(fs, 5) == 32
            && Offset(fs, 6) == 40 && Offset(fs, 8) == 56
            && fs[0] == Item(s.segType, 4) && fs[2] == Item(s.dataOffset, 8) && fs[3] == Item(s.virtAddr, 8)
            && fs[5] == Item(s.dataSize, 8) && fs[6] == Item(s.virtSize, 8)
  {
    var fs := SegmentItems(s);
    assert Offset(fs, 1) == 4 && Offset(fs, 2) == 8 && Offset(fs, 3) == 16;
    assert Offset(fs, 4) == 24 && Offset(fs, 5) == 32 && Offset(fs, 6) == 40;
    assert Offset(fs, 7) == 48;
  }

  /** The image holds this header and these program headers, at the places the format gives them. */
  ghost predicate LaidOut(image: Bytes, h: FileHeader, hs: seq<SegmentHeader>) {
    && ItemsFit(HeaderItems(h)) && HoldsAt(image, 0, Layout(HeaderItems(h)))
    && h.phEntryCount == |hs| && h.phOffset + 56 * |hs| <= |image|
    && forall i :: 0 <= i < |hs| ==>
         ItemsFit(SegmentItems(hs[i])) && HoldsAt(image, h.phOffset + 56 * i, Layout(SegmentItems(hs[i])))
  }

  lemma HeaderRead(image: Bytes, h: FileHeader, hs: seq<SegmentHeader>)
    requires LaidOut(image, h, hs)
    ensures HeaderReadable(image) && EntryPoint(image) == h.entryPoint && SegmentCount(image) == |hs|
    ensures Field(image, 32, 8) == h.phOffset
  {
    hide Field, Layout, Offset, HeaderItems, ItemsFit, HoldsAt;
    HeaderOffsets(h);
    FieldInMemory(image, 0, HeaderItems(h), 9);
    FieldInMemory(image, 0, HeaderItems(h), 10);
    FieldInMemory(image, 0, HeaderItems(h), 15);
    HeaderLength(image, h);
  }

  lemma HeaderLength(image: Bytes, h: FileHeader)
    requires HoldsAt(image, 0, Layout(HeaderItems(h)))
    ensures |image| >= 64
  {
    hide Offset, HeaderItems, Layout;
    HeaderOffsets(h);
  }

  /** What the loader reads back from an image is what was laid out. */
  lemma SegmentsRead(image: Bytes, h: FileHeader, hs: seq<SegmentHeader>, i: nat)
    requires LaidOut(image, h, hs) && i < |hs|
    ensures HeaderReadable(image) && |Segments(image)| == |hs|
    ensures Segments(image)[i]
            == Segment(hs[i].segType, hs[i].dataOffset, hs[i].virtAddr, hs[i].dataSize, hs[i].virtSize)
  {
    hide Field, Layout, Offset, SegmentItems, HeaderItems, ItemsFit, HoldsAt, HeaderReadable, EntryPoint;
    HeaderRead(image, h, hs);
    var at, fs := h.phOffset + 56 * i, SegmentItems(hs[i]);
    SegmentOffsets(hs[i]);
    FieldInMemory(image, at, fs, 0);
    FieldInMemory(image, at, fs, 2);
    FieldInMemory(image, at, fs, 3);
    FieldInMemory(image, at, fs, 5);
    FieldInMemory(image, at, fs, 6);
    assert Segments(image)[i] == SegmentAt(image, i);
  }

  /** Program headers one after the other. */
  function EncodeSegments(hs: seq<SegmentHeader>): (r: Bytes)
    ensures |r| == 56 * |hs|
  {
    if hs == [] then []
    else
      var n := |hs| - 1;
      SegmentOffsets(hs[n]);
      EncodeSegments(hs[..n]) + Layout(SegmentItems(hs[n]))
  }

  /** An image: the file header, the program headers right after it, and any further bytes. */
  function EncodeImage(h: FileHeader, hs: seq<SegmentHeader>, rest: Bytes): Bytes {
    Layout(HeaderItems(h)) + EncodeSegments(hs) + rest
  }

  lemma {:induction false} EncodedSegmentAt(hs: seq<SegmentHeader>, i: nat)
    requires i < |hs|
    ensures HoldsAt(EncodeSegments(hs), 56 * i, Layout(SegmentItems(hs[i])))
    decreases |hs|
  {
    hide Layout, SegmentItems, Offset;
    var n := |hs| - 1;
    SegmentOffsets(hs[n]);
    SegmentOffsets(hs[i]);
    var r, a, b := EncodeSegments(hs), EncodeSegments(hs[..n]), Layout(SegmentItems(hs[n]));
    if i == n {
      assert r[56 * n..56 * n + 56] == b;
    } else {
      EncodedSegmentAt(hs[..n], i);
      assert hs[..n][i] == hs[i];
      assert r[56 * i..56 * i + 56] == a[56 * i..56 * i + 56];
    }
  }

  /** The encoder lays an image out as the loader expects it. */
  lemma EncodedIsLaidOut(h: FileHeader, hs: seq<SegmentHeader>, rest: Bytes)
    requires ItemsFit(HeaderItems(h)) && h.phOffset == 64 && h.phEntryCount == |hs|
    requires forall i :: 0 <= i < |hs| ==> ItemsFit(SegmentItems(hs[i]))
    ensures LaidOut(EncodeImage(h, hs, rest), h, hs)
  {
    hide Layout, HeaderItems, SegmentItems, EncodeSegments, Offset, ItemsFit;
    HeaderOffsets(h);
    var image, a, b := EncodeImage(h, hs, rest), Layout(HeaderItems(h)), EncodeSegments(hs);
    assert image[0..64] == a && image[64..64 + |b|] == b;
    forall i | 0 <= i < |hs| ensures HoldsAt(image, 64 + 56 * i, Layout(SegmentItems(hs[i]))) {
      EncodedSegmentAt(hs, i);
      SegmentOffsets(hs[i]);
      SliceOfSlice(image, 64, |b|, 56 * i, 56);
    }
  }

  /** Round trip: the loader reads back the entry point and the program headers of an encoded image. */
  lemma ImageRoundTrip(h: FileHeader, hs: seq<SegmentHeader>, rest: Bytes, i: nat)
    requires ItemsFit(HeaderItems(h)) && h.phOffset == 64 && h.phEntryCount == |hs| && i < |hs|
    requires forall j :: 0 <= j < |hs| ==> ItemsFit(SegmentItems(hs[j]))
    ensures var image := EncodeImage(h, hs, rest);
            && HeaderReadable(image) && EntryPoint(image) == h.entryPoint && |Segments(image)| == |hs|
            && Segments(image)[i]
               == Segment(hs[i].segType, hs[i].dataOffset, hs[i].virtAddr, hs[i].dataSize, hs[i].virtSize)
  {
    hide EncodeImage, LaidOut, HeaderItems, SegmentItems, ItemsFit, Segments, EntryPoint, HeaderReadable;
    EncodedIsLaidOut(h, hs, rest);
    HeaderRead(EncodeImage(h, hs, rest), h, hs);
    SegmentsRead(EncodeImage(h, hs, rest), h, hs, i);
  }

  // ----- Dynamic table

  /** The dynamic table at `at` ends with a null tag inside memory. */
  ghost predicate Terminated(m: Bytes, at: nat)
    decreases |m| - at
  {
    at + 16 <= |m| && (Field(m, at, 8) == 0 || Terminated(m, at + 16))
  }

  datatype RelaTable = RelaTable(address: nat, count: nat)

  /** Address and entry count of the relocation table; later tags override earlier ones. */
  function ScanDynamic(m: Bytes, at: nat, t: RelaTable): RelaTable
    requires Terminated(m, at)
    decreases |m| - at
  {
    var tag := Field(m, at, 8);
    if tag == 0 then t else ScanDynamic(m, at + 16, NextTable(m, at, t))
  }

  function NextTable(m: Bytes, at: nat, t: RelaTable): RelaTable
    requires at + 16 <= |m|
  {
    var tag, value := Field(m, at, 8), Field(m, at + 8, 8);
    if tag == DE_TAG_RELA then t.(address := value)
    else if tag == DE_TAG_RELASZ then t.(count := value / 24)
    else t
  }

  datatype DynamicEntry = DynamicEntry(tag: nat, value: nat)

  /** The entries before the null tag. */
  ghost function DynamicEntries(m: Bytes, at: nat): seq<DynamicEntry>
    requires Terminated(m, at)
    decreases |m| - at
  {
    if Field(m, at, 8) == 0 then []
    else [DynamicEntry(Field(m, at, 8), Field(m, at + 8, 8))] + DynamicEntries(m, at + 16)
  }

  ghost predicate Absent(es: seq<DynamicEntry>, tag: nat) {
    forall i :: 0 <= i < |es| ==> es[i].tag != tag
  }

  ghost predicate LastWithTag(es: seq<DynamicEntry>, tag: nat, j: nat) {
    j < |es| && es[j].tag == tag && Absent(es[j + 1..], tag)
  }

  /** The scan yields the value of the last entry with tag 7 and with tag 8, or the starting value. */
  lemma {:induction false} ScanFindsLast(m: Bytes, at: nat, t: RelaTable, j: nat)
    requires Terminated(m, at)
    ensures var es, r := DynamicEntries(m, at), ScanDynamic(m, at, t);
            && (Absent(es, 7) ==> r.address == t.address)
            && (Absent(es, 8) ==> r.count == t.count)
            && (LastWithTag(es, 7, j) ==> r.address == es[j].value)
            && (LastWithTag(es, 8, j) ==> r.count == es[j].value / 24)
    decreases |m| - at
  {
    hide Field, Absent, LastWithTag;
    if Field(m, at, 8) != 0 {
      var e, rest := DynamicEntry(Field(m, at, 8), Field(m, at + 8, 8)), DynamicEntries(m, at + 16);
      FirstEntry(e, rest, DE_TAG_RELA, j);
      FirstEntry(e, rest, DE_TAG_RELASZ, j);
      ScanFindsLast(m, at + 16, NextTable(m, at, t), if j == 0 then 0 else j - 1);
    } else {
      NoEntry(DE_TAG_RELA, j);
      NoEntry(DE_TAG_RELASZ, j);
    }
  }

  lemma FirstEntry(e: DynamicEntry, rest: seq<DynamicEntry>, tag: nat, j: nat)
    ensures Absent([e] + rest, tag) ==> e.tag != tag && Absent(rest, tag)
    ensures j == 0 && LastWithTag([e] + rest, tag, j) ==> e.tag == tag && Absent(rest, tag)
    ensures j > 0 && LastWithTag([e] + rest, tag, j) ==>
              LastWithTag(rest, tag, j - 1) && ([e] + rest)[j] == rest[j - 1]
  {
    var es := [e] + rest;
    if Absent(es, tag) {
      assert es[0] == e;
      forall i | 0 <= i < |rest| ensures rest[i].tag != tag { assert rest[i] == es[i + 1]; }
    }
    assert es[1..] == rest;
    if 0 < j < |es| { assert es[j + 1..] == rest[j..]; }
  }

  lemma NoEntry(tag: nat, j: nat)
    ensures !LastWithTag([], tag, j)
  {}

  /** The source's `DynamicEntry`, in the order of its fields. */
  function DynamicItems(e: DynamicEntry): seq<Item> {
    [Item(e.tag, 8), Item(e.value, 8)]
  }

  ghost predicate DynamicLaidOut(m: Bytes, at: nat, es: seq<DynamicEntry>)
    decreases |es|
  {
    if es == [] then at + 16 <= |m| && HoldsAt(m, at, ToLE(0, 8))
    else
      && es[0].tag != 0 && ItemsFit(DynamicItems(es[0])) && HoldsAt(m, at, Layout(DynamicItems(es[0])))
      && DynamicLaidOut(m, at + 16, es[1..])
  }

  /** A table laid out with a null tag at its end is read back entry by entry. */
  lemma {:induction false} DynamicRead(m: Bytes, at: nat, es: seq<DynamicEntry>)
    requires DynamicLaidOut(m, at, es)
    ensures Terminated(m, at) && DynamicEntries(m, at) == es
    decreases |es|
  {
    hide Field, Layout, ItemsFit;
    if es == [] {
      NullTag(m, at);
    } else {
      EntryRead(m, at, es[0]);
      DynamicRead(m, at + 16, es[1..]);
    }
  }

  lemma NullTag(m: Bytes, at: nat)
    requires HoldsAt(m, at, ToLE(0, 8))
    ensures at + 8 <= |m| && Field(m, at, 8) == 0
  {
    Pow256Of8();
    LERoundTrip(0, 8);
  }

  lemma EntryRead(m: Bytes, at: nat, e: DynamicEntry)
    requires ItemsFit(DynamicItems(e)) && HoldsAt(m, at, Layout(DynamicItems(e)))
    ensures at + 16 <= |m| && Field(m, at, 8) == e.tag && Field(m, at + 8, 8) == e.value
  {
    var fs := DynamicItems(e);
    assert Offset(fs, 0) == 0 && Offset(fs, 1) == 8 && Offset(fs, 2) == 16;
    FieldInMemory(m, at, fs, 0);
    FieldInMemory(m, at, fs, 1);
  }

  // ----- Relocations

  datatype Rela = Rela(target: nat, info: nat, addend: nat)

  /** The source's `RelA`, in the order of its fields. */
  function RelaItems(r: Rela): seq<Item> {
    [Item(r.target, 8), Item(r.info, 8), Item(r.addend, 8)]
  }

  lemma RelaRead(m: Bytes, at: nat, r: Rela)
    requires ItemsFit(RelaItems(r)) && HoldsAt(m, at, Layout(RelaItems(r)))
    ensures at + 24 <= |m| && RelaAt(m, at) == r
  {
    hide Field, Layout;
    var fs := RelaItems(r);
    assert Offset(fs, 0) == 0 && Offset(fs, 1) == 8 && Offset(fs, 2) == 16 && Offset(fs, 3) == 24;
    FieldInMemory(m, at, fs, 0);
    FieldInMemory(m, at, fs, 1);
    FieldInMemory(m, at, fs, 2);
  }

  function RelaAt(m: Bytes, at: nat): Rela
    requires at + 24 <= |m|
  {
    Rela(Field(m, at, 8), Field(m, at + 8, 8), Field(m, at + 16, 8))
  }

  /** The type is the low 32 bits of the info field. */
  predicate Supported(r: Rela) {
    r.info % 0x1_0000_0000 == R_RELATIVE
  }

  function Relocations(m: Bytes, t: RelaTable): (r: seq<Rela>)
    requires t.address + 24 * t.count <= |m|
    ensures |r| == t.count
  {
    seq(t.count, i requires 0 <= i < t.count => RelaAt(m, t.address + 24 * i))
  }

  /** `addend.wrapping_add(dest)` */
  function Relocated(r: Rela, base: nat): nat {
    (r.addend + base) % WORD64
  }

  lemma RelocatedIsWord(r: Rela, base: nat)
    ensures Relocated(r, base) < WORD64
  {}

  function Splice(m: Bytes, at: nat, s: Bytes): (r: Bytes)
    requires at + |s| <= |m|
    ensures |r| == |m|
    ensures forall x :: 0 <= x < |m| ==> r[x] == if at <= x < at + |s| then s[x - at] else m[x]
  {
    m[..at] + s + m[at + |s|..]
  }

  ghost predicate TargetsFit(rs: seq<Rela>, length: nat) {
    forall i :: 0 <= i < |rs| ==> rs[i].target + 8 <= length
  }

  /** Memory after applying relocations in order. */
  function Apply(m: Bytes, rs: seq<Rela>, base: nat): (r: Bytes)
    requires TargetsFit(rs, |m|)
    ensures |r| == |m|
    decreases |rs|
  {
    if rs == [] then m
    else
      var last := rs[|rs| - 1];
      Splice(Apply(m, rs[..|rs| - 1], base), last.target, ToLE(Relocated(last, base), 8))
  }

  predicate Covers(r: Rela, x: nat) {
    r.target <= x < r.target + 8
  }

  /** The last relocation whose word holds byte x. */
  ghost predicate LastCovering(rs: seq<Rela>, j: nat, x: nat) {
    j < |rs| && Covers(rs[j], x) && forall i :: j < i < |rs| ==> !Covers(rs[i], x)
  }

  ghost predicate Untouched(rs: seq<Rela>, x: nat) {
    forall i :: 0 <= i < |rs| ==> !Covers(rs[i], x)
  }

  lemma ApplyLast(m: Bytes, rs: seq<Rela>, base: nat, x: nat)
    requires TargetsFit(rs, |m|) && x < |m| && rs != []
    ensures var k := |rs| - 1;
            Apply(m, rs, base)[x] == if Covers(rs[k], x) then ToLE(Relocated(rs[k], base), 8)[x - rs[k].target]
                                     else Apply(m, rs[..k], base)[x]
  {
    hide ToLE, Relocated;
  }

  /** Relocation leaves every byte outside the target words alone. */
  lemma {:induction false} ApplyUntouched(m: Bytes, rs: seq<Rela>, base: nat, x: nat)
    requires TargetsFit(rs, |m|) && x < |m| && Untouched(rs, x)
    ensures Apply(m, rs, base)[x] == m[x]
    decreases |rs|
  {
    if rs != [] {
      ApplyLast(m, rs, base, x);
      ApplyUntouched(m, rs[..|rs| - 1], base, x);
    }
  }

  /** A byte inside target words belongs to the last relocation over it. */
  lemma {:induction false} ApplyCovered(m: Bytes, rs: seq<Rela>, base: nat, x: nat, j: nat)
    requires TargetsFit(rs, |m|) && x < |m| && LastCovering(rs, j, x)
    ensures Apply(m, rs, base)[x] == ToLE(Relocated(rs[j], base), 8)[x - rs[j].target]
    decreases |rs|
  {
    hide ToLE, Relocated, Apply;
    ApplyLast(m, rs, base, x);
    if j < |rs| - 1 {
      assert rs[..|rs| - 1][j] == rs[j];
      ApplyCovered(m, rs[..|rs| - 1], base, x, j);
    }
  }

  /** No later relocation overlaps the word of relocation j. */
  ghost predicate FinalTarget(rs: seq<Rela>, j: nat)
    requires j < |rs|
  {
    forall i, x: nat :: j < i < |rs| && Covers(rs[j], x) ==> !Covers(rs[i], x)
  }

  /** A word that no later relocation overlaps holds base plus addend modulo 2^64. */
  lemma ApplyWord(m: Bytes, rs: seq<Rela>, base: nat, j: nat)
    requires TargetsFit(rs, |m|) && j < |rs|
    requires FinalTarget(rs, j)
    ensures Field(Apply(m, rs, base), rs[j].target, 8) == (rs[j].addend + base) % 0x1_0000_0000_0000_0000
  {
    hide Apply;
    var r := Apply(m, rs, base);
    var t, v := rs[j].target, ToLE(Relocated(rs[j], base), 8);
    forall x | t <= x < t + 8 ensures r[x] == v[x - t] {
      assert Covers(rs[j], x);
      assert LastCovering(rs, j, x);
      ApplyCovered(m, rs, base, x, j);
    }
    assert r[t..t + 8] == v;
    Pow256Of8();
    RelocatedIsWord(rs[j], base);
    LERoundTrip(Relocated(rs[j], base), 8);
  }

  /** Two bases leave bytes outside targets equal and shift every final target word by their difference. */
  lemma BaseShift(m: Bytes, m': Bytes, rs: seq<Rela>, base: nat, base': nat, j: nat)
    requires |m| == |m'| && TargetsFit(rs, |m|)
    requires j < |rs| && FinalTarget(rs, j)
    ensures (Field(Apply(m, rs, base), rs[j].target, 8) + base') % WORD64
            == (Field(Apply(m', rs, base'), rs[j].target, 8) + base) % WORD64
  {
    hide Apply, Field, Covers;
    ApplyWord(m, rs, base, j);
    ApplyWord(m', rs, base', j);
    ShiftedSums(rs[j].addend, base, base');
  }

  lemma ShiftedSums(a: nat, b: nat, c: nat)
    ensures ((a + b) % WORD64 + c) % WORD64 == ((a + c) % WORD64 + b) % WORD64
  {}
}
