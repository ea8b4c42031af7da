/**
  The bootloader's ELF loader: it copies and zero-fills the loadable segments, finds the relocation
  table through the dynamic segment and adds the load address to every relative relocation.
 */
module ElfLoader {
  import opened Common
  import opened ElfImage

  // ----- get_size

  /** End of a segment in 64-bit arithmetic. */
  function WrappedEnd(s: Segment): nat {
    (s.virtAddr + s.virtSize) % WORD64
  }

  /**
    `get_size`: the least size that holds the wrapped ends of the loadable segments. It holds the
    segments themselves if and only if no end reaches 2^64.
   */
  method GetSize(image: Bytes) returns (size: nat)
    requires HeaderReadable(image)
    ensures forall s :: s in Segments(image) && s.kind == 1
                        ==> (s.virtAddr + s.virtSize) % 0x1_0000_0000_0000_0000 <= size
    ensures size == 0 || exists s :: s in Segments(image) && s.kind == 1
                                     && (s.virtAddr + s.virtSize) % 0x1_0000_0000_0000_0000 == size
    ensures (forall s :: s in Segments(image) && s.kind == 1 ==> s.virtAddr + s.virtSize <= size)
            <==> (forall s :: s in Segments(image) && s.kind == 1 ==> s.virtAddr + s.virtSize < WORD64)
  {
    hide Segments;
    size := 0;
    var list := Segments(image);
    for i := 0 to |list|
      invariant size < WORD64
      invariant forall s :: s in list[..i] && s.kind == SEGTYPE_LOAD ==> WrappedEnd(s) <= size
      invariant size == 0 || exists s :: s in list && s.kind == SEGTYPE_LOAD && WrappedEnd(s) == size
    {
      var s := list[i];
      assert s in list;
      if s.kind == SEGTYPE_LOAD {
        var offs := WrappedEnd(s);
        if offs > size {
          size := offs;
        }
      }
    }
    assert list[..|list|] == list;
    forall s | s in list && s.kind == SEGTYPE_LOAD && s.virtAddr + s.virtSize < WORD64
      ensures s.virtAddr + s.virtSize <= size
    {
      assert WrappedEnd(s) == s.virtAddr + s.virtSize;
    }
  }

  // ----- Loading segments

  predicate SegmentFits(s: Segment, image: Bytes, length: nat) {
    s.kind == SEGTYPE_LOAD ==>
      && s.dataOffset + s.dataSize <= |image| && s.dataSize <= s.virtSize && s.virtAddr + s.virtSize <= length
  }

  ghost predicate AllFit(list: seq<Segment>, image: Bytes, length: nat) {
    forall i :: 0 <= i < |list| ==> SegmentFits(list[i], image, length)
  }

  predicate InLoad(s: Segment, x: nat) {
    s.kind == SEGTYPE_LOAD && s.virtAddr <= x < s.virtAddr + s.virtSize
  }

  ghost predicate DisjointLoads(list: seq<Segment>) {
    forall i, j, x :: 0 <= i < j < |list| && InLoad(list[i], x) ==> !InLoad(list[j], x)
  }

  /** File bytes followed by zero padding. */
  function SegmentBytes(s: Segment, image: Bytes): (r: Bytes)
    requires s.kind == SEGTYPE_LOAD && s.dataOffset + s.dataSize <= |image| && s.dataSize <= s.virtSize
    ensures |r| == s.virtSize
  {
    image[s.dataOffset..s.dataOffset + s.dataSize] + seq(s.virtSize - s.dataSize, _ => 0)
  }

  function LoadAll(m: Bytes, list: seq<Segment>, image: Bytes): (r: Bytes)
    requires AllFit(list, image, |m|)
    ensures |r| == |m|
    decreases |list|
  {
    if list == [] then m
    else
      var s := list[|list| - 1];
      var before := LoadAll(m, list[..|list| - 1], image);
      if s.kind == SEGTYPE_LOAD then Splice(before, s.virtAddr, SegmentBytes(s, image)) else before
  }

  lemma LoadLast(m: Bytes, list: seq<Segment>, image: Bytes, x: nat)
    requires AllFit(list, image, |m|) && x < |m| && list != []
    ensures var k := |list| - 1;
            LoadAll(m, list, image)[x] == if InLoad(list[k], x) then SegmentBytes(list[k], image)[x - list[k].virtAddr]
                                          else LoadAll(m, list[..k], image)[x]
  {}

  lemma {:induction false} LoadMissed(m: Bytes, list: seq<Segment>, image: Bytes, x: nat)
    requires AllFit(list, image, |m|) && x < |m|
    requires forall i :: 0 <= i < |list| ==> !InLoad(list[i], x)
    ensures LoadAll(m, list, image)[x] == m[x]
    decreases |list|
  {
    if list != [] {
      LoadLast(m, list, image, x);
      LoadMissed(m, list[..|list| - 1], image, x);
    }
  }

  lemma {:induction false} LoadHit(m: Bytes, list: seq<Segment>, image: Bytes, x: nat, i: nat)
    requires AllFit(list, image, |m|) && DisjointLoads(list) && x < |m|
    requires i < |list| && InLoad(list[i], x)
    ensures LoadAll(m, list, image)[x] == SegmentBytes(list[i], image)[x - list[i].virtAddr]
    decreases |list|
  {
    hide LoadAll, SegmentBytes;
    LoadLast(m, list, image, x);
    if i < |list| - 1 {
      assert list[..|list| - 1][i] == list[i];
      LoadHit(m, list[..|list| - 1], image, x, i);
    }
  }

  /** After loading, a byte of a segment is its file byte or zero padding; other bytes are as before. */
  lemma {:induction false} LoadedByte(m: Bytes, list: seq<Segment>, image: Bytes, x: nat)
    requires AllFit(list, image, |m|) && DisjointLoads(list) && x < |m|
    ensures (forall i :: 0 <= i < |list| ==> !InLoad(list[i], x)) ==> LoadAll(m, list, image)[x] == m[x]
    ensures forall i :: 0 <= i < |list| && InLoad(list[i], x) ==>
              LoadAll(m, list, image)[x] == SegmentBytes(list[i], image)[x - list[i].virtAddr]
  {
    hide LoadAll, SegmentBytes;
    if forall i :: 0 <= i < |list| ==> !InLoad(list[i], x) {
      LoadMissed(m, list, image, x);
    }
    forall i | 0 <= i < |list| && InLoad(list[i], x)
      ensures LoadAll(m, list, image)[x] == SegmentBytes(list[i], image)[x - list[i].virtAddr]
    {
      LoadHit(m, list, image, x, i);
    }
  }

  // ----- The image's promises

  /** Index of the dynamic segment, or the number of segments. */
  function DynamicIndex(list: seq<Segment>): (r: nat)
    ensures r <= |list| && (r < |list| ==> list[r].kind == SEGTYPE_DYNAMIC)
    ensures forall i :: 0 <= i < r ==> list[i].kind != SEGTYPE_DYNAMIC
  {
    if list == [] || list[0].kind == SEGTYPE_DYNAMIC then 0 else 1 + DynamicIndex(list[1..])
  }

  /** Loadable segments fit, do not overlap and all come before the only dynamic segment. */
  ghost predicate SegmentsOk(list: seq<Segment>, image: Bytes, length: nat) {
    && AllFit(list, image, length) && DisjointLoads(list)
    && forall i :: DynamicIndex(list) < i < |list| ==>
         list[i].kind != SEGTYPE_LOAD && list[i].kind != SEGTYPE_DYNAMIC
  }

  /** No relocation writes into the relocation table. */
  ghost predicate ClearOf(rs: seq<Rela>, t: RelaTable) {
    forall i, x: nat :: 0 <= i < |rs| && Covers(rs[i], x) ==> !(t.address <= x < t.address + 24 * t.count)
  }

  /** In loaded memory the dynamic table ends, the relocation table fits, and no relocation writes to it. */
  ghost predicate TablesOk(m: Bytes, dynamic: nat) {
    Terminated(m, dynamic) &&
    var t := ScanDynamic(m, dynamic, RelaTable(0, 0));
    t.address + 24 * t.count <= |m| &&
    var rs := Relocations(m, t);
    TargetsFit(rs, |m|) && ClearOf(rs, t)
  }

  ghost predicate ImageOk(image: Bytes, m: Bytes) {
    HeaderReadable(image) && SegmentsOk(Segments(image), image, |m|) &&
    var list := Segments(image);
    DynamicIndex(list) < |list| ==> TablesOk(LoadAll(m, list, image), list[DynamicIndex(list)].virtAddr)
  }

  /** The relocations `prepare` will apply. */
  ghost function ImageRelocations(image: Bytes, m: Bytes): seq<Rela>
    requires ImageOk(image, m)
  {
    var list := Segments(image);
    if DynamicIndex(list) == |list| then []
    else
      var loaded := LoadAll(m, list, image);
      Relocations(loaded, ScanDynamic(loaded, list[DynamicIndex(list)].virtAddr, RelaTable(0, 0)))
  }

  // ----- prepare as a run over the segments

  /**
    How a run ends: with the buffer, at an unsupported relocation with the buffer so far, or at an
    access outside the image or the buffer, where the source has no meaning.
   */
  datatype Outcome = Ready(memory: Bytes) | Unsupported(memory: Bytes) | Wild

  /**
    The relocation loop, record by record, each read from memory as it is by then: target at offset
    0, type in the four bytes at offset 8, addend at offset 16.
   */
  ghost function RunRelocations(m: Bytes, at: nat, count: nat, base: nat): Outcome
    decreases count
  {
    if count == 0 then Ready(m)
    else if at + 24 > |m| then Wild
    else if Field(m, at + 8, 4) != 8 then Unsupported(m)
    else if Field(m, at, 8) + 8 > |m| then Wild
    else
      var word := (Field(m, at + 16, 8) + base) % 0x1_0000_0000_0000_0000;
      RunRelocations(Splice(m, Field(m, at, 8), ToLE(word, 8)), at + 24, count - 1, base)
  }

  /** The record as the loader reads it. */
  lemma RecordFields(m: Bytes, at: nat, base: nat)
    requires at + 24 <= |m|
    ensures RelaAt(m, at).target == Field(m, at, 8)
    ensures Supported(RelaAt(m, at)) <==> Field(m, at + 8, 4) == 8
    ensures Relocated(RelaAt(m, at), base) == (Field(m, at + 16, 8) + base) % 0x1_0000_0000_0000_0000
  {
    hide Field;
    LowHalfOfField(m, at + 8);
  }

  /** One record of the loop. */
  lemma RunRecord(m: Bytes, at: nat, count: nat, base: nat)
    requires count > 0 && !RunRelocations(m, at, count, base).Wild?
    ensures at + 24 <= |m|
    ensures var r, o := RelaAt(m, at), RunRelocations(m, at, count, base);
            if !Supported(r) then o == Unsupported(m)
            else && r.target + 8 <= |m|
                 && o == RunRelocations(Splice(m, r.target, ToLE(Relocated(r, base), 8)), at + 24, count - 1, base)
  {
    hide Field, ToLE, RelaAt, Supported, Relocated;
    if at + 24 <= |m| { RecordFields(m, at, base); }
  }

  lemma NoRecord(m: Bytes, at: nat, base: nat)
    ensures RunRelocations(m, at, 0, base) == Ready(m)
  {}

  /** One program header. */
  ghost function RunSegment(m: Bytes, s: Segment, image: Bytes, base: nat): Outcome {
    if s.kind == 1 then
      if SegmentFits(s, image, |m|) then Ready(Splice(m, s.virtAddr, SegmentBytes(s, image))) else Wild
    else if s.kind == 2 then
      if Terminated(m, s.virtAddr) then
        var t := ScanDynamic(m, s.virtAddr, RelaTable(0, 0));
        RunRelocations(m, t.address, t.count, base)
      else Wild
    else Ready(m)
  }

  /**
    A dynamic segment applies as many records as the last tag 8 names bytes for, 24 each, from the
    address of the last tag 7; without a tag 8 it applies none.
   */
  lemma DynamicMeans(m: Bytes, s: Segment, image: Bytes, base: nat, i: nat, j: nat)
    requires s.kind == 2 && Terminated(m, s.virtAddr)
    ensures var es, o := DynamicEntries(m, s.virtAddr), RunSegment(m, s, image, base);
            && (Absent(es, 8) ==> o == Ready(m))
            && (LastWithTag(es, 7, i) && LastWithTag(es, 8, j) ==>
                  o == RunRelocations(m, es[i].value, es[j].value / 24, base))
            && (Absent(es, 7) && LastWithTag(es, 8, j) ==> o == RunRelocations(m, 0, es[j].value / 24, base))
  {
    hide Absent, LastWithTag, DynamicEntries, ScanDynamic, Terminated, Field;
    ScanFindsLast(m, s.virtAddr, RelaTable(0, 0), i);
    ScanFindsLast(m, s.virtAddr, RelaTable(0, 0), j);
  }

  /** Program headers in file order, whatever that order is. */
  ghost function RunSegments(m: Bytes, list: seq<Segment>, image: Bytes, base: nat): Outcome
    decreases |list|
  {
    if list == [] then Ready(m)
    else
      match RunSegments(m, list[..|list| - 1], image, base)
      case Ready(m1) => RunSegment(m1, list[|list| - 1], image, base)
      case Unsupported(m1) => Unsupported(m1)
      case Wild => Wild
  }

  /** Once a run has ended early, the segments that follow do not matter. */
  lemma {:induction false} OutcomeStays(m: Bytes, list: seq<Segment>, image: Bytes, base: nat, i: nat)
    requires i <= |list|
    ensures var o := RunSegments(m, list[..i], image, base);
            !o.Ready? ==> RunSegments(m, list, image, base) == o
    decreases |list| - i
  {
    hide RunSegment;
    if i == |list| {
      assert list[..i] == list;
    } else {
      assert list[..i + 1][..i] == list[..i];
      OutcomeStays(m, list, image, base, i + 1);
    }
  }

  /** Records of the table stay readable while targets stay clear of it. */
  lemma TableIntact(m: Bytes, t: RelaTable, base: nat, i: nat)
    requires t.address + 24 * t.count <= |m| && i < t.count
    requires var rs := Relocations(m, t);
             TargetsFit(rs, |m|) && ClearOf(rs, t)
    ensures TargetsFit(Relocations(m, t)[..i], |m|)
    ensures RelaAt(Apply(m, Relocations(m, t)[..i], base), t.address + 24 * i) == Relocations(m, t)[i]
  {
    hide Apply, FromLE;
    var rs := Relocations(m, t)[..i];
    var m', at := Apply(m, rs, base), t.address + 24 * i;
    forall x | at <= x < at + 24 ensures m'[x] == m[x] {
      assert Untouched(rs, x);
      ApplyUntouched(m, rs, base, x);
    }
    assert m'[at..at + 8] == m[at..at + 8];
    assert m'[at + 8..at + 8 + 8] == m[at + 8..at + 8 + 8];
    assert m'[at + 16..at + 16 + 8] == m[at + 16..at + 16 + 8];
  }

  ghost predicate AllSupported(rs: seq<Rela>) {
    forall j :: 0 <= j < |rs| ==> Supported(rs[j])
  }

  /** With targets clear of the table, the loop applies the relocations the table held at the start. */
  lemma {:induction false} RelocationsApply(m: Bytes, t: RelaTable, base: nat, i: nat)
    requires t.address + 24 * t.count <= |m| && i <= t.count
    requires var rs := Relocations(m, t);
             TargetsFit(rs, |m|) && ClearOf(rs, t) && AllSupported(rs[..i])
    ensures var rs := Relocations(m, t);
            && TargetsFit(rs[..i], |m|)
            && var o := RunRelocations(Apply(m, rs[..i], base), t.address + 24 * i, t.count - i, base);
               !o.Wild? && (o.Ready? <==> AllSupported(rs)) && (o.Ready? ==> o.memory == Apply(m, rs, base))
    decreases t.count - i
  {
    hide ToLE, FromLE, Field, Relocated, ClearOf, Relocations;
    var rs := Relocations(m, t);
    if i == t.count {
      assert rs[..i] == rs;
    } else {
      TableIntact(m, t, base, i);
      RecordFields(Apply(m, rs[..i], base), t.address + 24 * i, base);
      assert rs[..i + 1][..i] == rs[..i];
      if Supported(rs[i]) { RelocationsApply(m, t, base, i + 1); }
    }
  }

  /** Before the dynamic segment, a run has loaded the segments so far. */
  lemma {:induction false} LoadingRun(m: Bytes, list: seq<Segment>, image: Bytes, base: nat, i: nat)
    requires AllFit(list, image, |m|) && i <= DynamicIndex(list)
    ensures RunSegments(m, list[..i], image, base) == Ready(LoadAll(m, list[..i], image))
  {
    hide SegmentBytes;
    if i > 0 {
      LoadingRun(m, list, image, base, i - 1);
      assert list[..i][..i - 1] == list[..i - 1];
    }
  }

  /** After it, nothing happens. */
  lemma {:induction false} QuietRun(m: Bytes, list: seq<Segment>, image: Bytes, base: nat, i: nat)
    requires SegmentsOk(list, image, |m|) && DynamicIndex(list) < i <= |list|
    ensures RunSegments(m, list, image, base) == RunSegments(m, list[..i], image, base)
    decreases |list| - i
  {
    if i == |list| {
      assert list[..i] == list;
    } else {
      QuietRun(m, list, image, base, i + 1);
      assert list[..i + 1][..i] == list[..i];
    }
  }

  /**
    For an image that keeps the usual promises, `prepare` panics if and only if a relocation is
    unsupported, and otherwise leaves the prepared image.
   */
  lemma PrepareMeans(image: Bytes, m: Bytes, base: nat)
    requires ImageOk(image, m)
    ensures var o := RunSegments(m, Segments(image), image, base);
            && !o.Wild? && (o.Ready? <==> AllSupported(ImageRelocations(image, m)))
            && (o.Ready? ==> o.memory == Prepared(image, m, base))
  {
    hide Apply, Segments, Terminated, ScanDynamic, RunRelocations, LoadAll, Relocations, ClearOf, AllSupported;
    var list := Segments(image);
    var d := DynamicIndex(list);
    LoadingRun(m, list, image, base, d);
    LoadAllPrefix(m, list, image, d);
    if d == |list| {
      assert list[..d] == list;
      NothingToRelocate(LoadAll(m, list, image), base);
    } else {
      QuietRun(m, list, image, base, d + 1);
      assert list[..d + 1][..d] == list[..d];
      var loaded := LoadAll(m, list, image);
      var t := ScanDynamic(loaded, list[d].virtAddr, RelaTable(0, 0));
      NothingToRelocate(loaded, base);
      assert Relocations(loaded, t)[..0] == [];
      RelocationsApply(loaded, t, base, 0);
    }
  }

  lemma NothingToRelocate(m: Bytes, base: nat)
    ensures TargetsFit([], |m|) && Apply(m, [], base) == m && AllSupported([])
  {}

  /** Segments after the last loadable one add nothing. */
  lemma LoadAllPrefix(m: Bytes, list: seq<Segment>, image: Bytes, i: nat)
    requires AllFit(list, image, |m|) && i <= |list|
    requires forall j :: i <= j < |list| ==> list[j].kind != SEGTYPE_LOAD
    ensures AllFit(list[..i], image, |m|)
    ensures LoadAll(m, list, image) == LoadAll(m, list[..i], image)
    decreases |list| - i
  {
    if i == |list| {
      assert list[..i] == list;
    } else {
      LoadAllPrefix(m, list, image, i + 1);
      assert list[..i + 1][..i] == list[..i];
    }
  }

  // ----- prepare

  /** Copy the file bytes of a segment and zero its padding. */
  method LoadSegment(image: Bytes, dest: array<byte>, s: Segment)
    requires s.kind == SEGTYPE_LOAD && SegmentFits(s, image, dest.Length)
    modifies dest
    ensures dest[..] == Splice(old(dest[..]), s.virtAddr, SegmentBytes(s, image))
  {
    for i := 0 to s.dataSize
      invariant forall x :: 0 <= x < dest.Length ==>
                  dest[x] == if s.virtAddr <= x < s.virtAddr + i then image[s.dataOffset + (x - s.virtAddr)]
                             else old(dest[x])
    {
      dest[s.virtAddr + i] := image[s.dataOffset + i];
    }
    for i := s.dataSize to s.virtSize
      invariant forall x :: 0 <= x < dest.Length ==>
                  dest[x] == if s.virtAddr <= x < s.virtAddr + s.dataSize then image[s.dataOffset + (x - s.virtAddr)]
                             else if s.virtAddr <= x < s.virtAddr + i then 0
                             else old(dest[x])
    {
      dest[s.virtAddr + i] := 0;
    }
  }

  /** The loop over the dynamic table. */
  method FindRelocations(dest: array<byte>, at: nat) returns (t: RelaTable)
    requires Terminated(dest[..], at)
    ensures t == ScanDynamic(dest[..], at, RelaTable(0, 0))
  {
    t := RelaTable(0, 0);
    var entry := at;
    ghost var m := dest[..];
    while Field(dest[..], entry, 8) != 0
      invariant dest[..] == m && Terminated(m, entry)
      invariant ScanDynamic(m, entry, t) == ScanDynamic(m, at, RelaTable(0, 0))
      decreases |m| - entry
    {
      t := NextTable(dest[..], entry, t);
      entry := entry + 16;
    }
  }

  /** Store an 8-byte word. */
  method StoreWord(dest: array<byte>, at: nat, v: nat)
    requires at + 8 <= dest.Length
    modifies dest
    ensures dest[..] == Splice(old(dest[..]), at, ToLE(v, 8))
  {
    hide ToLE;
    var s := ToLE(v, 8);
    for i := 0 to 8
      invariant forall x :: 0 <= x < dest.Length ==>
                  dest[x] == if at <= x < at + i then s[x - at] else old(dest[x])
    {
      dest[at + i] := s[i];
    }
  }

  /** The loop over the relocation table; false is the panic on an unsupported type. */
  method Relocate(dest: array<byte>, t: RelaTable, base: nat) returns (ok: bool)
    requires !RunRelocations(dest[..], t.address, t.count, base).Wild?
    modifies dest
    ensures RunRelocations(old(dest[..]), t.address, t.count, base)
            == if ok then Ready(dest[..]) else Unsupported(dest[..])
  {
    hide RunRelocations, RelaAt, Supported, Relocated, ToLE;
    ghost var m := dest[..];
    var entry := t.address;
    for i := 0 to t.count
      invariant RunRelocations(dest[..], entry, t.count - i, base) == RunRelocations(m, t.address, t.count, base)
    {
      RunRecord(dest[..], entry, t.count - i, base);
      var rela := RelaAt(dest[..], entry);
      if !Supported(rela) {
        return false;
      }
      StoreWord(dest, rela.target, Relocated(rela, base));
      entry := entry + 24;
    }
    NoRecord(dest[..], entry, base);
    ok := true;
  }

  /** `prepare`; None is the panic on an unsupported relocation, which keeps what was written before it. */
  method Prepare(image: Bytes, dest: array<byte>, base: nat) returns (r: Option<nat>)
    requires HeaderReadable(image) && !RunSegments(dest[..], Segments(image), image, base).Wild?
    modifies dest
    ensures RunSegments(old(dest[..]), Segments(image), image, base)
            == if r.Some? then Ready(dest[..]) else Unsupported(dest[..])
    ensures r.Some? ==> r.value == (base + EntryPoint(image)) % WORD64
  {
    hide RunRelocations, Field, Terminated, ScanDynamic, Segments, SegmentBytes;
    ghost var m := dest[..];
    var list := Segments(image);
    for i := 0 to |list|
      invariant RunSegments(m, list[..i], image, base) == Ready(dest[..])
    {
      var s := list[i];
      assert list[..i + 1][..i] == list[..i];
      OutcomeStays(m, list, image, base, i + 1);
      if s.kind == SEGTYPE_LOAD {
        LoadSegment(image, dest, s);
      } else if s.kind == SEGTYPE_DYNAMIC {
        var t := FindRelocations(dest, s.virtAddr);
        var ok := Relocate(dest, t, base);
        if !ok {
          return None;
        }
      }
    }
    assert list[..|list|] == list;
    r := Some((base + EntryPoint(image)) % WORD64);
  }

  // ----- What a prepared image holds

  ghost function Prepared(image: Bytes, m: Bytes, base: nat): (r: Bytes)
    requires ImageOk(image, m)
    ensures |r| == |m|
  {
    RelocationsFit(image, m);
    Apply(LoadAll(m, Segments(image), image), ImageRelocations(image, m), base)
  }

  lemma RelocationsFit(image: Bytes, m: Bytes)
    requires ImageOk(image, m)
    ensures TargetsFit(ImageRelocations(image, m), |m|)
  {}

  ghost predicate InSomeLoad(list: seq<Segment>, x: nat) {
    exists i :: 0 <= i < |list| && InLoad(list[i], x)
  }

  /**
    Every byte of the prepared image: part of a relocated word, else the file byte of its segment,
    else zero padding, else what the buffer held.
   */
  lemma PreparedByte(image: Bytes, m: Bytes, base: nat, x: nat)
    requires ImageOk(image, m) && x < |m|
    ensures var list, rs := Segments(image), ImageRelocations(image, m);
            && (forall j :: 0 <= j < |rs| && LastCovering(rs, j, x) ==>
                  Prepared(image, m, base)[x]
                  == ToLE((rs[j].addend + base) % 0x1_0000_0000_0000_0000, 8)[x - rs[j].target])
            && (Untouched(rs, x) ==>
                  && (!InSomeLoad(list, x) ==> Prepared(image, m, base)[x] == m[x])
                  && (forall i :: 0 <= i < |list| && InLoad(list[i], x) ==>
                        Prepared(image, m, base)[x]
                        == if x - list[i].virtAddr < list[i].dataSize
                           then image[list[i].dataOffset + (x - list[i].virtAddr)] else 0))
  {
    hide ToLE, ScanDynamic, Apply, LoadAll, Segments;
    var list, rs := Segments(image), ImageRelocations(image, m);
    var loaded := LoadAll(m, list, image);
    RelocationsFit(image, m);
    LoadedByte(m, list, image, x);
    forall j | 0 <= j < |rs| && LastCovering(rs, j, x)
      ensures Prepared(image, m, base)[x] == ToLE((rs[j].addend + base) % 0x1_0000_0000_0000_0000, 8)[x - rs[j].target]
    {
      ApplyCovered(loaded, rs, base, x, j);
    }
    if Untouched(rs, x) { ApplyUntouched(loaded, rs, base, x); }
  }

  /** Where the relocation table of a loaded image lies. */
  ghost function ImageTable(image: Bytes, m: Bytes): RelaTable
    requires ImageOk(image, m) && DynamicIndex(Segments(image)) < |Segments(image)|
  {
    var list := Segments(image);
    ScanDynamic(LoadAll(m, list, image), list[DynamicIndex(list)].virtAddr, RelaTable(0, 0))
  }

  /**
    Read back from the prepared image, the target word of record j holds the record's addend plus
    the base modulo 2^64, unless a later record overlaps it.
   */
  lemma PreparedWord(image: Bytes, m: Bytes, base: nat, j: nat)
    requires ImageOk(image, m) && DynamicIndex(Segments(image)) < |Segments(image)|
    requires j < |ImageRelocations(image, m)| && FinalTarget(ImageRelocations(image, m), j)
    ensures var loaded, at := LoadAll(m, Segments(image), image), ImageTable(image, m).address + 24 * j;
            && at + 24 <= |loaded| && Field(loaded, at, 8) + 8 <= |m|
            && Field(Prepared(image, m, base), Field(loaded, at, 8), 8)
               == (Field(loaded, at + 16, 8) + base) % 0x1_0000_0000_0000_0000
  {
    hide Field, Apply, LoadAll, Segments, ScanDynamic, Terminated, FinalTarget;
    var list := Segments(image);
    var loaded, rs := LoadAll(m, list, image), ImageRelocations(image, m);
    RelocationsFit(image, m);
    ApplyWord(loaded, rs, base, j);
    assert rs[j] == RelaAt(loaded, ImageTable(image, m).address + 24 * j);
  }

  // ----- Independence from the base

  /** The dynamic table at `at` lies in loaded bytes up to its terminator. */
  ghost predicate DynamicLoaded(m: Bytes, at: nat, list: seq<Segment>)
    requires Terminated(m, at)
    decreases |m| - at
  {
    && (forall x :: at <= x < at + 16 ==> InSomeLoad(list, x))
    && (Field(m, at, 8) == 0 || DynamicLoaded(m, at + 16, list))
  }

  ghost predicate TablesLoaded(image: Bytes, m: Bytes)
    requires ImageOk(image, m)
  {
    var list, loaded := Segments(image), LoadAll(m, Segments(image), image);
    DynamicIndex(list) < |list| ==>
      var at := list[DynamicIndex(list)].virtAddr;
      var t := ScanDynamic(loaded, at, RelaTable(0, 0));
      && DynamicLoaded(loaded, at, list)
      && forall x :: t.address <= x < t.address + 24 * t.count ==> InSomeLoad(list, x)
  }

  ghost predicate AgreeOnLoads(m: Bytes, m': Bytes, list: seq<Segment>) {
    |m| == |m'| && forall x :: 0 <= x < |m| && InSomeLoad(list, x) ==> m[x] == m'[x]
  }

  lemma FieldAgrees(m: Bytes, m': Bytes, list: seq<Segment>, at: nat, n: nat)
    requires AgreeOnLoads(m, m', list) && at + n <= |m|
    requires forall x :: at <= x < at + n ==> InSomeLoad(list, x)
    ensures Field(m, at, n) == Field(m', at, n)
  {
    assert m[at..at + n] == m'[at..at + n];
  }

  lemma {:induction false} ScanAgrees(m: Bytes, m': Bytes, list: seq<Segment>, at: nat, t: RelaTable)
    requires AgreeOnLoads(m, m', list) && Terminated(m, at) && DynamicLoaded(m, at, list)
    ensures Terminated(m', at) && ScanDynamic(m, at, t) == ScanDynamic(m', at, t)
    decreases |m| - at
  {
    hide Field;
    FieldAgrees(m, m', list, at, 8);
    FieldAgrees(m, m', list, at + 8, 8);
    if Field(m, at, 8) != 0 {
      ScanAgrees(m, m', list, at + 16, NextTable(m, at, t));
    }
  }

  lemma LoadsAgree(m: Bytes, m': Bytes, list: seq<Segment>, image: Bytes)
    requires |m| == |m'| && AllFit(list, image, |m|) && DisjointLoads(list)
    ensures AgreeOnLoads(LoadAll(m, list, image), LoadAll(m', list, image), list)
  {}

  lemma RelocationsAgree(m: Bytes, m': Bytes, list: seq<Segment>, t: RelaTable)
    requires AgreeOnLoads(m, m', list) && t.address + 24 * t.count <= |m|
    requires forall x :: t.address <= x < t.address + 24 * t.count ==> InSomeLoad(list, x)
    ensures Relocations(m, t) == Relocations(m', t)
  {
    hide Field;
    forall i | 0 <= i < t.count ensures RelaAt(m, t.address + 24 * i) == RelaAt(m', t.address + 24 * i) {
      var at := t.address + 24 * i;
      FieldAgrees(m, m', list, at, 8);
      FieldAgrees(m, m', list, at + 8, 8);
      FieldAgrees(m, m', list, at + 16, 8);
    }
  }

  /** The relocations depend on the image alone. */
  lemma SameRelocations(image: Bytes, m: Bytes, m': Bytes)
    requires |m| == |m'| && ImageOk(image, m) && ImageOk(image, m') && TablesLoaded(image, m)
    ensures ImageRelocations(image, m) == ImageRelocations(image, m')
  {
    hide LoadAll, Segments, Terminated, ScanDynamic, DynamicLoaded, Relocations;
    var list := Segments(image);
    LoadsAgree(m, m', list, image);
    if DynamicIndex(list) < |list| {
      var at := list[DynamicIndex(list)].virtAddr;
      var loaded, loaded' := LoadAll(m, list, image), LoadAll(m', list, image);
      ScanAgrees(loaded, loaded', list, at, RelaTable(0, 0));
      RelocationsAgree(loaded, loaded', list, ScanDynamic(loaded, at, RelaTable(0, 0)));
    }
  }

  /**
    One image prepared at two bases, in buffers with any earlier contents: outside relocation targets
    loaded bytes agree, and other bytes wherever the buffers agreed; final target words and entry
    points differ by the base difference modulo 2^64.
   */
  lemma BaseIndependent(image: Bytes, m: Bytes, m': Bytes, base: nat, base': nat)
    requires |m| == |m'| && ImageOk(image, m) && ImageOk(image, m') && TablesLoaded(image, m)
    ensures var list, rs := Segments(image), ImageRelocations(image, m);
            && ImageRelocations(image, m') == rs && TargetsFit(rs, |m|)
            && (forall x :: 0 <= x < |m| && (InSomeLoad(list, x) || m[x] == m'[x]) && Untouched(rs, x) ==>
                  Prepared(image, m, base)[x] == Prepared(image, m', base')[x])
            && (forall j :: 0 <= j < |rs| && FinalTarget(rs, j) ==>
                  (Field(Prepared(image, m, base), rs[j].target, 8) + base') % WORD64
                  == (Field(Prepared(image, m', base'), rs[j].target, 8) + base) % WORD64)
    ensures ((base + EntryPoint(image)) % WORD64 + base') % WORD64
            == ((base' + EntryPoint(image)) % WORD64 + base) % WORD64
  {
    hide LoadAll, Segments, ImageRelocations, Apply, Field, ImageOk;
    OkParts(image, m);
    var list, rs := Segments(image), ImageRelocations(image, m);
    SameRelocations(image, m, m');
    RelocationsFit(image, m);
    LoadsAgree(m, m', list, image);
    var loaded, loaded' := LoadAll(m, list, image), LoadAll(m', list, image);
    forall x | 0 <= x < |m| && (InSomeLoad(list, x) || m[x] == m'[x]) && Untouched(rs, x)
      ensures Prepared(image, m, base)[x] == Prepared(image, m', base')[x]
    {
      if !InSomeLoad(list, x) {
        LoadMissed(m, list, image, x);
        LoadMissed(m', list, image, x);
      }
      ApplyUntouched(loaded, rs, base, x);
      ApplyUntouched(loaded', rs, base', x);
    }
    forall j | 0 <= j < |rs| && FinalTarget(rs, j)
      ensures (Field(Prepared(image, m, base), rs[j].target, 8) + base') % WORD64
              == (Field(Prepared(image, m', base'), rs[j].target, 8) + base) % WORD64
    {
      BaseShift(loaded, loaded', rs, base, base', j);
    }
    ShiftedSums(EntryPoint(image), base, base');
  }

  lemma OkParts(image: Bytes, m: Bytes)
    requires ImageOk(image, m)
    ensures HeaderReadable(image) && AllFit(Segments(image), image, |m|) && DisjointLoads(Segments(image))
  {}
}
