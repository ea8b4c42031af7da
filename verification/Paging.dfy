/**
  The bootloader's paging object: it finds the highest physical address, fills the tables and keeps
  the base of high memory, from which high addresses are formed with `|`. The kernel later drops the
  low half. The `|` reaches the mirror for every mapped address exactly when the number of PML4
  entries is a power of two.
 */
module Paging {
  import opened Bits
  import opened PageTables

  /** HIGH_MEM_BASE of the bootloader. */
  function HighMemBase(entries: nat): nat
    requires entries <= 512
  {
    Or(0xFFFF_0000_0000_0000, (512 - entries) * GB512)
  }

  /** `ptr_to_kernelspace` and `phys_to_virt` */
  function PhysToVirt(high: nat, phys: nat): nat { Or(phys, high) }

  /** `virt_to_phys` */
  function VirtToPhys(high: nat, virt: nat): nat { AndNot(virt, high) }

  datatype Descriptor = Descriptor(physStart: nat, pageCount: nat)

  datatype PagingInfo = PagingInfo(pageBuffer: nat, pdpPages: nat, pdPages: nat, pml4Entries: nat)

  /** The scan for the highest physical address. */
  method HighestAddress(mmap: seq<Descriptor>) returns (size: nat)
    ensures forall e :: e in mmap ==> e.physStart + e.pageCount * 4096 <= size
    ensures size == 0 || exists e :: e in mmap && size == e.physStart + e.pageCount * 4096
  {
    size := 0;
    for i := 0 to |mmap|
      invariant forall e :: e in mmap[..i] ==> e.physStart + e.pageCount * 4096 <= size
      invariant size == 0 || exists e :: e in mmap && size == e.physStart + e.pageCount * 4096
    {
      var end := mmap[i].physStart + mmap[i].pageCount * PAGE;
      assert mmap[i] in mmap;
      if end > size {
        size := end;
      }
    }
  }

  /** The loop over PML4 entries, each written to its slot and to its mirror slot. */
  method FillPml4(pageBuffer: array<nat>, base: nat, size: nat)
    requires BufferFits(pageBuffer.Length, base, size)
    modifies pageBuffer
    ensures Pml4Filled(pageBuffer[..], base, size, Pml4Entries(size))
    ensures forall w :: 0 <= w < pageBuffer.Length && !(w < Pml4Entries(size) || 512 - Pml4Entries(size) <= w < 512)
                        ==> pageBuffer[w] == old(pageBuffer[w])
  {
    hide And, Or, Bit, TableEntry;
    TableLayout(size);
    var entries := Pml4Entries(size);
    for i := 0 to entries
      invariant forall j :: 0 <= j < i ==> pageBuffer[j] == TableEntry(PdpTable(base, j))
      invariant forall j :: 0 <= j < i ==> pageBuffer[512 - entries + j] == TableEntry(PdpTable(base, j))
      invariant forall w :: 0 <= w < pageBuffer.Length && !(w < entries || 512 - entries <= w < 512)
                            ==> pageBuffer[w] == old(pageBuffer[w])
    {
      var address := i * PAGE + PagesFor(entries) * PAGE + base;
      TableEntryFields(address);
      assert And(address, ADDR_MASK) == address == PdpTable(base, i);
      pageBuffer[i] := TableEntry(address);
      pageBuffer[512 - entries + i] := TableEntry(address);
    }
  }

  /** The loop over PDP entries. */
  method FillPdp(pageBuffer: array<nat>, base: nat, size: nat)
    requires BufferFits(pageBuffer.Length, base, size)
    modifies pageBuffer
    ensures PdpFilled(pageBuffer[..], base, size, PdpEntries(size))
    ensures forall w :: 0 <= w < pageBuffer.Length && !(512 <= w < 512 + PdpEntries(size))
                        ==> pageBuffer[w] == old(pageBuffer[w])
  {
    hide And, Or, Bit;
    TableLayout(size);
    var pml4Pages, pdpPages := PagesFor(Pml4Entries(size)), PagesFor(PdpEntries(size));
    for i := 0 to PdpEntries(size)
      invariant PdpFilled(pageBuffer[..], base, size, i)
      invariant forall w :: 0 <= w < pageBuffer.Length && !(512 <= w < 512 + PdpEntries(size))
                            ==> pageBuffer[w] == old(pageBuffer[w])
    {
      var address := i * PAGE + pml4Pages * PAGE + pdpPages * PAGE + base;
      TableEntryFields(address);
      assert And(address, ADDR_MASK) == address;
      pageBuffer[pml4Pages * 512 + i] := TableEntry(address);
    }
  }

  /** The loop over page directory entries. */
  method FillPd(pageBuffer: array<nat>, base: nat, size: nat)
    requires BufferFits(pageBuffer.Length, base, size)
    modifies pageBuffer
    ensures PdFilled(pageBuffer[..], size, PdEntries(size))
    ensures forall w :: 0 <= w < pageBuffer.Length
                        && !(512 + 512 * Pml4Entries(size) <= w < 512 + 512 * Pml4Entries(size) + PdEntries(size))
                        ==> pageBuffer[w] == old(pageBuffer[w])
  {
    hide And, Or, Bit;
    TableLayout(size);
    var first := PagesFor(Pml4Entries(size)) * 512 + PagesFor(PdpEntries(size)) * 512;
    for i := 0 to PdEntries(size)
      invariant PdFilled(pageBuffer[..], size, i)
      invariant forall w :: 0 <= w < pageBuffer.Length && !(first <= w < first + PdEntries(size))
                            ==> pageBuffer[w] == old(pageBuffer[w])
    {
      PageEntryFields(i);
      assert And(i * MB2, MB_ADDR_MASK) == i * MB2;
      pageBuffer[first + i] := PageEntry(i * MB2);
    }
  }

  class Bootloader {
    var highMemBase: nat

    /** `platform::init` over the buffer the firmware allocated at physical address `base`. */
    method Init(pageBuffer: array<nat>, base: nat, physicalSize: nat) returns (info: PagingInfo)
      requires BufferFits(pageBuffer.Length, base, Masked(physicalSize))
      modifies this, pageBuffer
      ensures Filled(pageBuffer[..], base, Masked(physicalSize))
      ensures forall w :: 0 <= w < pageBuffer.Length && !Written(Masked(physicalSize), w)
                          ==> pageBuffer[w] == old(pageBuffer[w])
      ensures info.pml4Entries == Pml4Entries(Masked(physicalSize)) <= 256
      ensures info.pdpPages == info.pml4Entries && info.pdPages == PdpEntries(Masked(physicalSize))
      ensures highMemBase == HighMemBase(info.pml4Entries)
      ensures info.pageBuffer == PhysToVirt(highMemBase, base)
    {
      hide And, Or, Bit;
      var size := Masked(physicalSize);
      TableLayout(size);
      assert PagesFor(Pml4Entries(size)) == 1;
      FillPml4(pageBuffer, base, size);
      FillPdp(pageBuffer, base, size);
      FillPd(pageBuffer, base, size);
      highMemBase := HighMemBase(Pml4Entries(size));
      info := PagingInfo(PhysToVirt(highMemBase, base), PagesFor(PdpEntries(size)), PagesFor(PdEntries(size)),
                         Pml4Entries(size));
    }
  }

  /** `arch::virt_manager::init`: the kernel clears the low-half PML4 entries. */
  method DropLowHalf(pageBuffer: array<nat>, entries: nat)
    requires entries <= pageBuffer.Length
    modifies pageBuffer
    ensures pageBuffer[..] == seq(entries, _ => 0) + old(pageBuffer[entries..])
  {
    for i := 0 to entries
      invariant forall j :: 0 <= j < i ==> pageBuffer[j] == 0
      invariant forall j :: i <= j < pageBuffer.Length ==> pageBuffer[j] == old(pageBuffer[j])
    {
      pageBuffer[i] := 0;
    }
  }

  /** Every low address of the cleared slots then faults, and the mirror is as before. */
  lemma LowHalfDropped(buf: seq<nat>, base: nat, size: nat, p: nat)
    requires Filled(buf, base, size) && p < Pml4Entries(size) * GB512
    ensures Pml4Entries(size) <= 256 <= |buf| && Covered(size) <= Pml4Entries(size) * GB512
    ensures var after := seq(Pml4Entries(size), _ => 0) + buf[Pml4Entries(size)..];
            && Walk(after, base, p) == Fault
            && (p < Covered(size) ==> Walk(after, base, MirrorBase(Pml4Entries(size)) + p) == Mapped(p, true))
  {
    TableLayout(size);
    var e := Pml4Entries(size);
    var after := seq(e, _ => 0) + buf[e..];
    assert p / GB512 < e;
    LowSlots(p);
    ReadAt(after, base, p / GB512);
    ZeroHasNoBits(0);
    if p < Covered(size) { MirrorAfter(buf, after, base, size, p); }
  }

  /** The mirror's PML4 slots and the lower tables survive the clearing. */
  lemma MirrorAfter(buf: seq<nat>, after: seq<nat>, base: nat, size: nat, p: nat)
    requires Filled(buf, base, size) && p < Covered(size) && |after| == |buf|
    requires forall w :: Pml4Entries(size) <= w < |buf| ==> after[w] == buf[w]
    ensures Pml4Entries(size) <= 256
    ensures Walk(after, base, MirrorBase(Pml4Entries(size)) + p) == Mapped(p, true)
  {
    hide And, Or, Bit, ReadWord, WalkPdp;
    TableLayout(size);
    var e := Pml4Entries(size);
    var i, va := p / GB512, MirrorBase(e) + p;
    assert i < e;
    MirrorSlots(e, p);
    var w := 512 - e + i;
    assert after[w] == buf[w] == TableEntry(PdpTable(base, i));
    ReadAt(after, base, w);
    TableEntryFields(PdpTable(base, i));
    assert LowerFilled(after, base, size);
    PdpStep(after, base, size, p, va);
  }

  // ----- Forming high addresses with `|`

  ghost predicate IsPowerOfTwo(n: nat) {
    exists m: nat :: n == Pow2(m)
  }

  lemma HighMemBaseValue(entries: nat)
    requires 1 <= entries <= 256
    ensures HighMemBase(entries) == MirrorBase(entries) == (0x200_0000 - entries) * GB512
  {
    hide Or;
    WidePowers();
    OrShifted(0xFFFF, (512 - entries) * GB512, 48);
  }

  lemma {:induction false} ComplementBit(c: nat, w: nat, i: nat)
    requires c < Pow2(w) && i < w
    ensures Bit(Pow2(w) - 1 - c, i) <==> !Bit(c, i)
    decreases w
  {
    var x := Pow2(w) - 1 - c;
    assert Pow2(w) == 2 * Pow2(w - 1);
    assert x / 2 == Pow2(w - 1) - 1 - c / 2 && x % 2 == 1 - c % 2;
    if i > 0 { ComplementBit(c / 2, w - 1, i - 1); }
  }

  /** A number that is not all ones has a zero bit. */
  lemma {:induction false} FindHole(c: nat, w: nat) returns (i: nat)
    requires c < Pow2(w) - 1
    ensures i < w && !Bit(c, i)
  {
    if c % 2 == 0 {
      i := 0;
    } else {
      i := FindHole(c / 2, w - 1);
      i := i + 1;
    }
  }

  /** `&` of a mapped address with the high base depends on the PML4 index only. */
  lemma HighOverlap(entries: nat, p: nat)
    requires 1 <= entries <= 256
    ensures And(p, HighMemBase(entries)) == And(p / GB512, 0x200_0000 - entries) * GB512
  {
    hide And;
    HighMemBaseValue(entries);
    WidePowers();
    AndShift(p / GB512, p % GB512, 0x200_0000 - entries, 39);
  }

  /** With a power of two entries no index below them shares a bit with the base. */
  lemma NoOverlap(entries: nat, m: nat, q: nat)
    requires entries <= 256 && entries == Pow2(m) && q < entries
    ensures And(q, 0x200_0000 - entries) == 0
  {
    hide And, Pow2;
    WidePowers();
    if m > 25 { Pow2Monotone(25, m); }
    var d := Pow2(25 - m);
    Pow2Add(25 - m, m);
    assert (d - 1) * Pow2(m) == d * Pow2(m) - Pow2(m);
    AndShift(0, q, d - 1, m);
    ZeroAnd(d - 1);
  }

  lemma ZeroAnd(b: nat)
    ensures And(0, b) == 0
  {}

  /** A positive number that is not all ones has a zero bit below its top bit. */
  lemma HoleBelow(c: nat) returns (i: nat)
    requires c > 0 && !IsPowerOfTwo(c + 1)
    ensures Pow2(i) <= c && !Bit(c, i)
  {
    hide Bit;
    var m := Log2(c);
    assert c + 1 != Pow2(m + 1);
    i := FindHole(c, m + 1);
    Pow2Monotone(i, m);
  }

  lemma BelowWidth(i: nat, c: nat)
    requires Pow2(i) <= c < 256
    ensures i < 25
  {
    WidePowers();
    if i >= 25 { Pow2Monotone(25, i); }
  }

  /** Otherwise some power of two below them lies inside the base. */
  lemma Overlap(entries: nat) returns (q: nat)
    requires 1 <= entries <= 256 && !IsPowerOfTwo(entries)
    ensures 0 < q < entries && And(q, 0x200_0000 - entries) == q
  {
    hide And, Bit;
    assert entries != Pow2(0);
    var i := HoleBelow(entries - 1);
    q := Pow2(i);
    BelowWidth(i, entries - 1);
    hide Pow2;
    WidePowers();
    ComplementBit(entries - 1, 25, i);
    AndPow2(0x200_0000 - entries, i);
    AndCommutes(q, 0x200_0000 - entries);
  }

  lemma {:induction false} AndAbsorbs(a: nat, b: nat)
    ensures And(Or(a, b), b) == b
    decreases a + b
  {
    if b != 0 {
      AndAbsorbs(a / 2, b / 2);
      OrOfDoubles(a / 2, a % 2, b / 2, b % 2);
      var x := Digit(a % 2 == 1 || b % 2 == 1);
      AndOfDoubles(Or(a / 2, b / 2), x, b / 2, b % 2);
    }
  }

  /** `|` falls short of addition by the overlap, and `virt_to_phys` loses exactly the overlap. */
  lemma MapArithmetic(high: nat, p: nat)
    ensures PhysToVirt(high, p) == high + p - And(p, high)
    ensures VirtToPhys(high, PhysToVirt(high, p)) == p - And(p, high)
  {
    hide And, Or, AndNot;
    OrAndSum(p, high);
    AndAbsorbs(p, high);
    AndNotSum(Or(p, high), high);
  }

  ghost predicate OrReachesMirror(buf: seq<nat>, base: nat, size: nat)
    requires Pml4Entries(size) <= 256
  {
    forall p: nat :: p < Covered(size) ==>
      Walk(buf, base, PhysToVirt(HighMemBase(Pml4Entries(size)), p)) == Mapped(p, true)
  }

  ghost predicate MapsInvert(size: nat)
    requires Pml4Entries(size) <= 256
  {
    forall p: nat :: p < Covered(size) ==>
      VirtToPhys(HighMemBase(Pml4Entries(size)), PhysToVirt(HighMemBase(Pml4Entries(size)), p)) == p
  }

  ghost predicate MapsInjective(size: nat)
    requires Pml4Entries(size) <= 256
  {
    forall p: nat, q: nat :: p < q < Covered(size) ==>
      PhysToVirt(HighMemBase(Pml4Entries(size)), p) != PhysToVirt(HighMemBase(Pml4Entries(size)), q)
  }

  /** The good case for one address. */
  lemma OrIsAddition(size: nat, p: nat)
    requires size < LOW_HALF && p < Covered(size) && IsPowerOfTwo(Pml4Entries(size))
    ensures Pml4Entries(size) <= 256
    ensures var h := HighMemBase(Pml4Entries(size));
            && PhysToVirt(h, p) == MirrorBase(Pml4Entries(size)) + p
            && VirtToPhys(h, PhysToVirt(h, p)) == p
  {
    hide And, Or, AndNot;
    TableLayout(size);
    var e := Pml4Entries(size);
    var m: nat :| e == Pow2(m);
    assert p / GB512 < e;
    NoOverlap(e, m, p / GB512);
    HighOverlap(e, p);
    HighMemBaseValue(e);
    MapArithmetic(HighMemBase(e), p);
  }

  /** The bad case: a nonzero mapped address whose high address is that of address zero. */
  lemma OrCollides(size: nat) returns (p: nat)
    requires size < LOW_HALF && !IsPowerOfTwo(Pml4Entries(size))
    ensures 0 < p < Covered(size) && p % GB512 == 0 && Pml4Entries(size) <= 256
    ensures var h := HighMemBase(Pml4Entries(size));
            && PhysToVirt(h, p) == PhysToVirt(h, 0) == MirrorBase(Pml4Entries(size))
            && VirtToPhys(h, PhysToVirt(h, p)) != p
  {
    hide And, Or, AndNot;
    TableLayout(size);
    var e := Pml4Entries(size);
    var q := Overlap(e);
    p := q * GB512;
    assert p / GB512 == q;
    HighOverlap(e, p);
    HighOverlap(e, 0);
    ZeroAnd(0x200_0000 - e);
    HighMemBaseValue(e);
    MapArithmetic(HighMemBase(e), p);
    MapArithmetic(HighMemBase(e), 0);
  }

  /**
    Forming high addresses with `|` reaches the mirror, is undone by `virt_to_phys` and keeps mapped
    addresses apart exactly when the number of PML4 entries is a power of two.
   */
  lemma OrAddressing(buf: seq<nat>, base: nat, size: nat)
    requires Filled(buf, base, size)
    ensures Pml4Entries(size) <= 256
    ensures OrReachesMirror(buf, base, size) <==> IsPowerOfTwo(Pml4Entries(size))
    ensures MapsInvert(size) <==> IsPowerOfTwo(Pml4Entries(size))
    ensures MapsInjective(size) <==> IsPowerOfTwo(Pml4Entries(size))
  {
    hide PhysToVirt, VirtToPhys, Walk, LowerFilled, Pml4Filled, HighMemBase, IsPowerOfTwo;
    FilledSize(buf, base, size);
    TableLayout(size);
    if IsPowerOfTwo(Pml4Entries(size)) {
      forall p: nat | p < Covered(size)
        ensures Walk(buf, base, PhysToVirt(HighMemBase(Pml4Entries(size)), p)) == Mapped(p, true)
        ensures PhysToVirt(HighMemBase(Pml4Entries(size)), p) == MirrorBase(Pml4Entries(size)) + p
        ensures VirtToPhys(HighMemBase(Pml4Entries(size)), PhysToVirt(HighMemBase(Pml4Entries(size)), p)) == p
      {
        OrIsAddition(size, p);
        PageWalk(buf, base, size, p);
      }
    } else {
      var p := OrCollides(size);
      PageWalk(buf, base, size, 0);
    }
  }

  lemma FilledSize(buf: seq<nat>, base: nat, size: nat)
    requires Filled(buf, base, size)
    ensures size < LOW_HALF
  {}

  // ----- Records in free pages

  /** `get_entry`: the address of the record of a page. */
  function EntryAddress(high: nat, index: nat): nat { PhysToVirt(high, index * PAGE) }

  /** `get_index`: the page of a record. */
  function EntryIndex(high: nat, address: nat): nat { VirtToPhys(high, address) / PAGE }

  ghost predicate IndicesInvert(size: nat)
    requires Pml4Entries(size) <= 256
  {
    forall i: nat :: i * PAGE < Covered(size) ==>
      EntryIndex(HighMemBase(Pml4Entries(size)), EntryAddress(HighMemBase(Pml4Entries(size)), i)) == i
  }

  /** The allocator finds the page of every record again exactly when the entry count is a power of two. */
  lemma EntryIndexing(size: nat)
    requires size < LOW_HALF
    ensures Pml4Entries(size) <= 256
    ensures IndicesInvert(size) <==> IsPowerOfTwo(Pml4Entries(size))
  {
    hide EntryIndex, EntryAddress, HighMemBase, IsPowerOfTwo;
    TableLayout(size);
    if IsPowerOfTwo(Pml4Entries(size)) {
      forall i: nat | i * PAGE < Covered(size)
        ensures EntryIndex(HighMemBase(Pml4Entries(size)), EntryAddress(HighMemBase(Pml4Entries(size)), i)) == i
      {
        EntryFound(size, i);
      }
    } else {
      var i := EntryLost(size);
    }
  }

  lemma EntryFound(size: nat, i: nat)
    requires size < LOW_HALF && i * PAGE < Covered(size) && IsPowerOfTwo(Pml4Entries(size))
    ensures Pml4Entries(size) <= 256
    ensures EntryIndex(HighMemBase(Pml4Entries(size)), EntryAddress(HighMemBase(Pml4Entries(size)), i)) == i
  {
    hide PhysToVirt, VirtToPhys, HighMemBase, IsPowerOfTwo;
    OrIsAddition(size, i * PAGE);
  }

  /** Otherwise the record of some other page is taken for that of page 0. */
  lemma EntryLost(size: nat) returns (i: nat)
    requires size < LOW_HALF && !IsPowerOfTwo(Pml4Entries(size))
    ensures 0 < i && i * PAGE < Covered(size) && Pml4Entries(size) <= 256
    ensures EntryIndex(HighMemBase(Pml4Entries(size)), EntryAddress(HighMemBase(Pml4Entries(size)), i)) == 0
  {
    hide PhysToVirt, VirtToPhys, HighMemBase, IsPowerOfTwo, And;
    var p := OrCollides(size);
    var h := HighMemBase(Pml4Entries(size));
    MapArithmetic(h, p);
    MapArithmetic(h, 0);
    WholePage(p);
    i := p / PAGE;
  }

  lemma WholePage(p: nat)
    requires p % GB512 == 0
    ensures p / PAGE * PAGE == p
  {
    assert p == PAGE * (0x800_0000 * (p / GB512));
  }

  // ----- From the memory map to the tables

  lemma TableAligned(e: nat)
    ensures And(e, ADDR_MASK) % PAGE == 0
  {
    hide And;
    WidePowers();
    AndShift(e / PAGE, e % PAGE, 0xFF_FFFF_FFFF, 12);
  }

  /** Below the PML4, a walk sees the low 39 bits of an address only. */
  lemma SameLowBits(buf: seq<nat>, base: nat, table: nat, w: bool, s: nat)
    ensures WalkPdp(buf, base, table, w, s * GB512) == WalkPdp(buf, base, table, w, 0)
  {
    hide And, Bit, ReadWord;
    SlotOfMultiple(s, GB1, 512);
    SlotOfMultiple(s, MB2, 0x4_0000);
    SlotOfMultiple(s, PAGE, 0x800_0000);
  }

  lemma SlotOfMultiple(s: nat, unit: nat, k: nat)
    requires unit > 0 && unit * k == GB512 && k % 512 == 0
    ensures Slot(s * GB512, unit) == Slot(0, unit) == 0 && s * GB512 % unit == 0 % unit == 0
  {
    assert s * GB512 == unit * (k * s);
    DivModUnique(s * GB512, unit, k * s, 0);
    DivModUnique(0, unit, 0, 0);
    assert k * s == 512 * (k / 512 * s);
    DivModUnique(k * s, 512, k / 512 * s, 0);
  }

  /** Where the PDP table of a PML4 slot lies that translates its first address to itself. */
  lemma SlotTable(buf: seq<nat>, base: nat, s: nat) returns (table: nat)
    requires s < 256 && base % PAGE == 0 && Walk(buf, base, s * GB512) == Mapped(s * GB512, true)
    ensures base <= table && table % PAGE == 0 && (table - base) / 8 < |buf|
    ensures forall w :: WalkPdp(buf, base, table, w, 0).Mapped? && WalkPdp(buf, base, table, w, 0).address == s * GB512
  {
    hide And, Bit;
    LowSlots(s * GB512);
    var e := ReadWord(buf, base, base + 8 * s).value;
    table := And(e, ADDR_MASK);
    TableAligned(e);
    SameLowBits(buf, base, table, Bit(e, 1), s);
    forall w ensures WalkPdp(buf, base, table, w, 0).Mapped?
                     && WalkPdp(buf, base, table, w, 0).address == s * GB512
    {
      WritableAside(buf, base, table, w, Bit(e, 1), 0);
    }
  }

  lemma WritableAside(buf: seq<nat>, base: nat, table: nat, w: bool, w': bool, va: nat)
    requires WalkPdp(buf, base, table, w', va).Mapped?
    ensures WalkPdp(buf, base, table, w, va).Mapped?
    ensures WalkPdp(buf, base, table, w, va).address == WalkPdp(buf, base, table, w', va).address
  {
    hide And, Bit, ReadWord, Slot;
  }

  /** Three pages cannot hold the tables of four slots. */
  lemma ThreePages(buf: seq<nat>, base: nat)
    requires base % PAGE == 0 && |buf| == 3 * 512
    ensures exists p: nat :: p < 4 * GB512 && Walk(buf, base, p) != Mapped(p, true)
  {
    hide Walk, WalkPdp;
    if forall p: nat :: p < 4 * GB512 ==> Walk(buf, base, p) == Mapped(p, true) {
      var t0 := SlotTable(buf, base, 0);
      var t1 := SlotTable(buf, base, 1);
      var t2 := SlotTable(buf, base, 2);
      var t3 := SlotTable(buf, base, 3);
      assert WalkPdp(buf, base, t0, true, 0).address == 0 * GB512;
      assert WalkPdp(buf, base, t1, true, 0).address == 1 * GB512;
      assert WalkPdp(buf, base, t2, true, 0).address == 2 * GB512;
      assert WalkPdp(buf, base, t3, true, 0).address == 3 * GB512;
      PageInBuffer(base, t0);
      PageInBuffer(base, t1);
      PageInBuffer(base, t2);
      PageInBuffer(base, t3);
      assert false;
    }
  }

  lemma PageInBuffer(base: nat, table: nat)
    requires base % PAGE == 0 && table % PAGE == 0 && base <= table && (table - base) / 8 < 3 * 512
    ensures table == base || table == base + PAGE || table == base + 2 * PAGE
  {
    var q, r := base / PAGE, table / PAGE;
    assert base == PAGE * q && table == PAGE * r;
    assert PAGE * (r - q) < 3 * PAGE;
    assert 0 <= r - q < 3;
  }

  /**
    Every address below the highest one translates to itself if and only if that address is below
    2^47. At 2^47 exactly the mask leaves 0, and only the first 2 MB are covered.
   */
  lemma CoverageLimit(buf: seq<nat>, base: nat, highest: nat)
    requires Filled(buf, base, Masked(highest))
    ensures (forall p: nat :: p < highest ==> Walk(buf, base, p) == Mapped(p, true)) <==> highest < LOW_HALF
    ensures highest == LOW_HALF ==> Covered(Masked(highest)) == MB2
  {
    hide Walk, LowerFilled, Pml4Filled, Masked, AllocPages, Covered;
    MaskedIsMod(highest);
    LeastLayout();
    FilledLayout(buf, base, Masked(highest));
    if highest < LOW_HALF {
      forall p: nat | p < highest ensures Walk(buf, base, p) == Mapped(p, true) {
        PageWalk(buf, base, highest, p);
      }
    } else if highest == LOW_HALF {
      ThreePages(buf, base);
    } else {
      NonCanonicalFaults(buf, base);
    }
  }

  /** A size of zero still gets one table of each kind and one entry. */
  lemma LeastLayout()
    ensures AllocPages(0) == 3 && Covered(0) == MB2
  {}

  lemma FilledLayout(buf: seq<nat>, base: nat, size: nat)
    requires Filled(buf, base, size)
    ensures size < LOW_HALF && base % PAGE == 0 && |buf| == AllocPages(size) * 512 && size < Covered(size)
  {
    TableLayout(size);
  }

  lemma NonCanonicalFaults(buf: seq<nat>, base: nat)
    ensures Walk(buf, base, LOW_HALF) == Fault
  {}

  /** `size` is the highest end of a descriptor, 0 if there is none. */
  ghost predicate IsHighest(mmap: seq<Descriptor>, size: nat) {
    && (forall e :: e in mmap ==> e.physStart + e.pageCount * 4096 <= size)
    && (size == 0 || exists e :: e in mmap && size == e.physStart + e.pageCount * 4096)
  }

  /** `init`: the scan and then the tables. All described memory is mapped iff it ends below 2^47. */
  method Start(boot: Bootloader, mmap: seq<Descriptor>, pageBuffer: array<nat>, base: nat, ghost highest: nat)
    returns (info: PagingInfo)
    requires IsHighest(mmap, highest) && BufferFits(pageBuffer.Length, base, Masked(highest))
    modifies boot, pageBuffer
    ensures Filled(pageBuffer[..], base, Masked(highest))
    ensures info.pml4Entries == Pml4Entries(Masked(highest)) <= 256
    ensures boot.highMemBase == HighMemBase(info.pml4Entries)
    ensures (forall e, p: nat :: e in mmap && p < e.physStart + e.pageCount * 4096 ==>
               Walk(pageBuffer[..], base, p) == Mapped(p, true))
            <==> (forall e :: e in mmap ==> e.physStart + e.pageCount * 4096 < LOW_HALF)
  {
    hide Walk, Filled, Masked, BufferFits;
    var size := HighestAddress(mmap);
    assert size == highest;
    info := boot.Init(pageBuffer, base, size);
    CoverageLimit(pageBuffer[..], base, highest);
    MapCoverage(mmap, highest, pageBuffer[..], base);
  }

  lemma MapCoverage(mmap: seq<Descriptor>, highest: nat, buf: seq<nat>, base: nat)
    requires IsHighest(mmap, highest)
    requires (forall p: nat :: p < highest ==> Walk(buf, base, p) == Mapped(p, true)) <==> highest < LOW_HALF
    ensures (forall e, p: nat :: e in mmap && p < e.physStart + e.pageCount * 4096 ==>
               Walk(buf, base, p) == Mapped(p, true))
            <==> (forall e :: e in mmap ==> e.physStart + e.pageCount * 4096 < LOW_HALF)
  {
    hide Walk;
    if highest > 0 {
      var e :| e in mmap && highest == e.physStart + e.pageCount * 4096;
      if forall f, p: nat :: f in mmap && p < f.physStart + f.pageCount * 4096 ==>
           Walk(buf, base, p) == Mapped(p, true)
      {
        assert forall p: nat :: p < e.physStart + e.pageCount * 4096 ==> Walk(buf, base, p) == Mapped(p, true);
      }
    }
  }
}
