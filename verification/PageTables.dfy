/**
  The bootloader's page tables. `Walk` is the processor's four-level translation (section 5.3 of the
  AMD64 Architecture Programmer's Manual, Volume 2) over the words of the table buffer; the builder
  fills the buffer so that every covered physical address translates to itself, from the low half
  and from a mirror at the top of the address space.
 */
module PageTables {
  import opened Common
  import opened Bits

  const PAGE: nat := 4096
  const MB2: nat := 0x20_0000
  const GB1: nat := 0x4000_0000
  const GB512: nat := 0x80_0000_0000
  const LOW_HALF: nat := 0x8000_0000_0000
  const TOP: nat := 0x1_0000_0000_0000_0000

  const ADDR_MASK: nat := 0x000F_FFFF_FFFF_F000
  const GB_ADDR_MASK: nat := 0x000F_FFFF_C000_0000
  const MB_ADDR_MASK: nat := 0x000F_FFFF_FFE0_0000
  /** present, writable */
  const TABLE_FLAGS: nat := 0x3
  /** present, writable, page size */
  const PAGE_FLAGS: nat := 0x83

  // ----- The processor's walk

  datatype Translation =
    | Fault                                   // not canonical, or an entry is not present
    | Unknown                                 // a table lies outside the buffer
    | Mapped(address: nat, writable: bool)

  /** The 8-byte word at a physical address, for a buffer that starts at `base`. */
  function ReadWord(buf: seq<nat>, base: nat, address: nat): Option<nat> {
    if base <= address && (address - base) % 8 == 0 && (address - base) / 8 < |buf|
    then Some(buf[(address - base) / 8]) else None
  }

  predicate CanonicalAddress(va: nat) {
    va < LOW_HALF || TOP - LOW_HALF <= va < TOP
  }

  function Slot(va: nat, unit: nat): nat
    requires unit > 0
  {
    DivNonNegative(va, unit);
    va / unit % 512
  }

  function WalkPt(buf: seq<nat>, base: nat, table: nat, writable: bool, va: nat): Translation {
    match ReadWord(buf, base, table + 8 * Slot(va, PAGE))
    case None => Unknown
    case Some(e) => if !Bit(e, 0) then Fault else Mapped(And(e, ADDR_MASK) + va % PAGE, writable && Bit(e, 1))
  }

  function WalkPd(buf: seq<nat>, base: nat, table: nat, writable: bool, va: nat): Translation {
    match ReadWord(buf, base, table + 8 * Slot(va, MB2))
    case None => Unknown
    case Some(e) =>
      if !Bit(e, 0) then Fault
      else if Bit(e, 7) then Mapped(And(e, MB_ADDR_MASK) + va % MB2, writable && Bit(e, 1))
      else WalkPt(buf, base, And(e, ADDR_MASK), writable && Bit(e, 1), va)
  }

  function WalkPdp(buf: seq<nat>, base: nat, table: nat, writable: bool, va: nat): Translation {
    match ReadWord(buf, base, table + 8 * Slot(va, GB1))
    case None => Unknown
    case Some(e) =>
      if !Bit(e, 0) then Fault
      else if Bit(e, 7) then Mapped(And(e, GB_ADDR_MASK) + va % GB1, writable && Bit(e, 1))
      else WalkPd(buf, base, And(e, ADDR_MASK), writable && Bit(e, 1), va)
  }

  /** Translation of a virtual address with CR3 pointing at the buffer. */
  function Walk(buf: seq<nat>, base: nat, va: nat): Translation {
    if !CanonicalAddress(va) then Fault
    else match ReadWord(buf, base, base + 8 * Slot(va, GB512))
      case None => Unknown
      case Some(e) =>
        if !Bit(e, 0) then Fault else WalkPdp(buf, base, And(e, ADDR_MASK), Bit(e, 1), va)
  }

  // ----- Sizing

  /** `physical_size` with bits 47 and up cut off. */
  function Masked(physicalSize: nat): nat {
    And(physicalSize, 0x0000_7FFF_FFFF_FFFF)
  }

  function Pml4Entries(size: nat): nat { size / GB512 + 1 }
  function PdpEntries(size: nat): nat { size / GB1 + 1 }
  function PdEntries(size: nat): nat { size / MB2 + 1 }
  function PagesFor(entries: nat): nat { (entries * 8 + 4095) / PAGE }

  function AllocPages(size: nat): nat {
    PagesFor(Pml4Entries(size)) + PagesFor(PdpEntries(size)) + PagesFor(PdEntries(size))
  }

  /** Physical addresses below this are covered by the page directory entries. */
  function Covered(size: nat): nat { PdEntries(size) * MB2 }

  lemma WidePowers()
    ensures Pow2(12) == PAGE && Pow2(21) == MB2 && Pow2(30) == GB1 && Pow2(39) == GB512
    ensures Pow2(25) == 0x200_0000 && Pow2(31) == 0x8000_0000 && Pow2(40) == 0x100_0000_0000
    ensures Pow2(47) == LOW_HALF && Pow2(9) == 512 && Pow2(16) == 0x1_0000 && Pow2(48) == 0x1_0000_0000_0000
  {}

  lemma MaskedIsMod(physicalSize: nat)
    ensures Masked(physicalSize) == physicalSize % LOW_HALF
  {
    WidePowers();
    AndLowMask(physicalSize, 47);
  }

  /** One PML4 page; a PDP page per PML4 entry; a page directory page per PDP entry. */
  lemma TableLayout(size: nat)
    requires size < LOW_HALF
    ensures 1 <= Pml4Entries(size) <= 256
    ensures PagesFor(Pml4Entries(size)) == 1
    ensures PagesFor(PdpEntries(size)) == Pml4Entries(size)
    ensures PagesFor(PdEntries(size)) == PdpEntries(size)
    ensures size < Covered(size) <= LOW_HALF
  {}

  // ----- Entries

  lemma {:induction false} OrShifted(q: nat, r: nat, k: nat)
    requires r < Pow2(k)
    ensures Or(q * Pow2(k), r) == q * Pow2(k) + r
  {
    AndCommutes(q * Pow2(k), r);
    AndShift(0, r, q, k);
    OrAndSum(q * Pow2(k), r);
  }

  lemma {:induction false} LowBits(q: nat, r: nat, k: nat, i: nat)
    requires r < Pow2(k) && i < k
    ensures Bit(q * Pow2(k) + r, i) <==> Bit(r, i)
    decreases k
  {
    var h := DoubledProduct(q, Pow2(k - 1));
    assert (2 * h + r) / 2 == h + r / 2 && (2 * h + r) % 2 == r % 2;
    if i > 0 { LowBits(q, r / 2, k - 1, i - 1); }
  }

  lemma MaskKeeps(q: nat, r: nat, k: nat, w: nat, a: nat, mask: nat)
    requires r < Pow2(k) && q < Pow2(w) && a == q * Pow2(k) && mask == (Pow2(w) - 1) * Pow2(k)
    ensures And(a + r, mask) == a
  {
    hide And, Pow2;
    AndShift(q, r, Pow2(w) - 1, k);
    AndLowMask(q, w);
    SmallMod(q, Pow2(w));
  }

  lemma SmallMod(q: nat, d: nat)
    requires q < d
    ensures q % d == q
  {}

  /** An aligned address with flags below it: the mask gives the address back, the flags stay. */
  lemma EntryFields(q: nat, flags: nat, k: nat, w: nat, a: nat, mask: nat)
    requires flags < Pow2(k) && q < Pow2(w) && a == q * Pow2(k) && mask == (Pow2(w) - 1) * Pow2(k)
    ensures And(Or(a, flags), mask) == a && And(a, mask) == a && Or(a, flags) == a + flags
    ensures forall i :: 0 <= i < k ==> (Bit(Or(a, flags), i) <==> Bit(flags, i))
  {
    hide And, Or, Pow2, Bit;
    OrShifted(q, flags, k);
    MaskKeeps(q, flags, k, w, a, mask);
    MaskKeeps(q, 0, k, w, a, mask);
    forall i | 0 <= i < k ensures Bit(Or(a, flags), i) <==> Bit(flags, i) {
      LowBits(q, flags, k, i);
    }
  }

  function TableEntry(address: nat): nat { Or(address, TABLE_FLAGS) }
  function PageEntry(address: nat): nat { Or(address, PAGE_FLAGS) }

  /** A table entry is its address with present and writable set; no other low bit is. */
  lemma TableEntryFields(address: nat)
    requires address % PAGE == 0 && address < 0x10_0000_0000_0000
    ensures And(address, ADDR_MASK) == address
    ensures And(TableEntry(address), ADDR_MASK) == address && TableEntry(address) == address + 0x3
    ensures Bit(TableEntry(address), 0) && Bit(TableEntry(address), 1) && !Bit(TableEntry(address), 7)
    ensures forall i :: 2 <= i < 12 ==> !Bit(TableEntry(address), i)
  {
    WidePowers();
    OtherFlagsClear();
    EntryFields(address / PAGE, TABLE_FLAGS, 12, 40, address, ADDR_MASK);
    assert address / PAGE * PAGE == address;
    assert Bit(TABLE_FLAGS, 0) && Bit(TABLE_FLAGS, 1);
    assert !Bit(TABLE_FLAGS, 7) by { FlagBits(); }
  }

  lemma FlagBits()
    ensures Bit(TABLE_FLAGS, 0) && Bit(TABLE_FLAGS, 1) && !Bit(TABLE_FLAGS, 7)
    ensures Bit(PAGE_FLAGS, 0) && Bit(PAGE_FLAGS, 1) && Bit(PAGE_FLAGS, 7)
  {}

  lemma OtherFlagsClear()
    ensures forall i :: 2 <= i < 12 ==> !Bit(TABLE_FLAGS, i)
    ensures forall i :: 2 <= i < 21 && i != 7 ==> !Bit(PAGE_FLAGS, i)
  {
    forall i | 2 <= i < 12 ensures !Bit(TABLE_FLAGS, i) { SmallNumberBit(TABLE_FLAGS, 2, i); }
    forall i | 2 <= i < 21 && i != 7 ensures !Bit(PAGE_FLAGS, i) {
      if i >= 8 { SmallNumberBit(PAGE_FLAGS, 8, i); }
    }
  }

  lemma SmallNumberBit(n: nat, k: nat, i: nat)
    requires n < Pow2(k) && k <= i
    ensures !Bit(n, i)
  {
    Pow2Monotone(k, i);
    DivModUnique(n, Pow2(i), 0, n);
    BitIsDigit(n, i);
  }

  /** A page entry is its address with present, writable and page size set; no other low bit is. */
  lemma PageEntryFields(slot: nat)
    requires slot < 0x400_0000
    ensures And(slot * MB2, MB_ADDR_MASK) == slot * MB2
    ensures And(PageEntry(slot * MB2), MB_ADDR_MASK) == slot * MB2 && PageEntry(slot * MB2) == slot * MB2 + 0x83
    ensures Bit(PageEntry(slot * MB2), 0) && Bit(PageEntry(slot * MB2), 1) && Bit(PageEntry(slot * MB2), 7)
    ensures forall i :: 2 <= i < 21 && i != 7 ==> !Bit(PageEntry(slot * MB2), i)
  {
    WidePowers();
    OtherFlagsClear();
    EntryFields(slot, PAGE_FLAGS, 21, 31, slot * MB2, MB_ADDR_MASK);
    FlagBits();
  }

  // ----- The finished buffer

  function PdpTable(base: nat, i: nat): nat { base + (1 + i) * PAGE }
  function PdTable(base: nat, size: nat, i: nat): nat { base + (1 + Pml4Entries(size) + i) * PAGE }

  ghost predicate Pml4Filled(buf: seq<nat>, base: nat, size: nat, upto: nat) {
    forall i :: 0 <= i < upto && i < |buf| && 0 <= 512 - Pml4Entries(size) + i < |buf| ==>
      buf[i] == buf[512 - Pml4Entries(size) + i] == TableEntry(PdpTable(base, i))
  }

  ghost predicate PdpFilled(buf: seq<nat>, base: nat, size: nat, upto: nat) {
    forall i :: 0 <= i < upto && 512 + i < |buf| ==> buf[512 + i] == TableEntry(PdTable(base, size, i))
  }

  ghost predicate PdFilled(buf: seq<nat>, size: nat, upto: nat) {
    forall i :: 0 <= i < upto && 512 + 512 * Pml4Entries(size) + i < |buf| ==>
      buf[512 + 512 * Pml4Entries(size) + i] == PageEntry(i * MB2)
  }

  /** A table buffer of the size the builder asks for, at a page-aligned address below 2^52. */
  ghost predicate BufferFits(length: nat, base: nat, size: nat) {
    && size < LOW_HALF && length == AllocPages(size) * 512
    && base % PAGE == 0 && base + AllocPages(size) * PAGE <= 0x10_0000_0000_0000
  }

  /** The PDP and page directory tables are complete. */
  ghost predicate LowerFilled(buf: seq<nat>, base: nat, size: nat) {
    && BufferFits(|buf|, base, size)
    && PdpFilled(buf, base, size, PdpEntries(size))
    && PdFilled(buf, size, PdEntries(size))
  }

  ghost predicate Filled(buf: seq<nat>, base: nat, size: nat) {
    LowerFilled(buf, base, size) && Pml4Filled(buf, base, size, Pml4Entries(size))
  }

  /** Words the builder writes. */
  predicate Written(size: nat, w: nat) {
    || w < Pml4Entries(size)
    || 512 - Pml4Entries(size) <= w < 512
    || 512 <= w < 512 + PdpEntries(size)
    || 512 + 512 * Pml4Entries(size) <= w < 512 + 512 * Pml4Entries(size) + PdEntries(size)
  }

  // ----- Translation through the finished buffer

  lemma ReadAt(buf: seq<nat>, base: nat, w: nat)
    requires w < |buf|
    ensures ReadWord(buf, base, base + 8 * w) == Some(buf[w])
  {}

  lemma PdStep(buf: seq<nat>, base: nat, size: nat, p: nat, va: nat)
    requires LowerFilled(buf, base, size) && p < Covered(size)
    requires Slot(va, MB2) == p / MB2 % 512 && va % MB2 == p % MB2
    ensures WalkPd(buf, base, PdTable(base, size, p / GB1), true, va) == Mapped(p, true)
  {
    hide And, Or, Bit, ReadWord;
    TableLayout(size);
    var w := 512 + 512 * Pml4Entries(size) + p / MB2;
    assert p / MB2 == 512 * (p / GB1) + p / MB2 % 512;
    assert PdTable(base, size, p / GB1) + 8 * Slot(va, MB2) == base + 8 * w;
    ReadAt(buf, base, w);
    assert buf[w] == PageEntry(p / MB2 * MB2);
    PageEntryFields(p / MB2);
  }

  lemma PdpStep(buf: seq<nat>, base: nat, size: nat, p: nat, va: nat)
    requires LowerFilled(buf, base, size) && p < Covered(size)
    requires Slot(va, GB1) == p / GB1 % 512 && Slot(va, MB2) == p / MB2 % 512 && va % MB2 == p % MB2
    ensures WalkPdp(buf, base, PdpTable(base, p / GB512), true, va) == Mapped(p, true)
  {
    hide And, Or, Bit, ReadWord, WalkPd;
    TableLayout(size);
    var w := 512 + p / GB1;
    assert p / GB1 < PdpEntries(size);
    assert p / GB1 == 512 * (p / GB512) + p / GB1 % 512;
    assert PdpTable(base, p / GB512) + 8 * Slot(va, GB1) == base + 8 * w;
    ReadAt(buf, base, w);
    TableEntryFields(PdTable(base, size, p / GB1));
    PdStep(buf, base, size, p, va);
  }

  /** Any canonical address whose top slot leads to p's PDP page and whose rest equals p's reaches p. */
  lemma WalkReaches(buf: seq<nat>, base: nat, size: nat, p: nat, va: nat)
    requires Filled(buf, base, size) && p < Covered(size) && CanonicalAddress(va)
    requires Slot(va, GB512) == p / GB512 || Slot(va, GB512) == 512 - Pml4Entries(size) + p / GB512
    requires Slot(va, GB1) == p / GB1 % 512 && Slot(va, MB2) == p / MB2 % 512 && va % MB2 == p % MB2
    ensures Walk(buf, base, va) == Mapped(p, true)
  {
    hide And, Or, Bit, ReadWord, WalkPdp;
    TableLayout(size);
    assert p / GB512 < Pml4Entries(size);
    var i := p / GB512;
    assert buf[i] == buf[512 - Pml4Entries(size) + i] == TableEntry(PdpTable(base, i));
    ReadAt(buf, base, Slot(va, GB512));
    TableEntryFields(PdpTable(base, i));
    PdpStep(buf, base, size, p, va);
  }

  /** First address of the mirror, in canonical form. */
  function MirrorBase(entries: nat): nat
    requires entries <= 256
  {
    TOP - entries * GB512
  }

  lemma LowSlots(p: nat)
    requires p < LOW_HALF
    ensures Slot(p, GB512) == p / GB512
  {}

  lemma MirrorSlots(entries: nat, p: nat)
    requires 1 <= entries <= 256 && p / GB512 < entries
    ensures var va := MirrorBase(entries) + p;
            && CanonicalAddress(va)
            && Slot(va, GB512) == 512 - entries + p / GB512
            && Slot(va, GB1) == p / GB1 % 512 && Slot(va, MB2) == p / MB2 % 512 && va % MB2 == p % MB2
  {
    var k, i := 0x200_0000 - entries, p / GB512;
    ShiftedQuotient(k, GB512, p);
    ShiftedQuotient(512 * k, GB1, p);
    ShiftedQuotient(0x4_0000 * k, MB2, p);
    DivModUnique(k + i, 512, 0xFFFF, 512 - entries + i);
    ShiftedQuotient(k, 512, p / GB1);
    ShiftedQuotient(512 * k, 512, p / MB2);
  }

  lemma ShiftedQuotient(k: nat, d: nat, p: nat)
    requires d > 0
    ensures (k * d + p) / d == k + p / d && (k * d + p) % d == p % d
  {
    DivModSplit(p, d);
    assert d * (k + p / d) == k * d + d * (p / d);
    DivModUnique(k * d + p, d, k + p / d, p % d);
  }

  /** Every covered physical address translates to itself, directly and through the mirror. */
  lemma PageWalk(buf: seq<nat>, base: nat, size: nat, p: nat)
    requires Filled(buf, base, size) && p < Covered(size)
    ensures Pml4Entries(size) <= 256
    ensures Walk(buf, base, p) == Mapped(p, true)
    ensures Walk(buf, base, MirrorBase(Pml4Entries(size)) + p) == Mapped(p, true)
  {
    hide Walk, Slot, Pml4Filled, PdpFilled, PdFilled;
    TableLayout(size);
    LowSlots(p);
    PlainSlots(p);
    WalkReaches(buf, base, size, p, p);
    MirrorSlots(Pml4Entries(size), p);
    WalkReaches(buf, base, size, p, MirrorBase(Pml4Entries(size)) + p);
  }

  lemma PlainSlots(p: nat)
    ensures Slot(p, GB1) == p / GB1 % 512 && Slot(p, MB2) == p / MB2 % 512
  {}
}
