/**
  Building the manager from the firmware's memory map: the bitmap takes the front of the first Free
  segment with room for it, and every Free segment that remains is handed to the allocator.
 */
module MemoryMap {
  import opened Common
  import opened Blocks
  import opened BuddyLists
  import opened BuddyRegions
  import opened BitmapLimits
  import opened FreeMemory
  import opened PhysMemoryManager
  import opened Ledger

  datatype SegmentState = Free | Occupied
  datatype MemorySegment = MemorySegment(start: nat, pageCount: nat, state: SegmentState)

  predicate InSegment(p: nat, s: MemorySegment) {
    InRange(p, s.start / PAGE_SIZE, s.pageCount)
  }

  ghost predicate InFreeSegment(mmap: seq<MemorySegment>, p: nat) {
    exists i :: 0 <= i < |mmap| && mmap[i].state.Free? && InSegment(p, mmap[i])
  }

  ghost function FreeSegmentPages(mmap: seq<MemorySegment>, n: nat): set<nat> {
    set p: nat | p < n && InFreeSegment(mmap, p)
  }

  /** What the firmware promises: page-aligned segments that do not overlap. */
  ghost predicate WellFormed(mmap: seq<MemorySegment>) {
    && (forall i :: 0 <= i < |mmap| ==> mmap[i].start % PAGE_SIZE == 0)
    && (forall i, j, p: nat :: 0 <= i < j < |mmap| && InSegment(p, mmap[i]) ==> !InSegment(p, mmap[j]))
  }

  function EndOf(s: MemorySegment): nat {
    s.start + s.pageCount * PAGE_SIZE
  }

  /** The highest end address of a segment. */
  function MaxAddress(mmap: seq<MemorySegment>): (r: nat)
    ensures forall i :: 0 <= i < |mmap| ==> EndOf(mmap[i]) <= r
    ensures mmap != [] ==> exists i :: 0 <= i < |mmap| && EndOf(mmap[i]) == r
  {
    if mmap == [] then 0
    else
      var r := MaxAddress(mmap[1..]);
      assert forall i :: 1 <= i < |mmap| ==> mmap[i] == mmap[1..][i - 1];
      if EndOf(mmap[0]) >= r then EndOf(mmap[0]) else r
  }

  function PagesOfMap(mmap: seq<MemorySegment>): nat {
    MaxAddress(mmap) / PAGE_SIZE
  }

  /** All segments end at or below page n, and one ends exactly there. */
  ghost predicate CountsPages(mmap: seq<MemorySegment>, n: nat) {
    && (forall i :: 0 <= i < |mmap| ==> mmap[i].start + mmap[i].pageCount * 4096 <= n * 4096)
    && (exists i :: 0 <= i < |mmap| && mmap[i].start + mmap[i].pageCount * 4096 == n * 4096)
  }

  /** The page count is the page at which the last segment ends. */
  lemma PagesCounted(mmap: seq<MemorySegment>)
    requires mmap != [] && forall i :: 0 <= i < |mmap| ==> mmap[i].start % 4096 == 0
    ensures CountsPages(mmap, PagesOfMap(mmap))
  {
    var r := MaxAddress(mmap);
    var j :| 0 <= j < |mmap| && EndOf(mmap[j]) == r;
    WholePages(mmap[j].start, mmap[j].pageCount);
    forall i | 0 <= i < |mmap| ensures mmap[i].start + mmap[i].pageCount * 4096 <= r {
      assert EndOf(mmap[i]) <= r;
    }
    assert mmap[j].start + mmap[j].pageCount * 4096 == r;
  }

  lemma WholePages(start: nat, count: nat)
    requires start % 4096 == 0
    ensures (start + count * 4096) / 4096 * 4096 == start + count * 4096
  {}

  /** Pages the bitmap itself takes. */
  function StoragePages(numPages: nat): nat {
    ((numPages + 63) / WORD * 8 + 4095) / PAGE_SIZE
  }

  /** The reserved pages hold the bitmap, and one page fewer would not. */
  lemma StorageIsTight(numPages: nat)
    ensures 8 * ((numPages + 63) / 64) <= StoragePages(numPages) * 4096 < 8 * ((numPages + 63) / 64) + 4096
  {}

  predicate Suitable(s: MemorySegment, need: nat) {
    s.state.Free? && s.pageCount >= need
  }

  function Shrink(s: MemorySegment, count: nat): MemorySegment
    requires count <= s.pageCount
  {
    s.(start := s.start + count * PAGE_SIZE, pageCount := s.pageCount - count)
  }

  /** Index of the first suitable segment, |mmap| if there is none. */
  function FirstSuitable(mmap: seq<MemorySegment>, need: nat): (r: nat)
    ensures r <= |mmap| && (r < |mmap| ==> Suitable(mmap[r], need))
    ensures forall i :: 0 <= i < r ==> !Suitable(mmap[i], need)
  {
    if mmap == [] || Suitable(mmap[0], need) then 0 else 1 + FirstSuitable(mmap[1..], need)
  }

  /** Segment i is the first Free one with room for a bit per page, in words of eight bytes. */
  ghost predicate BitmapGoes(mmap: seq<MemorySegment>, n: nat, i: nat) {
    && i < |mmap| && mmap[i].state.Free? && mmap[i].pageCount * 4096 >= 8 * ((n + 63) / 64)
    && forall j :: 0 <= j < i && mmap[j].state.Free? ==> mmap[j].pageCount * 4096 < 8 * ((n + 63) / 64)
  }

  /** The reservation finds the first segment with room for the bytes of the bitmap, if there is one. */
  lemma PlaceOfBitmap(mmap: seq<MemorySegment>, n: nat, i: nat)
    ensures BitmapGoes(mmap, n, i) <==> i < |mmap| && FirstSuitable(mmap, StoragePages(n)) == i
  {
    StorageIsTight(n);
    var need, f := StoragePages(n), FirstSuitable(mmap, StoragePages(n));
    forall j | 0 <= j < |mmap|
      ensures Suitable(mmap[j], need) <==> mmap[j].state.Free? && mmap[j].pageCount * 4096 >= 8 * ((n + 63) / 64)
    {
      RoomInPages(mmap[j].pageCount, need, 8 * ((n + 63) / 64));
    }
    if BitmapGoes(mmap, n, i) {
      assert Suitable(mmap[i], need);
      assert f < i ==> Suitable(mmap[f], need);
    }
  }

  lemma RoomInPages(count: nat, need: nat, bytes: nat)
    requires bytes <= need * 4096 < bytes + 4096
    ensures count >= need <==> count * 4096 >= bytes
  {}

  /** First page of the bitmap that `new` places. */
  function BitmapPage(mmap: seq<MemorySegment>): nat
    requires FirstSuitable(mmap, StoragePages(PagesOfMap(mmap))) < |mmap|
  {
    mmap[FirstSuitable(mmap, StoragePages(PagesOfMap(mmap)))].start / PAGE_SIZE
  }

  /** `InlineStorage::new`: reserve the front of the first suitable segment; None is the panic. */
  method ReserveBitmap(mmap: array<MemorySegment>, numPages: nat) returns (r: Option<nat>)
    modifies mmap
    ensures var i, need := FirstSuitable(old(mmap[..]), StoragePages(numPages)), StoragePages(numPages);
            if i == mmap.Length then r.None? && mmap[..] == old(mmap[..])
            else r == Some(i) && mmap[..] == old(mmap[..])[i := Shrink(old(mmap[i]), need)]
  {
    var need := StoragePages(numPages);
    for i := 0 to mmap.Length
      invariant mmap[..] == old(mmap[..])
      invariant forall j :: 0 <= j < i ==> !Suitable(mmap[j], need)
    {
      if Suitable(mmap[i], need) {
        mmap[i] := Shrink(mmap[i], need);
        return Some(i);
      }
    }
    r := None;
  }

  /** Shrinking one Free segment takes exactly the reserved pages out of the Free segments. */
  lemma ShrinkPages(mmap: seq<MemorySegment>, i: nat, need: nat, n: nat)
    requires WellFormed(mmap) && i < |mmap| && Suitable(mmap[i], need)
    ensures var mmap' := mmap[i := Shrink(mmap[i], need)];
            && WellFormed(mmap')
            && FreeSegmentPages(mmap', n) == FreeSegmentPages(mmap, n) - Range(mmap[i].start / PAGE_SIZE, need)
            && (forall j :: 0 <= j < |mmap| ==> EndOf(mmap'[j]) == EndOf(mmap[j]))
  {
    var s := mmap[i];
    var mmap' := mmap[i := Shrink(s, need)];
    forall p: nat ensures InSegment(p, mmap'[i]) <==> InSegment(p, s) && !InRange(p, s.start / PAGE_SIZE, need) {
      assert mmap'[i].start / PAGE_SIZE == s.start / PAGE_SIZE + need;
    }
    forall p: nat
      ensures InFreeSegment(mmap', p) <==> InFreeSegment(mmap, p) && !InRange(p, s.start / PAGE_SIZE, need)
    {
      if InFreeSegment(mmap', p) {
        var j :| 0 <= j < |mmap'| && mmap'[j].state.Free? && InSegment(p, mmap'[j]);
        assert InSegment(p, mmap[j]);
        if InRange(p, s.start / PAGE_SIZE, need) {
          assert InSegment(p, s);
          if j < i || i < j { assert false; }
        }
      }
      if InFreeSegment(mmap, p) && !InRange(p, s.start / PAGE_SIZE, need) {
        var j :| 0 <= j < |mmap| && mmap[j].state.Free? && InSegment(p, mmap[j]);
        assert InSegment(p, mmap'[j]);
      }
    }
  }

  lemma NextSegment(mmap: seq<MemorySegment>, i: nat, n: nat)
    requires WellFormed(mmap) && i < |mmap| && EndOf(mmap[i]) <= n * PAGE_SIZE
    ensures mmap[i].start / PAGE_SIZE + mmap[i].pageCount <= n
    ensures FreeSegmentPages(mmap[..i], n) !! Range(mmap[i].start / PAGE_SIZE, mmap[i].pageCount)
    ensures FreeSegmentPages(mmap[..i + 1], n)
            == FreeSegmentPages(mmap[..i], n)
               + if mmap[i].state.Free? then Range(mmap[i].start / PAGE_SIZE, mmap[i].pageCount) else {}
  {}

  /** The pages of the Free segments that the bitmap does not take. */
  ghost function Usable(mmap: seq<MemorySegment>): set<nat>
    requires FirstSuitable(mmap, StoragePages(PagesOfMap(mmap))) < |mmap|
  {
    FreeSegmentPages(mmap, PagesOfMap(mmap)) - Range(BitmapPage(mmap), StoragePages(PagesOfMap(mmap)))
  }

  lemma NothingFree(mmap: seq<MemorySegment>, n: nat)
    ensures FreePages(EMPTY_LISTS, n) == FreeSegmentPages(mmap[..0], n) == {}
  {
    EmptyIsCanonical(n);
  }

  lemma MoreSegments(mmap: seq<MemorySegment>, i: nat, n: nat)
    requires i <= |mmap|
    ensures FreeSegmentPages(mmap[..i], n) <= FreeSegmentPages(mmap, n)
  {}

  /**
    `PhysMemoryManager::new`; None is a panic: no segment (not even one) has room for the bitmap, or
    the usable pages include the whole top block of an unsafe page count.
   */
  method New(mmap: array<MemorySegment>) returns (r: Option<Manager>)
    requires WellFormed(mmap[..])
    modifies mmap
    ensures r.None? <==> || FirstSuitable(old(mmap[..]), StoragePages(PagesOfMap(old(mmap[..])))) == mmap.Length
                         || !TopOpen(Usable(old(mmap[..])), PagesOfMap(old(mmap[..])))
    ensures mmap.Length > 0 ==> CountsPages(old(mmap[..]), PagesOfMap(old(mmap[..])))
    ensures r.Some? ==> r.value.Valid() && r.value.pages == PagesOfMap(old(mmap[..]))
    ensures r.Some? ==> r.value.buddyMap.Length == (r.value.pages + 63) / 64
    ensures r.Some? ==> BitmapGoes(old(mmap[..]), r.value.pages,
                                   FirstSuitable(old(mmap[..]), StoragePages(r.value.pages)))
    ensures r.Some? ==> FreePages(r.value.lists, r.value.pages) == Usable(old(mmap[..]))
  {
    hide CountsPages, BitmapGoes, TopOpen, TopNotFree, Tiles, LargestTiles, Orders;
    hide Coupled, Canonical, FreePages, IsFree, FreeSegmentPages;
    if mmap.Length == 0 {
      return None;
    }
    ghost var mmap0 := mmap[..];
    PagesCounted(mmap0);
    var n := PagesOfMap(mmap[..]);
    PlaceOfBitmap(mmap0, n, FirstSuitable(mmap0, StoragePages(n)));
    var reserved := ReserveBitmap(mmap, n);
    if reserved.None? {
      return None;
    }
    ShrinkPages(mmap0, reserved.value, StoragePages(n), n);
    var m := new Manager(n);
    NothingFree(mmap[..], n);
    ghost var mmap1 := mmap[..];
    for i := 0 to mmap.Length
      invariant m.Valid() && m.pages == n && mmap[..] == mmap1
      invariant fresh(m) && fresh(m.buddyMap) && fresh(m.entries) && fresh(m.freeLists)
      invariant FreePages(m.lists, n) == FreeSegmentPages(mmap1[..i], n)
    {
      assert EndOf(mmap1[i]) == EndOf(mmap0[i]) <= MaxAddress(mmap0);
      SegmentFits(mmap0, mmap1[i]);
      NextSegment(mmap1, i, n);
      if mmap[i].state.Free? {
        ghost var freed;
        var ok;
        ok, freed := m.AddRegion(mmap[i].start / PAGE_SIZE, mmap[i].pageCount);
        if !ok {
          MoreSegments(mmap1, i + 1, n);
          MoreIsNotOpen(FreeSegmentPages(mmap1[..i + 1], n), Usable(mmap0), n);
          return None;
        }
      }
    }
    assert mmap1[..mmap.Length] == mmap1;
    CoupledIsCanonical(m.Mem(), m.lists, n);
    TopOpenIsNotFree(m.lists, n);
    r := Some(m);
  }

  lemma SegmentFits(mmap: seq<MemorySegment>, s: MemorySegment)
    requires s.start % PAGE_SIZE == 0 && EndOf(s) <= MaxAddress(mmap)
    ensures EndOf(s) <= PagesOfMap(mmap) * PAGE_SIZE
  {}

  ghost predicate InOccupiedSegment(mmap: seq<MemorySegment>, p: nat) {
    exists i :: 0 <= i < |mmap| && mmap[i].state.Occupied? && InSegment(p, mmap[i])
  }

  /**
    Over any allowed run of a manager that started with the Free segments minus its bitmap, no page
    of an Occupied segment and no page of the bitmap is ever part of a block handed out.
   */
  lemma NeverHandedOut(mmap: seq<MemorySegment>, bitmap: set<nat>, L: Lists, n: nat, calls: seq<Call>, b: Block, p: nat)
    requires WellFormed(mmap) && Canonical(L, n) && FreePages(L, n) == FreeSegmentPages(mmap, n) - bitmap
    requires TopNotFree(L, n) && AllowedRun(Books(L, {}), n, calls)
    ensures b in Run(Books(L, {}), n, calls).out && InBlock(p, b.index, b.order)
            ==> InFreeSegment(mmap, p) && !InOccupiedSegment(mmap, p) && p !in bitmap
  {
    Conservation(L, n, calls, bitmap);
    var s := Run(Books(L, {}), n, calls);
    if b in s.out && InBlock(p, b.index, b.order) {
      assert InOut(s.out, p);
      assert p in FreePages(L, n);
      assert InFreeSegment(mmap, p);
      var i :| 0 <= i < |mmap| && mmap[i].state.Free? && InSegment(p, mmap[i]);
    }
  }
}
