/**
  The physical memory manager as the kernel runs it: list surgery on records stored in the free
  pages, bitmap words updated in place, and the recursive free and allocate on top. Every method is
  proved against the list operations of BuddyLists through the coupling of FreeMemory.
 */
module PhysMemoryManager {
  import opened Common
  import opened Bits
  import opened Blocks
  import opened BuddyLists
  import opened BuddyRegions
  import opened BitmapLimits
  import opened FreeMemory
  import opened Ledger

  ghost predicate HeadsAreFree(L: Lists, n: nat) {
    forall p: nat :: IsHead(L, p) ==> IsFree(L, p) && p < n
  }

  lemma CoupledIsCanonical(m: Memory, L: Lists, n: nat)
    requires Coupled(m, L, n)
    ensures Canonical(L, n)
  {}

  lemma CanonicalHeadsAreFree(L: Lists, n: nat)
    requires Canonical(L, n)
    ensures HeadsAreFree(L, n)
  {
    forall p: nat | IsHead(L, p) ensures IsFree(L, p) && p < n { HeadIsFree(L, n, p); }
  }

  /** Everything the pointer operations need to know to stay inside memory. */
  lemma PointersInMemory(m: Memory, L: Lists, n: nat, k: nat, p: nat)
    requires Coupled(m, L, n) && k < |L| && p in L[k]
    ensures p < n
    ensures var e := m.entries[p]; (e.next.At? ==> e.next.page < n) && (e.prev.At? ==> e.prev.page < n)
    ensures m.heads[k].At? && m.heads[k].page < n
  {
    var s := L[k];
    assert Linked(m.entries, m.heads[k], k, s);
    var x :| 0 <= x < |s| && s[x] == p;
    assert Links(m.entries, k, s, x) && Links(m.entries, k, s, 0);
    if x > 0 { assert Links(m.entries, k, s, x - 1); }
    if x + 1 < |s| { assert Links(m.entries, k, s, x + 1); }
  }

  lemma MarkedPageExists(m: Memory, L: Lists, n: nat, p: nat)
    requires Coupled(m, L, n) && TestBit(m.words, p)
    ensures p < n
  {}

  lemma FreeGrows(m: Memory, L: Lists, n: nat, i: nat, k: nat)
    requires Coupled(m, L, n) && Fits(i, k, n) && NoneFree(L, i, k)
    ensures |L| == MAX_ORDER + 1
    ensures forall p: nat :: IsFree(L, p) ==> IsFree(BuddyLists.FreeBlock(L, i, k), p)
  {
    FreeBlockCorrect(L, n, i, k);
  }

  /** Attaching a block stays inside memory and writes into pages that are free afterwards only. */
  lemma AttachReady(m: Memory, L: Lists, n: nat, i: nat, k: nat)
    requires Coupled(m, L, n) && Fits(i, k, n) && NoneFree(L, i, k)
    requires k < MAX_ORDER ==> BuddyIndex(i, k) !in L[k]
    ensures i < n && i / WORD < |m.words| && (m.heads[k].At? ==> m.heads[k].page < n)
    ensures Coupled(Attach(m, i, k), L[k := [i] + L[k]], n)
    ensures forall p: nat :: p < n && !IsFree(L[k := [i] + L[k]], p) ==> Attach(m, i, k).entries[p] == m.entries[p]
  {
    AttachCoupled(m, L, n, i, k);
    PutKeepsCanonical(L, n, i, k);
    CanonicalHeadsAreFree(L, n);
    EmptyHead(m, L, n, k);
    if L[k] != [] { PointersInMemory(m, L, n, k, L[k][0]); }
    assert InBlock(i, i, k);
    WordBelow(i, n);
  }

  /** Detaching the buddy stays inside memory and leaves the combined block ready to be freed. */
  lemma MergeReady(m: Memory, L: Lists, n: nat, i: nat, k: nat)
    requires Coupled(m, L, n) && Fits(i, k, n) && NoneFree(L, i, k)
    requires k < MAX_ORDER && BuddyIndex(i, k) in L[k]
    ensures var b, c := BuddyIndex(i, k), CombinedIndex(i, k);
            var L1, e := L[k := Remove(L[k], b)], Entry(m, b);
            && b < n && (e.next.At? ==> e.next.page < n) && (e.prev.At? ==> e.prev.page < n)
            && Coupled(Detach(m, b, k), L1, n) && Fits(c, k + 1, n) && NoneFree(L1, c, k + 1)
            && forall p: nat :: p < n && !IsFree(L, p) ==> Detach(m, b, k).entries[p] == m.entries[p]
  {
    MergeStep(L, n, i, k);
    DetachCoupled(m, L, n, BuddyIndex(i, k), k);
    PointersInMemory(m, L, n, k, BuddyIndex(i, k));
    CanonicalHeadsAreFree(L, n);
  }

  class Manager {
    /** Number of pages the bitmap describes. */
    const pages: nat
    const buddyMap: array<nat>
    /** The first bytes of every page, free or not. */
    const entries: array<FreeEntry>
    const freeLists: array<Ptr>
    ghost var lists: Lists

    ghost function Mem(): Memory
      reads buddyMap, entries, freeLists
    {
      Memory(buddyMap[..], entries[..], freeLists[..])
    }

    /** Memory holds the lists. */
    ghost predicate Sound()
      reads this, buddyMap, entries, freeLists
    {
      && |lists| == freeLists.Length == MAX_ORDER + 1
      && buddyMap.Length == BitmapWords(pages) && entries.Length == pages
      && Coupled(Mem(), lists, pages)
    }

    /** What holds between calls, on every page count. */
    ghost predicate Valid()
      reads this, buddyMap, entries, freeLists
    {
      Sound() && TopNotFree(lists, pages)
    }

    /** A manager with every page allocated; the memory outside the bitmap holds anything. */
    constructor (pages: nat)
      ensures Valid() && this.pages == pages && lists == EMPTY_LISTS
      ensures fresh(buddyMap) && fresh(entries) && fresh(freeLists)
    {
      this.pages := pages;
      buddyMap := new nat[BitmapWords(pages)](_ => 0);
      entries := new FreeEntry[pages];
      freeLists := new Ptr[MAX_ORDER + 1](_ => Null);
      lists := EMPTY_LISTS;
      new;
      EmptyMemoryCoupled(entries[..]);
      assert Mem() == EmptyMemory(entries[..]);
      EmptyNotFree(pages);
    }

    /** `remove_buddy_list_entry` */
    method RemoveBuddyListEntry(k: nat, entry: nat)
      requires k < freeLists.Length && entry < entries.Length
      requires entries[entry].prev.At? ==> entries[entry].prev.page < entries.Length
      requires entries[entry].next.At? ==> entries[entry].next.page < entries.Length
      modifies entries, freeLists
      ensures Mem() == Unlink(old(Mem()), k, entry)
    {
      if entries[entry].prev.Null? {
        freeLists[k] := entries[entry].next;
      } else {
        var q := entries[entry].prev.page;
        entries[q] := entries[q].(next := entries[entry].next);
      }
      if !entries[entry].next.Null? {
        var q := entries[entry].next.page;
        entries[q] := entries[q].(prev := entries[entry].prev);
      }
    }

    /** `push_buddy_list_entry` */
    method PushBuddyListEntry(k: nat, entry: nat)
      requires k < freeLists.Length && entry < entries.Length
      requires freeLists[k].At? ==> freeLists[k].page < entries.Length
      modifies entries, freeLists
      ensures Mem() == Push(old(Mem()), k, entry)
    {
      if !freeLists[k].Null? {
        entries[entry] := entries[entry].(next := freeLists[k]);
        var q := freeLists[k].page;
        entries[q] := entries[q].(prev := At(entry));
      }
      freeLists[k] := At(entry);
    }

    /** `pop_buddy_list_entry` */
    method PopBuddyListEntry(k: nat) returns (r: Ptr)
      requires k < freeLists.Length
      requires freeLists[k].At? ==> freeLists[k].page < entries.Length
      requires freeLists[k].At? && entries[freeLists[k].page].next.At?
               ==> entries[freeLists[k].page].next.page < entries.Length
      modifies entries, freeLists
      ensures r == old(freeLists[k])
      ensures Mem() == Pop(old(Mem()), k)
    {
      if freeLists[k].Null? {
        r := Null;
      } else {
        r := freeLists[k];
        freeLists[k] := entries[r.page].next;
        if !freeLists[k].Null? {
          var q := freeLists[k].page;
          entries[q] := entries[q].(prev := Null);
        }
      }
    }

    /** Mark a block free, write its record and put it on its list. */
    method AttachBlock(index: nat, order: nat)
      requires Sound() && Fits(index, order, pages) && NoneFree(lists, index, order)
      requires order < MAX_ORDER ==> BuddyIndex(index, order) !in lists[order]
      modifies `lists, buddyMap, entries, freeLists
      ensures Sound() && lists == old(lists)[order := [index] + old(lists)[order]]
      ensures forall p: nat :: p < pages && !IsFree(lists, p) ==> entries[p] == old(entries[p])
    {
      hide Coupled, Canonical, IsFree;
      ghost var m := Mem();
      AttachReady(m, lists, pages, index, order);
      var w := index / WORD;
      buddyMap[w] := Or(buddyMap[w], Pow2(index % WORD));
      assert Mem() == SetBit(m, index);
      entries[index] := FreeEntry(order, Null, Null);
      assert Mem() == WithEntry(SetBit(m, index), index, FreeEntry(order, Null, Null));
      PushBuddyListEntry(order, index);
      assert Mem() == Attach(m, index, order);
      lists := lists[order := [index] + lists[order]];
    }

    /** `free_block`; false is the panic at an index past the bitmap, which leaves the merges done so far. */
    method FreeBlock(index: nat, order: nat) returns (ok: bool)
      requires Sound() && Fits(index, order, pages) && NoneFree(lists, index, order)
      modifies `lists, buddyMap, entries, freeLists
      ensures |old(lists)| == |lists| == MAX_ORDER + 1
      ensures ok <==> !FreeOverruns(old(lists), pages, index, order)
      ensures ok ==> Sound() && lists == BuddyLists.FreeBlock(old(lists), index, order)
      ensures forall p: nat :: p < pages && !IsFree(BuddyLists.FreeBlock(old(lists), index, order), p)
                               ==> entries[p] == old(entries[p])
      decreases MAX_ORDER - order
    {
      hide Coupled, Canonical, IsFree, IsHead;
      ghost var m, L := Mem(), lists;
      var buddy := BuddyIndex(index, order);
      FreeBuddyIsListed(m, L, pages, buddy, order);
      FreeGrows(m, L, pages, index, order);
      if order < MAX_ORDER {
        var w := buddy / WORD;
        if w >= buddyMap.Length {
          return false;
        }
        if And(buddyMap[w], Pow2(buddy % WORD)) != 0 {
          MarkedPageExists(m, L, pages, buddy);
          if entries[buddy].order == order {
            MergeReady(m, L, pages, index, order);
            buddyMap[w] := AndNot(buddyMap[w], Pow2(buddy % WORD));
            assert Mem() == ClearBit(m, buddy);
            RemoveBuddyListEntry(order, buddy);
            assert Mem() == Detach(m, buddy, order);
            lists := L[order := Remove(L[order], buddy)];
            ok := FreeBlock(CombinedIndex(index, order), order + 1);
            return;
          }
        }
      }
      AttachBlock(index, order);
      ok := true;
    }

    /** Pop the first block of a list and clear its mark. */
    method PopBlock(order: nat) returns (r: Option<nat>)
      requires Sound() && order <= MAX_ORDER
      modifies `lists, buddyMap, entries, freeLists
      ensures Sound()
      ensures r.None? ==> old(lists)[order] == [] && lists == old(lists) && Mem() == old(Mem())
      ensures r.Some? ==> old(lists)[order] != [] && r.value == old(lists)[order][0]
                          && lists == old(lists)[order := old(lists)[order][1..]]
      ensures forall p: nat :: p < pages && !IsFree(old(lists), p) ==> entries[p] == old(entries[p])
    {
      hide Canonical, IsFree;
      ghost var m, L := Mem(), lists;
      EmptyHead(m, L, pages, order);
      CanonicalHeadsAreFree(L, pages);
      if L[order] != [] {
        PopCoupled(m, L, pages, order);
        PointersInMemory(m, L, pages, order, L[order][0]);
      }
      var entry := PopBuddyListEntry(order);
      if entry.Null? {
        return None;
      }
      var w := entry.page / WORD;
      WordBelow(entry.page, pages);
      buddyMap[w] := AndNot(buddyMap[w], Pow2(entry.page % WORD));
      assert Mem() == ClearBit(Pop(m, order), entry.page);
      lists := L[order := L[order][1..]];
      r := Some(entry.page);
    }

    /** `alloc_block`; None is the "Out of physical memory" panic, which changes nothing. */
    method AllocBlock(order: nat) returns (r: Option<nat>)
      requires Sound() && order <= MAX_ORDER
      modifies `lists, buddyMap, entries, freeLists
      ensures Sound()
      ensures r.Some? <==> BuddyLists.AllocBlock(old(lists), order).Some?
      ensures r.Some? ==> BuddyLists.AllocBlock(old(lists), order).value == Allocation(r.value, lists)
      ensures r.None? ==> lists == old(lists) && Mem() == old(Mem())
      ensures forall p: nat :: p < pages && !IsFree(old(lists), p) ==> entries[p] == old(entries[p])
      decreases MAX_ORDER - order
    {
      ghost var L := lists;
      r := PopBlock(order);
      if r.None? && order < MAX_ORDER {
        r := AllocBlock(order + 1);
        if r.Some? {
          SplitStep(L, lists, pages, r.value, order);
          AttachBlock(BuddyIndex(r.value, order), order);
          AllocShrinks(L, lists, pages, order);
        }
      }
    }

    /** `free_block` between calls: panics exactly when the top block of an unsafe page count would be free. */
    method ReleaseBlock(index: nat, order: nat) returns (ok: bool)
      requires Valid() && Fits(index, order, pages) && NoneFree(lists, index, order)
      modifies `lists, buddyMap, entries, freeLists
      ensures ok <==> TopOpen(FreePages(old(lists), pages) + Pages(index, order), pages)
      ensures ok <==> !FreeOverruns(old(lists), pages, index, order)
      ensures ok ==> Valid() && lists == BuddyLists.FreeBlock(old(lists), index, order)
      ensures ok ==> FreePages(lists, pages) == FreePages(old(lists), pages) + Pages(index, order)
    {
      hide Coupled, Canonical, IsFree, BuddyLists.FreeBlock, FreePages, Fits, NoneFree, TopNotFree;
      CoupledIsCanonical(Mem(), lists, pages);
      OverrunPages(lists, pages, index, order);
      FreeBlockPages(lists, pages, index, order);
      ok := FreeBlock(index, order);
    }

    /** `add_region`: frees blocks that tile the range. */
    method AddRegion(index: nat, pageCount: nat) returns (ok: bool, ghost freed: seq<Block>)
      requires Valid() && index + pageCount <= pages
      requires FreePages(lists, pages) !! Range(index, pageCount)
      modifies `lists, buddyMap, entries, freeLists
      ensures ok <==> TopOpen(FreePages(old(lists), pages) + Range(index, pageCount), pages)
      ensures ok ==> Valid() && FreePages(lists, pages) == FreePages(old(lists), pages) + Range(index, pageCount)
      ensures ok ==> Tiles(freed, index, index + pageCount) && LargestTiles(freed, index, index + pageCount)
      ensures ok ==> Orders(freed) && lists == FreeAll(old(lists), freed)
    {
      hide Coupled, Canonical, IsFree, BuddyLists.FreeBlock, Log2, TrailingZeros, RegionOrder, NoneFree, FreePages,
           TopNotFree, Largest;
      ghost var L := lists;
      var at: nat, left: nat := index, pageCount;
      freed := [];
      while left > 0
        invariant Valid() && index <= at && at + left == index + pageCount
        invariant FreePages(lists, pages) !! Range(at, left)
        invariant FreePages(lists, pages) + Range(at, left) == FreePages(L, pages) + Range(index, pageCount)
        invariant Tiles(freed, index, at) && LargestTiles(freed, index, index + pageCount)
        invariant Orders(freed) && lists == FreeAll(L, freed)
        decreases left
      {
        var order := RegionOrder(at, left);
        CoupledIsCanonical(Mem(), lists, pages);
        RegionStep(lists, pages, at, left, order);
        FreeAllSnoc(L, freed, Block(at, order));
        TilesSnoc(freed, index, at, order);
        RegionOrderFits(at, left);
        LargestTilesSnoc(freed, index, at, index + pageCount, order);
        ghost var before := FreePages(lists, pages);
        ok := ReleaseBlock(at, order);
        if !ok {
          MoreIsNotOpen(before + Pages(at, order), FreePages(L, pages) + Range(index, pageCount), pages);
          return;
        }
        freed := freed + [Block(at, order)];
        at := at + Pow2(order);
        left := left - Pow2(order);
      }
      ok := true;
      CoupledIsCanonical(Mem(), lists, pages);
      TopOpenIsNotFree(lists, pages);
      assert FreePages(lists, pages) + Range(at, 0) == FreePages(lists, pages);
    }

    // ----- The public calls

    /** `free_page` */
    method FreePage(addr: nat) returns (ok: bool)
      requires Valid() && addr / PAGE_SIZE < pages && !IsFree(lists, addr / PAGE_SIZE)
      modifies `lists, buddyMap, entries, freeLists
      ensures ok <==> TopOpen(FreePages(old(lists), pages) + {addr / PAGE_SIZE}, pages)
      ensures ok ==> Valid() && lists == BuddyLists.FreeBlock(old(lists), addr / PAGE_SIZE, 0)
      ensures ok ==> FreePages(lists, pages) == FreePages(old(lists), pages) + {addr / PAGE_SIZE}
      ensures var s := Serve(old(lists), pages, JobOf(CallFreePage(addr)));
              ok == s.ok && (ok ==> lists == s.lists)
    {
      SinglePage(addr / PAGE_SIZE);
      OneFree(lists, pages, Block(addr / PAGE_SIZE, 0));
      ok := ReleaseBlock(addr / PAGE_SIZE, 0);
    }

    /** `free_linear_pages` */
    method FreeLinearPages(addr: nat, count: nat) returns (ok: bool)
      requires Valid() && Fits(addr / PAGE_SIZE, RequestOrder(count), pages)
      requires NoneFree(lists, addr / PAGE_SIZE, RequestOrder(count))
      modifies `lists, buddyMap, entries, freeLists
      ensures ok <==> TopOpen(FreePages(old(lists), pages) + Pages(addr / PAGE_SIZE, RequestOrder(count)), pages)
      ensures ok ==> Valid() && lists == BuddyLists.FreeBlock(old(lists), addr / PAGE_SIZE, RequestOrder(count))
      ensures ok ==> FreePages(lists, pages)
                     == FreePages(old(lists), pages) + Pages(addr / PAGE_SIZE, RequestOrder(count))
      ensures var s := Serve(old(lists), pages, JobOf(CallFreeLinear(addr, count)));
              ok == s.ok && (ok ==> lists == s.lists)
    {
      OneFree(lists, pages, Block(addr / PAGE_SIZE, RequestOrder(count)));
      ok := ReleaseBlock(addr / PAGE_SIZE, RequestOrder(count));
    }

    /** `free_pages` */
    method FreeManyPages(addresses: seq<nat>) returns (ok: bool)
      requires Valid() && Legal(lists, pages, PageBlocks(addresses))
      modifies `lists, buddyMap, entries, freeLists
      ensures ok <==> TopOpen(FreePages(old(lists), pages) + Cover(PageBlocks(addresses)), pages)
      ensures var s := Serve(old(lists), pages, JobOf(CallFreePages(addresses)));
              ok == s.ok && (ok ==> lists == s.lists)
      ensures ok ==> Valid() && lists == FreeAll(old(lists), PageBlocks(addresses))
      ensures ok ==> FreePages(lists, pages) == FreePages(old(lists), pages) + Cover(PageBlocks(addresses))
    {
      hide Coupled, Canonical, IsFree, BuddyLists.FreeBlock, NoneFree, FreePages, TopNotFree, Fits;
      ghost var L := lists;
      CoupledIsCanonical(Mem(), lists, pages);
      FreeAllCorrect(L, pages, PageBlocks(addresses));
      FreesOverrun(L, pages, PageBlocks(addresses));
      assert addresses[0..] == addresses;
      for i := 0 to |addresses|
        invariant Valid() && Legal(lists, pages, PageBlocks(addresses[i..]))
        invariant FreeAll(lists, PageBlocks(addresses[i..])) == FreeAll(L, PageBlocks(addresses))
        invariant ServeFrees(lists, pages, PageBlocks(addresses[i..])).ok
                  <==> ServeFrees(L, pages, PageBlocks(addresses)).ok
      {
        PageBlocksStep(lists, pages, addresses, i);
        ok := ReleaseBlock(addresses[i] / PAGE_SIZE, 0);
        if !ok {
          return;
        }
      }
      ok := true;
    }

    /** `alloc_page` */
    method AllocPage() returns (r: Option<nat>)
      requires Valid()
      modifies `lists, buddyMap, entries, freeLists
      ensures Valid()
      ensures r.None? <==> FreePages(old(lists), pages) == {}
      ensures r.None? ==> lists == old(lists) && Mem() == old(Mem())
      ensures r.Some? ==> r.value % PAGE_SIZE == 0 && r.value / PAGE_SIZE in FreePages(old(lists), pages)
      ensures r.Some? ==> FreePages(lists, pages) == FreePages(old(lists), pages) - {r.value / PAGE_SIZE}
      ensures var s := Serve(old(lists), pages, JobOf(CallAllocPage));
              && r.Some? == s.ok && lists == s.lists
              && (r.Some? ==> s.got == [Block(r.value / PAGE_SIZE, 0)])
    {
      hide Coupled, Canonical, FreePages, IsFree, BuddyLists.AllocBlock, TopNotFree;
      ghost var L := lists;
      CoupledIsCanonical(Mem(), lists, pages);
      PageOutcome(lists, pages);
      OneAlloc(lists, 0);
      var b := AllocBlock(0);
      if b.Some? { AllocKeepsTop(L, pages, 0); }
      r := if b.None? then None else Some(b.value * PAGE_SIZE);
    }

    /** `alloc_linear_pages`; None is a panic, also for a count the lists have no order for. */
    method AllocLinearPages(count: nat) returns (r: Option<nat>)
      requires Valid()
      modifies `lists, buddyMap, entries, freeLists
      ensures Valid()
      ensures r.None? <==> !(1 <= count <= 256) || (forall h: nat ::
                             Aligned(h, RequestOrder(count)) ==> !AllFree(old(lists), h, RequestOrder(count)))
      ensures r.None? ==> lists == old(lists) && Mem() == old(Mem())
      ensures r.Some? ==> r.value % PAGE_SIZE == 0
      ensures r.Some? ==> var h, order := r.value / PAGE_SIZE, RequestOrder(count);
                          && Fits(h, order, pages) && count <= Pow2(order) < 2 * count
                          && Pages(h, order) <= FreePages(old(lists), pages)
                          && FreePages(lists, pages) == FreePages(old(lists), pages) - Pages(h, order)
      ensures r.Some? ==> RequestOrder(count) <= MAX_ORDER && |old(lists)| == MAX_ORDER + 1
                          && BuddyLists.AllocBlock(old(lists), RequestOrder(count)).Some?
                          && BuddyLists.AllocBlock(old(lists), RequestOrder(count)).value
                             == Allocation(r.value / PAGE_SIZE, lists)
      ensures var s := Serve(old(lists), pages, JobOf(CallAllocLinear(count)));
              && r.Some? == s.ok && lists == s.lists
              && (r.Some? ==> s.got == [Block(r.value / PAGE_SIZE, RequestOrder(count))])
    {
      hide Coupled, Canonical, FreePages, Fits, AllFree, IsFree, BuddyLists.AllocBlock, RequestOrder, TopNotFree;
      ghost var L := lists;
      var order := RequestOrder(count);
      RequestInRange(count);
      OneAlloc(lists, order);
      if order > MAX_ORDER {
        return None;
      }
      CoupledIsCanonical(Mem(), lists, pages);
      LinearOutcome(lists, pages, order);
      var b := AllocBlock(order);
      if b.Some? { AllocKeepsTop(L, pages, order); }
      r := if b.None? then None else Some(b.value * PAGE_SIZE);
    }

    /** `alloc_pages`; false is a panic part way through, after the pages there are were handed out. */
    method AllocManyPages(addresses: array<nat>) returns (ok: bool)
      requires Valid() && addresses != buddyMap
      modifies `lists, buddyMap, entries, freeLists, addresses
      ensures Valid() && |old(lists)| == MAX_ORDER + 1
      ensures ok <==> addresses.Length <= |FreePages(old(lists), pages)|
      ensures var r := Serve(old(lists), pages, JobOf(CallAllocPages(addresses.Length)));
              && ok == r.ok && lists == r.lists && |r.got| <= addresses.Length
              && (forall i :: 0 <= i < |r.got| ==> addresses[i] == r.got[i].index * PAGE_SIZE)
              && (forall i :: |r.got| <= i < addresses.Length ==> addresses[i] == old(addresses[i]))
    {
      hide Coupled, Canonical, FreePages, IsFree, BuddyLists.AllocBlock, TopNotFree;
      ghost var L, N := lists, addresses.Length;
      ghost var got: seq<Block> := [];
      CoupledIsCanonical(Mem(), L, pages);
      SinglePages(L, pages, N);
      for i := 0 to addresses.Length
        invariant Valid() && |got| == i
        invariant ServeAllocs(L, seq(N, _ => 0), []) == ServeAllocs(lists, seq(N - i, _ => 0), got)
        invariant forall j :: 0 <= j < i ==> addresses[j] == got[j].index * PAGE_SIZE
        invariant forall j :: i <= j < N ==> addresses[j] == old(addresses[j])
      {
        ghost var before := lists;
        CoupledIsCanonical(Mem(), before, pages);
        ghost var rest := seq(N - i, _ => 0);
        assert rest[0] == 0 && rest[1..] == seq(N - i - 1, _ => 0);
        var b := AllocBlock(0);
        if b.None? {
          return false;
        }
        AllocKeepsTop(before, pages, 0);
        addresses[i] := b.value * PAGE_SIZE;
        got := got + [Block(b.value, 0)];
      }
      ok := true;
    }

    /** Allocating and freeing with the same count restores the bitmap, the lists and every free record. */
    method AllocThenFreeLinear(count: nat) returns (ok: bool)
      requires Valid()
      modifies `lists, buddyMap, entries, freeLists
      ensures Valid() && lists == old(lists)
      ensures ok <==> (1 <= count <= 256 && exists h: nat ::
                         Aligned(h, RequestOrder(count)) && AllFree(old(lists), h, RequestOrder(count)))
      ensures buddyMap[..] == old(buddyMap[..]) && freeLists[..] == old(freeLists[..])
      ensures forall p: nat :: p < pages && IsHead(lists, p) ==> entries[p] == old(entries[p])
    {
      hide Coupled, Canonical, FreePages, Fits, AllFree, NoneFree, IsFree, IsHead, BuddyLists.AllocBlock,
           BuddyLists.FreeBlock, RequestOrder, TopNotFree;
      ghost var m, L := Mem(), lists;
      var r := AllocLinearPages(count);
      ok := r.Some?;
      if ok {
        CoupledIsCanonical(m, L, pages);
        AllocThenFree(L, pages, RequestOrder(count));
        TakenBlock(L, lists, pages, r.value / PAGE_SIZE, RequestOrder(count));
        ghost var again := FreeLinearPages(r.value, count);
        ListsDetermineMemory(m, Mem(), L, pages);
      }
    }

    /** Writing anything into a page that is no head of a free block changes nothing the allocator relies on. */
    method ClientWrite(page: nat, content: FreeEntry)
      requires Valid() && page < pages && !IsHead(lists, page)
      modifies entries
      ensures Valid() && lists == old(lists)
    {
      ClientDataIrrelevant(Mem(), entries[..][page := content], lists, pages);
      entries[page] := content;
      assert Mem() == old(Mem()).(entries := old(entries[..])[page := content]);
    }
  }

  lemma EmptyNotFree(n: nat)
    ensures TopNotFree(EMPTY_LISTS, n)
  {
    EmptyIsCanonical(n);
    if !BitmapSafe(n) {
      TopFits(n);
      assert InBlock(TopIndex(n), TopIndex(n), TopOrder(n));
    }
  }

  /** A larger set does not leave the top block open either. */
  lemma MoreIsNotOpen(pages: set<nat>, more: set<nat>, n: nat)
    requires pages <= more && !TopOpen(pages, n)
    ensures !TopOpen(more, n)
  {}

  lemma AllocKeepsTop(L: Lists, n: nat, k: nat)
    requires Canonical(L, n) && TopNotFree(L, n) && k <= MAX_ORDER && |L| == MAX_ORDER + 1
    requires BuddyLists.AllocBlock(L, k).Some?
    ensures TopNotFree(BuddyLists.AllocBlock(L, k).value.lists, n)
  {
    AllocBlockCorrect(L, n, k);
    StillNotFree(L, BuddyLists.AllocBlock(L, k).value.lists, n);
  }

  /** A block just taken can be given back without a panic. */
  lemma TakenBlock(L: Lists, L1: Lists, n: nat, h: nat, k: nat)
    requires Canonical(L, n) && TopNotFree(L, n) && k <= MAX_ORDER && |L| == MAX_ORDER + 1
    requires BuddyLists.AllocBlock(L, k) == Some(Allocation(h, L1))
    ensures Fits(h, k, n) && NoneFree(L1, h, k)
    ensures TopOpen(FreePages(L1, n) + Pages(h, k), n)
  {
    AllocBlockCorrect(L, n, k);
    AllocBlockPages(L, n, k);
    TopOpenIsNotFree(L, n);
    assert FreePages(L1, n) + Pages(h, k) == FreePages(L, n);
  }

  lemma AllocShrinks(L: Lists, L': Lists, n: nat, k: nat)
    requires Canonical(L, n) && k <= MAX_ORDER && BuddyLists.AllocBlock(L, k).Some?
    requires BuddyLists.AllocBlock(L, k).value.lists == L'
    ensures forall p: nat :: !IsFree(L, p) ==> !IsFree(L', p)
  {
    AllocBlockCorrect(L, n, k);
  }

  lemma PageBlocksStep(L: Lists, n: nat, addresses: seq<nat>, i: nat)
    requires |L| == MAX_ORDER + 1 && i < |addresses| && Legal(L, n, PageBlocks(addresses[i..]))
    ensures var p := addresses[i] / PAGE_SIZE;
            && Fits(p, 0, n) && NoneFree(L, p, 0)
            && Legal(BuddyLists.FreeBlock(L, p, 0), n, PageBlocks(addresses[i + 1..]))
            && FreeAll(L, PageBlocks(addresses[i..]))
               == FreeAll(BuddyLists.FreeBlock(L, p, 0), PageBlocks(addresses[i + 1..]))
            && (ServeFrees(L, n, PageBlocks(addresses[i..])).ok
                <==> !FreeOverruns(L, n, p, 0)
                     && ServeFrees(BuddyLists.FreeBlock(L, p, 0), n, PageBlocks(addresses[i + 1..])).ok)
  {}

  /** After a higher block was taken out whole, its upper half can go back on the empty lower list. */
  lemma SplitStep(L: Lists, L1: Lists, n: nat, h: nat, k: nat)
    requires Canonical(L, n) && k < MAX_ORDER && L[k] == []
    requires BuddyLists.AllocBlock(L, k + 1) == Some(Allocation(h, L1))
    ensures Canonical(L1, n) && Fits(h, k, n) && Fits(BuddyIndex(h, k), k, n)
    ensures NoneFree(L1, BuddyIndex(h, k), k) && L1[k] == []
  {
    AllocBlockCorrect(L, n, k + 1);
    AlignedDown(h, k, k + 1);
    BuddyHalves(h, k);
    PagesOfHalves(h, k);
  }

  /** Whatever the order and grouping of frees, equal pages give equal bitmaps. */
  lemma GroupingSameBitmap(m: Memory, m': Memory, L: Lists, M: Lists, n: nat, bs: seq<Block>, cs: seq<Block>)
    requires Canonical(L, n) && Canonical(M, n) && FreePages(L, n) == FreePages(M, n)
    requires Legal(L, n, bs) && Legal(M, n, cs) && Cover(bs) == Cover(cs)
    requires Orders(bs) && Orders(cs) && Coupled(m, FreeAll(L, bs), n) && Coupled(m', FreeAll(M, cs), n)
    ensures m.words == m'.words
  {
    FreeAllCorrect(L, n, bs);
    FreeAllCorrect(M, n, cs);
    PagesDetermineBitmap(m, FreeAll(L, bs), m', FreeAll(M, cs), n);
  }
}
