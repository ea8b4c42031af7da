/**
  Freeing many blocks: the free set grows by exactly the blocks freed, the resulting lists depend
  on the pages only, and `add_region` cuts a range of pages into naturally aligned blocks.
 */
module BuddyRegions {
  import opened Bits
  import opened Blocks
  import opened BuddyLists

  predicate Orders(bs: seq<Block>) {
    forall b :: b in bs ==> b.order <= MAX_ORDER
  }

  /** Blocks freed one after the other. */
  function FreeAll(L: Lists, bs: seq<Block>): (r: Lists)
    requires |L| == MAX_ORDER + 1 && Orders(bs)
    ensures |r| == |L|
    decreases |bs|
  {
    if bs == [] then L else FreeAll(FreeBlock(L, bs[0].index, bs[0].order), bs[1..])
  }

  /** Each block is aligned, in range and allocated at the moment it is freed. */
  ghost predicate Legal(L: Lists, n: nat, bs: seq<Block>)
    requires |L| == MAX_ORDER + 1
    decreases |bs|
  {
    bs == [] ||
    (&& Fits(bs[0].index, bs[0].order, n)
     && NoneFree(L, bs[0].index, bs[0].order)
     && Legal(FreeBlock(L, bs[0].index, bs[0].order), n, bs[1..]))
  }

  function Cover(bs: seq<Block>): set<nat> {
    if bs == [] then {} else Pages(bs[0].index, bs[0].order) + Cover(bs[1..])
  }

  lemma {:induction false} LegalOrders(L: Lists, n: nat, bs: seq<Block>)
    requires |L| == MAX_ORDER + 1 && Legal(L, n, bs)
    ensures forall b :: b in bs ==> Fits(b.index, b.order, n)
    decreases |bs|
  {
    if bs != [] {
      LegalOrders(FreeBlock(L, bs[0].index, bs[0].order), n, bs[1..]);
      assert bs == [bs[0]] + bs[1..];
    }
  }

  lemma {:induction false} FreeAllCorrect(L: Lists, n: nat, bs: seq<Block>)
    requires Canonical(L, n) && Legal(L, n, bs)
    ensures Orders(bs)
    ensures Canonical(FreeAll(L, bs), n)
    ensures FreePages(FreeAll(L, bs), n) == FreePages(L, n) + Cover(bs)
    ensures FreePages(L, n) !! Cover(bs)
    decreases |bs|
  {
    LegalOrders(L, n, bs);
    if bs != [] {
      var L1 := FreeBlock(L, bs[0].index, bs[0].order);
      FreeBlockCorrect(L, n, bs[0].index, bs[0].order);
      FreeBlockPages(L, n, bs[0].index, bs[0].order);
      FreeAllCorrect(L1, n, bs[1..]);
    }
  }

  /** Freeing the same pages in any order and grouping gives the same blocks on every list. */
  lemma GroupingIsIrrelevant(L: Lists, M: Lists, n: nat, bs: seq<Block>, cs: seq<Block>)
    requires Canonical(L, n) && Canonical(M, n) && FreePages(L, n) == FreePages(M, n)
    requires Legal(L, n, bs) && Legal(M, n, cs) && Cover(bs) == Cover(cs)
    ensures Orders(bs) && Orders(cs)
    ensures forall k :: 0 <= k <= MAX_ORDER ==> multiset(FreeAll(L, bs)[k]) == multiset(FreeAll(M, cs)[k])
  {
    FreeAllCorrect(L, n, bs);
    FreeAllCorrect(M, n, cs);
    PagesDetermineBlocks(FreeAll(L, bs), FreeAll(M, cs), n);
  }

  // ----- add_region

  predicate InRange(p: nat, index: nat, count: nat) {
    index <= p < index + count
  }

  function Range(index: nat, count: nat): set<nat> {
    set p: nat | p < index + count && InRange(p, index, count)
  }

  function Min(a: nat, b: nat): nat {
    if a <= b then a else b
  }

  /** The order one turn of the loop of `add_region` picks. */
  function RegionOrder(index: nat, count: nat): (r: nat)
    requires count > 0
    ensures r <= MAX_ORDER && Pow2(r) <= count && Aligned(index, r)
  {
    var order := Min(Min(TrailingZeros(index), Log2(count)), MAX_ORDER);
    LargestOrder(index, count, order);
    order
  }

  lemma LargestOrder(index: nat, count: nat, k: nat)
    requires count > 0
    ensures k <= Min(Min(TrailingZeros(index), Log2(count)), MAX_ORDER)
            <==> Aligned(index, k) && Pow2(k) <= count && k <= MAX_ORDER
  {
    var l := Log2(count);
    if k <= l { Pow2Monotone(k, l); } else { Pow2StrictlyMonotone(l, k); }
    if index == 0 {
      DivModUnique(0, Pow2(k), 0, 0);
    } else {
      TrailingZerosDivides(index, k);
    }
  }

  /** `add_region` picks the largest order that alignment, the remaining pages and MAX_ORDER allow. */
  lemma RegionOrderIsLargest(index: nat, count: nat, k: nat)
    requires count > 0
    ensures k <= RegionOrder(index, count) <==> Aligned(index, k) && Pow2(k) <= count && k <= MAX_ORDER
  {
    LargestOrder(index, count, k);
  }

  /** Aligned blocks that follow one another from page `from` up to page `to`. */
  predicate Tiles(bs: seq<Block>, from: nat, to: nat)
    decreases |bs|
  {
    if bs == [] then from == to
    else
      && bs[0].index == from && bs[0].order <= MAX_ORDER && Aligned(from, bs[0].order)
      && from + Pow2(bs[0].order) <= to && Tiles(bs[1..], from + Pow2(bs[0].order), to)
  }

  lemma {:induction false} TilesSnoc(bs: seq<Block>, from: nat, to: nat, order: nat)
    requires Tiles(bs, from, to) && order <= MAX_ORDER && Aligned(to, order)
    ensures Tiles(bs + [Block(to, order)], from, to + Pow2(order))
    decreases |bs|
  {
    var b := Block(to, order);
    if bs == [] {
      assert [b][1..] == [] && bs + [b] == [b];
    } else {
      TilesSnoc(bs[1..], from + Pow2(bs[0].order), to, order);
      assert (bs + [b])[1..] == bs[1..] + [b];
    }
  }

  /** No larger aligned block of at most 256 pages fits between `at` and `to`. */
  ghost predicate Largest(order: nat, at: nat, to: nat) {
    forall k: nat :: k <= 8 && Aligned(at, k) && at + Pow2(k) <= to ==> k <= order
  }

  /** From page `from` on, each block is the largest that fits before page `to`. */
  ghost predicate LargestTiles(bs: seq<Block>, from: nat, to: nat)
    decreases |bs|
  {
    bs == [] || (Largest(bs[0].order, from, to) && LargestTiles(bs[1..], from + Pow2(bs[0].order), to))
  }

  lemma {:induction false} LargestTilesSnoc(bs: seq<Block>, from: nat, at: nat, to: nat, order: nat)
    requires Tiles(bs, from, at) && LargestTiles(bs, from, to) && Largest(order, at, to)
    ensures LargestTiles(bs + [Block(at, order)], from, to)
    decreases |bs|
  {
    hide Largest;
    var b := Block(at, order);
    if bs == [] {
      assert [b][1..] == [] && bs + [b] == [b];
    } else {
      LargestTilesSnoc(bs[1..], from + Pow2(bs[0].order), at, to, order);
      assert (bs + [b])[1..] == bs[1..] + [b];
    }
  }

  lemma RegionOrderFits(at: nat, left: nat)
    requires left > 0
    ensures Largest(RegionOrder(at, left), at, at + left)
  {
    forall k: nat | k <= 8 && Aligned(at, k) && at + Pow2(k) <= at + left ensures k <= RegionOrder(at, left) {
      RegionOrderIsLargest(at, left, k);
    }
  }

  lemma {:induction false} FreeAllSnoc(L: Lists, bs: seq<Block>, b: Block)
    requires |L| == MAX_ORDER + 1 && Orders(bs) && b.order <= MAX_ORDER
    ensures Orders(bs + [b])
    ensures FreeAll(L, bs + [b]) == FreeBlock(FreeAll(L, bs), b.index, b.order)
    decreases |bs|
  {
    if bs == [] {
      assert [b][1..] == [] && bs + [b] == [b];
    } else {
      FreeAllSnoc(FreeBlock(L, bs[0].index, bs[0].order), bs[1..], b);
      assert (bs + [b])[1..] == bs[1..] + [b];
    }
  }

  /** Freeing the first block of a range leaves the rest of it untouched. */
  lemma RegionStep(L: Lists, n: nat, index: nat, count: nat, order: nat)
    requires Canonical(L, n) && index + count <= n && FreePages(L, n) !! Range(index, count)
    requires order <= MAX_ORDER && Aligned(index, order) && Pow2(order) <= count
    ensures Fits(index, order, n) && NoneFree(L, index, order)
    ensures Canonical(FreeBlock(L, index, order), n)
    ensures FreePages(FreeBlock(L, index, order), n) == FreePages(L, n) + Pages(index, order)
    ensures FreePages(FreeBlock(L, index, order), n) !! Range(index + Pow2(order), count - Pow2(order))
    ensures Range(index, count) == Pages(index, order) + Range(index + Pow2(order), count - Pow2(order))
  {
    forall p: nat | InBlock(p, index, order) ensures !IsFree(L, p) {
      assert p in Range(index, count);
      assert p !in FreePages(L, n);
    }
    FreeBlockCorrect(L, n, index, order);
    FreeBlockPages(L, n, index, order);
  }

  /** Any tiling of a range of allocated pages can be freed, and covers exactly the range. */
  lemma {:induction false} TilesLegal(L: Lists, n: nat, bs: seq<Block>, from: nat, to: nat)
    requires Tiles(bs, from, to) && from <= to <= n
    requires Canonical(L, n) && FreePages(L, n) !! Range(from, to - from)
    ensures Legal(L, n, bs) && Cover(bs) == Range(from, to - from)
    decreases |bs|
  {
    if bs != [] {
      var next := from + Pow2(bs[0].order);
      RegionStep(L, n, from, to - from, bs[0].order);
      TilesLegal(FreeBlock(L, from, bs[0].order), n, bs[1..], next, to);
    }
  }
}
