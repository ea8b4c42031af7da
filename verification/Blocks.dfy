/**
  Geometry of naturally aligned power-of-two blocks of page frames: the block of each order
  that holds a page, the buddy of a block and the block two buddies combine into.
 */
module Blocks {
  import opened Bits

  const MAX_ORDER: nat := 8
  const PAGE_SIZE: nat := 4096

  datatype Block = Block(index: nat, order: nat)

  predicate Aligned(index: nat, order: nat) {
    index % Pow2(order) == 0
  }

  /** First page of the block of the given order that holds page `p`. */
  function Base(p: nat, order: nat): (r: nat)
  {
    DivModSplit(p, Pow2(order));
    p - p % Pow2(order)
  }

  predicate InBlock(p: nat, index: nat, order: nat) {
    index <= p < index + Pow2(order)
  }

  /** The pages of a block. */
  function Pages(index: nat, order: nat): set<nat> {
    set p: nat | p < index + Pow2(order) && InBlock(p, index, order)
  }

  /** `get_buddy_index` */
  function BuddyIndex(index: nat, order: nat): nat {
    Xor(index, Pow2(order))
  }

  /** `get_combined_index` */
  function CombinedIndex(index: nat, order: nat): nat {
    AndNot(index, Pow2(order))
  }

  /** `get_size_order` */
  function SizeOrder(count: nat): nat
    requires count > 0
  {
    var order := Log2(count);
    if And(count, Pow2(order)) != count then order + 1 else order
  }

  /** `get_size_order` finds the least order whose blocks have room for `count` pages. */
  lemma SizeOrderIsLeast(count: nat, k: nat)
    requires count > 0
    ensures count <= Pow2(k) <==> SizeOrder(count) <= k
  {
    var o := Log2(count);
    AndPow2(count, o);
    assert SizeOrder(count) == o ==> count == Pow2(o);
    assert count == Pow2(o) ==> SizeOrder(count) == o by {
      BitOfPow2(o, o);
    }
    if k < o { Pow2StrictlyMonotone(k, o); }
    if k == o + 1 { assert Pow2(k) == 2 * Pow2(o); }
    if k > o + 1 { Pow2Monotone(o + 1, k); }
  }

  lemma BaseBounds(p: nat, k: nat)
    ensures Base(p, k) <= p < Base(p, k) + Pow2(k)
    ensures Aligned(Base(p, k), k)
  {
    var d := Pow2(k);
    DivModSplit(p, d);
    DivModUnique(Base(p, k), d, p / d, 0);
  }

  /** An aligned block is the block of its order around each of its pages. */
  lemma BaseUnique(h: nat, k: nat, p: nat)
    requires Aligned(h, k)
    ensures Base(p, k) == h <==> h <= p < h + Pow2(k)
  {
    var d := Pow2(k);
    BaseBounds(p, k);
    DivModSplit(h, d);
    if h <= p < h + d {
      DivModUnique(p, d, h / d, p - h);
    }
  }

  lemma BaseOfAligned(h: nat, k: nat)
    ensures Aligned(h, k) <==> Base(h, k) == h
  {}

  /** One level up, a block either keeps its first page or moves down by its own size. */
  lemma BaseStep(p: nat, k: nat)
    ensures Base(p, k + 1) == Base(p, k) || Base(p, k + 1) == Base(p, k) - Pow2(k)
    ensures Base(p, k + 1) == Base(p, k) <==> (p / Pow2(k)) % 2 == 0
  {
    ModDouble(p, Pow2(k));
  }

  /** The larger block around a page is the larger block around the smaller one. */
  lemma {:induction false} BaseNested(p: nat, k: nat, j: nat)
    requires k <= j
    ensures Base(Base(p, k), j) == Base(p, j)
    decreases j - k
  {
    BaseBounds(p, k);
    if k == j {
      BaseOfAligned(Base(p, k), k);
    } else {
      var b := Base(p, k);
      var c := Base(p, k + 1);
      BaseStep(p, k);
      BaseBounds(p, k + 1);
      assert c <= b < c + Pow2(k + 1);
      BaseUnique(c, k + 1, b);
      BaseNested(b, k + 1, j);
      BaseNested(p, k + 1, j);
    }
  }

  lemma AlignedDown(h: nat, j: nat, k: nat)
    requires Aligned(h, k) && j <= k
    ensures Aligned(h, j)
  {
    Pow2Add(j, k - j);
    var d, e := Pow2(j), Pow2(k - j);
    DivModSplit(h, Pow2(k));
    var q := h / Pow2(k);
    assert h == (d * e) * q == d * (e * q);
    DivModUnique(h, d, e * q, 0);
  }

  /** `^` and `&!` with 2^k on an aligned index, as arithmetic. */
  lemma BuddyArithmetic(i: nat, k: nat)
    requires Aligned(i, k)
    ensures Aligned(i, k + 1) ==> BuddyIndex(i, k) == i + Pow2(k) && CombinedIndex(i, k) == i
    ensures !Aligned(i, k + 1) ==> i >= Pow2(k) && BuddyIndex(i, k) == CombinedIndex(i, k) == i - Pow2(k)
    ensures Base(i, k + 1) == CombinedIndex(i, k)
  {
    BitIsDigit(i, k);
    XorPow2(i, k);
    AndNotPow2(i, k);
    BaseStep(i, k);
    BaseOfAligned(i, k);
    BaseOfAligned(i, k + 1);
  }

  lemma AlignedNeighbours(i: nat, k: nat)
    requires Aligned(i, k)
    ensures Aligned(i + Pow2(k), k)
    ensures i >= Pow2(k) ==> Aligned(i - Pow2(k), k)
  {
    var d := Pow2(k);
    DivModSplit(i, d);
    var q := i / d;
    assert i + d == d * (q + 1);
    DivModUnique(i + d, d, q + 1, 0);
    if i >= d {
      assert i - d == d * (q - 1);
      DivModUnique(i - d, d, q - 1, 0);
    }
  }

  /** A block and its buddy are the two halves of the block they combine into. */
  lemma BuddyHalves(i: nat, k: nat)
    requires Aligned(i, k)
    ensures var b, c := BuddyIndex(i, k), CombinedIndex(i, k);
            && Aligned(b, k) && Aligned(c, k + 1)
            && c == Base(i, k + 1) == Base(b, k + 1)
            && (if Aligned(i, k + 1) then c == i && b == i + Pow2(k) else c == b && i == b + Pow2(k))
            && BuddyIndex(b, k) == i
  {
    var b, c := BuddyIndex(i, k), CombinedIndex(i, k);
    BuddyArithmetic(i, k);
    AlignedNeighbours(i, k);
    BaseBounds(i, k + 1);
    BaseUnique(c, k + 1, b);
    BuddyArithmetic(b, k);
  }

  lemma PagesOfHalves(i: nat, k: nat)
    requires Aligned(i, k)
    ensures forall p: nat ::
              InBlock(p, CombinedIndex(i, k), k + 1) <==> InBlock(p, i, k) || InBlock(p, BuddyIndex(i, k), k)
    ensures forall p: nat :: !(InBlock(p, i, k) && InBlock(p, BuddyIndex(i, k), k))
  {
    BuddyHalves(i, k);
  }
}
