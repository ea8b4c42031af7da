/**
  The length of the buddy bitmap. It has a word for every page, but before merging a block the
  allocator also reads the word of the block's buddy, which may lie past the end. This module says
  exactly which frees do that.
 */
module BitmapLimits {
  import opened Bits
  import opened Blocks
  import opened BuddyLists

  const WORD: nat := 64

  /** Words of the bitmap for n pages. */
  function BitmapWords(n: nat): nat {
    (n + 63) / WORD
  }

  /** The merge test for block (i, k) would index past the bitmap. */
  predicate BuddyMissing(n: nat, i: nat, k: nat) {
    k < MAX_ORDER && BuddyIndex(i, k) / WORD >= BitmapWords(n)
  }

  /** n is not a multiple of a word, or it is a multiple of a whole MAX_ORDER block. */
  predicate BitmapSafe(n: nat) {
    n % WORD == 0 ==> n % 256 == 0
  }

  /** Order of the last block below an unsafe n whose buddy starts at n. */
  function TopOrder(n: nat): nat {
    if n % 128 == 64 then 6 else 7
  }

  function TopIndex(n: nat): nat
    requires !BitmapSafe(n)
  {
    if n % 128 == 64 then n - 64 else n - 128
  }

  lemma WordBelow(p: nat, n: nat)
    ensures p / WORD < BitmapWords(n) <==> p < n || (p - n < WORD && p / WORD * WORD < n)
  {}

  lemma TopFitsAt(n: nat, k: nat, d: nat)
    requires k < MAX_ORDER && d == Pow2(k) && n >= d && n % (2 * d) == d
    ensures Fits(n - d, k, n) && Aligned(n - d, k + 1) && BuddyIndex(n - d, k) == n
  {
    DivModSplit(n, 2 * d);
    DivModUnique(n - d, 2 * d, n / (2 * d), 0);
    assert Pow2(k + 1) == 2 * d;
    AlignedDown(n - d, k, k + 1);
    BuddyArithmetic(n - d, k);
  }

  lemma TopFits(n: nat)
    requires !BitmapSafe(n)
    ensures Fits(TopIndex(n), TopOrder(n), n) && Aligned(TopIndex(n), TopOrder(n) + 1)
    ensures TopIndex(n) + Pow2(TopOrder(n)) == n && BuddyIndex(TopIndex(n), TopOrder(n)) == n
  {
    TopRemainder(n);
    hide Aligned, BuddyIndex, Fits, Pow2, BitmapSafe;
    SmallPowers();
    if n % 128 == 64 {
      TopFitsAt(n, 6, 64);
    } else {
      TopFitsAt(n, 7, 128);
    }
  }

  lemma TopRemainder(n: nat)
    requires !BitmapSafe(n)
    ensures n >= 64 && (n % 128 == 64 || (n >= 128 && n % 256 == 128))
  {
    hide BitmapSafe;
    var h, r := SplitGroup(n);
    GroupRemainders(n, h, r);
  }

  /** A multiple of a word as whole groups of 256 pages and words of a last group. */
  lemma SplitGroup(n: nat) returns (h: nat, r: nat)
    requires !BitmapSafe(n)
    ensures n == 256 * h + 64 * r && 0 < r < 4
  {
    var q := n / WORD;
    assert n == 64 * q;
    h, r := q / 4, q % 4;
    if r == 0 { DivModUnique(n, 256, h, 0); }
  }

  lemma GroupRemainders(n: nat, h: nat, r: nat)
    requires n == 256 * h + 64 * r && r < 4
    ensures n % 256 == 64 * r && n % 128 == if r == 1 || r == 3 then 64 else 0
  {
    DivModUnique(n, 256, h, 64 * r);
    if r >= 2 {
      DivModUnique(n, 128, 2 * h + 1, 64 * (r - 2));
    } else {
      DivModUnique(n, 128, 2 * h, 64 * r);
    }
  }

  /** A block that starts at the largest multiple of its double size below n makes n that much larger. */
  lemma EndOfLastBlock(n: nat, k: nat)
    requires k < MAX_ORDER && n >= Pow2(k) && Aligned(n - Pow2(k), k + 1) && n % WORD == 0
    ensures !BitmapSafe(n) && k == TopOrder(n)
  {
    SmallPowers();
    var d := Pow2(k);
    DivModSplit(n - d, 2 * d);
    DivModUnique(n, 2 * d, (n - d) / (2 * d), d);
    assert n % (2 * d) == d;
    if k <= 5 {
      AlignedDown(n, k + 1, 6);
      assert false;
    } else if k == 6 {
      assert n % 128 == 64;
    } else {
      assert n % 256 == 128;
    }
  }

  /** One block at most has a missing buddy word: the top block of an unsafe n. */
  lemma MissingIsTop(n: nat, i: nat, k: nat)
    requires Fits(i, k, n)
    ensures BuddyMissing(n, i, k) <==> !BitmapSafe(n) && i == TopIndex(n) && k == TopOrder(n)
  {
    if !BitmapSafe(n) {
      TopFits(n);
    }
    if BuddyMissing(n, i, k) {
      MissingEnds(n, i, k);
      EndOfLastBlock(n, k);
      TopFits(n);
    }
  }

  lemma MissingEnds(n: nat, i: nat, k: nat)
    requires Fits(i, k, n) && BuddyMissing(n, i, k)
    ensures Aligned(i, k + 1) && i + Pow2(k) == n && n % WORD == 0
  {
    BuddyArithmetic(i, k);
    hide BuddyIndex, CombinedIndex, Aligned, Pow2;
    WordBelow(BuddyIndex(i, k), n);
  }

  /** Some step of this free, after the merges before it, indexes past the bitmap. */
  predicate FreeOverruns(L: Lists, n: nat, i: nat, k: nat)
    requires |L| == MAX_ORDER + 1 && k <= MAX_ORDER
    decreases MAX_ORDER - k
  {
    || BuddyMissing(n, i, k)
    || (&& k < MAX_ORDER && BuddyIndex(i, k) in L[k]
        && FreeOverruns(L[k := Remove(L[k], BuddyIndex(i, k))], n, CombinedIndex(i, k), k + 1))
  }

  /** The top block is not entirely free, as in every state the manager reaches without a panic. */
  ghost predicate TopNotFree(L: Lists, n: nat) {
    !BitmapSafe(n) ==> !AllFree(L, TopIndex(n), TopOrder(n))
  }

  /** The given pages do not include the whole top block. */
  ghost predicate TopOpen(pages: set<nat>, n: nat) {
    !BitmapSafe(n) ==> !(Pages(TopIndex(n), TopOrder(n)) <= pages)
  }

  lemma TopOpenIsNotFree(L: Lists, n: nat)
    requires Canonical(L, n)
    ensures TopNotFree(L, n) <==> TopOpen(FreePages(L, n), n)
  {
    if !BitmapSafe(n) {
      TopFits(n);
      var t, K := TopIndex(n), TopOrder(n);
      if Pages(t, K) <= FreePages(L, n) {
        forall p: nat | InBlock(p, t, K) ensures IsFree(L, p) {
          assert p in Pages(t, K);
        }
      }
      if AllFree(L, t, K) {
        forall p | p in Pages(t, K) ensures p in FreePages(L, n) {
          assert InBlock(p, t, K);
        }
      }
    }
  }

  lemma StillNotFree(L: Lists, L1: Lists, n: nat)
    requires TopNotFree(L, n) && forall p: nat :: IsFree(L1, p) ==> IsFree(L, p)
    ensures TopNotFree(L1, n)
  {}

  /** A free overruns only if the pages free afterwards would include the whole top block. */
  lemma OpenNeverOverruns(L: Lists, n: nat, i: nat, k: nat, pages: set<nat>)
    requires Canonical(L, n) && Fits(i, k, n) && NoneFree(L, i, k)
    requires TopOpen(pages, n) && FreePages(L, n) + Pages(i, k) <= pages
    ensures !FreeOverruns(L, n, i, k)
  {
    TopOpenIsNotFree(L, n);
    OverrunPages(L, n, i, k);
  }

  /** A free that overruns was about to make the top block free. */
  lemma {:induction false} OverrunFillsTop(L: Lists, n: nat, i: nat, k: nat)
    requires Canonical(L, n) && Fits(i, k, n) && NoneFree(L, i, k) && FreeOverruns(L, n, i, k)
    ensures !BitmapSafe(n)
    ensures forall p: nat :: InBlock(p, TopIndex(n), TopOrder(n)) ==> IsFree(L, p) || InBlock(p, i, k)
    decreases MAX_ORDER - k
  {
    assert |L| == MAX_ORDER + 1;
    hide Canonical, IsFree, BuddyIndex, CombinedIndex, BuddyMissing, InBlock, Fits, NoneFree;
    MissingIsTop(n, i, k);
    if !BuddyMissing(n, i, k) {
      MergeStep(L, n, i, k);
      var L1, c, k1 := L[k := Remove(L[k], BuddyIndex(i, k))], CombinedIndex(i, k), k + 1;
      OverrunFillsTop(L1, n, c, k1);
      forall p: nat | InBlock(p, TopIndex(n), TopOrder(n)) ensures IsFree(L, p) || InBlock(p, i, k) {
        assert IsFree(L1, p) || InBlock(p, c, k1);
      }
    }
  }

  /** The block that a free adds to a list, if it is the top block, was the one whose test overruns. */
  lemma {:induction false} NewTopOverruns(L: Lists, n: nat, i: nat, k: nat)
    requires |L| == MAX_ORDER + 1 && k <= MAX_ORDER && !BitmapSafe(n)
    requires (forall j :: 0 <= j < |L| ==> NoDuplicates(L[j])) && TopIndex(n) !in L[TopOrder(n)]
    requires TopIndex(n) in FreeBlock(L, i, k)[TopOrder(n)]
    ensures FreeOverruns(L, n, i, k)
    decreases MAX_ORDER - k
  {
    var b := BuddyIndex(i, k);
    if k < MAX_ORDER && b in L[k] {
      RemoveContents(L[k], b);
      NewTopOverruns(L[k := Remove(L[k], b)], n, CombinedIndex(i, k), k + 1);
    } else {
      TopFits(n);
    }
  }

  /**
    A legal free indexes past the bitmap if and only if n is unsafe and the free would leave the top
    block entirely free.
   */
  lemma OverrunPages(L: Lists, n: nat, i: nat, k: nat)
    requires Canonical(L, n) && Fits(i, k, n) && NoneFree(L, i, k) && TopNotFree(L, n)
    ensures FreeOverruns(L, n, i, k) <==>
              !BitmapSafe(n) && Pages(TopIndex(n), TopOrder(n)) <= FreePages(L, n) + Pages(i, k)
    ensures FreeOverruns(L, n, i, k) <==> !TopNotFree(FreeBlock(L, i, k), n)
  {
    FreeBlockCorrect(L, n, i, k);
    if !BitmapSafe(n) {
      var t, K := TopIndex(n), TopOrder(n);
      TopFits(n);
      var M := FreeBlock(L, i, k);
      TopPages(L, M, n, i, k, t, K);
      if AllFree(M, t, K) {
        TopIsHeld(M, n);
        if t in L[K] { HeldBlockIsFree(L, t, K); }
        NewTopOverruns(L, n, i, k);
      }
    }
    if FreeOverruns(L, n, i, k) {
      OverrunFillsTop(L, n, i, k);
    }
  }

  lemma TopPages(L: Lists, M: Lists, n: nat, i: nat, k: nat, t: nat, K: nat)
    requires Canonical(L, n) && t + Pow2(K) <= n
    requires forall p: nat :: IsFree(M, p) <==> IsFree(L, p) || InBlock(p, i, k)
    ensures AllFree(M, t, K) <==> Pages(t, K) <= FreePages(L, n) + Pages(i, k)
    ensures AllFree(M, t, K) <==> forall p: nat :: InBlock(p, t, K) ==> IsFree(L, p) || InBlock(p, i, k)
  {
    if Pages(t, K) <= FreePages(L, n) + Pages(i, k) {
      forall p: nat | InBlock(p, t, K) ensures IsFree(M, p) {
        assert p in Pages(t, K);
      }
    }
    if AllFree(M, t, K) {
      forall p | p in Pages(t, K) ensures p in FreePages(L, n) + Pages(i, k) {
        assert InBlock(p, t, K);
      }
    }
  }

  /** A free top block is on its own list, because no larger block around it fits below n. */
  lemma TopIsHeld(L: Lists, n: nat)
    requires Canonical(L, n) && !BitmapSafe(n) && AllFree(L, TopIndex(n), TopOrder(n))
    ensures TopIndex(n) in L[TopOrder(n)]
  {
    TopFits(n);
    var t, K := TopIndex(n), TopOrder(n);
    var j := FullBlockIsHeld(L, n, t, K);
    if j == K {
      BaseOfAligned(t, K);
    } else {
      assert InPlace(L[j], j, n);
      assert Fits(Base(t, j), j, n);
      BaseBounds(t, j);
      BaseOfAligned(t, K + 1);
      BaseNested(t, K + 1, j);
      BaseUnique(Base(t, j), j, t);
      TopEndsInside(t, K, j);
    }
  }

  /** The larger aligned block around t reaches past t + 2^K. */
  lemma TopEndsInside(t: nat, K: nat, j: nat)
    requires K < j && Aligned(t, K + 1)
    ensures t + Pow2(K) < Base(t, j) + Pow2(j)
  {
    var u := t + Pow2(K);
    BaseOfAligned(t, K + 1);
    BaseUnique(t, K + 1, u);
    BaseNested(u, K + 1, j);
    BaseNested(t, K + 1, j);
    BaseBounds(u, j);
  }

  lemma EmptyOverruns(n: nat)
    requires !BitmapSafe(n)
    ensures var i, k := TopIndex(n), TopOrder(n);
            Fits(i, k, n) && NoneFree(EMPTY_LISTS, i, k) && FreeOverruns(EMPTY_LISTS, n, i, k)
  {
    TopFits(n);
    MissingIsTop(n, TopIndex(n), TopOrder(n));
  }

  /** No legal free of any state indexes past the bitmap if and only if n is safe. */
  lemma BitmapBounds(n: nat)
    ensures BitmapSafe(n) <==>
              forall L: Lists, i: nat, k: nat ::
                Canonical(L, n) && Fits(i, k, n) && NoneFree(L, i, k) ==> !FreeOverruns(L, n, i, k)
  {
    if BitmapSafe(n) {
      forall L: Lists, i: nat, k: nat | Canonical(L, n) && Fits(i, k, n) && NoneFree(L, i, k)
        ensures !FreeOverruns(L, n, i, k)
      {
        if FreeOverruns(L, n, i, k) { OverrunFillsTop(L, n, i, k); }
      }
    } else {
      EmptyIsCanonical(n);
      EmptyOverruns(n);
    }
  }
}
