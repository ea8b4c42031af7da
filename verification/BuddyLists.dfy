/**
  The buddy allocator on values: nine lists of free block heads, one per order, in list order.
  `FreeBlock` and `AllocBlock` follow the recursion of the source; `Canonical` is what every
  operation keeps, and the theorems say what the lists mean in terms of free pages alone.
 */
module BuddyLists {
  import opened Common
  import opened Bits
  import opened Blocks

  type Lists = seq<seq<nat>>

  datatype Allocation = Allocation(index: nat, lists: Lists)

  const EMPTY_LISTS: Lists := [[], [], [], [], [], [], [], [], []]

  // ----- Which pages are free

  /** The block of order `k` around page `p` is on the list of its order. */
  ghost predicate Holds(L: Lists, p: nat, k: nat) {
    k < |L| && Base(p, k) in L[k]
  }

  ghost predicate IsFree(L: Lists, p: nat) {
    exists k :: 0 <= k < |L| && Holds(L, p, k)
  }

  ghost function FreePages(L: Lists, n: nat): set<nat> {
    set p: nat | p < n && IsFree(L, p)
  }

  ghost predicate AllFree(L: Lists, index: nat, order: nat) {
    forall p :: InBlock(p, index, order) ==> IsFree(L, p)
  }

  ghost predicate NoneFree(L: Lists, index: nat, order: nat) {
    forall p :: InBlock(p, index, order) ==> !IsFree(L, p)
  }

  // ----- The invariant

  ghost predicate NoDuplicates(s: seq<nat>) {
    forall i, j :: 0 <= i < j < |s| ==> s[i] != s[j]
  }

  ghost predicate Fits(index: nat, order: nat, n: nat) {
    order <= MAX_ORDER && Aligned(index, order) && index + Pow2(order) <= n
  }

  ghost predicate InPlace(s: seq<nat>, k: nat, n: nat) {
    NoDuplicates(s) && forall h :: h in s ==> Fits(h, k, n)
  }

  /** Every free page lies in one block only. */
  ghost predicate DisjointBlocks(L: Lists) {
    forall p, j, k :: 0 <= j < k < |L| && Holds(L, p, j) ==> !Holds(L, p, k)
  }

  /** Two free buddies below the maximal order never stay unmerged. */
  ghost predicate Merged(s: seq<nat>, k: nat) {
    forall h :: h in s ==> BuddyIndex(h, k) !in s
  }

  ghost predicate Canonical(L: Lists, n: nat) {
    && |L| == MAX_ORDER + 1
    && (forall k :: 0 <= k < |L| ==> InPlace(L[k], k, n))
    && DisjointBlocks(L)
    && (forall k :: 0 <= k < MAX_ORDER ==> Merged(L[k], k))
  }

  // ----- The operations

  function Remove(s: seq<nat>, x: nat): seq<nat> {
    if s == [] then [] else if s[0] == x then s[1..] else [s[0]] + Remove(s[1..], x)
  }

  /** `free_block` */
  function FreeBlock(L: Lists, index: nat, order: nat): (r: Lists)
    requires |L| == MAX_ORDER + 1 && order <= MAX_ORDER
    ensures |r| == |L|
    decreases MAX_ORDER - order
  {
    var buddy := BuddyIndex(index, order);
    if order < MAX_ORDER && buddy in L[order] then
      FreeBlock(L[order := Remove(L[order], buddy)], CombinedIndex(index, order), order + 1)
    else
      L[order := [index] + L[order]]
  }

  /** `alloc_block`; None stands for the "Out of physical memory" panic. */
  function AllocBlock(L: Lists, order: nat): (r: Option<Allocation>)
    requires |L| == MAX_ORDER + 1 && order <= MAX_ORDER
    ensures r.Some? ==> |r.value.lists| == |L|
    decreases MAX_ORDER - order
  {
    if L[order] != [] then
      Some(Allocation(L[order][0], L[order := L[order][1..]]))
    else if order == MAX_ORDER then
      None
    else
      match AllocBlock(L, order + 1)
      case None => None
      case Some(Allocation(higher, L1)) =>
        Some(Allocation(higher, L1[order := [BuddyIndex(higher, order)] + L1[order]]))
  }

  // ----- One list changes

  lemma {:induction false} RemoveContents(s: seq<nat>, x: nat)
    requires NoDuplicates(s) && x in s
    ensures NoDuplicates(Remove(s, x))
    ensures forall y :: y in Remove(s, x) <==> y in s && y != x
  {
    if s[0] != x {
      assert NoDuplicates(s[1..]);
      RemoveContents(s[1..], x);
      var t := Remove(s[1..], x);
      assert s == [s[0]] + s[1..];
      assert s[0] !in s[1..];
      assert s[0] !in t;
    } else {
      assert s == [x] + s[1..];
    }
  }

  lemma {:induction false} RemoveAt(s: seq<nat>, i: nat)
    requires NoDuplicates(s) && i < |s|
    ensures Remove(s, s[i]) == s[..i] + s[i + 1..]
  {
    if i > 0 {
      assert NoDuplicates(s[1..]);
      RemoveAt(s[1..], i - 1);
      assert s[1..][i - 1] == s[i];
      assert [s[0]] + s[1..][..i - 1] == s[..i] && s[1..][i..] == s[i + 1..];
    }
  }

  lemma HoldsElsewhere(L: Lists, k: nat, s: seq<nat>, p: nat, j: nat)
    requires k < |L|
    ensures j != k ==> (Holds(L[k := s], p, j) <==> Holds(L, p, j))
    ensures Holds(L[k := s], p, k) <==> Base(p, k) in s
  {}

  /** Taking a block off its list frees nothing and takes away exactly its pages. */
  lemma TakeKeepsCanonical(L: Lists, n: nat, b: nat, k: nat, s: seq<nat>)
    requires Canonical(L, n) && k < |L| && b in L[k]
    requires NoDuplicates(s) && forall y :: y in s <==> y in L[k] && y != b
    ensures Canonical(L[k := s], n)
    ensures forall p: nat :: IsFree(L[k := s], p) <==> IsFree(L, p) && !InBlock(p, b, k)
  {
    var L' := L[k := s];
    forall p: nat, j | 0 <= j < |L| ensures Holds(L', p, j) <==> Holds(L, p, j) && !(j == k && InBlock(p, b, k)) {
      HoldsElsewhere(L, k, s, p, j);
      BaseUnique(b, k, p);
    }
    forall p: nat ensures IsFree(L', p) <==> IsFree(L, p) && !InBlock(p, b, k) {
      BaseUnique(b, k, p);
      if IsFree(L', p) {
        var j :| 0 <= j < |L'| && Holds(L', p, j);
        assert Holds(L, p, j);
        if InBlock(p, b, k) { assert Holds(L, p, k); }
      }
      if IsFree(L, p) && !InBlock(p, b, k) {
        var j :| 0 <= j < |L| && Holds(L, p, j);
        assert Holds(L', p, j);
      }
    }
  }

  /** Putting an unmergeable block on its list adds exactly its pages. */
  lemma PutKeepsCanonical(L: Lists, n: nat, i: nat, k: nat)
    requires Canonical(L, n) && Fits(i, k, n) && NoneFree(L, i, k)
    requires k < MAX_ORDER ==> BuddyIndex(i, k) !in L[k]
    ensures Canonical(L[k := [i] + L[k]], n)
    ensures forall p: nat :: IsFree(L[k := [i] + L[k]], p) <==> IsFree(L, p) || InBlock(p, i, k)
  {
    var s := [i] + L[k];
    var L' := L[k := s];
    forall p: nat, j | 0 <= j < |L| ensures Holds(L', p, j) <==> Holds(L, p, j) || (j == k && InBlock(p, i, k)) {
      HoldsElsewhere(L, k, s, p, j);
      BaseUnique(i, k, p);
    }
    forall p: nat ensures IsFree(L', p) <==> IsFree(L, p) || InBlock(p, i, k) {
      if IsFree(L', p) {
        var j :| 0 <= j < |L'| && Holds(L', p, j);
      }
      if IsFree(L, p) {
        var j :| 0 <= j < |L| && Holds(L, p, j);
        assert Holds(L', p, j);
      }
      if InBlock(p, i, k) { assert Holds(L', p, k); }
    }
    assert i !in L[k] by {
      BaseOfAligned(i, k);
      if i in L[k] {
        assert Holds(L, i, k);
        assert InBlock(i, i, k);
      }
    }
    assert NoDuplicates(s);
    if k < MAX_ORDER {
      forall h | h in s ensures BuddyIndex(h, k) !in s {
        BuddyHalves(h, k);
      }
    }
  }

  // ----- free_block

  lemma HeldBlockIsFree(L: Lists, h: nat, k: nat)
    requires k < |L| && h in L[k] && Aligned(h, k)
    ensures AllFree(L, h, k)
  {
    forall p: nat | InBlock(p, h, k) ensures IsFree(L, p) {
      BaseUnique(h, k, p);
      assert Holds(L, p, k);
    }
  }

  /** Block (c, k + 1) is made of the blocks i and b of order k. */
  ghost predicate Halves(c: nat, i: nat, b: nat, k: nat) {
    && (forall p: nat :: InBlock(p, c, k + 1) <==> InBlock(p, i, k) || InBlock(p, b, k))
    && (forall p: nat :: !(InBlock(p, i, k) && InBlock(p, b, k)))
  }

  /** Taking a free half away leaves the whole ready to be freed. */
  lemma TakeHalf(L: Lists, n: nat, i: nat, b: nat, c: nat, k: nat, s: seq<nat>)
    requires Canonical(L, n) && k < MAX_ORDER && b in L[k] && NoneFree(L, i, k) && Halves(c, i, b, k)
    requires NoDuplicates(s) && forall y :: y in s <==> y in L[k] && y != b
    ensures Canonical(L[k := s], n) && NoneFree(L[k := s], c, k + 1)
    ensures forall p: nat :: IsFree(L[k := s], p) || InBlock(p, c, k + 1) <==> IsFree(L, p) || InBlock(p, i, k)
  {
    TakeKeepsCanonical(L, n, b, k, s);
    assert InPlace(L[k], k, n);
    assert Fits(b, k, n);
    HeldBlockIsFree(L, b, k);
    var L1, k1 := L[k := s], k + 1;
    forall p: nat | InBlock(p, c, k1) ensures !IsFree(L1, p) {
      assert InBlock(p, i, k) || InBlock(p, b, k);
    }
    forall p: nat ensures IsFree(L1, p) || InBlock(p, c, k1) <==> IsFree(L, p) || InBlock(p, i, k) {
      assert InBlock(p, c, k1) <==> InBlock(p, i, k) || InBlock(p, b, k);
    }
  }

  lemma MergeFits(i: nat, k: nat, n: nat)
    requires k < MAX_ORDER && Fits(i, k, n) && Fits(BuddyIndex(i, k), k, n)
    ensures Fits(CombinedIndex(i, k), k + 1, n)
  {
    BuddyHalves(i, k);
  }

  /** Taking the free buddy away leaves the combined block ready to be freed. */
  lemma MergeStep(L: Lists, n: nat, i: nat, k: nat)
    requires Canonical(L, n) && Fits(i, k, n) && NoneFree(L, i, k)
    requires k < MAX_ORDER && BuddyIndex(i, k) in L[k]
    ensures var L1, c := L[k := Remove(L[k], BuddyIndex(i, k))], CombinedIndex(i, k);
            && Canonical(L1, n) && Fits(c, k + 1, n) && NoneFree(L1, c, k + 1)
            && forall p: nat :: IsFree(L1, p) || InBlock(p, c, k + 1) <==> IsFree(L, p) || InBlock(p, i, k)
  {
    var b, c := BuddyIndex(i, k), CombinedIndex(i, k);
    RemoveContents(L[k], b);
    PagesOfHalves(i, k);
    TakeHalf(L, n, i, b, c, k, Remove(L[k], b));
    MergeFits(i, k, n);
  }

  /** `free_block` keeps the invariant and adds exactly the pages of the freed block. */
  lemma {:induction false} FreeBlockCorrect(L: Lists, n: nat, i: nat, k: nat)
    requires Canonical(L, n) && Fits(i, k, n) && NoneFree(L, i, k)
    ensures Canonical(FreeBlock(L, i, k), n)
    ensures forall p: nat :: IsFree(FreeBlock(L, i, k), p) <==> IsFree(L, p) || InBlock(p, i, k)
    decreases MAX_ORDER - k
  {
    var b := BuddyIndex(i, k);
    if k < MAX_ORDER && b in L[k] {
      MergeStep(L, n, i, k);
      FreeBlockCorrect(L[k := Remove(L[k], b)], n, CombinedIndex(i, k), k + 1);
    } else {
      PutKeepsCanonical(L, n, i, k);
    }
  }

  lemma FreeBlockPages(L: Lists, n: nat, i: nat, k: nat)
    requires Canonical(L, n) && Fits(i, k, n) && NoneFree(L, i, k)
    ensures FreePages(FreeBlock(L, i, k), n) == FreePages(L, n) + Pages(i, k)
    ensures FreePages(L, n) !! Pages(i, k)
  {
    FreeBlockCorrect(L, n, i, k);
  }

  // ----- alloc_block

  /** `alloc_block` returns an aligned free run and takes away exactly its pages. */
  lemma {:induction false} AllocBlockCorrect(L: Lists, n: nat, k: nat)
    requires Canonical(L, n) && k <= MAX_ORDER && AllocBlock(L, k).Some?
    ensures var Allocation(h, L') := AllocBlock(L, k).value;
            && Fits(h, k, n) && AllFree(L, h, k)
            && Canonical(L', n)
            && (forall p: nat :: IsFree(L', p) <==> IsFree(L, p) && !InBlock(p, h, k))
            && (forall j :: 0 <= j < k ==> L'[j] == L[j])
    decreases MAX_ORDER - k
  {
    if L[k] != [] {
      var h := L[k][0];
      assert L[k] == [h] + L[k][1..];
      TakeKeepsCanonical(L, n, h, k, L[k][1..]);
      HeldBlockIsFree(L, h, k);
    } else {
      AllocBlockCorrect(L, n, k + 1);
      var Allocation(h, L1) := AllocBlock(L, k + 1).value;
      AlignedDown(h, k, k + 1);
      BuddyHalves(h, k);
      PagesOfHalves(h, k);
      var b := BuddyIndex(h, k);
      PutKeepsCanonical(L1, n, b, k);
    }
  }

  lemma AllocBlockPages(L: Lists, n: nat, k: nat)
    requires Canonical(L, n) && k <= MAX_ORDER && AllocBlock(L, k).Some?
    ensures var Allocation(h, L') := AllocBlock(L, k).value;
            && Pages(h, k) <= FreePages(L, n)
            && FreePages(L', n) == FreePages(L, n) - Pages(h, k)
  {
    AllocBlockCorrect(L, n, k);
  }

  // ----- The canonical form

  lemma UpperHalf(h: nat, k: nat) returns (u: nat)
    requires k > 0 && Aligned(h, k)
    ensures Aligned(h, k - 1) && Aligned(u, k - 1) && Halves(h, h, u, k - 1)
    ensures u == BuddyIndex(h, k - 1) && Base(u, k) == Base(h, k) == h
  {
    u := BuddyIndex(h, k - 1);
    AlignedDown(h, k - 1, k);
    BuddyHalves(h, k - 1);
    PagesOfHalves(h, k - 1);
    BaseOfAligned(h, k);
  }

  /** A fully free aligned block lies inside a block that is on a list. */
  lemma {:induction false} FullBlockIsHeld(L: Lists, n: nat, h: nat, k: nat) returns (j: nat)
    requires Canonical(L, n) && k <= MAX_ORDER && Aligned(h, k) && AllFree(L, h, k)
    ensures k <= j <= MAX_ORDER && Holds(L, h, j)
    decreases k
  {
    if k == 0 {
      assert InBlock(h, h, 0);
      j :| 0 <= j < |L| && Holds(L, h, j);
    } else {
      var u := UpperHalf(h, k);
      j := FullBlockIsHeld(L, n, h, k - 1);
      if j < k {
        j := FullBlockIsHeld(L, n, u, k - 1);
        if j < k {
          BaseOfAligned(h, k - 1);
          BaseOfAligned(u, k - 1);
          assert Merged(L[k - 1], k - 1);
        } else {
          BaseNested(u, k, j);
          BaseNested(h, k, j);
        }
      }
    }
  }

  /** No larger fully free aligned block holds this one. */
  ghost predicate MaximalFree(L: Lists, h: nat, k: nat) {
    && k <= MAX_ORDER && Aligned(h, k) && AllFree(L, h, k)
    && (k == MAX_ORDER || !AllFree(L, Base(h, k + 1), k + 1))
  }

  /** Every block around a page that shares a held block with it is fully free. */
  lemma InsideHeldIsFree(L: Lists, h: nat, k: nat, j: nat)
    requires k <= j && Holds(L, h, j)
    ensures AllFree(L, Base(h, k), k)
  {
    BaseBounds(h, k);
    forall p: nat | InBlock(p, Base(h, k), k) ensures IsFree(L, p) {
      BaseUnique(Base(h, k), k, p);
      BaseNested(h, k, j);
      BaseNested(p, k, j);
      assert Holds(L, p, j);
    }
  }

  lemma HeldIsMaximal(L: Lists, n: nat, h: nat, k: nat)
    requires Canonical(L, n) && k <= MAX_ORDER && h in L[k]
    ensures MaximalFree(L, h, k)
  {
    assert InPlace(L[k], k, n);
    HeldBlockIsFree(L, h, k);
    if k < MAX_ORDER && AllFree(L, Base(h, k + 1), k + 1) {
      BaseBounds(h, k + 1);
      var j := FullBlockIsHeld(L, n, Base(h, k + 1), k + 1);
      BaseNested(h, k + 1, j);
      BaseOfAligned(h, k);
      assert Holds(L, h, k) && Holds(L, h, j);
      assert false;
    }
  }

  lemma MaximalIsHeld(L: Lists, n: nat, h: nat, k: nat)
    requires Canonical(L, n) && k <= MAX_ORDER && MaximalFree(L, h, k)
    ensures h in L[k]
  {
    var j := FullBlockIsHeld(L, n, h, k);
    if j > k {
      InsideHeldIsFree(L, h, k + 1, j);
      assert false;
    }
    BaseOfAligned(h, k);
  }

  /** The lists hold exactly the maximal fully free aligned blocks. */
  lemma CanonicalForm(L: Lists, n: nat, h: nat, k: nat)
    requires Canonical(L, n) && k <= MAX_ORDER
    ensures h in L[k] <==> MaximalFree(L, h, k)
  {
    if h in L[k] {
      HeldIsMaximal(L, n, h, k);
    } else if MaximalFree(L, h, k) {
      MaximalIsHeld(L, n, h, k);
    }
  }

  /** The free pages alone determine which blocks are on which list. */
  lemma PagesDetermineBlocks(L: Lists, M: Lists, n: nat)
    requires Canonical(L, n) && Canonical(M, n)
    requires FreePages(L, n) == FreePages(M, n)
    ensures forall k :: 0 <= k <= MAX_ORDER ==> multiset(L[k]) == multiset(M[k])
  {
    forall p: nat ensures IsFree(L, p) == IsFree(M, p) {
      FreeInRange(L, n, p);
      FreeInRange(M, n, p);
      assert p in FreePages(L, n) <==> p in FreePages(M, n);
    }
    forall k | 0 <= k <= MAX_ORDER ensures multiset(L[k]) == multiset(M[k]) {
      forall h: nat ensures h in L[k] <==> h in M[k] {
        CanonicalForm(L, n, h, k);
        CanonicalForm(M, n, h, k);
        assert AllFree(L, h, k) == AllFree(M, h, k);
        assert AllFree(L, Base(h, k + 1), k + 1) == AllFree(M, Base(h, k + 1), k + 1);
      }
      SameElements(L[k], M[k]);
    }
  }

  lemma FreeInRange(L: Lists, n: nat, p: nat)
    requires Canonical(L, n)
    ensures IsFree(L, p) ==> p < n
  {}

  lemma {:induction false} CountOnce(s: seq<nat>, x: nat)
    requires NoDuplicates(s)
    ensures multiset(s)[x] == if x in s then 1 else 0
  {
    if s != [] {
      assert NoDuplicates(s[1..]);
      assert s == [s[0]] + s[1..];
      assert s[0] !in s[1..];
      CountOnce(s[1..], x);
    }
  }

  lemma SameElements(s: seq<nat>, t: seq<nat>)
    requires NoDuplicates(s) && NoDuplicates(t)
    requires forall h: nat :: h in s <==> h in t
    ensures multiset(s) == multiset(t)
  {
    forall x: nat ensures multiset(s)[x] == multiset(t)[x] {
      CountOnce(s, x);
      CountOnce(t, x);
    }
  }

  // ----- Completeness of allocation

  lemma {:induction false} AllocSucceeds(L: Lists, j: nat, k: nat)
    requires |L| == MAX_ORDER + 1 && j <= k <= MAX_ORDER && L[k] != []
    ensures AllocBlock(L, j).Some?
    decreases k - j
  {
    if L[j] == [] { AllocSucceeds(L, j + 1, k); }
  }

  /** Allocation fails exactly when no aligned run of the requested size is entirely free. */
  lemma AllocationComplete(L: Lists, n: nat, k: nat)
    requires Canonical(L, n) && k <= MAX_ORDER
    ensures AllocBlock(L, k).None? <==> forall h: nat :: Aligned(h, k) ==> !AllFree(L, h, k)
  {
    if AllocBlock(L, k).Some? {
      AllocBlockCorrect(L, n, k);
    }
    forall h: nat | Aligned(h, k) && AllFree(L, h, k) ensures AllocBlock(L, k).Some? {
      var j := FullBlockIsHeld(L, n, h, k);
      AllocSucceeds(L, k, j);
    }
  }

  // ----- Which lists change, element by element

  /** List j is the first non-empty one from order k up. */
  ghost predicate FirstFrom(L: Lists, k: nat, j: nat) {
    |L| == MAX_ORDER + 1 && k <= j <= MAX_ORDER && L[j] != [] && forall i :: k <= i < j ==> L[i] == []
  }

  /**
    `alloc_block` returns the first block of the least non-empty list, at its own first page, and
    leaves the upper half of every split on its list.
   */
  lemma {:induction false} AllocShape(L: Lists, n: nat, k: nat, j: nat)
    requires Canonical(L, n) && FirstFrom(L, k, j)
    ensures AllocBlock(L, k).Some?
    ensures var Allocation(h, L') := AllocBlock(L, k).value;
            && h == L[j][0] && L'[j] == L[j][1..]
            && (forall i :: k <= i < j ==> L'[i] == [h + Pow2(i)])
            && (forall i :: 0 <= i <= MAX_ORDER && !(k <= i <= j) ==> L'[i] == L[i])
    decreases j - k
  {
    hide Canonical, BuddyIndex;
    if k < j {
      AllocShape(L, n, k + 1, j);
      UpperHalfOfHead(L, n, k, j);
    }
  }

  lemma UpperHalfOfHead(L: Lists, n: nat, k: nat, j: nat)
    requires Canonical(L, n) && k < j < |L| && L[j] != []
    ensures BuddyIndex(L[j][0], k) == L[j][0] + Pow2(k)
  {
    hide DisjointBlocks, Merged, BuddyIndex;
    var h := L[j][0];
    assert h in L[j] && InPlace(L[j], j, n);
    AlignedDown(h, k, j);
    AlignedDown(h, k + 1, j);
    BuddyArithmetic(h, k);
  }

  /** A free of block (i, k) merges up to order j and no further. */
  ghost predicate MergesUpTo(L: Lists, i: nat, k: nat, j: nat) {
    && |L| == MAX_ORDER + 1 && k <= j <= MAX_ORDER
    && (forall o :: k <= o < j ==> BuddyIndex(Base(i, o), o) in L[o])
    && (j < MAX_ORDER ==> BuddyIndex(Base(i, j), j) !in L[j])
  }

  /** `free_block` puts the merged block first on its list and takes the merged buddies off theirs. */
  lemma {:induction false} FreeShape(L: Lists, i: nat, k: nat, j: nat)
    requires Aligned(i, k) && MergesUpTo(L, i, k, j)
    ensures var L' := FreeBlock(L, i, k);
            && L'[j] == [Base(i, j)] + L[j]
            && (forall o :: k <= o < j ==> L'[o] == Remove(L[o], BuddyIndex(Base(i, o), o)))
            && (forall o :: 0 <= o <= MAX_ORDER && !(k <= o <= j) ==> L'[o] == L[o])
    decreases j - k
  {
    hide BuddyIndex, CombinedIndex, Base, Aligned;
    BaseOfAligned(i, k);
    if k < j {
      var c, k1 := CombinedIndex(i, k), k + 1;
      BuddyHalves(i, k);
      var L1 := L[k := Remove(L[k], BuddyIndex(i, k))];
      forall o | k1 <= o <= j ensures Base(c, o) == Base(i, o) { BaseNested(i, k1, o); }
      assert MergesUpTo(L1, c, k1, j);
      FreeShape(L1, c, k1, j);
    }
  }

  // ----- Round trip

  /** Freeing what was just allocated restores every list, element order included. */
  lemma {:induction false} AllocThenFree(L: Lists, n: nat, k: nat)
    requires Canonical(L, n) && k <= MAX_ORDER && AllocBlock(L, k).Some?
    ensures var Allocation(h, L') := AllocBlock(L, k).value;
            FreeBlock(L', h, k) == L
    decreases MAX_ORDER - k
  {
    var Allocation(h, L') := AllocBlock(L, k).value;
    if L[k] != [] {
      assert [h] + L[k][1..] == L[k];
      assert h in L[k];
      assert L'[k := L[k]] == L;
    } else {
      AllocBlockCorrect(L, n, k + 1);
      AllocThenFree(L, n, k + 1);
      var L1 := AllocBlock(L, k + 1).value.lists;
      var b := BuddyIndex(h, k);
      AlignedDown(h, k, k + 1);
      BuddyHalves(h, k);
      assert L1[k] == [] && L'[k] == [b] && Remove([b], b) == [];
      assert L'[k := []] == L1;
    }
  }

  lemma EmptyIsCanonical(n: nat)
    ensures Canonical(EMPTY_LISTS, n)
    ensures forall p: nat :: !IsFree(EMPTY_LISTS, p)
  {}
}
