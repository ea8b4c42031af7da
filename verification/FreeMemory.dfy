/**
  The allocator's state as it lies in memory: the bitmap words, the record at the start of every
  page and the nine list heads. `Coupled` ties that memory to the lists of BuddyLists, and each
  pointer operation of the source is shown to keep the tie.
 */
module FreeMemory {
  import opened Bits
  import opened Blocks
  import opened BuddyLists
  import opened BitmapLimits

  datatype Ptr = Null | At(page: nat)
  datatype FreeEntry = FreeEntry(order: nat, next: Ptr, prev: Ptr)

  /** `words` is the buddy bitmap; `entries[p]` is whatever the first bytes of page p hold. */
  datatype Memory = Memory(words: seq<nat>, entries: seq<FreeEntry>, heads: seq<Ptr>)

  // ----- Bitmap

  predicate TestBit(words: seq<nat>, p: nat) {
    p / WORD < |words| && And(words[p / WORD], Pow2(p % WORD)) != 0
  }

  function SetBit(m: Memory, p: nat): Memory {
    var w := p / WORD;
    if w < |m.words| then m.(words := m.words[w := Or(m.words[w], Pow2(p % WORD))]) else m
  }

  function ClearBit(m: Memory, p: nat): Memory {
    var w := p / WORD;
    if w < |m.words| then m.(words := m.words[w := AndNot(m.words[w], Pow2(p % WORD))]) else m
  }

  ghost predicate IsWord(w: nat) {
    w < Pow2(WORD)
  }

  // ----- Records

  function Entry(m: Memory, p: nat): FreeEntry {
    if p < |m.entries| then m.entries[p] else FreeEntry(0, Null, Null)
  }

  function WithEntry(m: Memory, p: nat, e: FreeEntry): Memory {
    if p < |m.entries| then m.(entries := m.entries[p := e]) else m
  }

  function Head(m: Memory, k: nat): Ptr {
    if k < |m.heads| then m.heads[k] else Null
  }

  function WithHead(m: Memory, k: nat, h: Ptr): Memory {
    if k < |m.heads| then m.(heads := m.heads[k := h]) else m
  }

  function SetNext(m: Memory, p: nat, q: Ptr): Memory {
    WithEntry(m, p, Entry(m, p).(next := q))
  }

  function SetPrev(m: Memory, p: nat, q: Ptr): Memory {
    WithEntry(m, p, Entry(m, p).(prev := q))
  }

  /** `remove_buddy_list_entry` */
  function Unlink(m: Memory, k: nat, p: nat): Memory {
    var e := Entry(m, p);
    var m1 := if e.prev.Null? then WithHead(m, k, e.next) else SetNext(m, e.prev.page, e.next);
    var e1 := Entry(m1, p);
    if e1.next.Null? then m1 else SetPrev(m1, e1.next.page, e1.prev)
  }

  /** `push_buddy_list_entry` */
  function Push(m: Memory, k: nat, p: nat): Memory {
    var h := Head(m, k);
    var m1 := if h.Null? then m else SetPrev(SetNext(m, p, h), h.page, At(p));
    WithHead(m1, k, At(p))
  }

  /** `pop_buddy_list_entry` on a non-empty list */
  function Pop(m: Memory, k: nat): Memory {
    var h := Head(m, k);
    if h.Null? then m
    else
      var m1 := WithHead(m, k, Entry(m, h.page).next);
      if Head(m1, k).Null? then m1 else SetPrev(m1, Head(m1, k).page, Null)
  }

  /** Lines 299-305: mark block (i, k) free, write its record and push it. */
  function Attach(m: Memory, i: nat, k: nat): Memory {
    Push(WithEntry(SetBit(m, i), i, FreeEntry(k, Null, Null)), k, i)
  }

  /** Lines 292-294: clear the mark of block (b, k) and take it off its list. */
  function Detach(m: Memory, b: nat, k: nat): Memory {
    Unlink(ClearBit(m, b), k, b)
  }

  /** The test of line 291, without its bound on the order. */
  predicate FreeBuddyAt(m: Memory, b: nat, k: nat) {
    TestBit(m.words, b) && Entry(m, b).order == k
  }

  // ----- Coupling

  /** The i-th element of a list, Null past either end. */
  function PtrAt(s: seq<nat>, i: int): Ptr {
    if 0 <= i < |s| then At(s[i]) else Null
  }

  ghost predicate Links(entries: seq<FreeEntry>, k: nat, s: seq<nat>, i: nat)
    requires i < |s|
  {
    s[i] < |entries| && entries[s[i]] == FreeEntry(k, PtrAt(s, i + 1), PtrAt(s, i - 1))
  }

  /** Head, next and prev pointers spell out the list s. */
  ghost predicate Linked(entries: seq<FreeEntry>, head: Ptr, k: nat, s: seq<nat>) {
    head == PtrAt(s, 0) && forall i :: 0 <= i < |s| ==> Links(entries, k, s, i)
  }

  ghost predicate IsHead(L: Lists, p: nat) {
    exists k :: 0 <= k < |L| && p in L[k]
  }

  ghost predicate MarksHeads(words: seq<nat>, L: Lists) {
    forall p: nat :: TestBit(words, p) <==> IsHead(L, p)
  }

  ghost predicate Shape(m: Memory, n: nat) {
    && |m.words| == BitmapWords(n)
    && (forall i :: 0 <= i < |m.words| ==> IsWord(m.words[i]))
    && |m.entries| == n
    && |m.heads| == MAX_ORDER + 1
  }

  ghost predicate AllLinked(m: Memory, L: Lists)
    requires |m.heads| == |L|
  {
    forall k :: 0 <= k < |L| ==> Linked(m.entries, m.heads[k], k, L[k])
  }

  /** The coupling invariant of the allocator over n pages. */
  ghost predicate Coupled(m: Memory, L: Lists, n: nat) {
    Canonical(L, n) && Shape(m, n) && AllLinked(m, L) && MarksHeads(m.words, L)
  }

  // ----- Bitmap updates

  lemma {:induction false} RoomForBit(w: nat, i: nat, width: nat)
    requires w < Pow2(width) && i < width && !Bit(w, i)
    ensures w + Pow2(i) < Pow2(width)
    decreases i
  {
    assert Pow2(width) == 2 * Pow2(width - 1);
    if i > 0 { RoomForBit(w / 2, i - 1, width - 1); }
  }

  lemma OrStaysWord(w: nat, i: nat, width: nat)
    requires w < Pow2(width) && i < width
    ensures Or(w, Pow2(i)) < Pow2(width)
  {
    OrAndSum(w, Pow2(i));
    AndPow2(w, i);
    if !Bit(w, i) { RoomForBit(w, i, width); }
  }

  lemma AfterSetBit(m: Memory, p: nat, q: nat)
    requires p / WORD < |m.words|
    ensures TestBit(SetBit(m, p).words, q) <==> q == p || TestBit(m.words, q)
  {
    var w, i, j := p / WORD, p % WORD, q % WORD;
    if q / WORD == w {
      AndPow2(Or(m.words[w], Pow2(i)), j);
      AndPow2(m.words[w], j);
      BitOfOr(m.words[w], Pow2(i), j);
      BitOfPow2(i, j);
    }
  }

  lemma AfterClearBit(m: Memory, p: nat, q: nat)
    requires p / WORD < |m.words|
    ensures TestBit(ClearBit(m, p).words, q) <==> q != p && TestBit(m.words, q)
  {
    var w, i, j := p / WORD, p % WORD, q % WORD;
    if q / WORD == w {
      AndPow2(AndNot(m.words[w], Pow2(i)), j);
      AndPow2(m.words[w], j);
      BitOfAndNot(m.words[w], Pow2(i), j);
      BitOfPow2(i, j);
    }
  }

  lemma SetBitShape(m: Memory, n: nat, p: nat)
    requires Shape(m, n)
    ensures Shape(SetBit(m, p), n)
  {
    var w := p / WORD;
    if w < |m.words| { OrStaysWord(m.words[w], p % WORD, WORD); }
  }

  lemma ClearBitShape(m: Memory, n: nat, p: nat)
    requires Shape(m, n)
    ensures Shape(ClearBit(m, p), n)
  {
    var w := p / WORD;
    if w < |m.words| { AndNotPow2(m.words[w], p % WORD); }
  }

  // ----- List updates

  /** A list only depends on the records of its own elements. */
  lemma LinkedFrame(e: seq<FreeEntry>, e': seq<FreeEntry>, head: Ptr, k: nat, s: seq<nat>)
    requires Linked(e, head, k, s) && |e'| == |e|
    requires forall h :: h in s && h < |e| ==> e'[h] == e[h]
    ensures Linked(e', head, k, s)
  {
    forall i | 0 <= i < |s| ensures Links(e', k, s, i) {
      assert Links(e, k, s, i);
    }
  }

  lemma PushLinked(m: Memory, k: nat, p: nat, s: seq<nat>)
    requires k < |m.heads| && Linked(m.entries, m.heads[k], k, s)
    requires NoDuplicates([p] + s) && p < |m.entries| && m.entries[p] == FreeEntry(k, Null, Null)
    ensures var m' := Push(m, k, p);
            && Linked(m'.entries, m'.heads[k], k, [p] + s)
            && m'.words == m.words && |m'.entries| == |m.entries| && |m'.heads| == |m.heads|
            && (forall j :: 0 <= j < |m.heads| && j != k ==> m'.heads[j] == m.heads[j])
            && (forall h :: 0 <= h < |m.entries| && h != p && h !in s ==> m'.entries[h] == m.entries[h])
  {
    var m' := Push(m, k, p);
    var t := [p] + s;
    if s != [] {
      assert Links(m.entries, k, s, 0);
      assert t[0] != t[1];
    }
    forall i | 0 <= i < |t| ensures Links(m'.entries, k, t, i) {
      if i > 0 {
        assert Links(m.entries, k, s, i - 1);
        assert t[i] != t[0];
        if i > 1 { assert t[i] != t[1]; }
      }
    }
  }

  lemma PopLinked(m: Memory, k: nat, s: seq<nat>)
    requires k < |m.heads| && Linked(m.entries, m.heads[k], k, s) && s != [] && NoDuplicates(s)
    ensures var m' := Pop(m, k);
            && m.heads[k] == At(s[0])
            && Linked(m'.entries, m'.heads[k], k, s[1..])
            && m'.words == m.words && |m'.entries| == |m.entries| && |m'.heads| == |m.heads|
            && (forall j :: 0 <= j < |m.heads| && j != k ==> m'.heads[j] == m.heads[j])
            && (forall h :: 0 <= h < |m.entries| && h !in s ==> m'.entries[h] == m.entries[h])
  {
    var m' := Pop(m, k);
    var t := s[1..];
    assert Links(m.entries, k, s, 0);
    if t != [] { assert Links(m.entries, k, s, 1); }
    forall i | 0 <= i < |t| ensures Links(m'.entries, k, t, i) {
      assert Links(m.entries, k, s, i + 1);
      if i > 0 { assert s[i + 1] != s[1]; }
    }
  }

  lemma UnlinkLinked(m: Memory, k: nat, s: seq<nat>, x: nat)
    requires k < |m.heads| && Linked(m.entries, m.heads[k], k, s) && x < |s| && NoDuplicates(s)
    ensures var m' := Unlink(m, k, s[x]);
            && Linked(m'.entries, m'.heads[k], k, s[..x] + s[x + 1..])
            && m'.words == m.words && |m'.entries| == |m.entries| && |m'.heads| == |m.heads|
            && (forall j :: 0 <= j < |m.heads| && j != k ==> m'.heads[j] == m.heads[j])
            && (forall h :: 0 <= h < |m.entries| && h !in s ==> m'.entries[h] == m.entries[h])
  {
    var m' := Unlink(m, k, s[x]);
    var t := s[..x] + s[x + 1..];
    assert Links(m.entries, k, s, x);
    if x > 0 { assert Links(m.entries, k, s, x - 1); }
    if x + 1 < |s| { assert Links(m.entries, k, s, x + 1); }
    forall i | 0 <= i < |t| ensures Links(m'.entries, k, t, i) {
      var y := if i < x then i else i + 1;
      assert t[i] == s[y] && Links(m.entries, k, s, y);
      assert PtrAt(t, i + 1) == PtrAt(s, if y + 1 == x then x + 1 else y + 1);
      assert PtrAt(t, i - 1) == PtrAt(s, if y - 1 == x then x - 1 else y - 1);
    }
  }

  // ----- The three state changes keep the coupling

  lemma ListsDisjoint(L: Lists, n: nat, h: nat, j: nat, k: nat)
    requires Canonical(L, n) && j < |L| && k < |L| && j != k && h in L[j]
    ensures h !in L[k]
  {
    assert InPlace(L[j], j, n) && InPlace(L[k], k, n);
    BaseOfAligned(h, j);
    BaseOfAligned(h, k);
    if h in L[k] {
      assert Holds(L, h, j) && Holds(L, h, k);
      assert false;
    }
  }

  lemma HeadIsFree(L: Lists, n: nat, h: nat)
    requires Canonical(L, n) && IsHead(L, h)
    ensures IsFree(L, h) && h < n
  {
    var k :| 0 <= k < |L| && h in L[k];
    assert InPlace(L[k], k, n);
    assert Fits(h, k, n);
    BaseOfAligned(h, k);
    assert Holds(L, h, k);
  }

  /** Lists of other orders keep their links when only records of list k and page i change. */
  lemma OtherLists(m: Memory, m': Memory, L: Lists, n: nat, i: nat, k: nat)
    requires Canonical(L, n) && Shape(m, n) && AllLinked(m, L) && k < |L|
    requires |m'.entries| == n && |m'.heads| == |L|
    requires !IsHead(L, i) || i in L[k]
    requires forall j :: 0 <= j < |L| && j != k ==> m'.heads[j] == m.heads[j]
    requires forall h :: 0 <= h < n && h != i && h !in L[k] ==> m'.entries[h] == m.entries[h]
    ensures forall j :: 0 <= j < |L| && j != k ==> Linked(m'.entries, m'.heads[j], j, L[j])
  {
    forall j | 0 <= j < |L| && j != k ensures Linked(m'.entries, m'.heads[j], j, L[j]) {
      forall h | h in L[j] && h < n ensures m'.entries[h] == m.entries[h] {
        ListsDisjoint(L, n, h, j, k);
      }
      LinkedFrame(m.entries, m'.entries, m.heads[j], j, L[j]);
    }
  }

  lemma HeadsAfterUpdate(L: Lists, n: nat, k: nat, s: seq<nat>, p: nat)
    requires Canonical(L, n) && k < |L|
    ensures IsHead(L[k := s], p) <==> (p in s || (IsHead(L, p) && p !in L[k]))
  {
    if IsHead(L[k := s], p) {
      var j :| 0 <= j < |L| && p in L[k := s][j];
      if j != k { ListsDisjoint(L, n, p, j, k); }
    }
    if p in s { assert p in L[k := s][k]; }
    if IsHead(L, p) && p !in L[k] {
      var j :| 0 <= j < |L| && p in L[j];
      assert p in L[k := s][j];
    }
  }

  lemma AttachCoupled(m: Memory, L: Lists, n: nat, i: nat, k: nat)
    requires Coupled(m, L, n) && Fits(i, k, n) && NoneFree(L, i, k)
    requires k < MAX_ORDER ==> BuddyIndex(i, k) !in L[k]
    ensures Coupled(Attach(m, i, k), L[k := [i] + L[k]], n)
    ensures forall h :: 0 <= h < n && h != i && !IsHead(L, h) ==> Attach(m, i, k).entries[h] == m.entries[h]
  {
    PutKeepsCanonical(L, n, i, k);
    var s := [i] + L[k];
    var L' := L[k := s];
    assert !IsHead(L, i) by {
      assert InBlock(i, i, k);
      if IsHead(L, i) { HeadIsFree(L, n, i); }
    }
    assert InPlace(L'[k], k, n);
    AttachLinks(m, L, n, i, k);
    SetBitShape(m, n, i);
    var words := Attach(m, i, k).words;
    forall p: nat ensures TestBit(words, p) <==> IsHead(L', p) {
      AfterSetBit(m, i, p);
      HeadsAfterUpdate(L, n, k, s, p);
    }
  }

  lemma AttachLinks(m: Memory, L: Lists, n: nat, i: nat, k: nat)
    requires Canonical(L, n) && Shape(m, n) && AllLinked(m, L)
    requires k < |L| && i < n && !IsHead(L, i) && NoDuplicates([i] + L[k])
    ensures var m' := Attach(m, i, k);
            && m'.words == SetBit(m, i).words && |m'.entries| == |m.entries| && |m'.heads| == |m.heads|
            && AllLinked(m', L[k := [i] + L[k]])
            && forall h :: 0 <= h < n && h != i && !IsHead(L, h) ==> m'.entries[h] == m.entries[h]
  {
    var m2 := WithEntry(SetBit(m, i), i, FreeEntry(k, Null, Null));
    LinkedFrame(m.entries, m2.entries, m.heads[k], k, L[k]);
    PushLinked(m2, k, i, L[k]);
    OtherLists(m, Push(m2, k, i), L, n, i, k);
  }

  lemma MarksAfterTake(m: Memory, words: seq<nat>, L: Lists, n: nat, k: nat, b: nat, s: seq<nat>)
    requires Coupled(m, L, n) && k < |L| && b in L[k] && words == ClearBit(m, b).words
    requires forall y :: y in s <==> y in L[k] && y != b
    ensures MarksHeads(words, L[k := s])
  {
    var L' := L[k := s];
    HeadIsFree(L, n, b);
    forall p: nat ensures TestBit(words, p) <==> IsHead(L', p) {
      AfterClearBit(m, b, p);
      HeadsAfterUpdate(L, n, k, s, p);
    }
  }

  lemma DetachCoupled(m: Memory, L: Lists, n: nat, b: nat, k: nat)
    requires Coupled(m, L, n) && k < |L| && b in L[k]
    ensures Coupled(Detach(m, b, k), L[k := Remove(L[k], b)], n)
    ensures forall h :: 0 <= h < n && !IsHead(L, h) ==> Detach(m, b, k).entries[h] == m.entries[h]
  {
    assert InPlace(L[k], k, n);
    var s := Remove(L[k], b);
    RemoveContents(L[k], b);
    TakeKeepsCanonical(L, n, b, k, s);
    var x :| 0 <= x < |L[k]| && L[k][x] == b;
    RemoveAt(L[k], x);
    var m1 := ClearBit(m, b);
    var m2 := Unlink(m1, k, b);
    ClearBitShape(m, n, b);
    UnlinkLinked(m1, k, L[k], x);
    OtherLists(m, m2, L, n, b, k);
    MarksAfterTake(m, m2.words, L, n, k, b, s);
  }

  lemma PopCoupled(m: Memory, L: Lists, n: nat, k: nat)
    requires Coupled(m, L, n) && k < |L| && L[k] != []
    ensures Head(m, k) == At(L[k][0])
    ensures Coupled(ClearBit(Pop(m, k), L[k][0]), L[k := L[k][1..]], n)
    ensures forall h :: 0 <= h < n && !IsHead(L, h) ==> Pop(m, k).entries[h] == m.entries[h]
  {
    assert InPlace(L[k], k, n);
    var b, s := L[k][0], L[k][1..];
    assert L[k] == [b] + s;
    TakeKeepsCanonical(L, n, b, k, s);
    var m1 := Pop(m, k);
    var m2 := ClearBit(m1, b);
    PopLinked(m, k, L[k]);
    assert Shape(m1, n);
    ClearBitShape(m1, n, b);
    OtherLists(m, m2, L, n, b, k);
    MarksAfterTake(m, m2.words, L, n, k, b, s);
  }

  /** The test before a merge is exact: it never trusts the record of a page that is no free head. */
  lemma FreeBuddyIsListed(m: Memory, L: Lists, n: nat, b: nat, k: nat)
    requires Coupled(m, L, n) && k < |L|
    ensures FreeBuddyAt(m, b, k) <==> b in L[k]
  {
    if b in L[k] || TestBit(m.words, b) {
      assert IsHead(L, b);
      var j :| 0 <= j < |L| && b in L[j];
      var x :| 0 <= x < |L[j]| && L[j][x] == b;
      assert Linked(m.entries, m.heads[j], j, L[j]);
      assert Links(m.entries, j, L[j], x);
      if j != k { ListsDisjoint(L, n, b, j, k); }
    }
  }

  lemma EmptyHead(m: Memory, L: Lists, n: nat, k: nat)
    requires Coupled(m, L, n) && k < |L|
    ensures Head(m, k).Null? <==> L[k] == []
  {}

  // ----- What the coupling determines

  /** Bit p modulo 64 of word p / 64 is set if and only if a free block starts at page p. */
  lemma BitmapMeans(m: Memory, L: Lists, n: nat, p: nat)
    requires Coupled(m, L, n) && p < n
    ensures p / 64 < |m.words| && m.words[p / 64] / Pow2(p % 64) >= 0
    ensures m.words[p / 64] / Pow2(p % 64) % 2 == 1 <==> IsHead(L, p)
  {
    hide Canonical, AllLinked, IsHead;
    WordBelow(p, n);
    DivNonNegative(m.words[p / 64], Pow2(p % 64));
    AndPow2(m.words[p / 64], p % 64);
    BitIsDigit(m.words[p / 64], p % 64);
    assert TestBit(m.words, p) <==> IsHead(L, p);
  }

  /** The free pages alone determine the whole bitmap. */
  lemma PagesDetermineBitmap(m: Memory, L: Lists, m': Memory, L': Lists, n: nat)
    requires Coupled(m, L, n) && Coupled(m', L', n)
    requires FreePages(L, n) == FreePages(L', n)
    ensures m.words == m'.words
  {
    PagesDetermineBlocks(L, L', n);
    forall p: nat ensures IsHead(L, p) <==> IsHead(L', p) {
      forall k | 0 <= k < |L| ensures p in L[k] <==> p in L'[k] {
        assert multiset(L[k]) == multiset(L'[k]);
        assert p in L[k] <==> p in multiset(L[k]);
        assert p in L'[k] <==> p in multiset(L'[k]);
      }
    }
    SameMarks(m.words, m'.words);
  }

  lemma SameMarks(v: seq<nat>, w: seq<nat>)
    requires |v| == |w|
    requires forall i :: 0 <= i < |v| ==> IsWord(v[i]) && IsWord(w[i])
    requires forall p: nat :: TestBit(v, p) <==> TestBit(w, p)
    ensures v == w
  {
    forall i | 0 <= i < |v| ensures v[i] == w[i] {
      forall b | 0 <= b < WORD ensures Bit(v[i], b) == Bit(w[i], b) {
        var p := i * WORD + b;
        assert p / WORD == i && p % WORD == b;
        assert TestBit(v, p) <==> TestBit(w, p);
        AndPow2(v[i], b);
        AndPow2(w[i], b);
      }
      SameBits(v[i], w[i], WORD);
    }
  }

  /** The lists determine the bitmap, the heads and the record of every free block. */
  lemma ListsDetermineMemory(m: Memory, m': Memory, L: Lists, n: nat)
    requires Coupled(m, L, n) && Coupled(m', L, n)
    ensures m.words == m'.words && m.heads == m'.heads
    ensures forall h :: 0 <= h < n && IsHead(L, h) ==> m.entries[h] == m'.entries[h]
  {
    PagesDetermineBitmap(m, L, m', L, n);
    forall k | 0 <= k < |L| ensures m.heads[k] == m'.heads[k] {
      assert Linked(m.entries, m.heads[k], k, L[k]) && Linked(m'.entries, m'.heads[k], k, L[k]);
    }
    forall h | 0 <= h < n && IsHead(L, h) ensures m.entries[h] == m'.entries[h] {
      var k :| 0 <= k < |L| && h in L[k];
      var x :| 0 <= x < |L[k]| && L[k][x] == h;
      assert Linked(m.entries, m.heads[k], k, L[k]) && Linked(m'.entries, m'.heads[k], k, L[k]);
      assert Links(m.entries, k, L[k], x) && Links(m'.entries, k, L[k], x);
    }
  }

  /** Only the records of free heads matter: anything else in memory may change. */
  lemma ClientDataIrrelevant(m: Memory, entries: seq<FreeEntry>, L: Lists, n: nat)
    requires Coupled(m, L, n) && |entries| == n
    requires forall p: nat :: p < n && IsHead(L, p) ==> entries[p] == m.entries[p]
    ensures Coupled(m.(entries := entries), L, n)
  {
    forall k | 0 <= k < |L| ensures Linked(entries, m.heads[k], k, L[k]) {
      assert Linked(m.entries, m.heads[k], k, L[k]);
      forall h | h in L[k] && h < n ensures entries[h] == m.entries[h] {
        assert IsHead(L, h);
      }
      LinkedFrame(m.entries, entries, m.heads[k], k, L[k]);
    }
  }

  /** A machine of n pages before anything is freed, with the given page contents. */
  function EmptyMemory(entries: seq<FreeEntry>): Memory {
    Memory(seq(BitmapWords(|entries|), _ => 0), entries, seq(MAX_ORDER + 1, _ => Null))
  }

  lemma EmptyMemoryCoupled(entries: seq<FreeEntry>)
    ensures Coupled(EmptyMemory(entries), EMPTY_LISTS, |entries|)
  {
    EmptyIsCanonical(|entries|);
    var m := EmptyMemory(entries);
    forall p: nat ensures !TestBit(m.words, p) && !IsHead(EMPTY_LISTS, p) {}
    forall k | 0 <= k < |EMPTY_LISTS| ensures Linked(m.entries, m.heads[k], k, EMPTY_LISTS[k]) {
      assert EMPTY_LISTS[k] == [];
    }
  }
}
