/**
  Conservation over whole runs of the manager's public calls: the blocks handed out and the free
  pages always partition the pages the allocator started with.
 */
module Ledger {
  import opened Bits
  import opened Blocks
  import opened BuddyLists
  import opened BuddyRegions
  import opened BitmapLimits

  /** One guarded call of the manager, as the block operations it performs. */
  datatype Job = AllocJob(orders: seq<nat>) | FreeJob(blocks: seq<Block>)

  /** The allocator's lists and the blocks clients hold. */
  datatype Books = Books(lists: Lists, out: set<Block>)

  ghost predicate InOut(out: set<Block>, p: nat) {
    exists b :: b in out && InBlock(p, b.index, b.order)
  }

  ghost predicate HeldApart(L: Lists, out: set<Block>, n: nat) {
    && (forall b :: b in out ==> Fits(b.index, b.order, n) && NoneFree(L, b.index, b.order))
    && (forall b, c, p: nat :: b in out && c in out && b != c && InBlock(p, b.index, b.order)
                               ==> !InBlock(p, c.index, c.order))
  }

  /** Free pages and held blocks partition `initial`, which leaves the top block of an unsafe n open. */
  ghost predicate Balanced(s: Books, initial: set<nat>, n: nat) {
    && Canonical(s.lists, n)
    && HeldApart(s.lists, s.out, n)
    && (forall p: nat :: p in initial <==> IsFree(s.lists, p) || InOut(s.out, p))
    && TopOpen(initial, n)
  }

  lemma InitiallyBalanced(L: Lists, n: nat)
    requires Canonical(L, n) && TopNotFree(L, n)
    ensures Balanced(Books(L, {}), FreePages(L, n), n)
  {
    TopOpenIsNotFree(L, n);
    forall p: nat | IsFree(L, p) ensures p < n { FreeInRange(L, n, p); }
  }

  /** No held block reaches outside the initial pages. */
  lemma HeldInsideInitial(s: Books, initial: set<nat>, n: nat, b: Block)
    requires Balanced(s, initial, n) && b in s.out
    ensures Pages(b.index, b.order) <= initial - FreePages(s.lists, n)
  {}

  lemma AllocBalanced(s: Books, initial: set<nat>, n: nat, k: nat)
    requires Balanced(s, initial, n) && k <= MAX_ORDER && AllocBlock(s.lists, k).Some?
    ensures var Allocation(h, L') := AllocBlock(s.lists, k).value;
            Block(h, k) !in s.out && Balanced(Books(L', s.out + {Block(h, k)}), initial, n)
  {
    AllocBlockCorrect(s.lists, n, k);
    var Allocation(h, L') := AllocBlock(s.lists, k).value;
    TakenOutApart(s, L', n, Block(h, k));
    var out' := s.out + {Block(h, k)};
    forall p: nat ensures p in initial <==> IsFree(L', p) || InOut(out', p) {
      if InOut(s.out, p) {
        var b :| b in s.out && InBlock(p, b.index, b.order);
        assert b in out';
      }
      if InOut(out', p) {
        var b :| b in out' && InBlock(p, b.index, b.order);
        assert b in s.out || b == Block(h, k);
      }
      if InBlock(p, h, k) { assert Block(h, k) in out'; }
    }
  }

  lemma TakenOutApart(s: Books, L': Lists, n: nat, b: Block)
    requires HeldApart(s.lists, s.out, n) && Fits(b.index, b.order, n) && AllFree(s.lists, b.index, b.order)
    requires forall p: nat :: IsFree(L', p) <==> IsFree(s.lists, p) && !InBlock(p, b.index, b.order)
    ensures b !in s.out && HeldApart(L', s.out + {b}, n)
  {
    assert InBlock(b.index, b.index, b.order);
    forall c, p: nat | c in s.out && InBlock(p, c.index, c.order) ensures !InBlock(p, b.index, b.order) {}
  }

  /** Freeing a held block stays inside the bitmap, because its pages were free at the start. */
  lemma HeldNeverOverruns(s: Books, initial: set<nat>, n: nat, b: Block)
    requires Balanced(s, initial, n) && b in s.out
    ensures b.order <= MAX_ORDER && |s.lists| == MAX_ORDER + 1
    ensures !FreeOverruns(s.lists, n, b.index, b.order)
  {
    HeldInsideInitial(s, initial, n, b);
    assert FreePages(s.lists, n) <= initial;
    OpenNeverOverruns(s.lists, n, b.index, b.order, initial);
  }

  lemma FreeBalanced(s: Books, initial: set<nat>, n: nat, b: Block)
    requires Balanced(s, initial, n) && b in s.out
    ensures Balanced(Books(FreeBlock(s.lists, b.index, b.order), s.out - {b}), initial, n)
    ensures !FreeOverruns(s.lists, n, b.index, b.order)
  {
    HeldNeverOverruns(s, initial, n, b);
    FreeBlockCorrect(s.lists, n, b.index, b.order);
    var L' := FreeBlock(s.lists, b.index, b.order);
    var out' := s.out - {b};
    forall p: nat ensures p in initial <==> IsFree(L', p) || InOut(out', p) {
      if InOut(s.out, p) {
        var c :| c in s.out && InBlock(p, c.index, c.order);
        assert c in out' || c == b;
      }
      if InOut(out', p) {
        var c :| c in out' && InBlock(p, c.index, c.order);
        assert c in s.out;
      }
      if InBlock(p, b.index, b.order) { assert InOut(s.out, p); }
    }
  }

  // ----- Jobs

  /** Outcome of a job: the new lists, the blocks obtained, and whether it ended without a panic. */
  datatype Served = Served(lists: Lists, got: seq<Block>, ok: bool)

  /** Blocks allocated one after the other, up to a panic. */
  function ServeAllocs(L: Lists, orders: seq<nat>, got: seq<Block>): (r: Served)
    requires |L| == MAX_ORDER + 1
    ensures |r.lists| == |L|
    decreases |orders|
  {
    if orders == [] then Served(L, got, true)
    else if orders[0] > MAX_ORDER then Served(L, got, false)
    else match AllocBlock(L, orders[0])
      case None => Served(L, got, false)
      case Some(Allocation(h, L1)) => ServeAllocs(L1, orders[1..], got + [Block(h, orders[0])])
  }

  /** Blocks freed one after the other, up to a panic. */
  function ServeFrees(L: Lists, n: nat, blocks: seq<Block>): (r: Served)
    requires |L| == MAX_ORDER + 1
    ensures |r.lists| == |L| && r.got == [] && (r.ok ==> Orders(blocks) && r.lists == FreeAll(L, blocks))
    decreases |blocks|
  {
    if blocks == [] then Served(L, [], true)
    else
      var b := blocks[0];
      if b.order > MAX_ORDER || FreeOverruns(L, n, b.index, b.order) then Served(L, [], false)
      else ServeFrees(FreeBlock(L, b.index, b.order), n, blocks[1..])
  }

  function Serve(L: Lists, n: nat, job: Job): (r: Served)
    requires |L| == MAX_ORDER + 1
    ensures |r.lists| == |L|
  {
    match job
    case AllocJob(orders) => ServeAllocs(L, orders, [])
    case FreeJob(blocks) => ServeFrees(L, n, blocks)
  }

  function Elements(bs: seq<Block>): set<Block> {
    set b | b in bs
  }

  ghost predicate Distinct(bs: seq<Block>) {
    forall i, j :: 0 <= i < j < |bs| ==> bs[i] != bs[j]
  }

  /** Clients free blocks they hold, each once. */
  ghost predicate Allowed(out: set<Block>, job: Job) {
    job.FreeJob? ==> Elements(job.blocks) <= out && Distinct(job.blocks)
  }

  /** The books after a job; a job that panics part way keeps what it got. */
  function After(s: Books, n: nat, job: Job): Books
    requires |s.lists| == MAX_ORDER + 1
  {
    var r := Serve(s.lists, n, job);
    Books(r.lists, if job.AllocJob? then s.out + Elements(r.got) else s.out - Elements(job.blocks))
  }

  lemma {:induction false} AllocsBalanced(
    L: Lists, out: set<Block>, initial: set<nat>, n: nat, orders: seq<nat>, got: seq<Block>)
    requires Balanced(Books(L, out + Elements(got)), initial, n) && Distinct(got)
    ensures |L| == MAX_ORDER + 1
    ensures var r := ServeAllocs(L, orders, got);
            Balanced(Books(r.lists, out + Elements(r.got)), initial, n) && Distinct(r.got)
    decreases |orders|
  {
    if orders != [] && orders[0] <= MAX_ORDER && AllocBlock(L, orders[0]).Some? {
      AllocBalanced(Books(L, out + Elements(got)), initial, n, orders[0]);
      var Allocation(h, L1) := AllocBlock(L, orders[0]).value;
      var got1 := got + [Block(h, orders[0])];
      assert out + Elements(got1) == out + Elements(got) + {Block(h, orders[0])};
      AllocsBalanced(L1, out, initial, n, orders[1..], got1);
    }
  }

  /** What a job obtains was entirely free before. */
  lemma {:induction false} ObtainedWasFree(L: Lists, n: nat, orders: seq<nat>, got: seq<Block>)
    requires Canonical(L, n)
    ensures forall b :: b in ServeAllocs(L, orders, got).got ==> b in got || AllFree(L, b.index, b.order)
    decreases |orders|
  {
    if orders != [] && orders[0] <= MAX_ORDER && AllocBlock(L, orders[0]).Some? {
      AllocBlockCorrect(L, n, orders[0]);
      var Allocation(h, L1) := AllocBlock(L, orders[0]).value;
      ObtainedWasFree(L1, n, orders[1..], got + [Block(h, orders[0])]);
    }
  }

  /** A job never obtains a block that is already out. */
  lemma ObtainedIsNew(s: Books, initial: set<nat>, n: nat, orders: seq<nat>)
    requires Balanced(s, initial, n)
    ensures forall b :: b in ServeAllocs(s.lists, orders, []).got ==> b !in s.out
  {
    ObtainedWasFree(s.lists, n, orders, []);
    forall b | b in ServeAllocs(s.lists, orders, []).got ensures b !in s.out {
      assert InBlock(b.index, b.index, b.order);
    }
  }

  lemma {:induction false} FreesBalanced(s: Books, initial: set<nat>, n: nat, blocks: seq<Block>)
    requires Balanced(s, initial, n) && Elements(blocks) <= s.out && Distinct(blocks)
    ensures Orders(blocks) && Legal(s.lists, n, blocks) && ServeFrees(s.lists, n, blocks).ok
    ensures Balanced(Books(FreeAll(s.lists, blocks), s.out - Elements(blocks)), initial, n)
    decreases |blocks|
  {
    if blocks == [] {
      assert s.out - Elements(blocks) == s.out;
    } else {
      var b := blocks[0];
      assert b in Elements(blocks);
      FreeBalanced(s, initial, n, b);
      var s1 := Books(FreeBlock(s.lists, b.index, b.order), s.out - {b});
      assert blocks == [b] + blocks[1..];
      assert b !in blocks[1..];
      FreesBalanced(s1, initial, n, blocks[1..]);
      assert s1.out - Elements(blocks[1..]) == s.out - Elements(blocks);
    }
  }

  /**
    Legal frees, whatever their order and grouping, stay inside the bitmap if and only if the pages
    they leave free do not include the whole top block of an unsafe n.
   */
  lemma {:induction false} FreesOverrun(L: Lists, n: nat, blocks: seq<Block>)
    requires Canonical(L, n) && TopNotFree(L, n) && Legal(L, n, blocks)
    ensures ServeFrees(L, n, blocks).ok <==> TopOpen(FreePages(L, n) + Cover(blocks), n)
    ensures Orders(blocks)
    ensures ServeFrees(L, n, blocks).ok ==> TopNotFree(FreeAll(L, blocks), n)
    decreases |blocks|
  {
    LegalOrders(L, n, blocks);
    TopOpenIsNotFree(L, n);
    if blocks == [] {
      assert FreePages(L, n) + Cover(blocks) == FreePages(L, n);
    } else {
      var b := blocks[0];
      OverrunPages(L, n, b.index, b.order);
      FreeBlockCorrect(L, n, b.index, b.order);
      FreeBlockPages(L, n, b.index, b.order);
      var L1 := FreeBlock(L, b.index, b.order);
      assert FreePages(L1, n) + Cover(blocks[1..]) == FreePages(L, n) + Cover(blocks);
      if FreeOverruns(L, n, b.index, b.order) {
        assert Pages(TopIndex(n), TopOrder(n)) <= FreePages(L, n) + Cover(blocks);
      } else {
        FreesOverrun(L1, n, blocks[1..]);
      }
    }
  }

  /** Every allowed job keeps the partition, and a free never panics. */
  lemma JobBalanced(s: Books, initial: set<nat>, n: nat, job: Job)
    requires Balanced(s, initial, n) && Allowed(s.out, job)
    ensures Balanced(After(s, n, job), initial, n)
    ensures job.FreeJob? ==> Legal(s.lists, n, job.blocks) && Serve(s.lists, n, job).ok
  {
    match job
    case AllocJob(orders) =>
      assert s.out + Elements([]) == s.out;
      AllocsBalanced(s.lists, s.out, initial, n, orders, []);
    case FreeJob(blocks) =>
      FreesBalanced(s, initial, n, blocks);
  }

  // ----- Calls

  /** The public calls with the addresses and counts clients pass. */
  datatype Call =
    | CallAllocPage
    | CallAllocLinear(count: nat)
    | CallAllocPages(count: nat)
    | CallFreePage(addr: nat)
    | CallFreeLinear(addr: nat, count: nat)
    | CallFreePages(addrs: seq<nat>)

  /** `get_size_order` for every count: on 0 the subtraction of line 216 wraps, or panics when checked. */
  function RequestOrder(count: nat): nat {
    if count == 0 then 0xffff_ffff else SizeOrder(count)
  }

  function PageBlocks(addrs: seq<nat>): (bs: seq<Block>)
    ensures Orders(bs)
  {
    if addrs == [] then [] else [Block(addrs[0] / PAGE_SIZE, 0)] + PageBlocks(addrs[1..])
  }

  function JobOf(call: Call): Job {
    match call
    case CallAllocPage => AllocJob([0])
    case CallAllocLinear(count) => AllocJob([RequestOrder(count)])
    case CallAllocPages(count) => AllocJob(seq(count, _ => 0))
    case CallFreePage(addr) => FreeJob([Block(addr / PAGE_SIZE, 0)])
    case CallFreeLinear(addr, count) => FreeJob([Block(addr / PAGE_SIZE, RequestOrder(count))])
    case CallFreePages(addrs) => FreeJob(PageBlocks(addrs))
  }

  /** A request of 1 to 256 pages has an order, with room for them; any other count panics. */
  lemma RequestInRange(count: nat)
    ensures RequestOrder(count) <= MAX_ORDER <==> 1 <= count <= 256
    ensures 1 <= count <= 256 ==> count <= Pow2(RequestOrder(count)) < 2 * count
  {
    SmallPowers();
    if count > 0 {
      SizeOrderIsLeast(count, MAX_ORDER);
      SizeOrderIsLeast(count, SizeOrder(count));
      if SizeOrder(count) > 0 { SizeOrderIsLeast(count, SizeOrder(count) - 1); }
    }
  }

  function Addresses(bs: seq<Block>): (r: seq<nat>)
    ensures |r| == |bs|
  {
    if bs == [] then [] else [bs[0].index * PAGE_SIZE] + Addresses(bs[1..])
  }

  predicate IsAlloc(call: Call) {
    call.CallAllocPage? || call.CallAllocLinear? || call.CallAllocPages?
  }

  /** The call that gives back what an allocating call returned, at the returned addresses. */
  function Undo(call: Call, got: seq<Block>): Call
    requires IsAlloc(call)
  {
    match call
    case CallAllocPage => CallFreePage(if got == [] then 0 else got[0].index * PAGE_SIZE)
    case CallAllocLinear(count) => CallFreeLinear(if got == [] then 0 else got[0].index * PAGE_SIZE, count)
    case CallAllocPages(count) => CallFreePages(Addresses(got))
  }

  lemma {:induction false} BlocksOfAddresses(bs: seq<Block>)
    requires forall b :: b in bs ==> b.order == 0
    ensures PageBlocks(Addresses(bs)) == bs
  {
    if bs != [] {
      BlocksOfAddresses(bs[1..]);
      assert Addresses(bs)[1..] == Addresses(bs[1..]);
    }
  }

  lemma {:induction false} GotOrders(L: Lists, orders: seq<nat>, got: seq<Block>)
    requires |L| == MAX_ORDER + 1 && ServeAllocs(L, orders, got).ok
    ensures var r := ServeAllocs(L, orders, got).got;
            && |r| == |got| + |orders| && r[..|got|] == got
            && forall i :: 0 <= i < |orders| ==> r[|got| + i].order == orders[i]
    decreases |orders|
  {
    if orders != [] {
      var Allocation(h, L1) := AllocBlock(L, orders[0]).value;
      var got1 := got + [Block(h, orders[0])];
      GotOrders(L1, orders[1..], got1);
      var r := ServeAllocs(L, orders, got).got;
      assert r[..|got|] == r[..|got1|][..|got|] && r[|got|] == r[..|got1|][|got|];
      forall i | 0 < i < |orders| ensures r[|got| + i].order == orders[i] {
        assert orders[1..][i - 1] == orders[i];
        assert r[|got1| + (i - 1)].order == orders[1..][i - 1];
      }
    }
  }

  /** Freeing with the returned addresses and the same count names exactly the blocks obtained. */
  lemma UndoNamesGot(L: Lists, n: nat, call: Call)
    requires |L| == MAX_ORDER + 1 && IsAlloc(call) && Serve(L, n, JobOf(call)).ok
    ensures var got := Serve(L, n, JobOf(call)).got;
            JobOf(Undo(call, got)) == FreeJob(got)
  {
    hide AllocBlock, JobOf, Undo, ServeAllocs;
    AllocIsAllocJob(call);
    GotOrders(L, JobOf(call).orders, []);
    UndoByOrders(call, Serve(L, n, JobOf(call)).got);
  }

  lemma UndoByOrders(call: Call, got: seq<Block>)
    requires IsAlloc(call) && |got| == |JobOf(call).orders|
    requires forall i :: 0 <= i < |got| ==> got[i].order == JobOf(call).orders[i]
    ensures JobOf(Undo(call, got)) == FreeJob(got)
  {
    hide RequestOrder;
    match call
    case CallAllocPage =>
      assert got == [Block(got[0].index, 0)];
    case CallAllocLinear(count) =>
      assert got == [Block(got[0].index, RequestOrder(count))];
    case CallAllocPages(count) =>
      BlocksOfAddresses(got);
  }

  /**
    Whatever a call obtained, freeing it at the returned addresses is allowed, does not panic and
    leaves the same blocks on every list and the same blocks in the clients' hands as before.
   */
  lemma CallUndone(s: Books, initial: set<nat>, n: nat, call: Call)
    requires Balanced(s, initial, n) && IsAlloc(call)
    requires Serve(s.lists, n, JobOf(call)).ok
    ensures var got := Serve(s.lists, n, JobOf(call)).got;
            var s1, undo := After(s, n, JobOf(call)), JobOf(Undo(call, got));
            && Allowed(s1.out, undo) && Serve(s1.lists, n, undo).ok
            && var s2 := After(s1, n, undo);
               && s2.out == s.out
               && forall k :: 0 <= k <= MAX_ORDER ==> multiset(s2.lists[k]) == multiset(s.lists[k])
  {
    hide Balanced, ServeAllocs, ServeFrees, JobOf, Undo;
    BalancedLists(s, initial, n);
    AllocIsAllocJob(call);
    var job := JobOf(call);
    var got := Serve(s.lists, n, job).got;
    var s1 := After(s, n, job);
    UndoNamesGot(s.lists, n, call);
    assert s.out + Elements([]) == s.out;
    AllocsBalanced(s.lists, s.out, initial, n, job.orders, []);
    ObtainedIsNew(s, initial, n, job.orders);
    GotFits(s1, initial, n, got);
    JobBalanced(s1, initial, n, FreeJob(got));
    var s2 := After(s1, n, FreeJob(got));
    assert s2.out == s.out;
    SamePages(s, s2, initial, n);
    PagesDetermineBlocks(s2.lists, s.lists, n);
  }

  lemma AllocIsAllocJob(call: Call)
    ensures JobOf(call).AllocJob? <==> IsAlloc(call)
  {}

  lemma GotFits(s: Books, initial: set<nat>, n: nat, got: seq<Block>)
    requires Balanced(s, initial, n) && Elements(got) <= s.out
    ensures Orders(got)
  {
    forall b | b in got ensures b.order <= MAX_ORDER {
      assert b in Elements(got);
    }
  }

  /** Equal holdings leave equal free pages. */
  lemma SamePages(s: Books, t: Books, initial: set<nat>, n: nat)
    requires Balanced(s, initial, n) && Balanced(t, initial, n) && s.out == t.out
    ensures Canonical(s.lists, n) && Canonical(t.lists, n) && FreePages(s.lists, n) == FreePages(t.lists, n)
  {
    forall p: nat ensures IsFree(s.lists, p) <==> IsFree(t.lists, p) {
      if InOut(s.out, p) { HeldIsNotFree(s, n, p); HeldIsNotFree(t, n, p); }
    }
  }

  lemma HeldIsNotFree(s: Books, n: nat, p: nat)
    requires HeldApart(s.lists, s.out, n) && InOut(s.out, p)
    ensures !IsFree(s.lists, p)
  {}

  // ----- Single pages

  function Indices(bs: seq<Block>): set<nat> {
    set b | b in bs :: b.index
  }

  /** From L to L1 exactly the pages `got` were taken, each once. */
  ghost predicate Took(L: Lists, L1: Lists, n: nat, got: seq<Block>) {
    && Canonical(L1, n) && Distinct(got)
    && (forall b :: b in got ==> b.order == 0 && b.index in FreePages(L, n))
    && FreePages(L1, n) == FreePages(L, n) - Indices(got)
    && |FreePages(L1, n)| + |got| == |FreePages(L, n)|
  }

  /**
    Asking for single pages succeeds exactly when enough are free. It takes distinct free pages and
    no others, as many as asked for or, before the panic, all there are.
   */
  lemma SinglePages(L: Lists, n: nat, count: nat)
    requires Canonical(L, n)
    ensures |L| == MAX_ORDER + 1
    ensures var r := ServeAllocs(L, seq(count, _ => 0), []);
            && Took(L, r.lists, n, r.got)
            && (r.ok <==> count <= |FreePages(L, n)|)
            && |r.got| == if r.ok then count else |FreePages(L, n)|
  {
    assert FreePages(L, n) - Indices([]) == FreePages(L, n);
    PagesServed(L, L, n, count, []);
  }

  lemma {:induction false} PagesServed(L: Lists, L1: Lists, n: nat, count: nat, got: seq<Block>)
    requires Canonical(L, n) && Took(L, L1, n, got)
    ensures |L1| == MAX_ORDER + 1
    ensures var r := ServeAllocs(L1, seq(count, _ => 0), got);
            && Took(L, r.lists, n, r.got)
            && (r.ok <==> count <= |FreePages(L1, n)|)
            && |r.got| == if r.ok then |got| + count else |got| + |FreePages(L1, n)|
    decreases count
  {
    hide Took, Canonical, FreePages, IsFree, AllocBlock;
    TookCanonical(L, L1, n, got);
    if count > 0 {
      NextPage(L, L1, n, got);
      assert seq(count, _ => 0)[1..] == seq(count - 1, _ => 0);
      if AllocBlock(L1, 0).Some? {
        var Allocation(h, L2) := AllocBlock(L1, 0).value;
        PagesServed(L, L2, n, count - 1, got + [Block(h, 0)]);
      }
    }
  }

  lemma TookCanonical(L: Lists, L1: Lists, n: nat, got: seq<Block>)
    requires Took(L, L1, n, got)
    ensures Canonical(L1, n) && |L1| == MAX_ORDER + 1
  {}

  lemma NextPage(L: Lists, L1: Lists, n: nat, got: seq<Block>)
    requires Took(L, L1, n, got)
    ensures |L1| == MAX_ORDER + 1
    ensures AllocBlock(L1, 0).None? <==> |FreePages(L1, n)| == 0
    ensures AllocBlock(L1, 0).Some? ==>
              var Allocation(h, L2) := AllocBlock(L1, 0).value;
              Took(L, L2, n, got + [Block(h, 0)]) && |FreePages(L2, n)| == |FreePages(L1, n)| - 1
  {
    hide Canonical, FreePages, IsFree, AllocBlock, Indices, Distinct;
    PageOutcome(L1, n);
    if AllocBlock(L1, 0).Some? {
      var Allocation(h, L2) := AllocBlock(L1, 0).value;
      OneMore(FreePages(L, n), FreePages(L1, n), FreePages(L2, n), got, h);
    }
  }

  lemma OneMore(F: set<nat>, F1: set<nat>, F2: set<nat>, got: seq<Block>, h: nat)
    requires Distinct(got) && F1 == F - Indices(got) && h in F1 && F2 == F1 - {h}
    ensures var got1 := got + [Block(h, 0)];
            Distinct(got1) && F2 == F - Indices(got1) && |F2| == |F1| - 1
  {
    var got1 := got + [Block(h, 0)];
    assert Indices(got1) == Indices(got) + {h};
    assert F1 == F2 + {h};
    assert Block(h, 0) in got ==> h in Indices(got);
  }

  lemma PageOutcome(L: Lists, n: nat)
    requires Canonical(L, n)
    ensures |L| == MAX_ORDER + 1
    ensures AllocBlock(L, 0).None? <==> FreePages(L, n) == {}
    ensures AllocBlock(L, 0).Some? ==>
              var Allocation(h, L1) := AllocBlock(L, 0).value;
              && Canonical(L1, n) && Fits(h, 0, n)
              && h in FreePages(L, n) && FreePages(L1, n) == FreePages(L, n) - {h}
  {
    AllocationComplete(L, n, 0);
    FreePageIsFreeRun(L, n);
    if AllocBlock(L, 0).Some? {
      AllocBlockCorrect(L, n, 0);
      AllocBlockPages(L, n, 0);
      SinglePage(AllocBlock(L, 0).value.index);
    }
  }

  lemma SinglePage(h: nat)
    ensures Pages(h, 0) == {h}
  {}

  lemma FreePageIsFreeRun(L: Lists, n: nat)
    requires Canonical(L, n)
    ensures (forall h: nat :: Aligned(h, 0) ==> !AllFree(L, h, 0)) <==> FreePages(L, n) == {}
  {
    forall h: nat ensures Aligned(h, 0) && (AllFree(L, h, 0) <==> h in FreePages(L, n)) {
      FreeInRange(L, n, h);
      assert forall p: nat :: InBlock(p, h, 0) <==> p == h;
    }
  }

  // ----- What each call is answered with

  /** 2^k is the least power of two that is at least `count`. */
  ghost predicate LeastRoom(count: nat, k: nat) {
    count <= Pow2(k) && forall o: nat :: o < k ==> Pow2(o) < count
  }

  lemma LeastRoomIsOrder(count: nat, k: nat)
    requires count > 0 && LeastRoom(count, k)
    ensures RequestOrder(count) == k
  {
    SizeOrderIsLeast(count, k);
    SizeOrderIsLeast(count, SizeOrder(count));
  }

  lemma OneAlloc(L: Lists, k: nat)
    requires |L| == MAX_ORDER + 1
    ensures var r := ServeAllocs(L, [k], []);
            && (r.ok <==> k <= MAX_ORDER && AllocBlock(L, k).Some?)
            && (r.ok ==> r.got == [Block(AllocBlock(L, k).value.index, k)] && r.lists == AllocBlock(L, k).value.lists)
            && (!r.ok ==> r.got == [] && r.lists == L)
  {
    hide AllocBlock;
    assert [k][1..] == [];
  }

  lemma OneFree(L: Lists, n: nat, b: Block)
    requires |L| == MAX_ORDER + 1
    ensures var r := ServeFrees(L, n, [b]);
            && (r.ok <==> b.order <= MAX_ORDER && !FreeOverruns(L, n, b.index, b.order))
            && (r.ok ==> r.lists == FreeBlock(L, b.index, b.order))
  {
    hide FreeBlock, FreeOverruns;
    assert [b][1..] == [];
  }

  /** A request for one page takes one free page, and panics only if there is none. */
  lemma PageServed(L: Lists, n: nat)
    requires Canonical(L, n)
    ensures |L| == MAX_ORDER + 1
    ensures var r := Serve(L, n, JobOf(CallAllocPage));
            && (r.ok <==> FreePages(L, n) != {})
            && (r.ok ==> && |r.got| == 1 && r.got[0].order == 0 && r.got[0].index in FreePages(L, n)
                         && FreePages(r.lists, n) == FreePages(L, n) - {r.got[0].index})
            && (!r.ok ==> r.got == [] && r.lists == L)
  {
    hide AllocBlock, Canonical, FreePages;
    PageOutcome(L, n);
    OneAlloc(L, 0);
  }

  /**
    A linear request succeeds exactly when it asks for 1 to 256 pages and an aligned run of the least
    power of two with room for them is free. It takes one such run: room for `count` pages and less
    than twice as many.
   */
  lemma LinearServed(L: Lists, n: nat, count: nat, k: nat)
    requires Canonical(L, n) && LeastRoom(count, k)
    ensures |L| == MAX_ORDER + 1
    ensures var r := Serve(L, n, JobOf(CallAllocLinear(count)));
            && (r.ok <==> 1 <= count <= 256 && exists h: nat :: Aligned(h, k) && AllFree(L, h, k))
            && (r.ok ==> && |r.got| == 1 && r.got[0].order == k && Fits(r.got[0].index, k, n)
                         && count <= Pow2(k) < 2 * count
                         && Pages(r.got[0].index, k) <= FreePages(L, n)
                         && FreePages(r.lists, n) == FreePages(L, n) - Pages(r.got[0].index, k))
            && (!r.ok ==> r.got == [] && r.lists == L)
  {
    hide AllocBlock, Canonical, FreePages, AllFree, Fits, RequestOrder, SizeOrder;
    CanonicalLength(L, n);
    RequestInRange(count);
    OneAlloc(L, RequestOrder(count));
    if 1 <= count <= 256 {
      LeastRoomIsOrder(count, k);
      LinearOutcome(L, n, k);
    }
  }

  lemma CanonicalLength(L: Lists, n: nat)
    requires Canonical(L, n)
    ensures |L| == MAX_ORDER + 1
  {}

  lemma LinearOutcome(L: Lists, n: nat, k: nat)
    requires Canonical(L, n) && k <= MAX_ORDER
    ensures |L| == MAX_ORDER + 1
    ensures AllocBlock(L, k).None? <==> forall h: nat :: Aligned(h, k) ==> !AllFree(L, h, k)
    ensures AllocBlock(L, k).Some? ==>
              var Allocation(h, L') := AllocBlock(L, k).value;
              && Fits(h, k, n) && Pages(h, k) <= FreePages(L, n)
              && FreePages(L', n) == FreePages(L, n) - Pages(h, k)
  {
    AllocationComplete(L, n, k);
    if AllocBlock(L, k).Some? {
      AllocBlockPages(L, n, k);
      AllocBlockCorrect(L, n, k);
    }
  }

  /** A request for many pages takes as many distinct free pages, or all there are before it panics. */
  lemma ManyServed(L: Lists, n: nat, count: nat)
    requires Canonical(L, n)
    ensures |L| == MAX_ORDER + 1
    ensures var r := Serve(L, n, JobOf(CallAllocPages(count)));
            && Took(L, r.lists, n, r.got)
            && (r.ok <==> count <= |FreePages(L, n)|)
            && |r.got| == if r.ok then count else |FreePages(L, n)|
  {
    SinglePages(L, n, count);
  }

  /** Freeing a page makes the page of its address free. */
  lemma FreePageServed(L: Lists, n: nat, addr: nat)
    requires Canonical(L, n) && TopNotFree(L, n) && addr / 4096 < n && !IsFree(L, addr / 4096)
    ensures |L| == MAX_ORDER + 1
    ensures var r, after := Serve(L, n, JobOf(CallFreePage(addr))), FreePages(L, n) + {addr / 4096};
            (r.ok <==> TopOpen(after, n)) && (r.ok ==> FreePages(r.lists, n) == after)
  {
    SinglePage(addr / 4096);
    BlockServed(L, n, Block(addr / 4096, 0));
  }

  lemma BlockServed(L: Lists, n: nat, b: Block)
    requires Canonical(L, n) && TopNotFree(L, n) && Fits(b.index, b.order, n) && NoneFree(L, b.index, b.order)
    ensures |L| == MAX_ORDER + 1
    ensures var r, after := ServeFrees(L, n, [b]), FreePages(L, n) + Pages(b.index, b.order);
            (r.ok <==> TopOpen(after, n)) && (r.ok ==> FreePages(r.lists, n) == after)
  {
    OneFree(L, n, b);
    OverrunPages(L, n, b.index, b.order);
    FreeBlockPages(L, n, b.index, b.order);
  }

  /** Freeing a linear region makes the least power of two of pages with room for `count` free. */
  lemma FreeLinearServed(L: Lists, n: nat, addr: nat, count: nat, k: nat)
    requires Canonical(L, n) && TopNotFree(L, n) && count > 0 && LeastRoom(count, k)
    requires Fits(addr / 4096, k, n) && NoneFree(L, addr / 4096, k)
    ensures |L| == MAX_ORDER + 1
    ensures var r := Serve(L, n, JobOf(CallFreeLinear(addr, count)));
            var after := FreePages(L, n) + Range(addr / 4096, Pow2(k));
            (r.ok <==> TopOpen(after, n)) && (r.ok ==> FreePages(r.lists, n) == after)
  {
    LeastRoomIsOrder(count, k);
    BlockServed(L, n, Block(addr / 4096, k));
    assert Range(addr / 4096, Pow2(k)) == Pages(addr / 4096, k);
  }

  /** A count no order has room for panics in a free too. */
  lemma FreeOddCount(L: Lists, n: nat, addr: nat, count: nat)
    requires |L| == MAX_ORDER + 1 && !(1 <= count <= 256)
    ensures !Serve(L, n, JobOf(CallFreeLinear(addr, count))).ok
  {
    hide RequestOrder;
    RequestInRange(count);
    OneFree(L, n, Block(addr / PAGE_SIZE, RequestOrder(count)));
  }

  function PagesOf(addrs: seq<nat>): set<nat> {
    set a | a in addrs :: a / 4096
  }

  lemma PagesOfFirst(addrs: seq<nat>)
    requires addrs != []
    ensures PagesOf(addrs) == {addrs[0] / 4096} + PagesOf(addrs[1..])
  {
    forall q ensures q in PagesOf(addrs) <==> q in {addrs[0] / 4096} + PagesOf(addrs[1..]) {
      if q in PagesOf(addrs) {
        var a :| a in addrs && q == a / 4096;
        assert a == addrs[0] || a in addrs[1..];
      }
      if q in PagesOf(addrs[1..]) {
        var a :| a in addrs[1..] && q == a / 4096;
        assert a in addrs;
      }
      assert addrs[0] in addrs;
    }
  }

  /** As many blocks, of such sizes, as the call asks for. */
  ghost predicate ReplyFits(call: Call, got: seq<Block>) {
    match call
    case CallAllocPage => |got| == 1 && got[0].order == 0
    case CallAllocLinear(count) => |got| == 1 && count <= Pow2(got[0].order) < 2 * count
    case CallAllocPages(count) => |got| == count && forall i :: 0 <= i < |got| ==> got[i].order == 0
    case _ => got == []
  }

  /** A call that does not panic is answered with what it asks for. */
  lemma ServedFits(L: Lists, n: nat, call: Call)
    requires |L| == MAX_ORDER + 1 && Serve(L, n, JobOf(call)).ok
    ensures ReplyFits(call, Serve(L, n, JobOf(call)).got)
  {
    hide AllocBlock, FreeBlock, FreeOverruns, RequestOrder, ServeAllocs;
    if IsAlloc(call) {
      GotOrders(L, JobOf(call).orders, []);
      if call.CallAllocLinear? { OneAlloc(L, RequestOrder(call.count)); }
      FitsByOrders(call, Serve(L, n, JobOf(call)).got);
    }
  }

  lemma FitsByOrders(call: Call, got: seq<Block>)
    requires IsAlloc(call) && |got| == |JobOf(call).orders|
    requires forall i :: 0 <= i < |got| ==> got[i].order == JobOf(call).orders[i]
    requires call.CallAllocLinear? ==> RequestOrder(call.count) <= MAX_ORDER
    ensures ReplyFits(call, got)
  {
    hide RequestOrder;
    if call.CallAllocLinear? { RequestInRange(call.count); }
  }

  /** Allocated pages, each named once. */
  ghost predicate NamesTaken(L: Lists, n: nat, addrs: seq<nat>) {
    && (forall i :: 0 <= i < |addrs| ==> addrs[i] / 4096 < n && !IsFree(L, addrs[i] / 4096))
    && (forall i, j :: 0 <= i < j < |addrs| ==> addrs[i] / 4096 != addrs[j] / 4096)
  }

  lemma {:induction false} NamedLegal(L: Lists, n: nat, addrs: seq<nat>)
    requires Canonical(L, n) && NamesTaken(L, n, addrs)
    ensures Legal(L, n, PageBlocks(addrs)) && Cover(PageBlocks(addrs)) == PagesOf(addrs)
    decreases |addrs|
  {
    if addrs != [] {
      var p, rest := addrs[0] / 4096, addrs[1..];
      SinglePage(p);
      FreeBlockCorrect(L, n, p, 0);
      var L1 := FreeBlock(L, p, 0);
      forall i | 0 <= i < |rest| ensures !IsFree(L1, rest[i] / 4096) {
        assert rest[i] == addrs[i + 1];
        assert !InBlock(rest[i] / 4096, p, 0);
      }
      NamedLegal(L1, n, rest);
      PagesOfFirst(addrs);
      assert PageBlocks(addrs)[1..] == PageBlocks(rest);
    }
  }

  /** Freeing many pages makes exactly the pages of the addresses free. */
  lemma FreePagesServed(L: Lists, n: nat, addrs: seq<nat>)
    requires Canonical(L, n) && TopNotFree(L, n) && NamesTaken(L, n, addrs)
    ensures |L| == MAX_ORDER + 1
    ensures var r, after := Serve(L, n, JobOf(CallFreePages(addrs))), FreePages(L, n) + PagesOf(addrs);
            (r.ok <==> TopOpen(after, n)) && (r.ok ==> FreePages(r.lists, n) == after)
  {
    hide Canonical, IsFree, FreePages, TopNotFree, NamesTaken;
    CanonicalLength(L, n);
    NamedLegal(L, n, addrs);
    FreesOverrun(L, n, PageBlocks(addrs));
    FreeAllCorrect(L, n, PageBlocks(addrs));
  }

  // ----- Whole runs

  /** Calls one after the other. A panic never gives the lock back, so nothing follows it. */
  function Run(s: Books, n: nat, calls: seq<Call>): (r: Books)
    requires |s.lists| == MAX_ORDER + 1
    ensures |r.lists| == |s.lists|
    decreases |calls|
  {
    if calls == [] then s
    else
      var s1 := After(s, n, JobOf(calls[0]));
      if Serve(s.lists, n, JobOf(calls[0])).ok then Run(s1, n, calls[1..]) else s1
  }

  /** None of the calls panics. */
  ghost predicate RunOk(s: Books, n: nat, calls: seq<Call>)
    requires |s.lists| == MAX_ORDER + 1
    decreases |calls|
  {
    calls == [] ||
    (Serve(s.lists, n, JobOf(calls[0])).ok && RunOk(After(s, n, JobOf(calls[0])), n, calls[1..]))
  }

  /** One more call goes on from where the calls before it ended. */
  lemma {:induction false} RunSnoc(s: Books, n: nat, calls: seq<Call>, call: Call)
    requires |s.lists| == MAX_ORDER + 1 && RunOk(s, n, calls)
    ensures Run(s, n, calls + [call]) == After(Run(s, n, calls), n, JobOf(call))
    ensures RunOk(s, n, calls + [call]) <==> Serve(Run(s, n, calls).lists, n, JobOf(call)).ok
    decreases |calls|
  {
    hide JobOf, Serve;
    if calls == [] {
      assert calls + [call] == [call] && [call][1..] == [];
    } else {
      RunSnoc(After(s, n, JobOf(calls[0])), n, calls[1..], call);
      assert (calls + [call])[1..] == calls[1..] + [call];
    }
  }

  ghost predicate AllowedRun(s: Books, n: nat, calls: seq<Call>)
    requires |s.lists| == MAX_ORDER + 1
    decreases |calls|
  {
    calls == [] ||
    (&& Allowed(s.out, JobOf(calls[0]))
     && (Serve(s.lists, n, JobOf(calls[0])).ok ==> AllowedRun(After(s, n, JobOf(calls[0])), n, calls[1..])))
  }

  lemma {:induction false} RunBalanced(s: Books, initial: set<nat>, n: nat, calls: seq<Call>)
    requires Balanced(s, initial, n) && AllowedRun(s, n, calls)
    ensures Balanced(Run(s, n, calls), initial, n)
    decreases |calls|
  {
    hide Balanced, JobOf;
    BalancedLists(s, initial, n);
    if calls != [] {
      JobBalanced(s, initial, n, JobOf(calls[0]));
      if Serve(s.lists, n, JobOf(calls[0])).ok {
        RunBalanced(After(s, n, JobOf(calls[0])), initial, n, calls[1..]);
      }
    }
  }

  lemma BalancedLists(s: Books, initial: set<nat>, n: nat)
    requires Balanced(s, initial, n)
    ensures Canonical(s.lists, n) && |s.lists| == MAX_ORDER + 1
  {}

  /**
    From any start that leaves the top block of an unsafe page count open, any allowed run of calls
    keeps held blocks pairwise disjoint and away from the free pages, and never hands out a page
    that was not free at the start.
   */
  lemma Conservation(L: Lists, n: nat, calls: seq<Call>, forbidden: set<nat>)
    requires Canonical(L, n) && TopNotFree(L, n) && AllowedRun(Books(L, {}), n, calls)
    requires FreePages(L, n) !! forbidden
    ensures var s := Run(Books(L, {}), n, calls);
            && (forall b, c :: b in s.out && c in s.out && b != c
                               ==> Pages(b.index, b.order) !! Pages(c.index, c.order))
            && (forall b :: b in s.out ==> Pages(b.index, b.order) !! FreePages(s.lists, n))
            && (forall b :: b in s.out ==> Pages(b.index, b.order) !! forbidden)
            && (forall p :: p in FreePages(L, n) <==> p in FreePages(s.lists, n) || InOut(s.out, p))
  {
    InitiallyBalanced(L, n);
    RunBalanced(Books(L, {}), FreePages(L, n), n, calls);
    BalanceMeans(Run(Books(L, {}), n, calls), FreePages(L, n), n, forbidden);
  }

  lemma BalanceMeans(s: Books, initial: set<nat>, n: nat, forbidden: set<nat>)
    requires Balanced(s, initial, n) && initial !! forbidden
    ensures forall b, c :: b in s.out && c in s.out && b != c
                           ==> Pages(b.index, b.order) !! Pages(c.index, c.order)
    ensures forall b :: b in s.out ==> Pages(b.index, b.order) !! FreePages(s.lists, n)
    ensures forall b :: b in s.out ==> Pages(b.index, b.order) !! forbidden
    ensures forall p: nat :: p in initial <==> p in FreePages(s.lists, n) || InOut(s.out, p)
  {
    forall b | b in s.out
      ensures Pages(b.index, b.order) !! FreePages(s.lists, n) && Pages(b.index, b.order) !! forbidden
    {
      HeldInsideInitial(s, initial, n, b);
    }
    forall p: nat ensures p in initial <==> p in FreePages(s.lists, n) || InOut(s.out, p) {
      FreeInRange(s.lists, n, p);
    }
  }
}
