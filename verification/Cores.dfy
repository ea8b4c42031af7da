/**
  Any number of cores sharing one manager behind its spin lock. Cores make calls, spin on an atomic
  swap, run the call's steps, each with at most one memory access, and release the lock; clients
  write into the pages they hold at any moment, without the lock. A panic keeps the lock.
 */
module Cores {
  import opened Blocks
  import opened BuddyLists
  import opened BuddyRegions
  import opened BitmapLimits
  import opened FreeMemory
  import opened Ledger
  import opened BlockSteps
  import opened JobTasks

  /** A block that is out is either in a client's hands or already named in a pending free. */
  datatype Holder = Client | Pending

  datatype Core = Idle | Waiting(call: Call) | Inside(task: Task)

  /**
    `locked`, `mem` and `cores` are the machine. The rest is bookkeeping: who holds which block, the
    calls with their cores in lock-acquisition order, the replies with the cores that received them,
    and what the memory would be if no client had written since the lock was last taken.
   */
  datatype System = System(
    locked: bool, mem: Memory, cores: seq<Core>,
    holders: map<Block, Holder>, log: seq<(nat, Call)>, replies: seq<(nat, seq<Block>)>, shadow: Memory)

  // ----- Steps

  /** A client asks for pages, or gives back pages it holds. */
  ghost predicate Request(s: System, s': System, c: nat, call: Call) {
    var job := JobOf(call);
    && c < |s.cores| && s.cores[c].Idle? && Allowed(s.holders.Keys, job)
    && (job.FreeJob? ==> forall b :: b in job.blocks ==> b in s.holders && s.holders[b].Client?)
    && s' == s.(cores := s.cores[c := Waiting(call)],
                holders := if job.AllocJob? then s.holders
                           else map b | b in s.holders :: if b in job.blocks then Pending else s.holders[b])
  }

  /** `try_lock`: swap true into the flag; the guard is ours if it was false. */
  ghost predicate TryLock(s: System, s': System, c: nat) {
    && c < |s.cores| && s.cores[c].Waiting?
    && s' == if s.locked then s.(locked := true)
             else s.(locked := true, cores := s.cores[c := Inside(Begin(JobOf(s.cores[c].call), []))],
                     log := s.log + [(c, s.cores[c].call)], shadow := s.mem)
  }

  /** One step of the call that holds the lock. */
  ghost predicate Work(s: System, s': System, c: nat) {
    && c < |s.cores| && s.cores[c].Inside? && s.cores[c].task.Working?
    && var t := s.cores[c].task;
       s' == s.(mem := TaskStep(s.mem, t).0, shadow := TaskStep(s.shadow, t).0,
                cores := s.cores[c := Inside(TaskStep(s.mem, t).1)])
  }

  /** The guard is dropped: store false into the flag and return the reply. */
  ghost predicate Unlock(s: System, s': System, c: nat) {
    && c < |s.cores| && s.cores[c].Inside? && s.cores[c].task.Done? && s.log != []
    && var got, job := s.cores[c].task.got, JobOf(s.log[|s.log| - 1].1);
       s' == s.(locked := false, cores := s.cores[c := Idle], replies := s.replies + [(c, got)],
                holders := if job.AllocJob? then s.holders + map b | b in got :: Client
                           else s.holders - Elements(job.blocks))
  }

  /** A client writes anything into a page of a block it holds. */
  ghost predicate ClientWrite(s: System, s': System, b: Block, p: nat, content: FreeEntry) {
    && b in s.holders && s.holders[b].Client? && InBlock(p, b.index, b.order)
    && s' == s.(mem := WithEntry(s.mem, p, content))
  }

  ghost predicate Next(s: System, s': System) {
    || (exists c, call :: Request(s, s', c, call))
    || (exists c :: TryLock(s, s', c))
    || (exists c :: Work(s, s', c))
    || (exists c :: Unlock(s, s', c))
    || (exists b, p, content :: ClientWrite(s, s', b, p, content))
  }

  ghost predicate Init(s: System, L: Lists, n: nat) {
    && !s.locked && Coupled(s.mem, L, n) && TopNotFree(L, n)
    && (forall c :: 0 <= c < |s.cores| ==> s.cores[c].Idle?)
    && s.holders == map[] && s.log == [] && s.replies == []
  }

  // ----- The sequential run

  /** The books after the logged calls, one after the other. */
  ghost function BooksAfter(L: Lists, n: nat, log: seq<(nat, Call)>): (r: Books)
    requires |L| == MAX_ORDER + 1
    ensures |r.lists| == |L|
    decreases |log|
  {
    if log == [] then Books(L, {})
    else After(BooksAfter(L, n, log[..|log| - 1]), n, JobOf(log[|log| - 1].1))
  }

  /** What each logged call returns, and to which core, when the calls run one after the other. */
  ghost function RepliesAfter(L: Lists, n: nat, log: seq<(nat, Call)>): seq<(nat, seq<Block>)>
    requires |L| == MAX_ORDER + 1
    decreases |log|
  {
    if log == [] then []
    else
      var before, (c, call) := log[..|log| - 1], log[|log| - 1];
      RepliesAfter(L, n, before) + [(c, Serve(BooksAfter(L, n, before).lists, n, JobOf(call)).got)]
  }

  ghost function Calls(log: seq<(nat, Call)>): seq<Call> {
    seq(|log|, i requires 0 <= i < |log| => log[i].1)
  }

  /** The books after the logged calls are those of the sequential run of the calls. */
  ghost predicate Sequential(L: Lists, n: nat, log: seq<(nat, Call)>)
    requires |L| == MAX_ORDER + 1
  {
    RunOk(Books(L, {}), n, Calls(log)) && BooksAfter(L, n, log) == Run(Books(L, {}), n, Calls(log))
  }

  lemma NextSequential(L: Lists, n: nat, log: seq<(nat, Call)>)
    requires |L| == MAX_ORDER + 1 && log != [] && Sequential(L, n, log[..|log| - 1])
    requires Serve(BooksAfter(L, n, log[..|log| - 1]).lists, n, JobOf(log[|log| - 1].1)).ok
    ensures Sequential(L, n, log)
  {
    hide Serve, JobOf, Run, RunOk, BooksAfter;
    var before := log[..|log| - 1];
    assert Calls(log) == Calls(before) + [log[|log| - 1].1];
    RunSnoc(Books(L, {}), n, Calls(before), log[|log| - 1].1);
    LogStep(L, n, log);
  }

  // ----- The invariant

  /** Jobs that are over: all of them while the lock is free, all but the last while it is held. */
  ghost function Finished(s: System): seq<(nat, Call)> {
    if s.locked && s.log != [] then s.log[..|s.log| - 1] else s.log
  }

  /** Blocks that a call gives back. */
  function Given(call: Call): set<Block> {
    if JobOf(call).FreeJob? then Elements(JobOf(call).blocks) else {}
  }

  /** Blocks named in the free that core c has asked for or is carrying out. */
  ghost function Surrendered(s: System, c: nat): set<Block>
    requires c < |s.cores|
  {
    match s.cores[c]
    case Idle => {}
    case Waiting(call) => Given(call)
    case Inside(_) => if s.log != [] then Given(s.log[|s.log| - 1].1) else {}
  }

  ghost predicate PendingFrees(s: System) {
    && (forall c, b :: 0 <= c < |s.cores| && b in Surrendered(s, c) ==> b in s.holders && s.holders[b].Pending?)
    && (forall c, d, b :: 0 <= c < d < |s.cores| && b in Surrendered(s, c) ==> b !in Surrendered(s, d))
    && (forall c :: 0 <= c < |s.cores| && s.cores[c].Waiting? ==> Allowed(s.holders.Keys, JobOf(s.cores[c].call)))
  }

  ghost function HeldPages(blocks: set<Block>, n: nat): set<nat> {
    set p: nat | p < n && InOut(blocks, p)
  }

  /** Pages that clients may write while core c is inside. */
  ghost function ClientPages(s: System, c: nat, n: nat): set<nat>
    requires c < |s.cores|
  {
    HeldPages(s.holders.Keys - Surrendered(s, c), n)
  }

  ghost predicate LockFree(s: System, books: Books, n: nat) {
    && (forall c :: 0 <= c < |s.cores| ==> !s.cores[c].Inside?)
    && Coupled(s.mem, books.lists, n)
  }

  ghost predicate LockHeld(s: System, books: Books, n: nat)
    requires |books.lists| == MAX_ORDER + 1
  {
    && s.log != []
    && var (c, call) := s.log[|s.log| - 1];
       && c < |s.cores| && s.cores[c].Inside?
       && (forall d :: 0 <= d < |s.cores| && d != c ==> !s.cores[d].Inside?)
       && Allowed(books.out, JobOf(call))
       && Agree(s.shadow, s.mem, ClientPages(s, c, n))
       && TaskConfined(s.shadow, s.cores[c].task, ClientPages(s, c, n))
       && EndsAs(s.shadow, s.cores[c].task, Serve(books.lists, n, JobOf(call)), n)
  }

  /** Every reply went to the core of its call and is what the call asked for. */
  ghost predicate RepliesFit(replies: seq<(nat, seq<Block>)>, log: seq<(nat, Call)>) {
    && |replies| == |log|
    && forall i :: 0 <= i < |log| ==> replies[i].0 == log[i].0 && ReplyFits(log[i].1, replies[i].1)
  }

  ghost predicate Safe(s: System, L: Lists, n: nat) {
    && Canonical(L, n) && |L| == MAX_ORDER + 1
    && s.replies == RepliesAfter(L, n, Finished(s)) && RepliesFit(s.replies, Finished(s))
    && Sequential(L, n, Finished(s))
    && var books := BooksAfter(L, n, Finished(s));
       && Balanced(books, FreePages(L, n), n)
       && books.out == s.holders.Keys
       && PendingFrees(s)
       && if s.locked then LockHeld(s, books, n) else LockFree(s, books, n)
  }

  lemma InitSafe(s: System, L: Lists, n: nat)
    requires Init(s, L, n)
    ensures Safe(s, L, n)
  {
    InitiallyBalanced(L, n);
  }

  // ----- Every step keeps the invariant

  lemma RequestSafe(s: System, s': System, c: nat, call: Call, L: Lists, n: nat)
    requires Safe(s, L, n) && Request(s, s', c, call)
    ensures Safe(s', L, n)
  {
    hide Balanced, Coupled, Canonical, EndsAs, TaskConfined, Agree, HeldPages, PendingFrees, BooksAfter;
    hide RepliesAfter, Serve, JobOf;
    RequestPending(s, s', c, call);
  }

  lemma RequestPending(s: System, s': System, c: nat, call: Call)
    requires PendingFrees(s) && Request(s, s', c, call)
    ensures PendingFrees(s') && s'.holders.Keys == s.holders.Keys
    ensures forall d :: 0 <= d < |s.cores| && d != c ==> Surrendered(s', d) == Surrendered(s, d)
  {
    hide JobOf;
    assert s'.holders.Keys == s.holders.Keys;
    forall d | 0 <= d < |s.cores| && d != c ensures Surrendered(s', d) == Surrendered(s, d) {}
  }

  lemma TryLockSafe(s: System, s': System, c: nat, L: Lists, n: nat)
    requires Safe(s, L, n) && TryLock(s, s', c)
    ensures Safe(s', L, n)
  {
    hide Balanced, Coupled, Canonical, EndsAs, TaskConfined, HeldPages, Serve;
    hide IsFree, InOut, FreePages, PendingFrees, BooksAfter, RepliesAfter, JobOf;
    if s.locked {
      assert s' == s;
    } else {
      var books, job := BooksAfter(L, n, s.log), JobOf(s.cores[c].call);
      assert Finished(s') == s.log;
      EnterPending(s, s', c);
      var away := ClientPages(s', c, n);
      EnterReady(books, FreePages(L, n), n, job, Surrendered(s', c));
      JobTask(s.mem, books.lists, n, job, away);
    }
  }

  lemma EnterPending(s: System, s': System, c: nat)
    requires PendingFrees(s) && TryLock(s, s', c) && !s.locked
    requires forall d :: 0 <= d < |s.cores| ==> !s.cores[d].Inside?
    ensures PendingFrees(s')
    ensures Surrendered(s', c) == Given(s.cores[c].call)
    ensures Allowed(s.holders.Keys, JobOf(s.cores[c].call))
  {
    hide JobOf;
    assert s'.log[|s'.log| - 1].1 == s.cores[c].call;
    forall d | 0 <= d < |s.cores| ensures Surrendered(s', d) == Surrendered(s, d) {}
  }

  /** On entry the job is legal and stays clear of what clients may write. */
  lemma EnterReady(books: Books, initial: set<nat>, n: nat, job: Job, given: set<Block>)
    requires Balanced(books, initial, n) && Allowed(books.out, job)
    requires given == if job.FreeJob? then Elements(job.blocks) else {}
    ensures |books.lists| == MAX_ORDER + 1 && Outside(HeldPages(books.out - given, n), books.lists)
    ensures LegalJob(books.lists, n, job)
    ensures job.FreeJob? ==> HeldPages(books.out - given, n) !! Cover(job.blocks)
  {
    JobBalanced(books, initial, n, job);
    HeldPagesNotFree(books, books.out - given, initial, n);
    if job.FreeJob? {
      forall p | p in HeldPages(books.out - given, n) && p in Cover(job.blocks) ensures false {
        var b :| b in books.out - given && InBlock(p, b.index, b.order);
        CoverIsInside(job.blocks, p);
      }
    }
  }

  lemma HeldPagesNotFree(books: Books, blocks: set<Block>, initial: set<nat>, n: nat)
    requires Balanced(books, initial, n) && blocks <= books.out
    ensures Outside(HeldPages(blocks, n), books.lists)
  {}

  lemma {:induction false} CoverIsInside(bs: seq<Block>, p: nat)
    requires p in Cover(bs)
    ensures exists b :: b in Elements(bs) && InBlock(p, b.index, b.order)
  {
    if p in Pages(bs[0].index, bs[0].order) {
      assert bs[0] in Elements(bs);
    } else {
      CoverIsInside(bs[1..], p);
      var b :| b in Elements(bs[1..]) && InBlock(p, b.index, b.order);
      assert b in Elements(bs);
    }
  }

  lemma WorkSafe(s: System, s': System, c: nat, L: Lists, n: nat)
    requires Safe(s, L, n) && Work(s, s', c)
    ensures Safe(s', L, n)
  {
    hide Balanced, Coupled, Canonical, Serve, HeldPages, Avoids, TaskStep, JobOf;
    var t := s.cores[c].task;
    assert s.locked;
    assert c == s.log[|s.log| - 1].0;
    var away := ClientPages(s, c, n);
    StepAgrees(s.shadow, s.mem, t, away);
    forall d | 0 <= d < |s.cores| ensures Surrendered(s', d) == Surrendered(s, d) {}
  }

  lemma UnlockSafe(s: System, s': System, c: nat, L: Lists, n: nat)
    requires Safe(s, L, n) && Unlock(s, s', c)
    ensures Safe(s', L, n)
  {
    hide Balanced, Coupled, Canonical, Serve, HeldPages, InOut, IsFree, FreePages, JobOf, PendingFrees;
    hide BooksAfter, RepliesAfter, RepliesFit, ReplyFits, Complete, TaskConfined, Agree, Sequential;
    assert s.locked;
    assert c == s.log[|s.log| - 1].0;
    var books, job := BooksAfter(L, n, Finished(s)), JobOf(s.log[|s.log| - 1].1);
    var r := Serve(books.lists, n, job);
    var away := ClientPages(s, c, n);
    CompleteEnded(s.shadow, s.cores[c].task, {});
    assert s.cores[c].task.got == r.got && r.ok;
    JobBalanced(books, FreePages(L, n), n, job);
    LeaveCoupled(s.shadow, s.mem, books, job, FreePages(L, n), n, away, Surrendered(s, c));
    assert Finished(s') == s.log;
    LeaveHolders(s, s', c, books, job, FreePages(L, n), n);
    ServedFits(books.lists, n, s.log[|s.log| - 1].1);
    NextReplyFits(s.replies, Finished(s), s.log[|s.log| - 1], r.got);
    LogStep(L, n, s.log);
    NextSequential(L, n, s.log);
    assert s.log == Finished(s) + [s.log[|s.log| - 1]];
  }

  lemma LogStep(L: Lists, n: nat, log: seq<(nat, Call)>)
    requires |L| == MAX_ORDER + 1 && log != []
    ensures var before, (c, call) := log[..|log| - 1], log[|log| - 1];
            var books := BooksAfter(L, n, before);
            && BooksAfter(L, n, log) == After(books, n, JobOf(call))
            && RepliesAfter(L, n, log) == RepliesAfter(L, n, before) + [(c, Serve(books.lists, n, JobOf(call)).got)]
  {}

  lemma NextReplyFits(replies: seq<(nat, seq<Block>)>, log: seq<(nat, Call)>, entry: (nat, Call), got: seq<Block>)
    requires RepliesFit(replies, log) && ReplyFits(entry.1, got)
    ensures RepliesFit(replies + [(entry.0, got)], log + [entry])
  {
    hide ReplyFits;
  }

  /** On exit the memory with the clients' writes is coupled to the new lists. */
  lemma LeaveCoupled(shadow: Memory, mem: Memory, books: Books, job: Job, initial: set<nat>, n: nat,
                     away: set<nat>, given: set<Block>)
    requires Balanced(books, initial, n) && Allowed(books.out, job) && Balanced(After(books, n, job), initial, n)
    requires given == if job.FreeJob? then Elements(job.blocks) else {}
    requires away == HeldPages(books.out - given, n)
    requires Coupled(shadow, Serve(books.lists, n, job).lists, n) && Agree(shadow, mem, away)
    ensures Coupled(mem, Serve(books.lists, n, job).lists, n)
  {
    var books' := After(books, n, job);
    assert books.out - given <= books'.out;
    HeldPagesNotFree(books', books.out - given, initial, n);
    HeadsOutside(books'.lists, n, away);
    ClientDataIrrelevant(shadow, mem.entries, books'.lists, n);
    assert mem == shadow.(entries := mem.entries);
  }

  lemma TakenIsNoHead(L: Lists, n: nat, p: nat)
    requires Canonical(L, n) && !IsFree(L, p)
    ensures !IsHead(L, p)
  {
    if IsHead(L, p) { HeadIsFree(L, n, p); }
  }

  lemma HeadsOutside(L: Lists, n: nat, away: set<nat>)
    requires Canonical(L, n) && Outside(away, L)
    ensures forall p :: p in away ==> !IsHead(L, p)
  {
    forall p | p in away ensures !IsHead(L, p) {
      TakenIsNoHead(L, n, p);
    }
  }

  lemma LeaveHolders(s: System, s': System, c: nat, books: Books, job: Job, initial: set<nat>, n: nat)
    requires Unlock(s, s', c) && PendingFrees(s) && s.holders.Keys == books.out && job == JobOf(s.log[|s.log| - 1].1)
    requires forall d :: 0 <= d < |s.cores| && d != c ==> !s.cores[d].Inside?
    requires Balanced(books, initial, n) && |books.lists| == MAX_ORDER + 1 && Allowed(books.out, job)
    requires s.cores[c].task.got == Serve(books.lists, n, job).got
    ensures PendingFrees(s') && s'.holders.Keys == After(books, n, job).out
  {
    hide Balanced, JobOf;
    BalancedLists(books, initial, n);
    var got := s.cores[c].task.got;
    if job.AllocJob? {
      ObtainedIsNew(books, initial, n, job.orders);
    }
    forall d | 0 <= d < |s.cores| && d != c ensures Surrendered(s', d) == Surrendered(s, d) {}
    assert Surrendered(s', c) == {};
    assert s'.holders.Keys == After(books, n, job).out;
    forall d, b | 0 <= d < |s.cores| && d != c && b in Surrendered(s, d)
      ensures b in s'.holders && s'.holders[b].Pending?
    {
      assert b in s.holders && s.holders[b].Pending?;
      assert b !in Surrendered(s, c);
    }
    forall d | 0 <= d < |s'.cores| && s'.cores[d].Waiting? ensures Allowed(s'.holders.Keys, JobOf(s'.cores[d].call)) {
      assert Allowed(s.holders.Keys, JobOf(s.cores[d].call));
      forall b | b in Surrendered(s, d) ensures b in s'.holders {}
    }
  }

  /** A client can write anything into a page it holds, whatever the other cores do. */
  lemma ClientCanWrite(s: System, b: Block, p: nat, content: FreeEntry)
    requires b in s.holders && s.holders[b].Client? && InBlock(p, b.index, b.order) && p < |s.mem.entries|
    ensures Next(s, s.(mem := s.mem.(entries := s.mem.entries[p := content])))
  {
    var s' := s.(mem := s.mem.(entries := s.mem.entries[p := content]));
    assert ClientWrite(s, s', b, p, content);
  }

  lemma ClientWriteSafe(s: System, s': System, b: Block, p: nat, content: FreeEntry, L: Lists, n: nat)
    requires Safe(s, L, n) && ClientWrite(s, s', b, p, content)
    ensures Safe(s', L, n)
  {
    hide Canonical, TaskConfined, EndsAs, Coupled, Balanced, BooksAfter, RepliesAfter, Serve, IsFree, JobOf;
    var books := BooksAfter(L, n, Finished(s));
    HeldPageIsTaken(books, FreePages(L, n), n, b, p);
    forall d | 0 <= d < |s.cores| ensures Surrendered(s', d) == Surrendered(s, d) {}
    if s.locked {
      var c := s.log[|s.log| - 1].0;
      assert b in s.holders.Keys - Surrendered(s, c);
      assert InOut(s.holders.Keys - Surrendered(s, c), p);
      assert p in ClientPages(s, c, n);
    } else {
      CoupledLists(s.mem, books.lists, n);
      TakenIsNoHead(books.lists, n, p);
      ClientDataIrrelevant(s.mem, s'.mem.entries, books.lists, n);
    }
  }

  lemma HeldPageIsTaken(books: Books, initial: set<nat>, n: nat, b: Block, p: nat)
    requires Balanced(books, initial, n) && b in books.out && InBlock(p, b.index, b.order)
    ensures p < n && !IsFree(books.lists, p)
  {}

  lemma NextSafe(s: System, s': System, L: Lists, n: nat)
    requires Safe(s, L, n) && Next(s, s')
    ensures Safe(s', L, n)
  {
    hide Safe, Request, TryLock, Work, Unlock, ClientWrite;
    if c, call :| Request(s, s', c, call) {
      RequestSafe(s, s', c, call, L, n);
    } else if c :| TryLock(s, s', c) {
      TryLockSafe(s, s', c, L, n);
    } else if c :| Work(s, s', c) {
      WorkSafe(s, s', c, L, n);
    } else if c :| Unlock(s, s', c) {
      UnlockSafe(s, s', c, L, n);
    } else {
      var b, p, content :| ClientWrite(s, s', b, p, content);
      ClientWriteSafe(s, s', b, p, content, L, n);
    }
  }

  // ----- Whole runs

  ghost predicate IsRun(run: seq<System>, L: Lists, n: nat) {
    run != [] && Init(run[0], L, n) && forall i :: 0 <= i < |run| - 1 ==> Next(run[i], run[i + 1])
  }

  lemma {:induction false} RunSafe(run: seq<System>, L: Lists, n: nat, i: nat)
    requires IsRun(run, L, n) && i < |run|
    ensures Safe(run[i], L, n)
  {
    if i == 0 {
      InitSafe(run[0], L, n);
    } else {
      RunSafe(run, L, n, i - 1);
      assert Next(run[i - 1], run[i - 1 + 1]);
      NextSafe(run[i - 1], run[i], L, n);
    }
  }

  /**
    In every state of every run: at most one core is inside; each core received the replies that its
    calls have when all calls run one after the other in lock-acquisition order, with the blocks each
    call asks for; free and held pages partition the initially free pages; only an allocation can
    panic; and whenever the lock is free, memory is coupled to the lists of that sequential run.
   */
  lemma ConcurrentSafety(run: seq<System>, L: Lists, n: nat, i: nat)
    requires IsRun(run, L, n) && i < |run|
    ensures var s := run[i];
            && (forall c, d :: 0 <= c < d < |s.cores| && s.cores[c].Inside? ==> !s.cores[d].Inside?)
            && |L| == MAX_ORDER + 1
            && s.replies == RepliesAfter(L, n, Finished(s)) && RepliesFit(s.replies, Finished(s))
            && RunOk(Books(L, {}), n, Calls(Finished(s)))
            && BooksAfter(L, n, Finished(s)) == Run(Books(L, {}), n, Calls(Finished(s)))
            && Balanced(Books(BooksAfter(L, n, Finished(s)).lists, s.holders.Keys), FreePages(L, n), n)
            && (forall c :: 0 <= c < |s.cores| && s.cores[c].Inside? && s.cores[c].task.Panicked?
                            ==> s.log != [] && IsAlloc(s.log[|s.log| - 1].1))
            && (!s.locked ==> Coupled(s.mem, BooksAfter(L, n, s.log).lists, n))
  {
    RunSafe(run, L, n, i);
    OnlyAllocsPanic(run[i], L, n);
  }

  lemma OnlyAllocsPanic(s: System, L: Lists, n: nat)
    requires Safe(s, L, n)
    ensures forall c :: 0 <= c < |s.cores| && s.cores[c].Inside? && s.cores[c].task.Panicked?
                        ==> s.log != [] && IsAlloc(s.log[|s.log| - 1].1)
  {
    hide Balanced, Coupled, Canonical, HeldPages, JobOf, TaskConfined, Agree, Serve, PendingFrees, BooksAfter,
         RepliesAfter;
    forall c | 0 <= c < |s.cores| && s.cores[c].Inside? && s.cores[c].task.Panicked?
      ensures s.log != [] && IsAlloc(s.log[|s.log| - 1].1)
    {
      assert s.locked && c == s.log[|s.log| - 1].0;
      var books, call := BooksAfter(L, n, Finished(s)), s.log[|s.log| - 1].1;
      CompleteEnded(s.shadow, s.cores[c].task, {});
      AllocIsAllocJob(call);
      JobBalanced(books, FreePages(L, n), n, JobOf(call));
    }
  }

  // ----- Calls can complete

  /** A finite run from one state to another. */
  ghost predicate Leads(run: seq<System>, s: System, t: System) {
    run != [] && run[0] == s && run[|run| - 1] == t && forall i :: 0 <= i < |run| - 1 ==> Next(run[i], run[i + 1])
  }

  lemma LeadsFirst(s: System, s1: System, t: System, run: seq<System>)
    requires Next(s, s1) && Leads(run, s1, t)
    ensures Leads([s] + run, s, t)
  {
    hide Next;
    var r := [s] + run;
    forall i | 0 <= i < |r| - 1 ensures Next(r[i], r[i + 1]) {
      if i > 0 { assert Next(run[i - 1], run[i - 1 + 1]); }
    }
  }

  /** The core inside can work until its call is over, and nothing but its task and memory changes. */
  lemma {:induction false} WorkPath(s: System, c: nat, L: Lists, n: nat) returns (run: seq<System>, t: System)
    requires Safe(s, L, n) && c < |s.cores| && s.cores[c].Inside?
    ensures Leads(run, s, t) && Safe(t, L, n)
    ensures |t.cores| == |s.cores| && t.cores[c].Inside? && !t.cores[c].task.Working?
    ensures t == s.(mem := t.mem, shadow := t.shadow, cores := s.cores[c := t.cores[c]])
    decreases Remaining(s.cores[c].task), if s.cores[c].task.Working? then Rank(s.cores[c].task.pc) else 0
  {
    hide Safe, Next, TaskStep, Rank;
    var task := s.cores[c].task;
    if !task.Working? {
      run, t := [s], s;
      assert s.cores[c := s.cores[c]] == s.cores;
    } else {
      var s1 := s.(mem := TaskStep(s.mem, task).0, shadow := TaskStep(s.shadow, task).0,
                   cores := s.cores[c := Inside(TaskStep(s.mem, task).1)]);
      assert Work(s, s1, c);
      WorkIsNext(s, s1, c);
      WorkSafe(s, s1, c, L, n);
      StepShrinks(s.mem, task);
      run, t := WorkPath(s1, c, L, n);
      LeadsFirst(s, s1, t, run);
      run := [s] + run;
    }
  }

  lemma WorkIsNext(s: System, s': System, c: nat)
    requires Work(s, s', c)
    ensures Next(s, s')
  {
    hide Work;
  }

  lemma RequestIsNext(s: System, s': System, c: nat, call: Call)
    requires Request(s, s', c, call)
    ensures Next(s, s')
  {
    hide Request;
  }

  lemma TryLockIsNext(s: System, s': System, c: nat)
    requires TryLock(s, s', c)
    ensures Next(s, s')
  {
    hide TryLock;
  }

  lemma UnlockIsNext(s: System, s': System, c: nat)
    requires Unlock(s, s', c)
    ensures Next(s, s')
  {
    hide Unlock;
  }

  /** What the core inside ends with. */
  lemma EndedTask(s: System, c: nat, L: Lists, n: nat)
    requires Safe(s, L, n) && c < |s.cores| && s.cores[c].Inside? && !s.cores[c].task.Working?
    ensures s.locked && s.log != [] && |L| == MAX_ORDER + 1
    ensures var r := Serve(BooksAfter(L, n, s.log[..|s.log| - 1]).lists, n, JobOf(s.log[|s.log| - 1].1));
            s.cores[c].task == if r.ok then Done(r.got) else Panicked(r.got)
  {
    hide Balanced, Coupled, Canonical, HeldPages, JobOf, TaskConfined, Agree, Serve, PendingFrees, BooksAfter,
         RepliesAfter, RepliesFit;
    assert s.locked && c == s.log[|s.log| - 1].0;
    CompleteEnded(s.shadow, s.cores[c].task, {});
  }

  /**
    Whenever the lock is free, an idle core can make any allowed call that does not panic on lists:
    some run asks, takes the lock, works, replies with what the lists give and leaves the lock free.
   */
  lemma CallCompletes(s: System, c: nat, call: Call, L: Lists, n: nat) returns (run: seq<System>, t: System)
    requires Safe(s, L, n) && !s.locked && c < |s.cores| && s.cores[c].Idle?
    requires Allowed(s.holders.Keys, JobOf(call))
    requires JobOf(call).FreeJob? ==> forall b :: b in JobOf(call).blocks ==> b in s.holders && s.holders[b].Client?
    requires |L| == MAX_ORDER + 1 && Serve(BooksAfter(L, n, s.log).lists, n, JobOf(call)).ok
    ensures Leads(run, s, t) && Safe(t, L, n)
    ensures !t.locked && t.cores == s.cores && t.log == s.log + [(c, call)]
    ensures t.replies == s.replies + [(c, Serve(BooksAfter(L, n, s.log).lists, n, JobOf(call)).got)]
  {
    hide Safe, Next, Serve, JobOf, BooksAfter, Leads, Allowed;
    var s1, s2 := BeginCall(s, c, call, L, n);
    var s3;
    run, s3 := WorkPath(s2, c, L, n);
    EndedTask(s3, c, L, n);
    assert s3.log[..|s3.log| - 1] == s.log;
    t := FinishCall(s3, c, L, n);
    assert t.cores == s.cores;
    LeadsLast(run, s2, s3, t);
    LeadsFirst(s1, s2, t, run + [t]);
    LeadsFirst(s, s1, t, [s1] + (run + [t]));
    run := [s] + ([s1] + (run + [t]));
  }

  /** Ask and take the free lock. */
  lemma BeginCall(s: System, c: nat, call: Call, L: Lists, n: nat) returns (s1: System, s2: System)
    requires Safe(s, L, n) && !s.locked && c < |s.cores| && s.cores[c].Idle?
    requires Allowed(s.holders.Keys, JobOf(call))
    requires JobOf(call).FreeJob? ==> forall b :: b in JobOf(call).blocks ==> b in s.holders && s.holders[b].Client?
    ensures Next(s, s1) && Next(s1, s2) && Safe(s2, L, n)
    ensures s2.cores == s.cores[c := Inside(Begin(JobOf(call), []))] && s2.log == s.log + [(c, call)]
    ensures s2.replies == s.replies
  {
    hide Safe, Next, JobOf, Begin, Allowed;
    var job := JobOf(call);
    s1 := s.(cores := s.cores[c := Waiting(call)],
             holders := if job.AllocJob? then s.holders
                        else map b | b in s.holders :: if b in job.blocks then Pending else s.holders[b]);
    RequestSafe(s, s1, c, call, L, n);
    RequestIsNext(s, s1, c, call);
    s2 := s1.(locked := true, cores := s1.cores[c := Inside(Begin(job, []))],
              log := s1.log + [(c, call)], shadow := s1.mem);
    TryLockSafe(s1, s2, c, L, n);
    TryLockIsNext(s1, s2, c);
  }

  /** Reply and release the lock. */
  lemma FinishCall(s: System, c: nat, L: Lists, n: nat) returns (t: System)
    requires Safe(s, L, n) && s.log != [] && c < |s.cores| && s.cores[c].Inside? && s.cores[c].task.Done?
    ensures Next(s, t) && Safe(t, L, n) && !t.locked
    ensures t.cores == s.cores[c := Idle] && t.log == s.log && t.replies == s.replies + [(c, s.cores[c].task.got)]
  {
    hide Safe, Next, JobOf;
    var got, job := s.cores[c].task.got, JobOf(s.log[|s.log| - 1].1);
    t := s.(locked := false, cores := s.cores[c := Idle], replies := s.replies + [(c, got)],
            holders := if job.AllocJob? then s.holders + map b | b in got :: Client
                       else s.holders - Elements(job.blocks));
    UnlockSafe(s, t, c, L, n);
    UnlockIsNext(s, t, c);
  }

  lemma LeadsLast(run: seq<System>, s: System, t: System, u: System)
    requires Leads(run, s, t) && Next(t, u)
    ensures Leads(run + [u], s, u)
  {
    hide Next;
    var r := run + [u];
    forall i | 0 <= i < |r| - 1 ensures Next(r[i], r[i + 1]) {
      if i < |run| - 1 { assert Next(run[i], run[i + 1]); }
    }
  }
}
