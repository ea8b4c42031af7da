/**
  A guarded call as a sequence of steps with one memory access each. Run alone it does what the call does on lists,
  and it neither sees nor disturbs the records of pages that clients hold.
 */
module JobTasks {
  import opened Blocks
  import opened BuddyLists
  import opened BuddyRegions
  import opened BitmapLimits
  import opened FreeMemory
  import opened Ledger
  import opened BlockSteps

  // ----- A job inside the lock

  datatype Task =
    | Working(pc: Pc, rest: Job, got: seq<Block>)
    | Done(got: seq<Block>)
    | Panicked(got: seq<Block>)

  function Begin(job: Job, got: seq<Block>): Task {
    match job
    case AllocJob(orders) =>
      if orders == [] then Done(got) else Working(AllocPop(orders[0], orders[0]), AllocJob(orders[1..]), got)
    case FreeJob(blocks) =>
      if blocks == [] then Done(got)
      else Working(FreeTest(blocks[0].index, blocks[0].order), FreeJob(blocks[1..]), got)
  }

  function JobSize(job: Job): nat {
    match job
    case AllocJob(orders) => |orders|
    case FreeJob(blocks) => |blocks|
  }

  /** At most one memory access, or moving on to the next block of the job. */
  function TaskStep(m: Memory, t: Task): (Memory, Task)
    requires t.Working?
  {
    match t.pc
    case Freed => (m, Begin(t.rest, t.got))
    case Allocated(i, k) => (m, Begin(t.rest, t.got + [Block(i, k)]))
    case OutOfMemory => (m, Panicked(t.got))
    case IndexPanic => (m, Panicked(t.got))
    case _ => (Micro(m, t.pc).0, Working(Micro(m, t.pc).1, t.rest, t.got))
  }

  /** A step finishes a block of the job or leaves fewer steps for it. */
  lemma StepShrinks(m: Memory, t: Task)
    requires t.Working?
    ensures var t' := TaskStep(m, t).1;
            && Remaining(t') <= Remaining(t)
            && (Remaining(t') == Remaining(t) ==> t'.Working? && Rank(t'.pc) < Rank(t.pc))
  {
    hide Micro, Rank;
  }

  /** Blocks of the job still to be done. */
  function Remaining(t: Task): nat {
    if t.Working? then 1 + JobSize(t.rest) else 0
  }

  function Complete(m: Memory, t: Task): (Memory, Task)
    decreases if t.Working? then 1 + JobSize(t.rest) else 0, if t.Working? then Rank(t.pc) else 0
  {
    if !t.Working? then (m, t) else Complete(TaskStep(m, t).0, TaskStep(m, t).1)
  }

  ghost predicate TaskConfined(m: Memory, t: Task, away: set<nat>)
    decreases if t.Working? then 1 + JobSize(t.rest) else 0, if t.Working? then Rank(t.pc) else 0
  {
    !t.Working? ||
    (Avoids(t.pc, away) && TaskConfined(TaskStep(m, t).0, TaskStep(m, t).1, away))
  }

  /** A block operation inside a task runs like the operation on its own. */
  lemma {:induction false} CompleteOperation(m: Memory, pc: Pc, rest: Job, got: seq<Block>, away: set<nat>)
    ensures Complete(m, Working(pc, rest, got)) == Complete(Exec(m, pc).0, Working(Exec(m, pc).1, rest, got))
    ensures Confined(m, pc, away) && TaskConfined(Exec(m, pc).0, Working(Exec(m, pc).1, rest, got), away)
            ==> TaskConfined(m, Working(pc, rest, got), away)
    decreases Rank(pc)
  {
    hide Micro, Rank, Avoids;
    if !Final(pc) {
      var (m1, pc1) := Micro(m, pc);
      CompleteOperation(m1, pc1, rest, got, away);
      assert TaskStep(m, Working(pc, rest, got)) == (m1, Working(pc1, rest, got));
    }
  }

  lemma CompleteFinal(m: Memory, t: Task, away: set<nat>)
    requires t.Working? && Final(t.pc)
    ensures Complete(m, t) == Complete(m, TaskStep(m, t).1)
    ensures TaskConfined(m, TaskStep(m, t).1, away) ==> TaskConfined(m, t, away)
  {}

  lemma CompleteEnded(m: Memory, t: Task, away: set<nat>)
    requires !t.Working?
    ensures Complete(m, t) == (m, t) && TaskConfined(m, t, away)
  {}

  /** The task ends as the job does on lists. */
  ghost predicate EndsAs(m: Memory, t: Task, r: Served, n: nat) {
    && Complete(m, t).1 == (if r.ok then Done(r.got) else Panicked(r.got))
    && (r.ok ==> Coupled(Complete(m, t).0, r.lists, n))
  }

  lemma {:induction false} AllocTask(m: Memory, L: Lists, n: nat, orders: seq<nat>, got: seq<Block>, away: set<nat>)
    requires Coupled(m, L, n) && |L| == MAX_ORDER + 1 && Outside(away, L)
    ensures EndsAs(m, Begin(AllocJob(orders), got), ServeAllocs(L, orders, got), n)
    ensures Coupled(Complete(m, Begin(AllocJob(orders), got)).0, ServeAllocs(L, orders, got).lists, n)
    ensures TaskConfined(m, Begin(AllocJob(orders), got), away)
    decreases |orders|
  {
    hide Coupled, Canonical, IsFree, Complete, TaskConfined, Exec, Confined, AllocBlock, Micro, Rank;
    var t := Begin(AllocJob(orders), got);
    if orders == [] {
      CompleteEnded(m, t, away);
    } else {
      var k := orders[0];
      if k <= MAX_ORDER { ExecAlloc(m, L, n, k, away); } else { ExecAllocTooLarge(m, k, away); }
      CompleteOperation(m, t.pc, t.rest, got, away);
      var (m1, pc1) := Exec(m, t.pc);
      var t1 := Working(pc1, t.rest, got);
      CompleteFinal(m1, t1, away);
      if k <= MAX_ORDER && AllocBlock(L, k).Some? {
        var Allocation(h, L1) := AllocBlock(L, k).value;
        StillOutside(m, L, n, k, away);
        AllocTask(m1, L1, n, orders[1..], got + [Block(h, k)], away);
      } else {
        CompleteEnded(m1, Panicked(got), away);
      }
    }
  }

  lemma StillOutside(m: Memory, L: Lists, n: nat, k: nat, away: set<nat>)
    requires Coupled(m, L, n) && |L| == MAX_ORDER + 1 && k <= MAX_ORDER && AllocBlock(L, k).Some? && Outside(away, L)
    ensures Outside(away, AllocBlock(L, k).value.lists)
  {
    AllocBlockCorrect(L, n, k);
  }

  lemma {:induction false} FreeTask(m: Memory, L: Lists, n: nat, blocks: seq<Block>, away: set<nat>)
    requires Coupled(m, L, n) && |L| == MAX_ORDER + 1 && Legal(L, n, blocks)
    requires Outside(away, L) && away !! Cover(blocks)
    ensures EndsAs(m, Begin(FreeJob(blocks), []), ServeFrees(L, n, blocks), n)
    ensures TaskConfined(m, Begin(FreeJob(blocks), []), away)
    decreases |blocks|
  {
    hide Coupled, Canonical, IsFree, Complete, TaskConfined, Exec, Confined, FreeBlock, NoneFree, FreeOverruns,
         Micro, Rank;
    var t := Begin(FreeJob(blocks), []);
    if blocks == [] {
      CompleteEnded(m, t, away);
    } else {
      var b := blocks[0];
      ExecFree(m, L, n, b.index, b.order, away);
      CompleteOperation(m, t.pc, t.rest, [], away);
      var (m1, pc1) := Exec(m, t.pc);
      CompleteFinal(m1, Working(pc1, t.rest, []), away);
      if FreeOverruns(L, n, b.index, b.order) {
        CompleteEnded(m1, Panicked([]), away);
      } else {
        OutsideAfterFree(m, L, n, b, away);
        FreeTask(m1, FreeBlock(L, b.index, b.order), n, blocks[1..], away);
      }
    }
  }

  lemma OutsideAfterFree(m: Memory, L: Lists, n: nat, b: Block, away: set<nat>)
    requires Coupled(m, L, n) && |L| == MAX_ORDER + 1
    requires Fits(b.index, b.order, n) && NoneFree(L, b.index, b.order)
    requires Outside(away, L) && away !! Pages(b.index, b.order)
    ensures Outside(away, FreeBlock(L, b.index, b.order))
  {
    FreeBlockCorrect(L, n, b.index, b.order);
    forall p | p in away ensures !InBlock(p, b.index, b.order) {
      assert p !in Pages(b.index, b.order);
    }
  }

  ghost predicate LegalJob(L: Lists, n: nat, job: Job)
    requires |L| == MAX_ORDER + 1
  {
    job.FreeJob? ==> Legal(L, n, job.blocks)
  }

  /** Run alone, a job's memory accesses do what the job does on lists, panics included. */
  lemma JobTask(m: Memory, L: Lists, n: nat, job: Job, away: set<nat>)
    requires Coupled(m, L, n) && |L| == MAX_ORDER + 1 && LegalJob(L, n, job) && Outside(away, L)
    requires job.FreeJob? ==> away !! Cover(job.blocks)
    ensures EndsAs(m, Begin(job, []), Serve(L, n, job), n)
    ensures TaskConfined(m, Begin(job, []), away)
  {
    match job
    case AllocJob(orders) => AllocTask(m, L, n, orders, [], away);
    case FreeJob(blocks) => FreeTask(m, L, n, blocks, away);
  }

  // ----- Writes that the task cannot see

  /** Same memory except for records of the given pages. */
  ghost predicate Agree(m: Memory, m': Memory, away: set<nat>) {
    && m.words == m'.words && m.heads == m'.heads && |m.entries| == |m'.entries|
    && forall p :: 0 <= p < |m.entries| && p !in away ==> m.entries[p] == m'.entries[p]
  }

  ghost predicate OfPages(place: Place, away: set<nat>) {
    (place.OrderAt? || place.NextAt? || place.PrevAt?) && place.p in away
  }

  lemma AgreeMeans(m: Memory, m': Memory, away: set<nat>)
    ensures Agree(m, m', away) <==>
              SameSizes(m, m') && forall place :: !OfPages(place, away) ==> Look(m, place) == Look(m', place)
  {
    if SameSizes(m, m') && forall place :: !OfPages(place, away) ==> Look(m, place) == Look(m', place) {
      forall w | 0 <= w < |m.words| ensures m.words[w] == m'.words[w] {
        assert Look(m, WordAt(w)) == Look(m', WordAt(w));
      }
      forall k | 0 <= k < |m.heads| ensures m.heads[k] == m'.heads[k] {
        assert Look(m, HeadAt(k)) == Look(m', HeadAt(k));
      }
      forall p | 0 <= p < |m.entries| && p !in away ensures m.entries[p] == m'.entries[p] {
        assert Look(m, OrderAt(p)) == Look(m', OrderAt(p));
        assert Look(m, NextAt(p)) == Look(m', NextAt(p));
        assert Look(m, PrevAt(p)) == Look(m', PrevAt(p));
      }
    }
  }

  lemma AccessOutside(pc: Pc, away: set<nat>)
    requires Avoids(pc, away)
    ensures !OfPages(Access(pc), away)
  {
    hide Access;
  }

  /** A step that keeps away from the pages cannot tell the memories apart. */
  lemma StepAgrees(m: Memory, m': Memory, t: Task, away: set<nat>)
    requires Agree(m, m', away) && t.Working? && Avoids(t.pc, away)
    ensures TaskStep(m, t).1 == TaskStep(m', t).1
    ensures Agree(TaskStep(m, t).0, TaskStep(m', t).0, away)
  {
    hide Agree, Avoids, Micro, Access, Look, OfPages;
    if !Final(t.pc) {
      AgreeMeans(m, m', away);
      AccessOutside(t.pc, away);
      OneAccess(m, m', t.pc);
      var m1, m1' := Micro(m, t.pc).0, Micro(m', t.pc).0;
      assert SameSizes(m1, m1');
      AgreeMeans(m1, m1', away);
    }
  }

  // ----- Contents of pages that clients hold

  /**
    Two memories that hold the same lists, and anything at all in pages that head no free block,
    give the same outcome for every job, and end with the same bitmap, heads and free records.
   */
  lemma ClientDataCannotMatter(m: Memory, entries: seq<FreeEntry>, L: Lists, n: nat, job: Job)
    requires Coupled(m, L, n) && |L| == MAX_ORDER + 1 && LegalJob(L, n, job)
    requires |entries| == n && forall p: nat :: p < n && IsHead(L, p) ==> entries[p] == m.entries[p]
    ensures var e, e' := Complete(m, Begin(job, [])), Complete(m.(entries := entries), Begin(job, []));
            && e.1 == e'.1
            && (Serve(L, n, job).ok ==>
                  && e.0.words == e'.0.words && e.0.heads == e'.0.heads
                  && |e.0.entries| == |e'.0.entries| == n
                  && forall p :: 0 <= p < n && IsHead(Serve(L, n, job).lists, p) ==> e.0.entries[p] == e'.0.entries[p])
  {
    hide Complete, Serve, IsFree;
    ClientDataIrrelevant(m, entries, L, n);
    JobTask(m, L, n, job, {});
    JobTask(m.(entries := entries), L, n, job, {});
    var e, e' := Complete(m, Begin(job, [])), Complete(m.(entries := entries), Begin(job, []));
    if Serve(L, n, job).ok {
      ListsDetermineMemory(e.0, e'.0, Serve(L, n, job).lists, n);
    }
  }

  /** Every page that heads no free block is overwritten with the given contents. */
  ghost function Scribble(m: Memory, L: Lists, contents: seq<FreeEntry>): Memory
    requires |contents| == |m.entries|
  {
    m.(entries := seq(|contents|, p requires 0 <= p < |contents| =>
                        if IsHead(L, p) then m.entries[p] else contents[p]))
  }

  ghost predicate LegalJobs(L: Lists, n: nat, jobs: seq<Job>)
    requires |L| == MAX_ORDER + 1
    decreases |jobs|
  {
    jobs == [] ||
    (LegalJob(L, n, jobs[0]) && (Serve(L, n, jobs[0]).ok ==> LegalJobs(Serve(L, n, jobs[0]).lists, n, jobs[1..])))
  }

  /** The outcomes of jobs on lists, up to the first panic. */
  function Outcomes(L: Lists, n: nat, jobs: seq<Job>): seq<Task>
    requires |L| == MAX_ORDER + 1
    decreases |jobs|
  {
    if jobs == [] then []
    else
      var r := Serve(L, n, jobs[0]);
      if r.ok then [Done(r.got)] + Outcomes(r.lists, n, jobs[1..]) else [Panicked(r.got)]
  }

  /** The outcomes of jobs in memory, with clients overwriting every page they may before each job. */
  ghost function NoisyOutcomes(
    m: Memory, L: Lists, n: nat, jobs: seq<Job>, noise: seq<seq<FreeEntry>>): seq<Task>
    requires |L| == MAX_ORDER + 1 && |noise| == |jobs|
    decreases |jobs|
  {
    if jobs == [] || |noise[0]| != |m.entries| then []
    else
      var (m1, t) := Complete(Scribble(m, L, noise[0]), Begin(jobs[0], []));
      [t] + if t.Done? then NoisyOutcomes(m1, Serve(L, n, jobs[0]).lists, n, jobs[1..], noise[1..]) else []
  }

  /** Over any sequence of jobs, whatever clients write in between, every outcome is that of the lists. */
  lemma {:induction false} NoiseCannotMatter(
    m: Memory, L: Lists, n: nat, jobs: seq<Job>, noise: seq<seq<FreeEntry>>)
    requires Coupled(m, L, n) && |L| == MAX_ORDER + 1 && LegalJobs(L, n, jobs)
    requires |noise| == |jobs| && forall i :: 0 <= i < |noise| ==> |noise[i]| == n
    ensures NoisyOutcomes(m, L, n, jobs, noise) == Outcomes(L, n, jobs)
    decreases |jobs|
  {
    hide Coupled, Complete, Serve, LegalJob, Scribble;
    CoupledLists(m, L, n);
    if jobs != [] {
      ScribbleCoupled(m, L, n, noise[0]);
      var m1 := Scribble(m, L, noise[0]);
      JobTask(m1, L, n, jobs[0], {});
      var r := Serve(L, n, jobs[0]);
      if r.ok {
        NoiseCannotMatter(Complete(m1, Begin(jobs[0], [])).0, r.lists, n, jobs[1..], noise[1..]);
      }
    }
  }

  /** Overwriting every page that heads no free block with anything keeps the coupling. */
  lemma ScribbleCoupled(m: Memory, L: Lists, n: nat, contents: seq<FreeEntry>)
    requires Coupled(m, L, n) && |contents| == n
    ensures Coupled(Scribble(m, L, contents), L, n)
    ensures forall p: nat :: p < n && !IsHead(L, p) ==> Scribble(m, L, contents).entries[p] == contents[p]
  {
    hide IsHead, AllLinked, MarksHeads, Canonical;
    ClientDataIrrelevant(m, Scribble(m, L, contents).entries, L, n);
  }
}
