/**
  The bodies of `free_block` and `alloc_block` cut into steps that read or write memory once: one
  bitmap word, one field of one record, or one list head. A record field or bitmap word that the
  source reads again after a write is read again here; one it reads several times before its next
  write is read once and kept in the program counter, and so is a list head, which the source holds
  by an exclusive reference during a push or pop. Run without interruption, the steps compute the
  list operations, and they touch no record outside the free pages and the block being freed.
 */
module BlockSteps {
  import opened Common
  import opened Bits
  import opened Blocks
  import opened BuddyLists
  import opened BitmapLimits
  import opened FreeMemory

  /** What follows once a block is on its list: the free is over, or a split goes on. */
  datatype Then = ThenFreed | ThenSplit(i: nat, want: nat)

  /** Where a block operation stands. Line numbers are those of phys_manager.rs. */
  datatype Pc =
    | FreeTest(i: nat, k: nat)                               // 291: read the buddy's bitmap word
    | FreeOrder(i: nat, k: nat)                              // 291: read the buddy's order
    | MergeRead(i: nat, k: nat)                              // 292: read the word again
    | MergeWrite(i: nat, k: nat, word: nat)                  // 292: write it back with the bit cleared
    | UnlinkPrev(i: nat, k: nat)                             // 229: read the buddy's prev
    | UnlinkNext(i: nat, k: nat, prev: Ptr)                  // 230 or 232: read its next
    | UnlinkFore(i: nat, k: nat, prev: Ptr, next: Ptr)       // 230 or 232: write the head or a next field
    | UnlinkAgain(i: nat, k: nat)                            // 234: read the buddy's next again
    | UnlinkBack(i: nat, k: nat, next: Ptr)                  // 235: read its prev again
    | UnlinkAft(i: nat, k: nat, next: Ptr, prev: Ptr)        // 235: write a prev field
    | MarkRead(p: nat, k: nat, after: Then)                  // 299 or 333: read the block's bitmap word
    | MarkWrite(p: nat, k: nat, after: Then, word: nat)      // 299 or 333: write it back with the bit set
    | RecordOrder(p: nat, k: nat, after: Then)               // 300 or 335: write the record's order
    | RecordNext(p: nat, k: nat, after: Then)                //             its next
    | RecordPrev(p: nat, k: nat, after: Then)                //             its prev
    | PushHead(p: nat, k: nat, after: Then)                  // 305 or 340, and 245: read the head
    | PushNext(p: nat, k: nat, after: Then, head: Ptr)       // 246: write the record's next
    | PushPrev(p: nat, k: nat, after: Then, head: Ptr)       // 247: write the old head's prev
    | PushSet(p: nat, k: nat, after: Then)                   // 249: write the head
    | AllocPop(k: nat, want: nat)                            // 257-260 and 316-323: read the head, or go up
    | PopNext(i: nat, k: nat, want: nat)                     // 261: read the first record's next
    | PopSet(i: nat, k: nat, want: nat, next: Ptr)           // 261: write the head
    | PopPrev(i: nat, k: nat, want: nat, next: Ptr)          // 263: write the new head's prev
    | ClearRead(i: nat, k: nat, want: nat)                   // 352: read the popped block's bitmap word
    | ClearWrite(i: nat, k: nat, want: nat, word: nat)       // 352: write it back with the bit cleared
    | Freed
    | Allocated(i: nat, k: nat)
    | OutOfMemory                                            // the panic of line 319
    | IndexPanic                                             // an index past the bitmap or the nine lists

  predicate Final(pc: Pc) {
    pc.Freed? || pc.Allocated? || pc.OutOfMemory? || pc.IndexPanic?
  }

  /** Block i of order k is out whole; split it further or return it. */
  function SplitDown(i: nat, k: nat, want: nat): (r: Pc)
    ensures Rank(r) <= 10 * k
  {
    if k <= want then Allocated(i, want) else MarkRead(BuddyIndex(i, k - 1), k - 1, ThenSplit(i, want))
  }

  function Continue(k: nat, after: Then): (r: Pc)
    ensures Rank(r) <= PutRank(k, after, 0)
  {
    match after
    case ThenFreed => Freed
    case ThenSplit(i, want) => SplitDown(i, k, want)
  }

  function ReadWord(m: Memory, p: nat): nat {
    if p / WORD < |m.words| then m.words[p / WORD] else 0
  }

  function WriteWord(m: Memory, p: nat, word: nat): Memory {
    if p / WORD < |m.words| then m.(words := m.words[p / WORD := word]) else m
  }

  function SetOrder(m: Memory, p: nat, k: nat): Memory {
    WithEntry(m, p, Entry(m, p).(order := k))
  }

  function MicroFree(m: Memory, pc: Pc): (r: (Memory, Pc))
    requires FreePhase(pc)
    ensures Rank(r.1) < Rank(pc)
  {
    match pc
    case FreeTest(i, k) =>
      var b := BuddyIndex(i, k);
      if k >= MAX_ORDER then (m, MarkRead(i, k, ThenFreed))
      else if b / WORD >= |m.words| then (m, IndexPanic)
      else if And(ReadWord(m, b), Pow2(b % WORD)) != 0 then (m, FreeOrder(i, k))
      else (m, MarkRead(i, k, ThenFreed))
    case FreeOrder(i, k) =>
      (m, if Entry(m, BuddyIndex(i, k)).order == k then MergeRead(i, k) else MarkRead(i, k, ThenFreed))
    case MergeRead(i, k) => (m, MergeWrite(i, k, ReadWord(m, BuddyIndex(i, k))))
    case MergeWrite(i, k, word) =>
      var b := BuddyIndex(i, k);
      (WriteWord(m, b, AndNot(word, Pow2(b % WORD))), UnlinkPrev(i, k))
  }

  function MicroUnlink(m: Memory, pc: Pc): (r: (Memory, Pc))
    requires UnlinkPhase(pc)
    ensures Rank(r.1) < Rank(pc)
  {
    match pc
    case UnlinkPrev(i, k) => (m, UnlinkNext(i, k, Entry(m, BuddyIndex(i, k)).prev))
    case UnlinkNext(i, k, prev) => (m, UnlinkFore(i, k, prev, Entry(m, BuddyIndex(i, k)).next))
    case UnlinkFore(i, k, prev, next) =>
      (if prev.Null? then WithHead(m, k, next) else SetNext(m, prev.page, next), UnlinkAgain(i, k))
    case UnlinkAgain(i, k) =>
      var next := Entry(m, BuddyIndex(i, k)).next;
      (m, if next.Null? then FreeTest(CombinedIndex(i, k), k + 1) else UnlinkBack(i, k, next))
    case UnlinkBack(i, k, next) => (m, UnlinkAft(i, k, next, Entry(m, BuddyIndex(i, k)).prev))
    case UnlinkAft(i, k, next, prev) =>
      (if next.Null? then m else SetPrev(m, next.page, prev), FreeTest(CombinedIndex(i, k), k + 1))
  }

  function MicroPut(m: Memory, pc: Pc): (r: (Memory, Pc))
    requires PutPhase(pc)
    ensures Rank(r.1) < Rank(pc)
  {
    match pc
    case MarkRead(p, k, after) =>
      (m, if p / WORD >= |m.words| then IndexPanic else MarkWrite(p, k, after, ReadWord(m, p)))
    case MarkWrite(p, k, after, word) => (WriteWord(m, p, Or(word, Pow2(p % WORD))), RecordOrder(p, k, after))
    case RecordOrder(p, k, after) => (SetOrder(m, p, k), RecordNext(p, k, after))
    case RecordNext(p, k, after) => (SetNext(m, p, Null), RecordPrev(p, k, after))
    case RecordPrev(p, k, after) => (SetPrev(m, p, Null), PushHead(p, k, after))
    case PushHead(p, k, after) =>
      (m, if k >= |m.heads| then IndexPanic
          else if Head(m, k).Null? then PushSet(p, k, after) else PushNext(p, k, after, Head(m, k)))
    case PushNext(p, k, after, head) => (SetNext(m, p, head), PushPrev(p, k, after, head))
    case PushPrev(p, k, after, head) =>
      (if head.Null? then m else SetPrev(m, head.page, At(p)), PushSet(p, k, after))
    case PushSet(p, k, after) => (WithHead(m, k, At(p)), Continue(k, after))
  }

  function MicroAlloc(m: Memory, pc: Pc): (r: (Memory, Pc))
    requires AllocPhase(pc)
    ensures Rank(r.1) < Rank(pc)
  {
    match pc
    case AllocPop(k, want) =>
      if k > MAX_ORDER then (m, IndexPanic)
      else if Head(m, k).Null? then (m, if k == MAX_ORDER then OutOfMemory else AllocPop(k + 1, want))
      else (m, PopNext(Head(m, k).page, k, want))
    case PopNext(i, k, want) => (m, PopSet(i, k, want, Entry(m, i).next))
    case PopSet(i, k, want, next) =>
      (WithHead(m, k, next), if next.Null? then ClearRead(i, k, want) else PopPrev(i, k, want, next))
    case PopPrev(i, k, want, next) =>
      (if next.Null? then m else SetPrev(m, next.page, Null), ClearRead(i, k, want))
    case ClearRead(i, k, want) =>
      (m, if i / WORD >= |m.words| then IndexPanic else ClearWrite(i, k, want, ReadWord(m, i)))
    case ClearWrite(i, k, want, word) => (WriteWord(m, i, AndNot(word, Pow2(i % WORD))), SplitDown(i, k, want))
  }

  predicate FreePhase(pc: Pc) { pc.FreeTest? || pc.FreeOrder? || pc.MergeRead? || pc.MergeWrite? }

  predicate UnlinkPhase(pc: Pc) {
    pc.UnlinkPrev? || pc.UnlinkNext? || pc.UnlinkFore? || pc.UnlinkAgain? || pc.UnlinkBack? || pc.UnlinkAft?
  }

  predicate AllocPhase(pc: Pc) {
    pc.AllocPop? || pc.PopNext? || pc.PopSet? || pc.PopPrev? || pc.ClearRead? || pc.ClearWrite?
  }

  predicate PutPhase(pc: Pc) {
    || pc.MarkRead? || pc.MarkWrite? || pc.RecordOrder? || pc.RecordNext? || pc.RecordPrev?
    || pc.PushHead? || pc.PushNext? || pc.PushPrev? || pc.PushSet?
  }

  /** One step. */
  function Micro(m: Memory, pc: Pc): (r: (Memory, Pc))
    requires !Final(pc)
    ensures Rank(r.1) < Rank(pc)
  {
    if FreePhase(pc) then MicroFree(m, pc)
    else if UnlinkPhase(pc) then MicroUnlink(m, pc)
    else if AllocPhase(pc) then MicroAlloc(m, pc)
    else MicroPut(m, pc)
  }

  /** One place in memory. */
  datatype Place =
    | Nowhere
    | WordAt(w: nat)
    | OrderAt(p: nat)
    | NextAt(p: nat)
    | PrevAt(p: nat)
    | HeadAt(k: nat)

  function BackLink(ptr: Ptr): Place {
    if ptr.Null? then Nowhere else PrevAt(ptr.page)
  }

  /** The place a step reads or writes. */
  function Access(pc: Pc): Place {
    match pc
    case FreeTest(i, k) => if k < MAX_ORDER then WordAt(BuddyIndex(i, k) / WORD) else Nowhere
    case FreeOrder(i, k) => OrderAt(BuddyIndex(i, k))
    case MergeRead(i, k) => WordAt(BuddyIndex(i, k) / WORD)
    case MergeWrite(i, k, _) => WordAt(BuddyIndex(i, k) / WORD)
    case UnlinkPrev(i, k) => PrevAt(BuddyIndex(i, k))
    case UnlinkNext(i, k, _) => NextAt(BuddyIndex(i, k))
    case UnlinkFore(_, k, prev, _) => if prev.Null? then HeadAt(k) else NextAt(prev.page)
    case UnlinkAgain(i, k) => NextAt(BuddyIndex(i, k))
    case UnlinkBack(i, k, _) => PrevAt(BuddyIndex(i, k))
    case UnlinkAft(_, _, next, _) => BackLink(next)
    case MarkRead(p, _, _) => WordAt(p / WORD)
    case MarkWrite(p, _, _, _) => WordAt(p / WORD)
    case RecordOrder(p, _, _) => OrderAt(p)
    case RecordNext(p, _, _) => NextAt(p)
    case RecordPrev(p, _, _) => PrevAt(p)
    case PushHead(_, k, _) => HeadAt(k)
    case PushNext(p, _, _, _) => NextAt(p)
    case PushPrev(_, _, _, head) => BackLink(head)
    case PushSet(_, k, _) => HeadAt(k)
    case AllocPop(k, _) => if k <= MAX_ORDER then HeadAt(k) else Nowhere
    case PopNext(i, _, _) => NextAt(i)
    case PopSet(_, k, _, _) => HeadAt(k)
    case PopPrev(_, _, _, next) => BackLink(next)
    case ClearRead(i, _, _) => WordAt(i / WORD)
    case ClearWrite(i, _, _, _) => WordAt(i / WORD)
    case _ => Nowhere
  }

  /** The step reads or writes a field of the record at the start of page p. */
  predicate Touches(pc: Pc, p: nat) {
    var a := Access(pc);
    a == OrderAt(p) || a == NextAt(p) || a == PrevAt(p)
  }

  datatype Content = Blank | Number(n: nat) | Pointer(ptr: Ptr)

  /** What a place holds. */
  function Look(m: Memory, place: Place): Content {
    match place
    case Nowhere => Blank
    case WordAt(w) => if w < |m.words| then Number(m.words[w]) else Blank
    case OrderAt(p) => if p < |m.entries| then Number(m.entries[p].order) else Blank
    case NextAt(p) => if p < |m.entries| then Pointer(m.entries[p].next) else Blank
    case PrevAt(p) => if p < |m.entries| then Pointer(m.entries[p].prev) else Blank
    case HeadAt(k) => if k < |m.heads| then Pointer(m.heads[k]) else Blank
  }

  predicate SameSizes(m: Memory, m': Memory) {
    |m.words| == |m'.words| && |m.entries| == |m'.entries| && |m.heads| == |m'.heads|
  }

  /** From m to m1 and from m' to m1', nothing but one place changed, to the same content. */
  ghost predicate OnlyAt(m: Memory, m1: Memory, m': Memory, m1': Memory, place: Place) {
    && SameSizes(m, m1) && SameSizes(m', m1') && Look(m1, place) == Look(m1', place)
    && (forall other :: other != place ==> Look(m1, other) == Look(m, other) && Look(m1', other) == Look(m', other))
  }

  /** A step depends on one place and on the sizes alone, and changes no other place. */
  lemma OneAccess(m: Memory, m': Memory, pc: Pc)
    requires !Final(pc) && SameSizes(m, m') && Look(m, Access(pc)) == Look(m', Access(pc))
    ensures Micro(m, pc).1 == Micro(m', pc).1
    ensures OnlyAt(m, Micro(m, pc).0, m', Micro(m', pc).0, Access(pc))
  {
    hide MicroFree, MicroUnlink, MicroPut, MicroAlloc, Access, OnlyAt, Look;
    if FreePhase(pc) {
      FreeAccess(m, m', pc);
    } else if UnlinkPhase(pc) {
      UnlinkAccess(m, m', pc);
    } else if AllocPhase(pc) {
      AllocAccess(m, m', pc);
    } else {
      PutAccess(m, m', pc);
    }
  }

  lemma NoWrite(m: Memory, m': Memory, place: Place)
    requires SameSizes(m, m') && Look(m, place) == Look(m', place)
    ensures OnlyAt(m, m, m', m', place)
  {}

  lemma WordAccess(m: Memory, m': Memory, p: nat, word: nat)
    requires SameSizes(m, m')
    ensures Look(m, WordAt(p / WORD)) == Look(m', WordAt(p / WORD)) ==> ReadWord(m, p) == ReadWord(m', p)
    ensures OnlyAt(m, WriteWord(m, p, word), m', WriteWord(m', p, word), WordAt(p / WORD))
  {}

  lemma OrderAccess(m: Memory, m': Memory, p: nat, k: nat)
    requires SameSizes(m, m')
    ensures Look(m, OrderAt(p)) == Look(m', OrderAt(p)) ==> Entry(m, p).order == Entry(m', p).order
    ensures OnlyAt(m, SetOrder(m, p, k), m', SetOrder(m', p, k), OrderAt(p))
  {}

  lemma NextAccess(m: Memory, m': Memory, p: nat, q: Ptr)
    requires SameSizes(m, m')
    ensures Look(m, NextAt(p)) == Look(m', NextAt(p)) ==> Entry(m, p).next == Entry(m', p).next
    ensures OnlyAt(m, SetNext(m, p, q), m', SetNext(m', p, q), NextAt(p))
  {}

  lemma PrevAccess(m: Memory, m': Memory, p: nat, q: Ptr)
    requires SameSizes(m, m')
    ensures Look(m, PrevAt(p)) == Look(m', PrevAt(p)) ==> Entry(m, p).prev == Entry(m', p).prev
    ensures OnlyAt(m, SetPrev(m, p, q), m', SetPrev(m', p, q), PrevAt(p))
  {}

  lemma HeadAccess(m: Memory, m': Memory, k: nat, q: Ptr)
    requires SameSizes(m, m')
    ensures Look(m, HeadAt(k)) == Look(m', HeadAt(k)) ==> Head(m, k) == Head(m', k)
    ensures OnlyAt(m, WithHead(m, k, q), m', WithHead(m', k, q), HeadAt(k))
  {}

  lemma FreeAccess(m: Memory, m': Memory, pc: Pc)
    requires FreePhase(pc) && SameSizes(m, m') && Look(m, Access(pc)) == Look(m', Access(pc))
    ensures MicroFree(m, pc).1 == MicroFree(m', pc).1
    ensures OnlyAt(m, MicroFree(m, pc).0, m', MicroFree(m', pc).0, Access(pc))
  {
    hide And, AndNot, Pow2, BuddyIndex, Rank, Look, OnlyAt, ReadWord, WriteWord, Entry;
    var b := BuddyIndex(pc.i, pc.k);
    NoWrite(m, m', Access(pc));
    match pc
    case FreeTest(i, k) => WordAccess(m, m', b, 0);
    case FreeOrder(i, k) => OrderAccess(m, m', b, 0);
    case MergeRead(i, k) => WordAccess(m, m', b, 0);
    case MergeWrite(i, k, word) => WordAccess(m, m', b, AndNot(word, Pow2(b % WORD)));
  }

  lemma UnlinkAccess(m: Memory, m': Memory, pc: Pc)
    requires UnlinkPhase(pc) && SameSizes(m, m') && Look(m, Access(pc)) == Look(m', Access(pc))
    ensures MicroUnlink(m, pc).1 == MicroUnlink(m', pc).1
    ensures OnlyAt(m, MicroUnlink(m, pc).0, m', MicroUnlink(m', pc).0, Access(pc))
  {
    hide BuddyIndex, CombinedIndex, Rank, Look, OnlyAt, Entry, SetNext, SetPrev, WithHead;
    var b := BuddyIndex(pc.i, pc.k);
    NoWrite(m, m', Access(pc));
    match pc
    case UnlinkPrev(i, k) => PrevAccess(m, m', b, Null);
    case UnlinkNext(i, k, prev) => NextAccess(m, m', b, Null);
    case UnlinkFore(i, k, prev, next) =>
      if prev.Null? { HeadAccess(m, m', k, next); } else { NextAccess(m, m', prev.page, next); }
    case UnlinkAgain(i, k) => NextAccess(m, m', b, Null);
    case UnlinkBack(i, k, next) => PrevAccess(m, m', b, Null);
    case UnlinkAft(i, k, next, prev) =>
      if next.At? { PrevAccess(m, m', next.page, prev); }
  }

  lemma PutAccess(m: Memory, m': Memory, pc: Pc)
    requires PutPhase(pc) && SameSizes(m, m') && Look(m, Access(pc)) == Look(m', Access(pc))
    ensures MicroPut(m, pc).1 == MicroPut(m', pc).1
    ensures OnlyAt(m, MicroPut(m, pc).0, m', MicroPut(m', pc).0, Access(pc))
  {
    hide Or, Pow2, Continue, Rank, Look, OnlyAt, ReadWord, WriteWord, Entry, Head, SetOrder, SetNext, SetPrev, WithHead;
    NoWrite(m, m', Access(pc));
    match pc
    case MarkRead(p, k, after) => WordAccess(m, m', p, 0);
    case MarkWrite(p, k, after, word) => WordAccess(m, m', p, Or(word, Pow2(p % WORD)));
    case RecordOrder(p, k, after) => OrderAccess(m, m', p, k);
    case RecordNext(p, k, after) => NextAccess(m, m', p, Null);
    case RecordPrev(p, k, after) => PrevAccess(m, m', p, Null);
    case PushHead(p, k, after) => HeadAccess(m, m', k, Null);
    case PushNext(p, k, after, head) => NextAccess(m, m', p, head);
    case PushPrev(p, k, after, head) =>
      if head.At? { PrevAccess(m, m', head.page, At(p)); }
    case PushSet(p, k, after) => HeadAccess(m, m', k, At(p));
  }

  lemma AllocAccess(m: Memory, m': Memory, pc: Pc)
    requires AllocPhase(pc) && SameSizes(m, m') && Look(m, Access(pc)) == Look(m', Access(pc))
    ensures MicroAlloc(m, pc).1 == MicroAlloc(m', pc).1
    ensures OnlyAt(m, MicroAlloc(m, pc).0, m', MicroAlloc(m', pc).0, Access(pc))
  {
    hide AndNot, Pow2, SplitDown, Rank, Look, OnlyAt, ReadWord, WriteWord, Entry, Head, SetPrev, WithHead;
    NoWrite(m, m', Access(pc));
    match pc
    case AllocPop(k, want) => HeadAccess(m, m', k, Null);
    case PopNext(i, k, want) => NextAccess(m, m', i, Null);
    case PopSet(i, k, want, next) => HeadAccess(m, m', k, next);
    case PopPrev(i, k, want, next) =>
      if next.At? { PrevAccess(m, m', next.page, Null); }
    case ClearRead(i, k, want) => WordAccess(m, m', i, 0);
    case ClearWrite(i, k, want, word) => WordAccess(m, m', i, AndNot(word, Pow2(i % WORD)));
  }

  /** Levels a free can still climb. */
  function Levels(k: nat): nat {
    if k <= MAX_ORDER then MAX_ORDER + 1 - k else 0
  }

  function MergeRank(k: nat, stage: nat): nat {
    20 + 12 * Levels(k + 1) + stage
  }

  function PutRank(k: nat, after: Then, stage: nat): nat {
    stage + if after.ThenSplit? then 10 * k else 0
  }

  /** Steps left at most. */
  function Rank(pc: Pc): nat {
    match pc
    case FreeTest(i, k) => if k < MAX_ORDER then MergeRank(k, 11) else 20
    case FreeOrder(i, k) => MergeRank(k, 10)
    case MergeRead(i, k) => MergeRank(k, 9)
    case MergeWrite(i, k, _) => MergeRank(k, 8)
    case UnlinkPrev(i, k) => MergeRank(k, 7)
    case UnlinkNext(i, k, _) => MergeRank(k, 6)
    case UnlinkFore(i, k, _, _) => MergeRank(k, 5)
    case UnlinkAgain(i, k) => MergeRank(k, 4)
    case UnlinkBack(i, k, _) => MergeRank(k, 3)
    case UnlinkAft(i, k, _, _) => MergeRank(k, 2)
    case MarkRead(p, k, after) => PutRank(k, after, 9)
    case MarkWrite(p, k, after, _) => PutRank(k, after, 8)
    case RecordOrder(p, k, after) => PutRank(k, after, 7)
    case RecordNext(p, k, after) => PutRank(k, after, 6)
    case RecordPrev(p, k, after) => PutRank(k, after, 5)
    case PushHead(p, k, after) => PutRank(k, after, 4)
    case PushNext(p, k, after, _) => PutRank(k, after, 3)
    case PushPrev(p, k, after, _) => PutRank(k, after, 2)
    case PushSet(p, k, after) => PutRank(k, after, 1)
    case AllocPop(k, want) => 90 + Levels(k)
    case PopNext(i, k, want) => 10 * k + 5
    case PopSet(i, k, want, _) => 10 * k + 4
    case PopPrev(i, k, want, _) => 10 * k + 3
    case ClearRead(i, k, want) => 10 * k + 2
    case ClearWrite(i, k, want, _) => 10 * k + 1
    case _ => 0
  }

  function Exec(m: Memory, pc: Pc): (Memory, Pc)
    decreases Rank(pc)
  {
    if Final(pc) then (m, pc) else Exec(Micro(m, pc).0, Micro(m, pc).1)
  }

  ghost predicate Avoids(pc: Pc, away: set<nat>) {
    forall p :: p in away ==> !Touches(pc, p)
  }

  /** No step up to the end touches a record of the given pages. */
  ghost predicate Confined(m: Memory, pc: Pc, away: set<nat>)
    decreases Rank(pc)
  {
    Final(pc) || (Avoids(pc, away) && Confined(Micro(m, pc).0, Micro(m, pc).1, away))
  }

  /** Pages that are not free. */
  ghost predicate Outside(away: set<nat>, L: Lists) {
    forall p :: p in away ==> !IsFree(L, p)
  }

  // ----- Running through a phase

  /** Both continue alike, and the first stays confined up to the second. */
  ghost predicate Reaches(m: Memory, pc: Pc, m': Memory, pc': Pc, away: set<nat>) {
    Exec(m, pc) == Exec(m', pc') && (Confined(m', pc', away) ==> Confined(m, pc, away))
  }

  lemma StepReaches(m: Memory, pc: Pc, away: set<nat>)
    requires !Final(pc) && Avoids(pc, away)
    ensures Reaches(m, pc, Micro(m, pc).0, Micro(m, pc).1, away)
  {}

  lemma ReachesTrans(m: Memory, pc: Pc, m1: Memory, pc1: Pc, m2: Memory, pc2: Pc, away: set<nat>)
    requires Reaches(m, pc, m1, pc1, away) && Reaches(m1, pc1, m2, pc2, away)
    ensures Reaches(m, pc, m2, pc2, away)
  {}

  /** One more step, from a state already reached. */
  lemma Extend(m0: Memory, pc0: Pc, m: Memory, pc: Pc, m': Memory, pc': Pc, away: set<nat>)
    requires Reaches(m0, pc0, m, pc, away) && !Final(pc) && Avoids(pc, away) && Micro(m, pc) == (m', pc')
    ensures Reaches(m0, pc0, m', pc', away)
  {
    hide Micro, Reaches;
    StepReaches(m, pc, away);
    ReachesTrans(m0, pc0, m, pc, m', pc', away);
  }

  lemma FreeStep(m0: Memory, pc0: Pc, m: Memory, pc: Pc, m': Memory, pc': Pc, away: set<nat>)
    requires Reaches(m0, pc0, m, pc, away) && FreePhase(pc) && Avoids(pc, away) && MicroFree(m, pc) == (m', pc')
    ensures Reaches(m0, pc0, m', pc', away)
  {
    hide MicroFree, Reaches, Avoids;
    Extend(m0, pc0, m, pc, m', pc', away);
  }

  lemma UnlinkStep(m0: Memory, pc0: Pc, m: Memory, pc: Pc, m': Memory, pc': Pc, away: set<nat>)
    requires Reaches(m0, pc0, m, pc, away) && UnlinkPhase(pc) && Avoids(pc, away) && MicroUnlink(m, pc) == (m', pc')
    ensures Reaches(m0, pc0, m', pc', away)
  {
    hide MicroUnlink, Reaches, Avoids;
    Extend(m0, pc0, m, pc, m', pc', away);
  }

  lemma PutStep(m0: Memory, pc0: Pc, m: Memory, pc: Pc, m': Memory, pc': Pc, away: set<nat>)
    requires Reaches(m0, pc0, m, pc, away) && PutPhase(pc) && Avoids(pc, away) && MicroPut(m, pc) == (m', pc')
    ensures Reaches(m0, pc0, m', pc', away)
  {
    hide MicroPut, Reaches, Avoids;
    Extend(m0, pc0, m, pc, m', pc', away);
  }

  lemma AllocStep(m0: Memory, pc0: Pc, m: Memory, pc: Pc, m': Memory, pc': Pc, away: set<nat>)
    requires Reaches(m0, pc0, m, pc, away) && AllocPhase(pc) && Avoids(pc, away) && MicroAlloc(m, pc) == (m', pc')
    ensures Reaches(m0, pc0, m', pc', away)
  {
    hide MicroAlloc, Reaches, Avoids;
    Extend(m0, pc0, m, pc, m', pc', away);
  }

  lemma FinalReaches(m: Memory, pc: Pc, m': Memory, pc': Pc, away: set<nat>)
    requires Final(pc') && Reaches(m, pc, m', pc', away)
    ensures Exec(m, pc) == (m', pc') && Confined(m, pc, away)
  {}

  lemma ReachesSelf(m: Memory, pc: Pc, away: set<nat>)
    ensures Reaches(m, pc, m, pc, away)
  {}

  ghost predicate HeadOutside(m: Memory, k: nat, away: set<nat>) {
    forall q :: q in away ==> At(q) != Head(m, k)
  }

  // What single writes amount to

  lemma MarkIsSetBit(m: Memory, p: nat)
    ensures WriteWord(m, p, Or(ReadWord(m, p), Pow2(p % WORD))) == SetBit(m, p)
    ensures WriteWord(m, p, AndNot(ReadWord(m, p), Pow2(p % WORD))) == ClearBit(m, p)
  {}

  lemma RecordIsWhole(m: Memory, p: nat, k: nat)
    ensures SetPrev(SetNext(SetOrder(m, p, k), p, Null), p, Null) == WithEntry(m, p, FreeEntry(k, Null, Null))
  {}

  lemma HeadKept(m: Memory, p: nat, e: FreeEntry, k: nat)
    ensures Head(WithEntry(SetBit(m, p), p, e), k) == Head(m, k)
    ensures |WithEntry(SetBit(m, p), p, e).heads| == |m.heads|
  {}

  lemma LinksKept(m: Memory, b: nat, k: nat, q: nat, next: Ptr)
    ensures Entry(WithHead(m, k, next), b) == Entry(m, b)
    ensures Entry(SetNext(m, q, Entry(m, b).next), b).next == Entry(m, b).next
    ensures Entry(SetNext(m, q, Entry(m, b).next), b).prev == Entry(m, b).prev
  {}

  /** Marking, writing the record and pushing: the steps of `Attach`. */
  lemma PutReaches(m: Memory, p: nat, k: nat, after: Then, away: set<nat>)
    requires p / WORD < |m.words| && k < |m.heads| && p !in away && HeadOutside(m, k, away)
    ensures Reaches(m, MarkRead(p, k, after), Attach(m, p, k), Continue(k, after), away)
  {
    hide Micro, Rank, Final, Reaches, Or, Pow2, Continue, ReadWord, WriteWord;
    hide SetBit, SetOrder, SetNext, SetPrev, WithEntry, Head, Push;
    var pc := MarkRead(p, k, after);
    MarkIsSetBit(m, p);
    RecordIsWhole(SetBit(m, p), p, k);
    HeadKept(m, p, FreeEntry(k, Null, Null), k);
    ReachesSelf(m, pc, away);
    PutStep(m, pc, m, pc, m, MarkWrite(p, k, after, ReadWord(m, p)), away);
    var m1 := SetBit(m, p);
    PutStep(m, pc, m, MarkWrite(p, k, after, ReadWord(m, p)), m1, RecordOrder(p, k, after), away);
    var m2 := SetOrder(m1, p, k);
    PutStep(m, pc, m1, RecordOrder(p, k, after), m2, RecordNext(p, k, after), away);
    var m3 := SetNext(m2, p, Null);
    PutStep(m, pc, m2, RecordNext(p, k, after), m3, RecordPrev(p, k, after), away);
    var m4 := SetPrev(m3, p, Null);
    PutStep(m, pc, m3, RecordPrev(p, k, after), m4, PushHead(p, k, after), away);
    assert m4 == WithEntry(m1, p, FreeEntry(k, Null, Null));
    PushReaches(m, pc, m4, p, k, after, away);
  }

  lemma PushReaches(m0: Memory, pc0: Pc, m: Memory, p: nat, k: nat, after: Then, away: set<nat>)
    requires Reaches(m0, pc0, m, PushHead(p, k, after), away) && k < |m.heads|
    requires p !in away && HeadOutside(m, k, away)
    ensures Reaches(m0, pc0, Push(m, k, p), Continue(k, after), away)
  {
    hide Micro, Rank, Final, Reaches, Continue, Head, SetNext, SetPrev, WithHead;
    var h := Head(m, k);
    if h.Null? {
      PutStep(m0, pc0, m, PushHead(p, k, after), m, PushSet(p, k, after), away);
      PutStep(m0, pc0, m, PushSet(p, k, after), Push(m, k, p), Continue(k, after), away);
    } else {
      PutStep(m0, pc0, m, PushHead(p, k, after), m, PushNext(p, k, after, h), away);
      var m1 := SetNext(m, p, h);
      PutStep(m0, pc0, m, PushNext(p, k, after, h), m1, PushPrev(p, k, after, h), away);
      var m2 := SetPrev(m1, h.page, At(p));
      PutStep(m0, pc0, m1, PushPrev(p, k, after, h), m2, PushSet(p, k, after), away);
      PutStep(m0, pc0, m2, PushSet(p, k, after), Push(m, k, p), Continue(k, after), away);
    }
  }

  /** The buddy's record and its neighbours are not among the given pages. */
  ghost predicate LinksOutside(m: Memory, b: nat, away: set<nat>) {
    b !in away && forall q :: q in away ==> At(q) != Entry(m, b).next && At(q) != Entry(m, b).prev
  }

  /** Clearing the buddy's bit and taking it off its list: the steps of `Detach`. */
  lemma MergeReaches(m: Memory, i: nat, k: nat, away: set<nat>)
    requires k < MAX_ORDER && FreeBuddyAt(m, BuddyIndex(i, k), k) && LinksOutside(m, BuddyIndex(i, k), away)
    ensures Reaches(m, FreeTest(i, k), Detach(m, BuddyIndex(i, k), k), FreeTest(CombinedIndex(i, k), k + 1), away)
  {
    var b, pc := BuddyIndex(i, k), FreeTest(i, k);
    MarkIsSetBit(m, b);
    assert ClearBit(m, b).entries == m.entries && ReadWord(m, b) == m.words[b / WORD];
    hide Micro, Rank, Final, Reaches, And, AndNot, Pow2, BuddyIndex, CombinedIndex;
    hide WriteWord, ReadWord, ClearBit, Unlink;
    ReachesSelf(m, pc, away);
    FreeStep(m, pc, m, pc, m, FreeOrder(i, k), away);
    FreeStep(m, pc, m, FreeOrder(i, k), m, MergeRead(i, k), away);
    FreeStep(m, pc, m, MergeRead(i, k), m, MergeWrite(i, k, ReadWord(m, b)), away);
    FreeStep(m, pc, m, MergeWrite(i, k, ReadWord(m, b)), ClearBit(m, b), UnlinkPrev(i, k), away);
    UnlinkReaches(m, pc, ClearBit(m, b), i, k, away);
  }

  lemma UnlinkReaches(m0: Memory, pc0: Pc, m: Memory, i: nat, k: nat, away: set<nat>)
    requires Reaches(m0, pc0, m, UnlinkPrev(i, k), away) && LinksOutside(m, BuddyIndex(i, k), away)
    ensures Reaches(m0, pc0, Unlink(m, k, BuddyIndex(i, k)), FreeTest(CombinedIndex(i, k), k + 1), away)
  {
    var b := BuddyIndex(i, k);
    var e := Entry(m, b);
    var m1 := if e.prev.Null? then WithHead(m, k, e.next) else SetNext(m, e.prev.page, e.next);
    LinksKept(m, b, k, if e.prev.Null? then 0 else e.prev.page, e.next);
    UnlinkForward(m0, pc0, m, i, k, b, away);
    UnlinkBackward(m0, pc0, m1, i, k, b, away);
  }

  /** Lines 229-233 */
  lemma UnlinkForward(m0: Memory, pc0: Pc, m: Memory, i: nat, k: nat, b: nat, away: set<nat>)
    requires Reaches(m0, pc0, m, UnlinkPrev(i, k), away) && b == BuddyIndex(i, k) && LinksOutside(m, b, away)
    ensures var e := Entry(m, b);
            var m1 := if e.prev.Null? then WithHead(m, k, e.next) else SetNext(m, e.prev.page, e.next);
            Reaches(m0, pc0, m1, UnlinkAgain(i, k), away)
  {
    hide Micro, Rank, Final, Reaches, BuddyIndex, Entry, SetNext, SetPrev, WithHead;
    var e := Entry(m, b);
    UnlinkStep(m0, pc0, m, UnlinkPrev(i, k), m, UnlinkNext(i, k, e.prev), away);
    UnlinkStep(m0, pc0, m, UnlinkNext(i, k, e.prev), m, UnlinkFore(i, k, e.prev, e.next), away);
    var m1 := if e.prev.Null? then WithHead(m, k, e.next) else SetNext(m, e.prev.page, e.next);
    UnlinkStep(m0, pc0, m, UnlinkFore(i, k, e.prev, e.next), m1, UnlinkAgain(i, k), away);
  }

  /** Lines 234-236 */
  lemma UnlinkBackward(m0: Memory, pc0: Pc, m: Memory, i: nat, k: nat, b: nat, away: set<nat>)
    requires Reaches(m0, pc0, m, UnlinkAgain(i, k), away) && b == BuddyIndex(i, k) && LinksOutside(m, b, away)
    ensures var e := Entry(m, b);
            var m1 := if e.next.Null? then m else SetPrev(m, e.next.page, e.prev);
            Reaches(m0, pc0, m1, FreeTest(CombinedIndex(i, k), k + 1), away)
  {
    hide Micro, Rank, Final, Reaches, BuddyIndex, CombinedIndex, Entry, SetNext, SetPrev, WithHead;
    var e, end := Entry(m, b), FreeTest(CombinedIndex(i, k), k + 1);
    if e.next.Null? {
      UnlinkStep(m0, pc0, m, UnlinkAgain(i, k), m, end, away);
    } else {
      UnlinkStep(m0, pc0, m, UnlinkAgain(i, k), m, UnlinkBack(i, k, e.next), away);
      UnlinkStep(m0, pc0, m, UnlinkBack(i, k, e.next), m, UnlinkAft(i, k, e.next, e.prev), away);
      UnlinkStep(m0, pc0, m, UnlinkAft(i, k, e.next, e.prev), SetPrev(m, e.next.page, e.prev), end, away);
    }
  }

  /** Popping the first block of a list and clearing its bit. */
  lemma PopReaches(m: Memory, h: nat, k: nat, want: nat, away: set<nat>)
    requires k <= MAX_ORDER && k < |m.heads| && Head(m, k) == At(h) && h / WORD < |m.words|
    requires h !in away && forall q :: q in away ==> At(q) != Entry(m, h).next
    ensures Reaches(m, AllocPop(k, want), ClearBit(Pop(m, k), h), SplitDown(h, k, want), away)
  {
    hide Micro, Rank, Final, Reaches, Avoids, AndNot, Pow2, SplitDown, ReadWord, WriteWord, ClearBit, Pop, Entry, Head;
    var m1 := Pop(m, k);
    PopParts(m, h, k);
    AvoidsAll(ClearRead(h, k, want), away);
    AvoidsAll(ClearWrite(h, k, want, ReadWord(m1, h)), away);
    MarkIsSetBit(m1, h);
    PopHead(m, h, k, want, away);
    var pc, w := AllocPop(k, want), ReadWord(m1, h);
    AllocStep(m, pc, m1, ClearRead(h, k, want), m1, ClearWrite(h, k, want, w), away);
    AllocStep(m, pc, m1, ClearWrite(h, k, want, w), ClearBit(m1, h), SplitDown(h, k, want), away);
  }

  lemma PopParts(m: Memory, h: nat, k: nat)
    requires k < |m.heads| && Head(m, k) == At(h)
    ensures var next := Entry(m, h).next;
            var m1 := WithHead(m, k, next);
            Pop(m, k) == if next.Null? then m1 else SetPrev(m1, next.page, Null)
    ensures |Pop(m, k).words| == |m.words|
  {}

  lemma AvoidsAll(pc: Pc, away: set<nat>)
    requires forall p :: !Touches(pc, p)
    ensures Avoids(pc, away)
  {}

  /** Lines 257-265 */
  lemma PopHead(m: Memory, h: nat, k: nat, want: nat, away: set<nat>)
    requires k <= MAX_ORDER && k < |m.heads| && Head(m, k) == At(h)
    requires h !in away && forall q :: q in away ==> At(q) != Entry(m, h).next
    ensures Reaches(m, AllocPop(k, want), Pop(m, k), ClearRead(h, k, want), away)
  {
    hide Micro, Rank, Final, Reaches, WithHead, SetPrev, Entry, Head, Pop, SplitDown, ReadWord, WriteWord;
    PopParts(m, h, k);
    var pc, next := AllocPop(k, want), Entry(m, h).next;
    var m1 := WithHead(m, k, next);
    ReachesSelf(m, pc, away);
    AllocStep(m, pc, m, pc, m, PopNext(h, k, want), away);
    AllocStep(m, pc, m, PopNext(h, k, want), m, PopSet(h, k, want, next), away);
    if next.Null? {
      AllocStep(m, pc, m, PopSet(h, k, want, next), m1, ClearRead(h, k, want), away);
    } else {
      AllocStep(m, pc, m, PopSet(h, k, want, next), m1, PopPrev(h, k, want, next), away);
      AllocStep(m, pc, m1, PopPrev(h, k, want, next), Pop(m, k), ClearRead(h, k, want), away);
    }
  }

  // ----- free_block

  lemma ListPointersAreFree(m: Memory, L: Lists, n: nat, k: nat, b: nat)
    requires Coupled(m, L, n) && k < |L| && b in L[k]
    ensures IsFree(L, b)
    ensures Entry(m, b).next.At? ==> IsFree(L, Entry(m, b).next.page)
    ensures Entry(m, b).prev.At? ==> IsFree(L, Entry(m, b).prev.page)
    ensures Head(m, k).At? && IsFree(L, Head(m, k).page)
  {
    var s := L[k];
    assert Linked(m.entries, m.heads[k], k, s);
    var x :| 0 <= x < |s| && s[x] == b;
    assert Links(m.entries, k, s, x) && Links(m.entries, k, s, 0);
    forall h | h in s ensures IsFree(L, h) {
      assert IsHead(L, h);
      HeadIsFree(L, n, h);
    }
  }

  lemma HeadStaysOutside(m: Memory, L: Lists, n: nat, k: nat, away: set<nat>)
    requires Coupled(m, L, n) && k < |L| && Outside(away, L)
    ensures HeadOutside(m, k, away)
  {
    EmptyHead(m, L, n, k);
    if L[k] != [] { ListPointersAreFree(m, L, n, k, L[k][0]); }
  }

  lemma CoupledLists(m: Memory, L: Lists, n: nat)
    requires Coupled(m, L, n)
    ensures Canonical(L, n) && |L| == MAX_ORDER + 1
    ensures |m.words| == BitmapWords(n) && |m.heads| == MAX_ORDER + 1 && |m.entries| == n
  {}

  lemma WordOfPage(n: nat, p: nat)
    requires p < n
    ensures p / WORD < BitmapWords(n)
  {
    WordBelow(p, n);
  }

  lemma PanicReaches(m: Memory, i: nat, k: nat, away: set<nat>)
    requires k < MAX_ORDER && BuddyIndex(i, k) / WORD >= |m.words|
    ensures Reaches(m, FreeTest(i, k), m, IndexPanic, away)
  {
    hide Reaches, BuddyIndex, Rank;
    ReachesSelf(m, FreeTest(i, k), away);
    FreeStep(m, FreeTest(i, k), m, FreeTest(i, k), m, IndexPanic, away);
  }

  /** No merge: the bit is clear, or the record is that of a smaller block. */
  lemma StayReaches(m: Memory, i: nat, k: nat, away: set<nat>)
    requires k < MAX_ORDER ==> BuddyIndex(i, k) / WORD < |m.words| && !FreeBuddyAt(m, BuddyIndex(i, k), k)
    requires TestBit(m.words, BuddyIndex(i, k)) ==> BuddyIndex(i, k) !in away
    ensures Reaches(m, FreeTest(i, k), m, MarkRead(i, k, ThenFreed), away)
  {
    hide Reaches, And, Pow2, BuddyIndex, Micro, Rank;
    var pc := FreeTest(i, k);
    ReachesSelf(m, pc, away);
    if k < MAX_ORDER && TestBit(m.words, BuddyIndex(i, k)) {
      FreeStep(m, pc, m, pc, m, FreeOrder(i, k), away);
      FreeStep(m, pc, m, FreeOrder(i, k), m, MarkRead(i, k, ThenFreed), away);
    } else {
      FreeStep(m, pc, m, pc, m, MarkRead(i, k, ThenFreed), away);
    }
  }

  /** The block goes on its own list. */
  lemma PutSteps(m: Memory, L: Lists, n: nat, i: nat, k: nat, away: set<nat>)
    requires Coupled(m, L, n) && k < |L| && i < n && Outside(away, L) && i !in away
    requires !BuddyMissing(n, i, k) && !(k < MAX_ORDER && BuddyIndex(i, k) in L[k])
    ensures Reaches(m, FreeTest(i, k), Attach(m, i, k), Freed, away)
  {
    hide Coupled, Canonical, IsFree, Reaches, Attach, Micro, Rank, BuddyIndex;
    var b := BuddyIndex(i, k);
    CoupledLists(m, L, n);
    WordOfPage(n, i);
    FreeBuddyIsListed(m, L, n, b, k);
    MarkedOutside(m, L, n, b, away);
    HeadStaysOutside(m, L, n, k, away);
    StayReaches(m, i, k, away);
    PutReaches(m, i, k, ThenFreed, away);
    ReachesTrans(m, FreeTest(i, k), m, MarkRead(i, k, ThenFreed), Attach(m, i, k), Freed, away);
  }

  lemma MarkedOutside(m: Memory, L: Lists, n: nat, b: nat, away: set<nat>)
    requires Coupled(m, L, n) && Outside(away, L)
    ensures TestBit(m.words, b) ==> b !in away
  {
    if TestBit(m.words, b) { HeadIsFree(L, n, b); }
  }

  /** The buddy is taken off its list and the free goes on one order up. */
  lemma MergeSteps(m: Memory, L: Lists, n: nat, i: nat, k: nat, away: set<nat>)
    requires Coupled(m, L, n) && k < MAX_ORDER && BuddyIndex(i, k) in L[k] && Outside(away, L)
    ensures Reaches(m, FreeTest(i, k), Detach(m, BuddyIndex(i, k), k), FreeTest(CombinedIndex(i, k), k + 1), away)
  {
    hide Coupled, Canonical, IsFree, Reaches, TestBit, Detach, BuddyIndex, Micro, Rank;
    var b := BuddyIndex(i, k);
    CoupledLists(m, L, n);
    FreeBuddyIsListed(m, L, n, b, k);
    ListPointersAreFree(m, L, n, k, b);
    MergeReaches(m, i, k, away);
  }

  /**
    Uninterrupted, the steps of a free stay confined and compute `FreeBlock`, or panic at an index
    past the bitmap exactly when the free overruns it.
   */
  lemma {:induction false} ExecFree(m: Memory, L: Lists, n: nat, i: nat, k: nat, away: set<nat>)
    requires Coupled(m, L, n) && Fits(i, k, n) && NoneFree(L, i, k)
    requires Outside(away, L) && away !! Pages(i, k)
    ensures |L| == MAX_ORDER + 1
    ensures Exec(m, FreeTest(i, k)).1 == if FreeOverruns(L, n, i, k) then IndexPanic else Freed
    ensures !FreeOverruns(L, n, i, k) ==> Coupled(Exec(m, FreeTest(i, k)).0, FreeBlock(L, i, k), n)
    ensures Confined(m, FreeTest(i, k), away)
    decreases MAX_ORDER - k
  {
    hide Coupled, Canonical, IsFree, Exec, Confined, Outside, Micro, Rank, Attach, Detach, BuddyIndex, CombinedIndex;
    var b := BuddyIndex(i, k);
    CoupledLists(m, L, n);
    if BuddyMissing(n, i, k) {
      PanicReaches(m, i, k, away);
      FinalReaches(m, FreeTest(i, k), m, IndexPanic, away);
    } else if k < MAX_ORDER && b in L[k] {
      MergeStep(L, n, i, k);
      DetachCoupled(m, L, n, b, k);
      var L1, c := L[k := Remove(L[k], b)], CombinedIndex(i, k);
      CombinedOutside(L, L1, i, k, c, away);
      MergeSteps(m, L, n, i, k, away);
      ExecFree(Detach(m, b, k), L1, n, c, k + 1, away);
    } else {
      assert i in Pages(i, k);
      AttachCoupled(m, L, n, i, k);
      PutSteps(m, L, n, i, k, away);
      FinalReaches(m, FreeTest(i, k), Attach(m, i, k), Freed, away);
    }
  }

  lemma CombinedOutside(L: Lists, L1: Lists, i: nat, k: nat, c: nat, away: set<nat>)
    requires Outside(away, L) && away !! Pages(i, k)
    requires forall p: nat :: IsFree(L1, p) || InBlock(p, c, k + 1) <==> IsFree(L, p) || InBlock(p, i, k)
    ensures Outside(away, L1) && away !! Pages(c, k + 1)
  {}

  // ----- alloc_block

  lemma PopSteps(m: Memory, L: Lists, n: nat, j: nat, want: nat, away: set<nat>)
    requires Coupled(m, L, n) && j < |L| && L[j] != [] && Outside(away, L)
    ensures Reaches(m, AllocPop(j, want), ClearBit(Pop(m, j), L[j][0]), SplitDown(L[j][0], j, want), away)
  {
    hide Coupled, Canonical, IsFree, Reaches, Pop, ClearBit, SplitDown, Micro, Rank;
    var h := L[j][0];
    CoupledLists(m, L, n);
    PopCoupled(m, L, n, j);
    ListPointersAreFree(m, L, n, j, h);
    HeadInRange(L, n, j, h);
    WordOfPage(n, h);
    PopReaches(m, h, j, want, away);
  }

  lemma HeadInRange(L: Lists, n: nat, j: nat, h: nat)
    requires Canonical(L, n) && j < |L| && h in L[j]
    ensures h < n
  {
    assert IsHead(L, h);
    HeadIsFree(L, n, h);
  }

  lemma UpReaches(m: Memory, k: nat, want: nat, away: set<nat>)
    requires k <= MAX_ORDER && Head(m, k).Null?
    ensures Reaches(m, AllocPop(k, want), m, if k == MAX_ORDER then OutOfMemory else AllocPop(k + 1, want), away)
  {
    hide Reaches, Micro, Rank;
    ReachesSelf(m, AllocPop(k, want), away);
    var next := if k == MAX_ORDER then OutOfMemory else AllocPop(k + 1, want);
    AllocStep(m, AllocPop(k, want), m, AllocPop(k, want), m, next, away);
  }

  /** Splitting a block of order j + 1 that is out whole. */
  lemma SplitSteps(m: Memory, L: Lists, n: nat, h: nat, j: nat, want: nat, away: set<nat>)
    requires Coupled(m, L, n) && want <= j < MAX_ORDER && Outside(away, L)
    requires BuddyIndex(h, j) !in away && BuddyIndex(h, j) < n
    ensures Reaches(m, SplitDown(h, j + 1, want), Attach(m, BuddyIndex(h, j), j), SplitDown(h, j, want), away)
  {
    hide Coupled, IsFree, Reaches, Micro, Rank, Attach, BuddyIndex;
    CoupledLists(m, L, n);
    WordOfPage(n, BuddyIndex(h, j));
    HeadStaysOutside(m, L, n, j, away);
    PutReaches(m, BuddyIndex(h, j), j, ThenSplit(h, want), away);
  }

  /** Going up from order j, a block of order j comes out whole with the lists `AllocBlock` leaves. */
  lemma {:induction false} AllocReaches(m: Memory, L: Lists, n: nat, j: nat, want: nat, away: set<nat>)
    returns (mj: Memory)
    requires Coupled(m, L, n) && want <= j <= MAX_ORDER && |L| == MAX_ORDER + 1
    requires AllocBlock(L, j).Some? && Outside(away, L)
    ensures Coupled(mj, AllocBlock(L, j).value.lists, n)
    ensures Reaches(m, AllocPop(j, want), mj, SplitDown(AllocBlock(L, j).value.index, j, want), away)
    decreases MAX_ORDER - j
  {
    hide Coupled, Canonical, IsFree, Reaches, Outside, Micro, Rank, Attach, SplitDown, BuddyIndex, Pop, ClearBit;
    CoupledLists(m, L, n);
    EmptyHead(m, L, n, j);
    if L[j] != [] {
      var h := L[j][0];
      PopCoupled(m, L, n, j);
      mj := ClearBit(Pop(m, j), h);
      PopSteps(m, L, n, j, want, away);
    } else {
      var Allocation(h, L1) := AllocBlock(L, j + 1).value;
      UpReaches(m, j, want, away);
      var m1 := AllocReaches(m, L, n, j + 1, want, away);
      SplitReady(L, L1, n, h, j, away);
      var b := BuddyIndex(h, j);
      AttachCoupled(m1, L1, n, b, j);
      SplitSteps(m1, L1, n, h, j, want, away);
      mj := Attach(m1, b, j);
      var pc, pc1, pc2 := AllocPop(j, want), AllocPop(j + 1, want), SplitDown(h, j + 1, want);
      ReachesTrans(m, pc, m, pc1, m1, pc2, away);
      ReachesTrans(m, pc, m1, pc2, mj, SplitDown(h, j, want), away);
    }
  }

  lemma SplitReady(L: Lists, L1: Lists, n: nat, h: nat, k: nat, away: set<nat>)
    requires Canonical(L, n) && k < MAX_ORDER && L[k] == [] && Outside(away, L)
    requires AllocBlock(L, k + 1) == Some(Allocation(h, L1))
    ensures |L1| == |L| && Fits(BuddyIndex(h, k), k, n) && NoneFree(L1, BuddyIndex(h, k), k) && L1[k] == []
    ensures Outside(away, L1) && BuddyIndex(h, k) !in away && BuddyIndex(h, k) < n
  {
    AllocBlockCorrect(L, n, k + 1);
    AlignedDown(h, k, k + 1);
    BuddyHalves(h, k);
    PagesOfHalves(h, k);
    var b := BuddyIndex(h, k);
    assert InBlock(b, b, k);
    assert InBlock(b, h, k + 1);
  }

  lemma {:induction false} AllocRunsOut(m: Memory, L: Lists, n: nat, j: nat, want: nat, away: set<nat>)
    requires Coupled(m, L, n) && want <= j <= MAX_ORDER && |L| == MAX_ORDER + 1 && AllocBlock(L, j).None?
    ensures Reaches(m, AllocPop(j, want), m, OutOfMemory, away)
    decreases MAX_ORDER - j
  {
    hide Coupled, Canonical, Reaches, Micro, Rank;
    CoupledLists(m, L, n);
    EmptyHead(m, L, n, j);
    UpReaches(m, j, want, away);
    if j < MAX_ORDER {
      AllocRunsOut(m, L, n, j + 1, want, away);
      ReachesTrans(m, AllocPop(j, want), m, AllocPop(j + 1, want), m, OutOfMemory, away);
    }
  }

  /**
    Uninterrupted, the steps of an allocation compute `AllocBlock`, run out of memory exactly when it
    fails, and stay confined.
   */
  lemma ExecAlloc(m: Memory, L: Lists, n: nat, k: nat, away: set<nat>)
    requires Coupled(m, L, n) && k <= MAX_ORDER && Outside(away, L)
    ensures |L| == MAX_ORDER + 1
    ensures Confined(m, AllocPop(k, k), away)
    ensures AllocBlock(L, k).None? ==> Exec(m, AllocPop(k, k)) == (m, OutOfMemory)
    ensures AllocBlock(L, k).Some? ==>
              && Exec(m, AllocPop(k, k)).1 == Allocated(AllocBlock(L, k).value.index, k)
              && Coupled(Exec(m, AllocPop(k, k)).0, AllocBlock(L, k).value.lists, n)
  {
    hide Coupled, Reaches, Exec, Confined, Micro, Rank, IsFree;
    CoupledLists(m, L, n);
    if AllocBlock(L, k).None? {
      AllocRunsOut(m, L, n, k, k, away);
      FinalReaches(m, AllocPop(k, k), m, OutOfMemory, away);
    } else {
      var mk := AllocReaches(m, L, n, k, k, away);
      FinalReaches(m, AllocPop(k, k), mk, Allocated(AllocBlock(L, k).value.index, k), away);
    }
  }

  /** An order beyond the lists panics at once. */
  lemma ExecAllocTooLarge(m: Memory, k: nat, away: set<nat>)
    requires k > MAX_ORDER
    ensures Exec(m, AllocPop(k, k)) == (m, IndexPanic) && Confined(m, AllocPop(k, k), away)
  {
    hide Reaches, Micro, Rank, Exec, Confined;
    ReachesSelf(m, AllocPop(k, k), away);
    AllocStep(m, AllocPop(k, k), m, AllocPop(k, k), m, IndexPanic, away);
    FinalReaches(m, AllocPop(k, k), m, IndexPanic, away);
  }

  /**
    Allocating a block and freeing it again, access by access, never panics and restores the bitmap,
    the list heads and the record of every free block, however many levels were split.
   */
  lemma ExactRoundTrip(m: Memory, L: Lists, n: nat, k: nat)
    requires Coupled(m, L, n) && TopNotFree(L, n) && k <= MAX_ORDER && |L| == MAX_ORDER + 1 && AllocBlock(L, k).Some?
    ensures var (m1, pc1) := Exec(m, AllocPop(k, k));
            pc1 == Allocated(AllocBlock(L, k).value.index, k) &&
            var (m2, pc2) := Exec(m1, FreeTest(pc1.i, k));
            && pc2 == Freed
            && m2.words == m.words && m2.heads == m.heads && |m2.entries| == n
            && forall p :: 0 <= p < n && IsHead(L, p) ==> m2.entries[p] == m.entries[p]
  {
    hide Coupled, Canonical, Exec, Confined, Micro, Rank, IsFree, TopNotFree;
    CoupledLists(m, L, n);
    ExecAlloc(m, L, n, k, {});
    AllocBlockCorrect(L, n, k);
    AllocThenFree(L, n, k);
    var Allocation(h, L1) := AllocBlock(L, k).value;
    var m1 := Exec(m, AllocPop(k, k)).0;
    StillNotFree(L, L1, n);
    OverrunPages(L1, n, h, k);
    ExecFree(m1, L1, n, h, k, {});
    var m2 := Exec(m1, FreeTest(h, k)).0;
    CoupledLists(m2, L, n);
    ListsDetermineMemory(m, m2, L, n);
  }

  // ----- The bitmap's limits, at the operations

  /** On a machine with an unsafe page count, freeing the top block first of all panics. */
  lemma TopFreePanics(entries: seq<FreeEntry>)
    requires !BitmapSafe(|entries|)
    ensures var n, m := |entries|, EmptyMemory(entries);
            var i, k := TopIndex(n), TopOrder(n);
            && Coupled(m, EMPTY_LISTS, n) && Fits(i, k, n) && NoneFree(EMPTY_LISTS, i, k)
            && Exec(m, FreeTest(i, k)).1 == IndexPanic
  {
    hide Coupled, Canonical, Exec, Confined, Micro, Rank, IsFree, FreeOverruns, Fits, EmptyMemory, BitmapSafe;
    var n, m := |entries|, EmptyMemory(entries);
    EmptyMemoryCoupled(entries);
    EmptyOverruns(n);
    ExecFree(m, EMPTY_LISTS, n, TopIndex(n), TopOrder(n), {});
  }

  /** A legal free can run into the end of the bitmap if and only if the page count is unsafe. */
  lemma PanicReachable(n: nat)
    ensures !BitmapSafe(n) <==>
              exists m: Memory, L: Lists, i: nat, k: nat ::
                && Coupled(m, L, n) && Fits(i, k, n) && NoneFree(L, i, k)
                && Exec(m, FreeTest(i, k)).1 == IndexPanic
  {
    hide Coupled, Canonical, Exec, Confined, Micro, Rank, IsFree, FreeOverruns, EmptyMemory, BitmapSafe;
    if !BitmapSafe(n) {
      TopFreePanics(seq(n, _ => FreeEntry(0, Null, Null)));
    } else {
      forall m: Memory, L: Lists, i: nat, k: nat | Coupled(m, L, n) && Fits(i, k, n) && NoneFree(L, i, k)
        ensures Exec(m, FreeTest(i, k)).1 != IndexPanic
      {
        CoupledLists(m, L, n);
        ExecFree(m, L, n, i, k, {});
        if FreeOverruns(L, n, i, k) { OverrunFillsTop(L, n, i, k); }
      }
    }
  }

  /** 192 pages: the first free of block (128, 6) reads word 3 of a bitmap of 3 words. */
  lemma BitmapOverrunExample(entries: seq<FreeEntry>)
    requires |entries| == 192
    ensures |EmptyMemory(entries).words| == 3 && Fits(128, 6, 192) && BuddyIndex(128, 6) / WORD == 3
    ensures Exec(EmptyMemory(entries), FreeTest(128, 6)).1 == IndexPanic
  {
    hide Exec, Micro, Rank, Coupled, NoneFree, Fits, BuddyIndex, Pow2, Aligned;
    TopFits(192);
    TopFreePanics(entries);
  }
}
