/**
 The download-state actor as the scheduler sees it while storage is healthy.

 A cell is one byte: free, held by a worker and not yet written, staged by its worker, or done.
 `View` reads the cells off an actor and its history, and the lemmas show that each healthy
 actor command is the cell operation of the same name.
 */
module Desk {
  import opened Base
  import opened Ownership
  import A = Allocator
  import opened JournalFormat
  import opened Storage
  import opened Writer
  import opened CommitOrder
  import opened Actor

  datatype Cell = Free | Held(worker: U64) | Staged(worker: U64) | Done

  type Cells = seq<Cell>

  function StateOf(c: Cell): State
  {
    match c
    case Free => Pending
    case Held(w) => InProgress(w)
    case Staged(w) => InProgress(w)
    case Done => Complete
  }

  /** The ownership map a snapshot shows. */
  function OwnersOf(cells: Cells): (m: Owners)
    ensures |m| == |cells|
    ensures forall b :: 0 <= b < |cells| ==> m[b] == StateOf(cells[b])
  {
    seq(|cells|, b requires 0 <= b < |cells| => StateOf(cells[b]))
  }

  function CellOf(s: State): Cell
  {
    match s
    case Pending => Free
    case InProgress(w) => Held(w)
    case Complete => Done
  }

  /** The cells of a map while nothing is staged. */
  function CellsOf(m: Owners): (cells: Cells)
    ensures |cells| == |m|
    ensures forall b :: 0 <= b < |m| ==> cells[b] == CellOf(m[b])
  {
    seq(|m|, b requires 0 <= b < |m| => CellOf(m[b]))
  }

  function FlushCells(cells: Cells): (r: Cells)
    ensures |r| == |cells|
    ensures forall b :: 0 <= b < |cells| ==> r[b] == if cells[b].Staged? then Done else cells[b]
  {
    seq(|cells|, b requires 0 <= b < |cells| => if cells[b].Staged? then Done else cells[b])
  }

  /** A worker's bytes `[lo, hi)` accepted into the batch. */
  function StageCells(cells: Cells, lo: nat, hi: nat, worker: U64): (r: Cells)
    requires lo <= hi <= |cells|
    ensures |r| == |cells|
    ensures forall b :: 0 <= b < |cells| ==> r[b] == if lo <= b < hi then Staged(worker) else cells[b]
  {
    cells[..lo] + seq(hi - lo, _ => Staged(worker)) + cells[hi..]
  }

  function AbandonCells(cells: Cells, worker: U64): Cells
  {
    CellsOf(Release(OwnersOf(FlushCells(cells)), worker))
  }

  function AllocateCells(cells: Cells, worker: U64, minSplit: U64): A.Decision
    requires |cells| <= U64_MAX
  {
    A.Decide(OwnersOf(FlushCells(cells)), worker, minSplit)
  }

  // ----- the cells of an actor -----

  ghost function View(m: Owners, acc: History): (cells: Cells)
    requires |acc| == |m|
    ensures |cells| == |m|
    ensures forall b :: 0 <= b < |m| ==>
              cells[b] == if m[b].InProgress? && acc[b].Some? then Staged(m[b].worker) else CellOf(m[b])
  {
    seq(|m|, b requires 0 <= b < |m| =>
      if m[b].InProgress? && acc[b].Some? then Staged(m[b].worker) else CellOf(m[b]))
  }

  const HEALTHY: Faults := Faults(WriteOk, FlushOk)

  /** Sequence numbers given out or promised to the batch. */
  function Used(a: Actor): nat { a.writer.nextSequence + |a.writer.staged| }

  /** Storage is healthy and has sequence numbers left for the batch. */
  ghost predicate Able(crc: Checksum, hash: Hash, h: FileHeader, a: Actor, acc: History, recs: seq<JournalRecord>)
  {
    Healthy(crc, hash, h, a.writer, a.owners, acc, recs) && |acc| == |a.owners| && Used(a) <= U64_MAX
  }

  /** An able actor between two commands: running, with the batch under its size bound. */
  ghost predicate Working(crc: Checksum, hash: Hash, h: FileHeader, a: Actor, acc: History, recs: seq<JournalRecord>)
  {
    Able(crc, hash, h, a, acc, recs) && !a.stopped && a.writer.stagedBytes < JOURNAL_FLUSH_BYTES
  }

  lemma AbleFits(crc: Checksum, hash: Hash, h: FileHeader, a: Actor, acc: History, recs: seq<JournalRecord>)
    requires Able(crc, hash, h, a, acc, recs)
    ensures Fitting(a) && ActorSound(crc, hash, h, a, acc, recs, |recs|)
  {
    hide Durable, StagedOk, AcceptedOnce, CompleteIsCovered;
    HealthyParts(crc, hash, h, a.writer, a.owners, acc, recs);
  }

  /** A healthy flush goes through, completes exactly the staged cells and leaves the actor able. */
  lemma FlushView(crc: Checksum, hash: Hash, h: FileHeader, a: Actor, acc: History, recs: seq<JournalRecord>)
    returns (recs': seq<JournalRecord>)
    requires Able(crc, hash, h, a, acc, recs)
    ensures Fitting(a)
    ensures var o := Flush(crc, a.writer, a.owners, FlushOk);
            && o.result.Ok? && |o.owners| == |a.owners| && o.writer.staged == []
            && View(o.owners, acc) == FlushCells(View(a.owners, acc))
            && o.owners == OwnersOf(FlushCells(View(a.owners, acc)))
            && Able(crc, hash, h, After(a, o), acc, recs') && Used(After(a, o)) == Used(a)
            && o.writer.stagedBytes == (if a.writer.staged == [] then a.writer.stagedBytes else 0)
            && forall b :: 0 <= b < |acc| ==> (acc[b].Some? <==> o.owners[b] == Complete)
  {
    hide Healthy, Durable, Flush, StagedOk, AcceptedOnce, CompleteIsCovered, Broken;
    AbleFits(crc, hash, h, a, acc, recs);
    FlushSound(crc, hash, h, a.writer, a.owners, acc, recs, FlushOk);
    FlushGoesThrough(crc, hash, h, a, acc, recs);
    FlushOwners(crc, hash, h, a.writer, a.owners, acc, recs, FlushOk);
    FlushSpends(crc, a);
    recs' := FlushRecords(a.writer, recs, FlushOk);
    var o := Flush(crc, a.writer, a.owners, FlushOk);
    AcceptedIsComplete(crc, hash, h, o.writer, o.owners, acc, recs');
    CompleteWasAccepted(crc, hash, h, a, acc, recs);
  }

  /** A flush turns promised sequence numbers into given ones, and uses no others. */
  lemma FlushSpends(crc: Checksum, a: Actor)
    requires |a.owners| <= U64_MAX
    ensures var o := Flush(crc, a.writer, a.owners, FlushOk);
            o.result.Ok? ==>
              && Used(After(a, o)) == Used(a) && After(a, o).stopped == a.stopped
              && o.writer.stagedBytes == (if a.writer.staged == [] then a.writer.stagedBytes else 0)
  {
    hide CommitBatch, CompleteAll, BytesOf;
  }

  lemma FlushGoesThrough(crc: Checksum, hash: Hash, h: FileHeader, a: Actor, acc: History, recs: seq<JournalRecord>)
    requires Able(crc, hash, h, a, acc, recs) && Fitting(a)
    ensures Flush(crc, a.writer, a.owners, FlushOk).result.Ok?
  {
    hide Durable, StagedOk, CompleteAll, CompleteIsCovered, AcceptedOnce, Appended, AppendImages;
    HealthyParts(crc, hash, h, a.writer, a.owners, acc, recs);
    FlushMap(hash, a.writer.store, a.owners, acc, a.writer.staged, recs);
  }

  lemma AcceptedIsComplete(crc: Checksum, hash: Hash, h: FileHeader, w: Writer, m: Owners, acc: History,
                           recs: seq<JournalRecord>)
    requires Healthy(crc, hash, h, w, m, acc, recs) && w.staged == []
    ensures |m| == |acc| && forall b :: 0 <= b < |m| ==> (acc[b].Some? <==> m[b] == Complete)
  {
    hide Durable, StagedOk;
  }

  lemma CompleteWasAccepted(crc: Checksum, hash: Hash, h: FileHeader, a: Actor, acc: History, recs: seq<JournalRecord>)
    requires Healthy(crc, hash, h, a.writer, a.owners, acc, recs) && |acc| == |a.owners|
    ensures forall b :: 0 <= b < |acc| ==> (a.owners[b] == Complete ==> acc[b].Some?)
    ensures forall b :: 0 <= b < |acc| ==> (acc[b].Some? ==> a.owners[b] == Complete || a.owners[b].InProgress?)
  {
    hide Durable, BlockStaged, Covers;
    HealthyParts(crc, hash, h, a.writer, a.owners, acc, recs);
    forall b | 0 <= b < |acc| && acc[b].Some? && a.owners[b] != Complete ensures a.owners[b].InProgress? {
      StagedByte(hash, a.writer.store, a.owners, acc, a.writer.staged, b);
    }
  }

  /** While nothing is staged the cells are the map. */
  lemma ViewOfCommitted(m: Owners, acc: History)
    requires |acc| == |m| && forall b :: 0 <= b < |m| ==> (acc[b].Some? <==> m[b] == Complete)
    ensures View(m, acc) == CellsOf(m)
  {
  }

  /** Moving ownership of bytes that are not complete leaves an able actor able. */
  lemma MoveOwners(crc: Checksum, hash: Hash, h: FileHeader, a: Actor, next: Owners, acc: History,
                   recs: seq<JournalRecord>)
    requires Able(crc, hash, h, a, acc, recs) && a.writer.staged == []
    requires |next| == |a.owners| && forall b :: 0 <= b < |next| ==> (next[b] == Complete <==> a.owners[b] == Complete)
    ensures Able(crc, hash, h, a.(owners := next), acc, recs)
  {
    hide Healthy;
    HealthyOwners(crc, hash, h, a.writer, a.owners, next, acc, recs);
  }

  lemma AbleParts(crc: Checksum, hash: Hash, h: FileHeader, a: Actor, acc: History, recs: seq<JournalRecord>)
    requires Able(crc, hash, h, a, acc, recs)
    ensures |acc| == |a.owners| && !a.writer.poisoned
  {
    hide Durable, StagedOk, AcceptedOnce, CompleteIsCovered;
  }

  /** A forced flush. */
  lemma CommitView(crc: Checksum, hash: Hash, h: FileHeader, a: Actor, acc: History, recs: seq<JournalRecord>)
    returns (recs': seq<JournalRecord>)
    requires Working(crc, hash, h, a, acc, recs)
    ensures Fitting(a)
    ensures var t := Step(crc, hash, a, FlushAll, HEALTHY);
            && t.reply.Flushed? && |t.actor.owners| == |acc|
            && View(t.actor.owners, acc) == FlushCells(View(a.owners, acc))
            && Working(crc, hash, h, t.actor, acc, recs') && Used(t.actor) == Used(a)
  {
    hide Flush, Able, View;
    AbleParts(crc, hash, h, a, acc, recs);
    recs' := FlushView(crc, hash, h, a, acc, recs);
  }

  /** Shutting down commits every staged cell, stops the actor and shows the committed map. */
  lemma ShutdownView(crc: Checksum, hash: Hash, h: FileHeader, a: Actor, acc: History, recs: seq<JournalRecord>)
    returns (recs': seq<JournalRecord>)
    requires Working(crc, hash, h, a, acc, recs)
    ensures Fitting(a)
    ensures var t, cells := Step(crc, hash, a, Shutdown, HEALTHY), FlushCells(View(a.owners, acc));
            && t.reply == Snapshotted(OwnersOf(cells)) && t.actor.stopped && t.actor.writer.staged == []
            && |t.actor.owners| == |acc| && View(t.actor.owners, acc) == cells
            && Able(crc, hash, h, t.actor, acc, recs') && Used(t.actor) == Used(a)
  {
    hide Flush, Able, View;
    AbleParts(crc, hash, h, a, acc, recs);
    recs' := FlushView(crc, hash, h, a, acc, recs);
    AbleStops(crc, hash, h, After(a, Flush(crc, a.writer, a.owners, FlushOk)), acc, recs');
  }

  lemma AbleStops(crc: Checksum, hash: Hash, h: FileHeader, a: Actor, acc: History, recs: seq<JournalRecord>)
    requires Able(crc, hash, h, a, acc, recs)
    ensures Able(crc, hash, h, a.(stopped := true), acc, recs)
  {
    hide Healthy;
  }

  /** The periodic flush commits the batch exactly when it is due. */
  lemma TickView(crc: Checksum, hash: Hash, h: FileHeader, a: Actor, acc: History, recs: seq<JournalRecord>, now: nat)
    returns (recs': seq<JournalRecord>)
    requires Working(crc, hash, h, a, acc, recs)
    ensures Fitting(a)
    ensures var t := Step(crc, hash, a, FlushDue(now), HEALTHY);
            && t.reply.Flushed? && |t.actor.owners| == |acc|
            && View(t.actor.owners, acc)
               == (if Due(a.writer, now) then FlushCells(View(a.owners, acc)) else View(a.owners, acc))
            && Working(crc, hash, h, t.actor, acc, recs') && Used(t.actor) == Used(a)
  {
    hide Flush, Able, View;
    AbleParts(crc, hash, h, a, acc, recs);
    recs' := FlushView(crc, hash, h, a, acc, recs);
    recs' := if Due(a.writer, now) then recs' else recs;
  }

  /** An allocation through the actor is the allocator's decision on the flushed map. */
  lemma AllocateView(crc: Checksum, hash: Hash, h: FileHeader, a: Actor, acc: History, recs: seq<JournalRecord>,
                     worker: U64) returns (recs': seq<JournalRecord>)
    requires Working(crc, hash, h, a, acc, recs)
    ensures Fitting(a)
    ensures var d := AllocateCells(View(a.owners, acc), worker, a.minSplit);
            var t := Step(crc, hash, a, Allocate(worker), HEALTHY);
            && |t.actor.owners| == |acc|
            && (d.result.Ok? ==> t.reply.Allocated? && t.reply.allocation == d.result.value
                                 && View(t.actor.owners, acc) == CellsOf(d.owners))
            && (d.result.Err? ==> t.reply == Refused(AllocatorFailed(d.result.error))
                                  && View(t.actor.owners, acc) == FlushCells(View(a.owners, acc)))
            && Working(crc, hash, h, t.actor, acc, recs') && Used(t.actor) == Used(a)
  {
    hide Flush, Able, A.Decide, View;
    AbleParts(crc, hash, h, a, acc, recs);
    recs' := FlushView(crc, hash, h, a, acc, recs);
    var o := Flush(crc, a.writer, a.owners, FlushOk);
    DecideKeepsComplete(o.owners, worker, a.minSplit);
    var next := A.Decide(o.owners, worker, a.minSplit).owners;
    ViewOfCommitted(next, acc);
    MoveOwners(crc, hash, h, After(a, o), next, acc, recs');
  }

  lemma AbandonView(crc: Checksum, hash: Hash, h: FileHeader, a: Actor, acc: History, recs: seq<JournalRecord>,
                    worker: U64) returns (recs': seq<JournalRecord>)
    requires Working(crc, hash, h, a, acc, recs)
    ensures Fitting(a)
    ensures var t := Step(crc, hash, a, Abandon(worker), HEALTHY);
            && t.reply.Abandoned? && |t.actor.owners| == |acc|
            && View(t.actor.owners, acc) == AbandonCells(View(a.owners, acc), worker)
            && t.reply.released == Count(OwnersOf(FlushCells(View(a.owners, acc))), InProgress(worker))
            && Working(crc, hash, h, t.actor, acc, recs') && Used(t.actor) == Used(a)
  {
    hide Flush, Able, View, Count;
    AbleParts(crc, hash, h, a, acc, recs);
    recs' := FlushView(crc, hash, h, a, acc, recs);
    var o := Flush(crc, a.writer, a.owners, FlushOk);
    ViewOfCommitted(Release(o.owners, worker), acc);
    MoveOwners(crc, hash, h, After(a, o), Release(o.owners, worker), acc, recs');
  }

  /** A range of held cells passes every guard of a write. */
  lemma HeldPassesGuard(crc: Checksum, hash: Hash, h: FileHeader, a: Actor, acc: History, recs: seq<JournalRecord>,
                        worker: U64, offset: U64, bytes: seq<Byte>)
    requires Working(crc, hash, h, a, acc, recs) && Fitting(a)
    requires 0 < |bytes| <= U32_MAX && offset + |bytes| <= |acc|
    requires forall b :: offset <= b < offset + |bytes| ==> View(a.owners, acc)[b] == Held(worker)
    ensures StageGuard(a.writer, a.owners, worker, offset, bytes).Ok?
  {
    hide Durable, BlockStaged, Covers, FirstOverlap;
    HealthyParts(crc, hash, h, a.writer, a.owners, acc, recs);
    var end := offset + |bytes|;
    forall b | offset <= b < end ensures a.owners[b] == InProgress(worker) && acc[b] == None {
      assert View(a.owners, acc)[b] == Held(worker);
    }
    StagedAvoids(hash, a.writer.store, a.owners, acc, a.writer.staged, offset, end);
    NoOverlapFound(a.writer.staged, offset, end);
  }

  lemma StagedAvoids(hash: Hash, s: Store, m: Owners, acc: History, staged: seq<StagedBlock>, lo: nat, hi: nat)
    requires |m| == |acc| <= |s.data| && StagedOk(hash, s, m, acc, staged) && lo < hi <= |acc|
    requires forall b :: lo <= b < hi ==> acc[b] == None
    ensures forall i :: 0 <= i < |staged| ==> !Overlaps(staged[i], lo, hi)
  {
    forall i | 0 <= i < |staged| ensures !Overlaps(staged[i], lo, hi) {
      assert BlockStaged(hash, s, m, acc, staged[i]);
      var b := Max(staged[i].lo, lo);
      if b < hi {
        assert acc[b] == None;
        assert !(staged[i].lo <= b < staged[i].hi);
      }
    }
  }

  lemma {:induction false} NoOverlapFound(staged: seq<StagedBlock>, lo: nat, hi: nat)
    requires forall i :: 0 <= i < |staged| ==> !Overlaps(staged[i], lo, hi)
    ensures FirstOverlap(staged, lo, hi).None?
  {
    if staged != [] {
      NoOverlapFound(staged[1..], lo, hi);
    }
  }

  /** A write into held cells is accepted; the batch may be committed before it returns. */
  lemma WriteView(crc: Checksum, hash: Hash, h: FileHeader, a: Actor, acc: History, recs: seq<JournalRecord>,
                  worker: U64, offset: U64, bytes: seq<Byte>, now: nat) returns (recs': seq<JournalRecord>)
    requires Working(crc, hash, h, a, acc, recs) && Used(a) < U64_MAX
    requires 0 < |bytes| <= U32_MAX && offset + |bytes| <= |acc|
    requires forall b :: offset <= b < offset + |bytes| ==> View(a.owners, acc)[b] == Held(worker)
    ensures Fitting(a)
    ensures var t := Step(crc, hash, a, Write(worker, offset, bytes, now), HEALTHY);
            var acc' := HistoryAfter(a, Write(worker, offset, bytes, now), HEALTHY, acc);
            var staged := StageCells(View(a.owners, acc), offset, offset + |bytes|, worker);
            && t.reply.Written? && |t.actor.owners| == |acc'| && acc' == Recorded(acc, offset, bytes)
            && (View(t.actor.owners, acc') == staged || View(t.actor.owners, acc') == FlushCells(staged))
            && Working(crc, hash, h, t.actor, acc', recs') && Used(t.actor) == Used(a) + 1
  {
    hide Flush, Healthy, Durable, StageGuard, Accept, FlushCells;
    AbleFits(crc, hash, h, a, acc, recs);
    HealthyParts(crc, hash, h, a.writer, a.owners, acc, recs);
    HeldPassesGuard(crc, hash, h, a, acc, recs, worker, offset, bytes);
    GuardRechecks(a, Write(worker, offset, bytes, now));
    GuardMeansWritable(a.writer, a.owners, worker, offset, bytes);
    AcceptHealthy(crc, hash, h, a.writer, a.owners, acc, recs, worker, offset, bytes, now);
    var w1, acc' := Accept(hash, a.writer, worker, offset, bytes, now), Recorded(acc, offset, bytes);
    AcceptView(a, acc, worker, offset, bytes);
    AcceptCounts(hash, a.writer, worker, offset, bytes, now);
    recs' := recs;
    if w1.stagedBytes >= JOURNAL_FLUSH_BYTES {
      recs' := FlushView(crc, hash, h, a.(writer := w1), acc', recs);
    }
  }

  lemma AcceptView(a: Actor, acc: History, worker: U64, offset: U64, bytes: seq<Byte>)
    requires |acc| == |a.owners| && offset + |bytes| <= |acc|
    requires forall b :: offset <= b < offset + |bytes| ==> View(a.owners, acc)[b] == Held(worker)
    ensures View(a.owners, Recorded(acc, offset, bytes))
            == StageCells(View(a.owners, acc), offset, offset + |bytes|, worker)
  {
    forall b | offset <= b < offset + |bytes| ensures a.owners[b] == InProgress(worker) {
      assert View(a.owners, acc)[b] == Held(worker);
    }
  }

  lemma AcceptCounts(hash: Hash, w: Writer, worker: U64, offset: U64, bytes: seq<Byte>, now: nat)
    requires Fits(w) && offset + |bytes| <= w.totalLength && |bytes| <= U32_MAX
    requires w.stagedBytes + |bytes| <= U64_MAX
    ensures var w' := Accept(hash, w, worker, offset, bytes, now);
            |w'.staged| == |w.staged| + 1 && w'.nextSequence == w.nextSequence
  {
  }

  // ----- counting accepted bytes -----

  predicate Filled(c: Cell) { c.Staged? || c.Done? }

  function CountFilled(cells: Cells): nat
  {
    if cells == [] then 0 else CountFilled(cells[..|cells| - 1]) + if Filled(cells[|cells| - 1]) then 1 else 0
  }

  lemma {:induction false} CountFilledConcat(a: Cells, b: Cells)
    ensures CountFilled(a + b) == CountFilled(a) + CountFilled(b)
  {
    if b == [] {
      assert a + b == a;
    } else {
      var n := |b| - 1;
      CountFilledConcat(a, b[..n]);
      assert (a + b)[..|a + b| - 1] == a + b[..n];
    }
  }

  lemma {:induction false} CountFilledSame(a: Cells, b: Cells)
    requires |a| == |b| && forall i :: 0 <= i < |a| ==> (Filled(a[i]) <==> Filled(b[i]))
    ensures CountFilled(a) == CountFilled(b)
  {
    if a != [] {
      CountFilledSame(a[..|a| - 1], b[..|b| - 1]);
    }
  }

  lemma {:induction false} CountFilledUniform(a: Cells, filled: bool)
    requires forall i :: 0 <= i < |a| ==> (Filled(a[i]) <==> filled)
    ensures CountFilled(a) == if filled then |a| else 0
  {
    if a != [] {
      CountFilledUniform(a[..|a| - 1], filled);
    }
  }

  lemma {:induction false} CountFilledBounds(a: Cells)
    ensures CountFilled(a) <= |a|
    ensures CountFilled(a) == |a| <==> forall i :: 0 <= i < |a| ==> Filled(a[i])
  {
    if a != [] {
      CountFilledBounds(a[..|a| - 1]);
    }
  }

  /** Staging unwritten cells adds exactly their number. */
  lemma StageCounts(cells: Cells, lo: nat, hi: nat, worker: U64)
    requires lo <= hi <= |cells| && forall b :: lo <= b < hi ==> !Filled(cells[b])
    ensures CountFilled(StageCells(cells, lo, hi, worker)) == CountFilled(cells) + (hi - lo)
  {
    hide CountFilled;
    var r := StageCells(cells, lo, hi, worker);
    CountFilledSplit(cells, lo, hi);
    CountFilledSplit(r, lo, hi);
    assert r[..lo] == cells[..lo] && r[hi..] == cells[hi..];
    CountFilledUniform(cells[lo..hi], false);
    CountFilledUniform(r[lo..hi], true);
  }

  lemma CountFilledSplit(cells: Cells, lo: nat, hi: nat)
    requires lo <= hi <= |cells|
    ensures CountFilled(cells) == CountFilled(cells[..lo]) + CountFilled(cells[lo..hi]) + CountFilled(cells[hi..])
  {
    hide CountFilled;
    assert cells == cells[..lo] + cells[lo..hi] + cells[hi..];
    CountFilledConcat(cells[..lo] + cells[lo..hi], cells[hi..]);
    CountFilledConcat(cells[..lo], cells[lo..hi]);
  }

  /** Committing and abandoning change no count. */
  lemma FlushCounts(cells: Cells, worker: U64)
    ensures CountFilled(FlushCells(cells)) == CountFilled(cells) == CountFilled(AbandonCells(cells, worker))
  {
    CountFilledSame(cells, FlushCells(cells));
    CountFilledSame(cells, AbandonCells(cells, worker));
  }
}
