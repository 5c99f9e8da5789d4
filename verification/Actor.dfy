/**
 The actor that serialises every command on one download's allocator and writer.

 `Step` is what one command does, with its I/O failures as an argument. Commands arrive in any
 order from any number of workers, including writes from handles whose grant has since been
 split or abandoned. `RunSound` holds over every command sequence and every failure.
 */
module Actor {
  import opened Base
  import opened Ownership
  import A = Allocator
  import opened Intervals
  import opened JournalFormat
  import opened Replay
  import opened Storage
  import opened Writer
  import opened CommitOrder

  datatype Actor = Actor(writer: Writer, owners: Owners, minSplit: U64, stopped: bool)

  datatype Command =
    | Allocate(worker: U64)
    | Write(worker: U64, offset: U64, bytes: seq<Byte>, now: nat)
    | FlushAll
    | FlushDue(now: nat)
    | Abandon(worker: U64)
    | Snapshot
    | Shutdown

  datatype ServiceError =
    | CursorOverflow
    | ActorStopped
    | AllocatorFailed(allocator: A.AllocatorError)
    | WriterFailed(writer: WriterError)

  datatype Reply =
    | Allocated(allocation: Option<A.Allocation>, durable: seq<DurableBlock>)
    | Written(lo: U64, hi: U64, durable: seq<DurableBlock>)
    | Flushed(durable: seq<DurableBlock>)
    | Abandoned(released: nat, durable: seq<DurableBlock>)
    | Snapshotted(owners: Owners)
    | Refused(error: ServiceError)

  datatype Turn = Turn(actor: Actor, reply: Reply)

  predicate Fitting(a: Actor) { |a.owners| <= U64_MAX && Fits(a.writer) }

  function After(a: Actor, o: Outcome): Actor { a.(writer := o.writer, owners := o.owners) }

  function Step(crc: Checksum, hash: Hash, a: Actor, c: Command, faults: Faults): Turn
    requires Fitting(a)
  {
    if a.stopped then Turn(a, Refused(ActorStopped))
    else
      match c
      case Write(worker, offset, bytes, now) => WriteStep(crc, hash, a, worker, offset, bytes, now, faults)
      case Snapshot => Turn(a, Snapshotted(a.owners))
      case FlushDue(now) =>
        var o := FlushIfDue(crc, a.writer, a.owners, now, faults.flush);
        Turn(After(a, o), if o.result.Ok? then Flushed(o.result.value) else Refused(WriterFailed(o.result.error)))
      case _ =>
        var o := Flush(crc, a.writer, a.owners, faults.flush);
        var fenced := After(a, o);
        FlushLength(crc, a.writer, a.owners, faults.flush);
        if o.result.Err? then
          Turn(fenced.(stopped := c == Shutdown), Refused(WriterFailed(o.result.error)))
        else Fenced(fenced, c, o.result.value)
  }

  /** What a control command does once the batch has been committed ahead of it. */
  function Fenced(a: Actor, c: Command, durable: seq<DurableBlock>): Turn
    requires |a.owners| <= U64_MAX
  {
    match c
    case Allocate(worker) =>
      var d := A.Decide(a.owners, worker, a.minSplit);
      if d.result.Err? then Turn(a, Refused(AllocatorFailed(d.result.error)))
      else Turn(a.(owners := d.owners), Allocated(d.result.value, durable))
    case Abandon(worker) =>
      Turn(a.(owners := Release(a.owners, worker)), Abandoned(Count(a.owners, InProgress(worker)), durable))
    case Shutdown => Turn(a.(stopped := true), Snapshotted(a.owners))
    case _ => Turn(a, Flushed(durable))
  }

  function WriteStep(crc: Checksum, hash: Hash, a: Actor, worker: U64, offset: U64, bytes: seq<Byte>, now: nat,
                     faults: Faults): Turn
    requires Fitting(a)
  {
    if offset + |bytes| > U64_MAX then Turn(a, Refused(CursorOverflow))
    else
      match CompleteRange(a.owners, offset, offset + |bytes|, worker)
      case Err(e) => Turn(a, Refused(WriterFailed(Rejected(e))))
      case Ok(_) =>
        var o := Stage(crc, hash, a.writer, a.owners, worker, offset, bytes, now, faults);
        Turn(After(a, o),
             if o.result.Ok? then Written(offset, offset + |bytes|, o.result.value)
             else Refused(WriterFailed(o.result.error)))
  }

  lemma FlushLength(crc: Checksum, w: Writer, m: Owners, fault: FlushFault)
    requires |m| <= U64_MAX
    ensures |Flush(crc, w, m, fault).owners| == |m|
  {
    hide CommitBatch;
  }

  // ----- what every step keeps -----

  /** The records that are certainly on disk. */
  ghost function Kept(recs: seq<JournalRecord>, floor: nat): seq<JournalRecord>
    requires floor <= |recs|
  {
    recs[..floor]
  }

  ghost predicate ActorSound(crc: Checksum, hash: Hash, h: FileHeader, a: Actor, acc: History,
                             recs: seq<JournalRecord>, floor: nat)
  {
    floor <= |recs| && Sound(crc, hash, h, a.writer, a.owners, acc, recs, floor)
  }

  lemma SoundFits(crc: Checksum, hash: Hash, h: FileHeader, a: Actor, acc: History, recs: seq<JournalRecord>,
                  floor: nat)
    requires ActorSound(crc, hash, h, a, acc, recs, floor)
    ensures Fitting(a) && |acc| == |a.owners| == h.totalLength
    ensures a.writer.poisoned ==> Broken(crc, h, a.writer, a.owners, acc, recs, floor)
    ensures !a.writer.poisoned ==> floor == |recs| && Healthy(crc, hash, h, a.writer, a.owners, acc, recs)
  {
    hide CompleteIsCovered, StagedOk, AcceptedOnce;
  }

  /** The bytes a command adds to the history. */
  ghost function HistoryAfter(a: Actor, c: Command, faults: Faults, acc: History): History
    requires Fitting(a) && |acc| == |a.owners|
  {
    if !a.stopped && c.Write? && Accepted(a.writer, a.owners, c.worker, c.offset, c.bytes, faults)
    then Recorded(acc, c.offset, c.bytes) else acc
  }

  /** A complete byte stays complete. */
  ghost predicate CompleteStays(m: Owners, next: Owners)
  {
    |m| == |next| && forall b :: 0 <= b < |m| && m[b] == Complete ==> next[b] == Complete
  }

  ghost predicate Advances(crc: Checksum, hash: Hash, h: FileHeader, a: Actor, next: Actor, acc: History,
                           recs: seq<JournalRecord>, floor: nat, recs': seq<JournalRecord>, floor': nat)
    requires floor <= |recs|
  {
    && ActorSound(crc, hash, h, next, acc, recs', floor')
    && Kept(recs, floor) <= Kept(recs', floor')
    && CompleteStays(a.owners, next.owners)
    && Visited(crc, h, a.writer, next.writer, acc, Kept(recs, floor))
  }

  /** With an empty batch ownership may move freely, as long as nothing complete changes. */
  lemma HealthyOwners(crc: Checksum, hash: Hash, h: FileHeader, w: Writer, m: Owners, next: Owners, acc: History,
                      recs: seq<JournalRecord>)
    requires Healthy(crc, hash, h, w, m, acc, recs) && w.staged == []
    requires |next| == |m| && forall b :: 0 <= b < |m| ==> (next[b] == Complete <==> m[b] == Complete)
    ensures Healthy(crc, hash, h, w, next, acc, recs)
  {
    hide Durable, Covers;
  }

  /** An allocation decision never touches a complete byte. */
  lemma DecideKeepsComplete(m: Owners, worker: U64, minSplit: U64)
    requires |m| <= U64_MAX
    ensures var next := A.Decide(m, worker, minSplit).owners;
            |next| == |m| && forall b :: 0 <= b < |m| ==> (next[b] == Complete <==> m[b] == Complete)
  {
    hide Runs, A.Preferred, A.Midpoint;
  }

  /** A poisoned writer refuses everything without touching anything. */
  lemma PoisonedStep(crc: Checksum, hash: Hash, a: Actor, c: Command, faults: Faults)
    requires Fitting(a) && a.writer.poisoned
    ensures var next := Step(crc, hash, a, c, faults).actor;
            next.writer == a.writer && next.owners == a.owners
    ensures c.Write? ==> !Accepted(a.writer, a.owners, c.worker, c.offset, c.bytes, faults)
  {
    hide CommitBatch, CompleteAll, Accept;
  }

  lemma Unchanged(crc: Checksum, hash: Hash, h: FileHeader, a: Actor, next: Actor, acc: History,
                  recs: seq<JournalRecord>, floor: nat)
    requires ActorSound(crc, hash, h, a, acc, recs, floor)
    requires next.writer == a.writer && next.owners == a.owners
    ensures Advances(crc, hash, h, a, next, acc, recs, floor, recs, floor)
  {
    hide Sound;
  }

  /** A flush ahead of a control command, whether or not it goes through. */
  lemma FenceSound(crc: Checksum, hash: Hash, h: FileHeader, a: Actor, acc: History, recs: seq<JournalRecord>,
                   fault: FlushFault) returns (recs': seq<JournalRecord>, floor': nat)
    requires Fitting(a) && Healthy(crc, hash, h, a.writer, a.owners, acc, recs)
    ensures var o := Flush(crc, a.writer, a.owners, fault);
            && Advances(crc, hash, h, a, After(a, o), acc, recs, |recs|, recs', floor')
            && (o.result.Ok? ==> floor' == |recs'| && o.writer.staged == []
                                 && Healthy(crc, hash, h, o.writer, o.owners, acc, recs'))
            && !(o.result.Err? && o.result.error.Rejected?)
  {
    hide Healthy, Broken, Visited, Flush;
    recs', floor' := FlushProgress(crc, hash, h, a.writer, a.owners, acc, recs, fault);
    var o := Flush(crc, a.writer, a.owners, fault);
    assert recs[..|recs|] == recs;
    KeptGrows(crc, hash, h, o.writer, o.owners, acc, recs, recs', floor');
  }

  lemma KeptGrows(crc: Checksum, hash: Hash, h: FileHeader, w: Writer, m: Owners, acc: History,
                  base: seq<JournalRecord>, recs: seq<JournalRecord>, floor: nat)
    requires base <= recs && |base| <= floor && Sound(crc, hash, h, w, m, acc, recs, floor)
    ensures floor <= |recs| && base <= recs[..floor]
  {
    hide StagedOk, AcceptedOnce, CompleteIsCovered;
  }

  lemma FencedSound(crc: Checksum, hash: Hash, h: FileHeader, a: Actor, c: Command, durable: seq<DurableBlock>,
                    acc: History, recs: seq<JournalRecord>)
    requires |a.owners| <= U64_MAX
    requires Healthy(crc, hash, h, a.writer, a.owners, acc, recs) && a.writer.staged == []
    ensures var next := Fenced(a, c, durable).actor;
            && next.writer == a.writer && CompleteStays(a.owners, next.owners)
            && ActorSound(crc, hash, h, next, acc, recs, |recs|)
  {
    hide Healthy, A.Decide;
    match c
    case Allocate(worker) =>
      DecideKeepsComplete(a.owners, worker, a.minSplit);
      HealthyOwners(crc, hash, h, a.writer, a.owners, A.Decide(a.owners, worker, a.minSplit).owners, acc, recs);
    case Abandon(worker) =>
      HealthyOwners(crc, hash, h, a.writer, a.owners, Release(a.owners, worker), acc, recs);
    case _ =>
  }

  lemma ControlSound(crc: Checksum, hash: Hash, h: FileHeader, a: Actor, c: Command, faults: Faults,
                     acc: History, recs: seq<JournalRecord>) returns (recs': seq<JournalRecord>, floor': nat)
    requires Fitting(a) && Healthy(crc, hash, h, a.writer, a.owners, acc, recs)
    requires !a.stopped && (c.Allocate? || c.FlushAll? || c.Abandon? || c.Shutdown?)
    ensures Advances(crc, hash, h, a, Step(crc, hash, a, c, faults).actor, acc, recs, |recs|, recs', floor')
  {
    hide Healthy, Broken, Visited, Flush, Fenced, Sound;
    recs', floor' := FenceSound(crc, hash, h, a, acc, recs, faults.flush);
    var o := Flush(crc, a.writer, a.owners, faults.flush);
    FlushLength(crc, a.writer, a.owners, faults.flush);
    if o.result.Ok? {
      FencedSound(crc, hash, h, After(a, o), c, o.result.value, acc, recs');
    }
  }

  lemma WriteSound(crc: Checksum, hash: Hash, h: FileHeader, a: Actor, c: Command, faults: Faults,
                   acc: History, recs: seq<JournalRecord>) returns (recs': seq<JournalRecord>, floor': nat)
    requires Fitting(a) && Healthy(crc, hash, h, a.writer, a.owners, acc, recs) && |acc| == |a.owners|
    requires !a.stopped && c.Write?
    ensures var acc' := HistoryAfter(a, c, faults, acc);
            && Extends(acc, acc')
            && Advances(crc, hash, h, a, Step(crc, hash, a, c, faults).actor, acc', recs, |recs|, recs', floor')
  {
    hide Healthy, Broken, Visited, Stage, Sound, StageGuard, Recorded;
    assert recs[..|recs|] == recs;
    GuardRechecks(a, c);
    if c.offset + |c.bytes| <= U64_MAX && CompleteRange(a.owners, c.offset, c.offset + |c.bytes|, c.worker).Ok? {
      recs', floor' := StageProgress(crc, hash, h, a.writer, a.owners, acc, recs, c.worker, c.offset, c.bytes,
                                     c.now, faults);
      var o := Stage(crc, hash, a.writer, a.owners, c.worker, c.offset, c.bytes, c.now, faults);
      KeptGrows(crc, hash, h, o.writer, o.owners,
                NextHistory(a.writer, a.owners, acc, c.worker, c.offset, c.bytes, faults), recs, recs', floor');
    } else {
      recs', floor' := recs, |recs|;
      StillSound(crc, hash, h, a.writer, a.owners, acc, recs);
    }
  }

  /** The actor's own ownership test refuses whatever the writer's tripwire would. */
  lemma GuardRechecks(a: Actor, c: Command)
    requires Fitting(a) && c.Write?
    ensures StageGuard(a.writer, a.owners, c.worker, c.offset, c.bytes).Ok? ==>
              && c.offset + |c.bytes| <= U64_MAX
              && CompleteRange(a.owners, c.offset, c.offset + |c.bytes|, c.worker).Ok?
  {
    hide FirstOverlap;
  }

  lemma DueSound(crc: Checksum, hash: Hash, h: FileHeader, a: Actor, now: nat, faults: Faults,
                 acc: History, recs: seq<JournalRecord>) returns (recs': seq<JournalRecord>, floor': nat)
    requires Fitting(a) && Healthy(crc, hash, h, a.writer, a.owners, acc, recs) && !a.stopped
    ensures Advances(crc, hash, h, a, Step(crc, hash, a, FlushDue(now), faults).actor, acc, recs, |recs|, recs', floor')
  {
    hide Broken, Visited, Flush, Durable, StagedOk, AcceptedOnce, CompleteIsCovered;
    if Due(a.writer, now) {
      recs', floor' := FenceSound(crc, hash, h, a, acc, recs, faults.flush);
    } else {
      recs', floor' := recs, |recs|;
      Unchanged(crc, hash, h, a, a, acc, recs, |recs|);
    }
  }

  /** One command, whatever fails during it, keeps the download sound. */
  lemma StepSound(crc: Checksum, hash: Hash, h: FileHeader, a: Actor, c: Command, faults: Faults,
                  acc: History, recs: seq<JournalRecord>, floor: nat)
    returns (recs': seq<JournalRecord>, floor': nat)
    requires ActorSound(crc, hash, h, a, acc, recs, floor)
    ensures Fitting(a) && |acc| == |a.owners|
    ensures var acc' := HistoryAfter(a, c, faults, acc);
            && Extends(acc, acc')
            && Advances(crc, hash, h, a, Step(crc, hash, a, c, faults).actor, acc', recs, floor, recs', floor')
  {
    hide Step, Sound, Healthy, Broken, Visited, Recorded, Accepted;
    SoundFits(crc, hash, h, a, acc, recs, floor);
    if a.writer.poisoned {
      recs', floor' := recs, floor;
      PoisonedStep(crc, hash, a, c, faults);
      Unchanged(crc, hash, h, a, Step(crc, hash, a, c, faults).actor, acc, recs, floor);
    } else if a.stopped || c.Snapshot? {
      recs', floor' := recs, floor;
      IdleStep(crc, hash, a, c, faults);
      Unchanged(crc, hash, h, a, Step(crc, hash, a, c, faults).actor, acc, recs, floor);
    } else if c.Write? {
      recs', floor' := WriteSound(crc, hash, h, a, c, faults, acc, recs);
    } else if c.FlushDue? {
      recs', floor' := DueSound(crc, hash, h, a, c.now, faults, acc, recs);
    } else {
      recs', floor' := ControlSound(crc, hash, h, a, c, faults, acc, recs);
    }
  }

  lemma IdleStep(crc: Checksum, hash: Hash, a: Actor, c: Command, faults: Faults)
    requires Fitting(a) && (a.stopped || c.Snapshot?)
    ensures Step(crc, hash, a, c, faults).actor == a
  {
  }

  // ----- runs -----

  /** A command together with what goes wrong while it is served. */
  datatype Event = Event(command: Command, faults: Faults)

  ghost predicate Follows(crc: Checksum, hash: Hash, a: Actor, acc: History, e: Event, next: Actor, acc': History)
  {
    && Fitting(a) && |acc| == |a.owners|
    && next == Step(crc, hash, a, e.command, e.faults).actor
    && acc' == HistoryAfter(a, e.command, e.faults, acc)
  }

  /** The actor states and accepted bytes of one run over `events`. */
  ghost predicate IsTrace(crc: Checksum, hash: Hash, states: seq<Actor>, hists: seq<History>, events: seq<Event>)
  {
    && |states| == |hists| == |events| + 1
    && forall i {:trigger events[i]} :: 0 <= i < |events| ==>
         Follows(crc, hash, states[i], hists[i], events[i], states[i + 1], hists[i + 1])
  }

  lemma SurvivableWeakens(crc: Checksum, h: FileHeader, s: Store, acc: History, next: History,
                          base: seq<JournalRecord>, smaller: seq<JournalRecord>)
    requires Survivable(crc, h, s, acc, base) && Extends(acc, next) && smaller <= base
    ensures Survivable(crc, h, s, next, smaller)
  {
    hide Durable, Journal;
    var recs :| base <= recs && Durable(crc, h, s, acc, recs, |base|);
    DurableExtends(crc, h, s, acc, next, recs, |base|);
    DurableLower(crc, h, s, next, recs, |base|, |smaller|);
  }

  lemma DurableLower(crc: Checksum, h: FileHeader, s: Store, acc: History, recs: seq<JournalRecord>, floor: nat,
                     lower: nat)
    requires Durable(crc, h, s, acc, recs, floor) && lower <= floor
    ensures Durable(crc, h, s, acc, recs, lower)
  {
    hide Journal, Encodable, PlainRecord, CleanAccepted;
    var a, b := recs[..lower], recs[lower..floor];
    assert recs[..floor] == a + b;
    JournalConcat(crc, h, a, b);
  }

  lemma VisitedWeakens(crc: Checksum, h: FileHeader, a: Writer, b: Writer, acc: History, next: History,
                       base: seq<JournalRecord>, smaller: seq<JournalRecord>)
    requires Visited(crc, h, a, b, acc, base) && Extends(acc, next) && smaller <= base
    ensures Visited(crc, h, a, b, next, smaller)
  {
    hide Survivable;
    forall i | |a.images| <= i < |b.images| ensures Survivable(crc, h, b.images[i], next, smaller) {
      SurvivableWeakens(crc, h, b.images[i], acc, next, base, smaller);
    }
  }

  lemma ExtendsThen(a: History, b: History, c: History)
    requires Extends(a, b) && Extends(b, c)
    ensures Extends(a, c)
  {
  }

  /**
   Over any stretch of any run: what was accepted stays, what was complete stays, what was kept
   stays kept, and every disk state on the way is survivable.
   */
  lemma {:induction false} RunSound(crc: Checksum, hash: Hash, h: FileHeader, states: seq<Actor>, hists: seq<History>,
                                    events: seq<Event>, i: nat, j: nat, recs: seq<JournalRecord>, floor: nat)
    returns (recs': seq<JournalRecord>, floor': nat)
    requires IsTrace(crc, hash, states, hists, events) && i <= j <= |events|
    requires ActorSound(crc, hash, h, states[i], hists[i], recs, floor)
    ensures Extends(hists[i], hists[j])
    ensures Advances(crc, hash, h, states[i], states[j], hists[j], recs, floor, recs', floor')
    decreases j - i
  {
    hide Sound, Visited, Step, HistoryAfter;
    if i == j {
      recs', floor' := recs, floor;
      RunStart(crc, hash, h, states[i], hists[i], recs, floor);
    } else {
      var k := j - 1;
      var mid, at := RunSound(crc, hash, h, states, hists, events, i, k, recs, floor);
      var e := events[k];
      recs', floor' := StepSound(crc, hash, h, states[k], e.command, e.faults, hists[k], mid, at);
      ExtendsThen(hists[i], hists[k], hists[j]);
      RunJoin(crc, hash, h, states[i], states[k], states[j], hists[k], hists[j], recs, floor, mid, at, recs', floor');
    }
  }

  lemma RunStart(crc: Checksum, hash: Hash, h: FileHeader, a: Actor, acc: History, recs: seq<JournalRecord>, floor: nat)
    requires ActorSound(crc, hash, h, a, acc, recs, floor)
    ensures Extends(acc, acc) && Advances(crc, hash, h, a, a, acc, recs, floor, recs, floor)
  {
    hide ActorSound;
    Unchanged(crc, hash, h, a, a, acc, recs, floor);
  }

  lemma RunJoin(crc: Checksum, hash: Hash, h: FileHeader, a: Actor, b: Actor, c: Actor, acc: History, next: History,
                recs: seq<JournalRecord>, floor: nat, mid: seq<JournalRecord>, at: nat,
                last: seq<JournalRecord>, end: nat)
    requires floor <= |recs| && at <= |mid| && Extends(acc, next)
    requires Advances(crc, hash, h, a, b, acc, recs, floor, mid, at)
    requires Advances(crc, hash, h, b, c, next, mid, at, last, end)
    ensures Advances(crc, hash, h, a, c, next, recs, floor, last, end)
  {
    hide ActorSound, Visited;
    VisitedWeakens(crc, h, a.writer, b.writer, acc, next, Kept(recs, floor), Kept(recs, floor));
    VisitedWeakens(crc, h, b.writer, c.writer, next, next, Kept(mid, at), Kept(recs, floor));
    VisitedThen(crc, h, a.writer, b.writer, c.writer, next, Kept(recs, floor));
  }

  // ----- the disk as it is now is the last state remembered -----

  ghost predicate Current(w: Writer) { w.images != [] && w.images[|w.images| - 1] == w.store }

  lemma FlushCurrent(crc: Checksum, w: Writer, m: Owners, fault: FlushFault)
    requires |m| <= U64_MAX && Current(w)
    ensures Current(Flush(crc, w, m, fault).writer)
  {
    hide CommitBatch, CompleteAll, BytesOf, Committed;
  }

  lemma StageCurrent(crc: Checksum, hash: Hash, w: Writer, m: Owners, worker: U64, offset: U64, bytes: seq<Byte>,
                     now: nat, faults: Faults)
    requires |m| <= U64_MAX && Fits(w) && Current(w)
    ensures Current(Stage(crc, hash, w, m, worker, offset, bytes, now, faults).writer)
  {
    hide Flush, StageGuard, WriteData;
    if StageGuard(w, m, worker, offset, bytes).Ok? {
      GuardMeansWritable(w, m, worker, offset, bytes);
      match faults.write
      case WriteBroken(_) =>
      case WriteRefused(landed) =>
        FlushCurrent(crc, On(w, WriteData(w.store, offset, Landing(w.store, offset, landed, |bytes|))), m,
                     faults.flush);
      case WriteOk => FlushCurrent(crc, Accept(hash, w, worker, offset, bytes, now), m, faults.flush);
    }
  }

  lemma StepCurrent(crc: Checksum, hash: Hash, a: Actor, c: Command, faults: Faults)
    requires Fitting(a) && Current(a.writer)
    ensures Current(Step(crc, hash, a, c, faults).actor.writer)
  {
    hide Flush, Stage, Current, CompleteRange, A.Decide;
    FlushCurrent(crc, a.writer, a.owners, faults.flush);
    if c.Write? {
      StageCurrent(crc, hash, a.writer, a.owners, c.worker, c.offset, c.bytes, c.now, faults);
    }
  }

  lemma {:induction false} RunCurrent(crc: Checksum, hash: Hash, states: seq<Actor>, hists: seq<History>,
                                      events: seq<Event>, i: nat)
    requires IsTrace(crc, hash, states, hists, events) && i <= |events| && Current(states[0].writer)
    ensures Current(states[i].writer)
  {
    hide Step, Current, HistoryAfter;
    if i > 0 {
      RunCurrent(crc, hash, states, hists, events, i - 1);
      var e := events[i - 1];
      StepCurrent(crc, hash, states[i - 1], e.command, e.faults);
    }
  }

  /**
   No offset is accepted twice, and an accepted byte belonged to its writer at that moment. The
   stale handle of a split or abandoned grant is refused before any disk operation.
   */
  lemma WriteOnce(crc: Checksum, hash: Hash, h: FileHeader, a: Actor, c: Command, faults: Faults,
                  acc: History, recs: seq<JournalRecord>, floor: nat)
    requires ActorSound(crc, hash, h, a, acc, recs, floor) && c.Write? && !a.stopped
    ensures Fitting(a) && |acc| == |a.owners|
    ensures Accepted(a.writer, a.owners, c.worker, c.offset, c.bytes, faults) ==>
              forall b :: c.offset <= b < c.offset + |c.bytes| ==>
                b < |acc| && acc[b] == None && a.owners[b] == InProgress(c.worker)
    ensures !AllOwned(a.owners, c.offset, |c.bytes|, c.worker) ==>
              Step(crc, hash, a, c, faults).actor == a && Step(crc, hash, a, c, faults).reply.Refused?
  {
    hide Sound, Healthy, Broken, StageGuard, Stage;
    SoundFits(crc, hash, h, a, acc, recs, floor);
    PoisonedGuard(a, c, faults);
    if StageGuard(a.writer, a.owners, c.worker, c.offset, c.bytes).Ok? {
      GuardMeansWritable(a.writer, a.owners, c.worker, c.offset, c.bytes);
      WritableIsFresh(crc, hash, h, a.writer, a.owners, acc, recs, c.worker, c.offset, c.offset + |c.bytes|);
    }
  }

  /** Event `i` of a run is a write, and it was accepted. */
  ghost predicate AcceptedAt(states: seq<Actor>, events: seq<Event>, i: nat)
  {
    && i < |events| && i < |states| && events[i].command.Write? && !states[i].stopped && Fitting(states[i])
    && var c := events[i].command;
       Accepted(states[i].writer, states[i].owners, c.worker, c.offset, c.bytes, events[i].faults)
  }

  /** What an accepted write covers: a non-empty range inside the file, not accepted before. */
  lemma AcceptedRange(crc: Checksum, hash: Hash, h: FileHeader, states: seq<Actor>, hists: seq<History>,
                      events: seq<Event>, recs: seq<JournalRecord>, floor: nat, i: nat)
    requires IsTrace(crc, hash, states, hists, events) && AcceptedAt(states, events, i)
    requires ActorSound(crc, hash, h, states[i], hists[i], recs, floor)
    ensures var c := events[i].command;
            && |c.bytes| > 0 && c.offset + |c.bytes| <= |hists[i]| == |hists[i + 1]|
            && forall b :: c.offset <= b < c.offset + |c.bytes| ==> hists[i][b] == None && hists[i + 1][b].Some?
  {
    hide ActorSound, Step, StageGuard;
    var a, c := states[i], events[i].command;
    GuardMeansWritable(a.writer, a.owners, c.worker, c.offset, c.bytes);
    WriteOnce(crc, hash, h, a, c, events[i].faults, hists[i], recs, floor);
    assert Follows(crc, hash, a, hists[i], events[i], states[i + 1], hists[i + 1]);
  }

  /**
   No offset is accepted twice in any run: whatever workers write, split, abandon or retry in between,
   and whatever fails, two accepted writes never share a byte.
   */
  lemma WrittenOnce(crc: Checksum, hash: Hash, h: FileHeader, states: seq<Actor>, hists: seq<History>,
                    events: seq<Event>, recs: seq<JournalRecord>, floor: nat, i: nat, j: nat)
    requires IsTrace(crc, hash, states, hists, events) && ActorSound(crc, hash, h, states[0], hists[0], recs, floor)
    requires i < j && AcceptedAt(states, events, i) && AcceptedAt(states, events, j)
    ensures var a, b := events[i].command, events[j].command;
            a.offset + |a.bytes| <= b.offset || b.offset + |b.bytes| <= a.offset
  {
    hide ActorSound, Step, Accepted, HistoryAfter, Visited;
    var mid, at := RunSound(crc, hash, h, states, hists, events, 0, i, recs, floor);
    var next, to := RunSound(crc, hash, h, states, hists, events, i, i + 1, mid, at);
    var last, upTo := RunSound(crc, hash, h, states, hists, events, i + 1, j, next, to);
    var a, b := events[i].command, events[j].command;
    AcceptedRange(crc, hash, h, states, hists, events, mid, at, i);
    AcceptedRange(crc, hash, h, states, hists, events, last, upTo, j);
    assert hists[j][b.offset] == None && hists[i + 1][a.offset].Some?;
    assert hists[i + 1][b.offset] == None && hists[j][a.offset].Some?;
  }

  /** Every byte of a non-empty in-range write belongs to the worker. */
  ghost predicate AllOwned(m: Owners, offset: nat, n: nat, worker: U64)
  {
    0 < n && offset + n <= |m| && AllAre(m, offset, offset + n, InProgress(worker))
  }

  lemma PoisonedGuard(a: Actor, c: Command, faults: Faults)
    requires Fitting(a) && c.Write?
    ensures a.writer.poisoned ==> StageGuard(a.writer, a.owners, c.worker, c.offset, c.bytes).Err?
  {
    hide FirstOverlap;
  }

  /** Through the actor, a flush is never rejected by the interval map. */
  lemma FlushNeverRejected(crc: Checksum, hash: Hash, h: FileHeader, a: Actor, fault: FlushFault, acc: History,
                           recs: seq<JournalRecord>, floor: nat)
    requires ActorSound(crc, hash, h, a, acc, recs, floor)
    ensures Fitting(a)
    ensures forall e :: Flush(crc, a.writer, a.owners, fault).result != Err(WriterError.Rejected(e))
  {
    hide Sound, Healthy, Broken;
    SoundFits(crc, hash, h, a, acc, recs, floor);
    if !a.writer.poisoned {
      var _, _ := FlushProgress(crc, hash, h, a.writer, a.owners, acc, recs, fault);
    }
  }
}
