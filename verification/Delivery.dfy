/**
 From the scheduler to the disk: a finished download is a finished run of the actor.

 `ExecuteOnActor` runs the pool and gives the run of the actor that carries it out; the single
 stream's writes are such a run too. Success means that the actor's map is complete, and then
 every crash leaves the whole file, byte for byte.
 */
module Delivery {
  import opened Base
  import opened Ownership
  import opened JournalFormat
  import opened Storage
  import opened Writer
  import opened CommitOrder
  import opened Actor
  import opened Recovery
  import opened CrashSafety
  import opened Desk
  import opened Simulation
  import W = WorkerPool
  import R = PoolRuns
  import P = PoolLoop
  import K = Sink
  import S = SingleStream
  import V = PoolVersions

  /** An actor before its first command: nothing staged, and a sequence number for each missing byte. */
  ghost predicate Ready(crc: Checksum, hash: Hash, h: FileHeader, a: Actor, acc: History, recs: seq<JournalRecord>)
  {
    && Fresh(crc, hash, h, a, acc, recs) && !a.stopped && a.writer.staged == [] && a.writer.stagedBytes == 0
    && |recs| + |a.owners| - CountFilled(CellsOf(a.owners)) <= U64_MAX
  }

  lemma ReadyTracks(crc: Checksum, hash: Hash, h: FileHeader, a: Actor, acc: History, recs: seq<JournalRecord>)
    requires Ready(crc, hash, h, a, acc, recs)
    ensures Track(crc, hash, h, a, acc, recs, CellsOf(a.owners))
    ensures |a.owners| <= U64_MAX && Used(a) == |recs|
  {
    hide Durable, CountFilled, StagedOk;
    CountFilledBounds(CellsOf(a.owners));
    HealthyParts(crc, hash, h, a.writer, a.owners, acc, recs);
    AcceptedIsComplete(crc, hash, h, a.writer, a.owners, acc, recs);
    ViewOfCommitted(a.owners, acc);
  }

  ghost predicate Whole(m: Owners) { forall b :: 0 <= b < |m| ==> m[b] == Complete }

  /** Nothing is missing: what had been accepted before, and `content` everywhere else. */
  ghost predicate AllAccepted(acc: History, final: History, content: nat -> Byte)
  {
    && |acc| == |final|
    && forall b :: 0 <= b < |acc| ==> final[b] == if acc[b].Some? then acc[b] else Some(content(b))
  }

  lemma DoneIsWhole(m: Owners, acc: History, final: History, content: nat -> Byte)
    requires |final| == |m| && Grown(acc, final, content)
    requires forall b :: 0 <= b < |m| ==> View(m, final)[b] == Done
    requires forall b :: 0 <= b < |m| ==> (m[b] == Complete ==> final[b].Some?)
    ensures Whole(m) && AllAccepted(acc, final, content)
  {
    forall b | 0 <= b < |m| ensures m[b] == Complete {
      assert View(m, final)[b] == Done;
    }
  }

  lemma UnownedIsFree(m: Owners, final: History)
    requires |final| == |m| && R.Unowned(View(m, final))
    ensures NothingGranted(m)
  {
    forall b | 0 <= b < |m| ensures !m[b].InProgress? {
      assert View(m, final)[b] == Free || View(m, final)[b] == Done;
    }
  }

  /** Permitted operations as a run of an actor that is ready; a last fence makes its cells exact. */
  lemma OpsDelivered(crc: Checksum, hash: Hash, h: FileHeader, a: Actor, acc: History, recs: seq<JournalRecord>,
                     ops: seq<Op>, after: Cells, content: nat -> Byte, clock: nat -> nat)
    returns (states: seq<Actor>, hists: seq<History>, events: seq<Event>)
    requires Ready(crc, hash, h, a, acc, recs) && Leads(CellsOf(a.owners), ops, a.minSplit, after)
    ensures IsTrace(crc, hash, states, hists, events) && Carries(ops, content, clock, events)
    ensures states[0] == a && hists[0] == acc
    ensures var next, final := states[|events|], hists[|events|];
            && |final| == |next.owners| == |acc| && Grown(acc, final, content)
            && (ops != [] && Fence(ops[|ops| - 1]) ==>
                && View(next.owners, final) == after
                && ((forall b :: 0 <= b < |after| ==> after[b] == Done) ==>
                    Whole(next.owners) && AllAccepted(acc, final, content))
                && (R.Unowned(after) ==> NothingGranted(next.owners)))
  {
    hide Ready, Track, Operate, Permitted, View, CountFilled, IsTrace, Carries, Whole, AllAccepted, Grown, R.Unowned,
      NothingGranted;
    ReadyTracks(crc, hash, h, a, acc, recs);
    var cells := CellsOf(a.owners);
    WritesBounded(cells, ops, a.minSplit);
    EnoughNumbers(crc, hash, h, a, acc, recs, Writes(ops));
    var recs';
    states, hists, events, recs' := RunSimulated(crc, hash, h, a, acc, recs, cells, ops, content, clock);
    CarriesLength(ops, content, clock, events);
    TraceLength(crc, hash, states, hists, events);
    TrackFits(crc, hash, h, states[|ops|], hists[|ops|], recs', after);
    GrownLength(acc, hists[|ops|], content);
    if ops != [] && Fence(ops[|ops| - 1]) {
      EndsWhole(crc, hash, h, states[|ops|], acc, hists[|ops|], recs', after, content);
    }
  }

  lemma EnoughNumbers(crc: Checksum, hash: Hash, h: FileHeader, a: Actor, acc: History, recs: seq<JournalRecord>,
                      writes: nat)
    requires Ready(crc, hash, h, a, acc, recs) && CountFilled(CellsOf(a.owners)) + writes <= |a.owners|
    requires Used(a) == |recs|
    ensures Used(a) + writes <= U64_MAX
  {
    hide Fresh, CountFilled;
  }

  lemma CarriesLength(ops: seq<Op>, content: nat -> Byte, clock: nat -> nat, events: seq<Event>)
    requires Carries(ops, content, clock, events)
    ensures |events| == |ops|
  {
    hide CommandFor;
  }

  lemma TraceLength(crc: Checksum, hash: Hash, states: seq<Actor>, hists: seq<History>, events: seq<Event>)
    requires IsTrace(crc, hash, states, hists, events)
    ensures |states| == |hists| == |events| + 1
  {
    hide Follows;
  }

  lemma EndsWhole(crc: Checksum, hash: Hash, h: FileHeader, a: Actor, acc: History, final: History,
                  recs: seq<JournalRecord>, after: Cells, content: nat -> Byte)
    requires Track(crc, hash, h, a, final, recs, after) && View(a.owners, final) == after && Grown(acc, final, content)
    ensures |final| == |a.owners| == |acc|
    ensures (forall b :: 0 <= b < |after| ==> after[b] == Done) ==> Whole(a.owners) && AllAccepted(acc, final, content)
    ensures R.Unowned(after) ==> NothingGranted(a.owners)
  {
    hide Healthy, View, Whole, AllAccepted, Grown, R.Unowned, NothingGranted, Alike;
    GrownLength(acc, final, content);
    CompleteWasAccepted(crc, hash, h, a, final, recs);
    if forall b :: 0 <= b < |after| ==> after[b] == Done {
      DoneIsWhole(a.owners, acc, final, content);
    }
    if R.Unowned(after) {
      UnownedIsFree(a.owners, final);
    }
  }

  lemma GrownLength(acc: History, final: History, content: nat -> Byte)
    requires Grown(acc, final, content)
    ensures |acc| == |final|
  {
  }

  /**
   The pool over an actor that is ready. `log` is what its tasks did, `ops` what it asked for, and the
   run of the actor serves exactly those requests, with the bytes of `content` in the writes. Success:
   the run ends with every byte complete, and each new one accepted. Failure: it ends with nothing
   granted, unless storage was lost, and then the run is the one up to that point.
   */
  method ExecuteOnActor(initial: Cells, workers: nat, minSplit: U64, ghost crc: Checksum, ghost hash: Hash,
                        ghost h: FileHeader, ghost a: Actor, ghost acc: History, ghost recs: seq<JournalRecord>,
                        ghost content: nat -> Byte, ghost clock: nat -> nat)
    returns (result: Result<seq<W.Report>, W.PoolError>, log: seq<R.Event>, ghost ops: seq<Op>,
             ghost states: seq<Actor>, ghost hists: seq<History>, ghost events: seq<Event>)
    requires Ready(crc, hash, h, a, acc, recs) && NothingGranted(a.owners)
    requires initial == CellsOf(a.owners) && |initial| <= U64_MAX && minSplit == a.minSplit
    requires 0 < workers <= U64_MAX && minSplit > 0
    ensures P.Tells(initial, workers, minSplit, log, result, ops) && Carries(ops, content, clock, events)
    ensures IsTrace(crc, hash, states, hists, events) && states[0] == a && hists[0] == acc
    ensures var next, final := states[|events|], hists[|events|];
            && (result != Err(W.StorageLost) ==> NothingGranted(next.owners)) && Grown(acc, final, content)
            && (result.Ok? ==> Whole(next.owners) && AllAccepted(acc, final, content))
    ensures result.Ok? ==> W.Total(result.value) + CountFilled(initial) == |initial|
    ensures result.Ok? ==> forall w :: W.Total(W.ReportsOf(result.value, w)) == R.Stored(ops, w)
  {
    hide Ready, View, CountFilled, IsTrace, Whole, AllAccepted, Grown, Leads, CommandFor, R.Unbroken, R.BrokenBy,
      W.Kept, W.Total, R.SortedByWorker, P.Tells, Carries, W.ReportsOf, R.Stored, W.NoneEmpty;
    IdleIsUnowned(a.owners);
    var cells;
    cells, result, log, ops := P.ExecuteSegmented(initial, workers, minSplit);
    states, hists, events := OpsDelivered(crc, hash, h, a, acc, recs, ops, cells, content, clock);
  }

  lemma IdleIsUnowned(m: Owners)
    requires NothingGranted(m)
    ensures R.Unowned(CellsOf(m))
  {
  }

  /** What the pool's opening leaves for the loop: a sound pool, filled as before. */
  lemma OpeningSound(initial: Cells, workers: nat, minSplit: U64)
    requires R.Unowned(initial) && |initial| <= U64_MAX && 0 < workers <= U64_MAX && minSplit > 0
    requires R.First(initial, workers, minSplit).running != []
    ensures var first := R.First(initial, workers, minSplit);
            && W.Sound(first, |first.running|, CountFilled(first.cells)) && |first.running| <= workers
            && first.failures == 0 && R.SameFilled(initial, first.cells)
            && Leads(initial, R.Openings(initial, workers, minSplit), minSplit, first.cells)
  {
    hide R.Granted, CountFilled, W.OneStretch, W.Sound, R.SameFilled, Leads, R.Openings, W.Kept, W.Flushed;
    R.OfferedWell(initial, workers, minSplit);
    var o := R.Offered(initial, workers, minSplit);
    R.AdmittedSound(o.cells, o.grants);
  }

  /** Everything a successful run of the pool asks for, and where it leads. */
  lemma WholeRunLeads(initial: Cells, workers: nat, minSplit: U64, log: seq<R.Event>)
    requires R.Unowned(initial) && |initial| <= U64_MAX && 0 < workers <= U64_MAX && minSplit > 0
    requires var first := R.First(initial, workers, minSplit);
             first.running != [] && R.Ended(first, log, minSplit) && R.Verdict(first, log, minSplit).Ok?
    ensures |R.First(initial, workers, minSplit).running| <= workers
    ensures var ops := PoolOps(initial, workers, minSplit, log);
            && Leads(initial, ops, minSplit, Operate(initial, ops, minSplit)) && ops != [] && Fence(ops[|ops| - 1])
            && R.AllDone(Operate(initial, ops, minSplit))
  {
    hide R.First, R.Openings, R.Asked, R.Rest, R.Ended, W.Sound, CountFilled, Leads, Operate, Permitted,
      R.SortedByWorker, R.Unbroken, W.Total, R.Broken;
    OpeningSound(initial, workers, minSplit);
    var first := R.First(initial, workers, minSplit);
    R.FinishedWell(first, log, minSplit, CountFilled(first.cells));
    var more := R.Asked(first, log, minSplit) + R.Rest(first, log, minSplit);
    var after := Operate(first.cells, more, minSplit);
    LeadsHere(first.cells, more, minSplit);
    LeadsThrough(initial, R.Openings(initial, workers, minSplit), minSplit, first.cells, more, after);
    R.LeadsTo(initial, R.Openings(initial, workers, minSplit) + more, minSplit, after);
  }

  lemma LeadsHere(cells: Cells, ops: seq<Op>, minSplit: U64)
    requires |cells| <= U64_MAX && Permitted(cells, ops, minSplit)
    ensures Leads(cells, ops, minSplit, Operate(cells, ops, minSplit))
  {
  }

  /** The requests of a pool run that ended as `log` tells. */
  ghost function PoolOps(initial: Cells, workers: nat, minSplit: U64, log: seq<R.Event>): seq<Op>
    requires |initial| <= U64_MAX && workers <= U64_MAX && |R.First(initial, workers, minSplit).running| <= U64_MAX
  {
    var first := R.First(initial, workers, minSplit);
    R.Openings(initial, workers, minSplit) + (R.Asked(first, log, minSplit) + R.Rest(first, log, minSplit))
  }

  /**
   Every successful segmented download, whatever its tasks did and whichever versions answered them:
   the run of the actor that serves its requests ends whole, and each byte it fetched was accepted as
   that byte of the version that answered the task it was fetched by.
   */
  lemma SegmentedFile(crc: Checksum, hash: Hash, h: FileHeader, a: Actor, acc: History, recs: seq<JournalRecord>,
                      world: S.World, answers: nat -> V.Answer, workers: nat, log: seq<R.Event>, clock: nat -> nat)
    returns (states: seq<Actor>, hists: seq<History>, events: seq<Event>)
    requires Ready(crc, hash, h, a, acc, recs) && NothingGranted(a.owners) && |a.owners| <= U64_MAX
    requires 0 < workers <= U64_MAX && a.minSplit > 0
    requires var first := R.First(CellsOf(a.owners), workers, a.minSplit);
             && first.running != [] && R.Ended(first, log, a.minSplit) && R.Verdict(first, log, a.minSplit).Ok?
             && V.Served(world, answers, first, log, a.minSplit)
    ensures |R.First(CellsOf(a.owners), workers, a.minSplit).running| <= workers
    ensures IsTrace(crc, hash, states, hists, events) && states[0] == a && hists[0] == acc
    ensures var first := R.First(CellsOf(a.owners), workers, a.minSplit);
            var o := V.OriginsOf(first, log, a.minSplit);
            var ops := PoolOps(CellsOf(a.owners), workers, a.minSplit, log);
            && Carries(ops, V.Content(world, answers, o), clock, events)
            && Whole(states[|events|].owners) && AcceptedFrom(world, answers, o, acc, hists[|events|])
  {
    hide Ready, R.First, R.Ended, R.Verdict, V.Served, V.OriginsOf, V.Content, PoolOps, Leads, Operate, View, IsTrace,
      Carries, Whole, AllAccepted, Grown, W.Sound, R.SameFilled, CountFilled, R.Unowned, AcceptedFrom;
    var cells := CellsOf(a.owners);
    IdleIsUnowned(a.owners);
    OpeningSound(cells, workers, a.minSplit);
    WholeRunLeads(cells, workers, a.minSplit, log);
    var first := R.First(cells, workers, a.minSplit);
    var o, ops := V.OriginsOf(first, log, a.minSplit), PoolOps(cells, workers, a.minSplit, log);
    var content := V.Content(world, answers, o);
    states, hists, events := OpsDelivered(crc, hash, h, a, acc, recs, ops, Operate(cells, ops, a.minSplit), content,
                                          clock);
    TraceLength(crc, hash, states, hists, events);
    ServedAll(crc, hash, h, a, acc, recs, world, answers, first, log);
    AcceptedAll(world, answers, o, acc, hists[|events|]);
  }

  /** What had been accepted stays, and every other byte is from the version that answered its task. */
  ghost predicate AcceptedFrom(world: S.World, answers: nat -> V.Answer, o: V.Origins, acc: History, final: History)
  {
    && |acc| == |final| == |o|
    && forall b :: 0 <= b < |acc| ==>
         if acc[b].Some? then final[b] == acc[b]
         else
           && o[b].Some?
           && var rep := world.reps(answers(o[b].value).version); b < |rep| && final[b] == Some(rep[b])
  }

  lemma AcceptedAll(world: S.World, answers: nat -> V.Answer, o: V.Origins, acc: History, final: History)
    requires |o| == |acc| && V.FromItsAnswer(world, answers, o)
    requires forall b :: 0 <= b < |o| && acc[b].None? ==> o[b].Some?
    requires AllAccepted(acc, final, V.Content(world, answers, o))
    ensures AcceptedFrom(world, answers, o, acc, final)
  {
  }

  /** A byte that had not been accepted was written by some task of the run. */
  lemma ServedAll(crc: Checksum, hash: Hash, h: FileHeader, a: Actor, acc: History, recs: seq<JournalRecord>,
                  world: S.World, answers: nat -> V.Answer, first: W.Pool, log: seq<R.Event>)
    requires Ready(crc, hash, h, a, acc, recs) && |first.cells| == |a.owners| <= U64_MAX && a.minSplit > 0
    requires W.Sound(first, |first.running|, CountFilled(first.cells)) && first.failures == 0
    requires R.SameFilled(CellsOf(a.owners), first.cells)
    requires R.Ended(first, log, a.minSplit) && R.Verdict(first, log, a.minSplit).Ok?
    requires V.Served(world, answers, first, log, a.minSplit)
    ensures var o := V.OriginsOf(first, log, a.minSplit);
            && |o| == |acc| && V.FromItsAnswer(world, answers, o)
            && forall b :: 0 <= b < |o| && acc[b].None? ==> o[b].Some?
  {
    hide W.Sound, CountFilled, R.Staffed, R.Now, V.Served, V.OriginsOf, V.FromItsAnswer, Healthy, R.Fatal,
      R.SortReports, W.Kept, Leads, R.Asked, R.Within, R.StaffOps;
    var workers, start, o := |first.running|, CountFilled(first.cells), V.OriginsOf(first, log, a.minSplit);
    var before := R.Now(first, log, a.minSplit);
    V.EveryByteServed(world, answers, first, log, a.minSplit, workers, start);
    R.PlayedSound(first, log, a.minSplit, workers, start);
    R.SoundWithin(before, workers, start);
    R.StaffedSound(before, a.minSplit, workers, start, |before.cells| + 1);
    V.StaffedMatches(first.cells, before, a.minSplit, o);
    AcceptedIsComplete(crc, hash, h, a.writer, a.owners, acc, recs);
    var end := R.Staffed(before, a.minSplit).cells;
    forall b | 0 <= b < |o| && acc[b].None? ensures o[b].Some? {
      assert end[b] == Done && !Filled(CellsOf(a.owners)[b]);
    }
  }

  /**
   After a download that ended whole, a crash in any later disk state leaves the whole file:
   recovery calls every byte complete, and each holds the value that was accepted for it.
   */
  lemma WholeSurvives(crc: Checksum, hash: Hash, h: FileHeader, states: seq<Actor>, hists: seq<History>,
                      events: seq<Event>, recs: seq<JournalRecord>, i: nat, content: nat -> Byte, at: nat, after: Store,
                      meta: Metadata, r: Recovered)
    requires IsTrace(crc, hash, states, hists, events) && Fresh(crc, hash, h, states[0], hists[0], recs)
    requires i <= |events| && Whole(states[i].owners) && AllAccepted(hists[0], hists[i], content)
    requires |states[i].writer.images| <= at + 1 && at < |states[|events|].writer.images|
    requires Crash(states[|events|].writer.images[at], after) && Resumable(h, meta)
    requires RecoveredAs(crc, h, meta, after, r)
    ensures Whole(r.report.owners) && |r.report.owners| == |hists[0]| <= |after.data|
    ensures forall b :: 0 <= b < |hists[0]| ==>
              Some(after.data[b]) == if hists[0][b].Some? then hists[0][b] else Some(content(b))
  {
    hide IsTrace, Healthy, RecoveredAs, Crash, Resumable;
    TraceLength(crc, hash, states, hists, events);
    AcknowledgedSurvives(crc, hash, h, states, hists, events, recs, i, at, after, meta, r);
    FreshSound(crc, hash, h, states[0], hists[0], recs);
    LaterExtends(crc, hash, h, states, hists, events, recs, i);
  }

  lemma LaterExtends(crc: Checksum, hash: Hash, h: FileHeader, states: seq<Actor>, hists: seq<History>,
                     events: seq<Event>, recs: seq<JournalRecord>, i: nat)
    requires IsTrace(crc, hash, states, hists, events) && i <= |events|
    requires ActorSound(crc, hash, h, states[0], hists[0], recs, |recs|)
    ensures Extends(hists[i], hists[|events|])
  {
    hide ActorSound, Step, HistoryAfter, Extends, Visited;
    var mid, floor := RunSound(crc, hash, h, states, hists, events, 0, i, recs, |recs|);
    var _, _ := RunSound(crc, hash, h, states, hists, events, i, |events|, mid, floor);
  }

  // ----- where a run starts -----

  /** A writer over a new journal. */
  ghost function NewWriter(crc: Checksum, h: FileHeader, data: seq<Byte>): Writer
  {
    var s := Store(data, seq(|data|, _ => false), EncodeHeader(crc, h), HEADER_LEN);
    Create(h.totalLength, h.totalLength, s, 0).value
  }

  /** A new download over a map on which nothing is complete, whoever holds its bytes. */
  lemma NewReady(crc: Checksum, hash: Hash, h: FileHeader, data: seq<Byte>, m: Owners, minSplit: U64)
    requires |data| >= h.totalLength == |m| && forall b :: 0 <= b < |m| ==> m[b] != Complete
    ensures Ready(crc, hash, h, Actor(NewWriter(crc, h, data), m, minSplit, false), seq(|m|, _ => None), [])
  {
    hide EncodeHeader, Healthy, CountFilled;
    FirstSession(crc, hash, h, data, minSplit);
    var w, none := NewWriter(crc, h, data), seq(|m|, _ => None);
    HealthyOwners(crc, hash, h, w, seq(h.totalLength, _ => Pending), m, none, []);
  }

  /** What recovery hands over after a crash is ready, if the journal still has numbers. */
  lemma NextReady(crc: Checksum, hash: Hash, h: FileHeader, a: Actor, acc: History, l: Life, next: Actor,
                  acc': History, recs: seq<JournalRecord>) returns (recs': seq<JournalRecord>)
    requires Fresh(crc, hash, h, a, acc, recs) && Lives(crc, hash, h, a, acc, l, next, acc')
    requires l.recovered.report.nextSequence + |next.owners| - CountFilled(CellsOf(next.owners)) <= U64_MAX
    ensures Ready(crc, hash, h, next, acc', recs') && NothingGranted(next.owners)
    ensures Keeps(a.owners, acc, next.owners, acc')
  {
    hide Tidied, RecoveredAs, Resumable, CountFilled, IsTrace, Crash, Durable, StagedOk;
    StartsInside(crc, hash, h, a, acc, recs, l, next, acc');
    recs' := LifeSafe(crc, hash, h, a, acc, l, next, acc', recs, 0);
  }

  // ----- the single stream -----

  ghost function CommandOf(op: K.SinkOp, now: nat): Command
    requires op.Put? ==> op.offset <= U64_MAX
  {
    match op
    case Put(offset, bytes) => Write(K.SINGLE_STREAM_WORKER, offset, bytes, now)
    case Commit => FlushAll
  }

  function ByteAt(file: seq<Byte>): nat -> Byte { (b: nat) => if b < |file| then file[b] else 0 }

  /** Every write of the log puts the bytes that the file has there in the end. */
  lemma PutsAreFile(log: seq<K.SinkOp>, file: seq<Byte>, i: nat, now: nat)
    requires K.WrittenBy(log, file) && i < |log|
    ensures log[i].Put? ==> log[i].offset <= U64_MAX
    ensures K.OpOf(log[i]).Storing? ==> K.OpOf(log[i]).lo <= K.OpOf(log[i]).hi && K.OpOf(log[i]).lo <= U64_MAX
    ensures CommandFor(K.OpOf(log[i]), ByteAt(file), now) == CommandOf(log[i], now)
  {
    if log[i].Put? {
      K.PutsKept(K.NewPart(|file|), log, i);
      var lo, hi := log[i].offset, log[i].offset + |log[i].bytes|;
      assert Block(ByteAt(file), lo, hi) == file[lo..hi];
    }
  }

  /** The commands of a run are the sink's own writes and commits, in order and byte for byte. */
  ghost predicate Serves(log: seq<K.SinkOp>, clock: nat -> nat, events: seq<Event>)
  {
    && |events| == |log|
    && forall i :: 0 <= i < |log| ==>
         && (log[i].Put? ==> log[i].offset <= U64_MAX)
         && events[i] == Event(CommandOf(log[i], clock(i)), HEALTHY)
  }

  /** The writes of a completed single stream, as a run of an actor over a new journal. */
  lemma StreamDelivered(crc: Checksum, hash: Hash, h: FileHeader, data: seq<Byte>, log: seq<K.SinkOp>, file: seq<Byte>,
                        clock: nat -> nat)
    returns (states: seq<Actor>, hists: seq<History>, events: seq<Event>)
    requires K.WrittenBy(log, file) && |file| == h.totalLength <= |data|
    ensures IsTrace(crc, hash, states, hists, events) && Serves(log, clock, events)
    ensures Fresh(crc, hash, h, states[0], hists[0], []) && hists[0] == seq(|file|, _ => None)
    ensures Whole(states[|events|].owners) && AllAccepted(hists[0], hists[|events|], ByteAt(file))
  {
    hide IsTrace, Whole, AllAccepted, Leads, Fresh, K.Stored, K.AllStored, Grown, View, CommandFor, CommandOf;
    var m := OwnersOf(K.NewPart(|file|).cells);
    var a := Actor(NewWriter(crc, h, data), m, 1, false);
    NewReady(crc, hash, h, data, m, 1);
    K.StoredLeads(K.NewPart(|file|), log, 1);
    assert CellsOf(m) == K.NewPart(|file|).cells;
    states, hists, events := OpsDelivered(crc, hash, h, a, seq(|m|, _ => None), [], K.OpsOf(log),
                                          K.Stored(K.NewPart(|file|), log).cells, ByteAt(file), clock);
    forall i | 0 <= i < |log|
      ensures (log[i].Put? ==> log[i].offset <= U64_MAX)
              && events[i] == Event(CommandOf(log[i], clock(i)), HEALTHY)
    {
      PutsAreFile(log, file, i, clock(i));
    }
  }

  /**
   The single-stream download over an actor. `puts` are the writes of its fetches. Success: the file
   comes from one version, and the run of the actor that serves exactly the writes since the last start,
   with a commit after each fetch, ends with every byte complete and accepted as the file has it.
   */
  method DownloadOnActor(world: S.World, ghost crc: Checksum, ghost hash: Hash, ghost id: FileHeader,
                         ghost clock: nat -> nat)
    returns (r: Result<seq<Byte>, S.DownloadError>, fetches: seq<S.Fetch>, ghost puts: seq<seq<K.SinkOp>>,
             ghost version: nat, ghost states: seq<Actor>, ghost hists: seq<History>, ghost events: seq<Event>)
    requires S.NeverReturns(world) && S.Addressable(world)
    ensures S.Contiguous(fetches) && S.Recorded(world, fetches, puts)
    ensures r.Ok? ==> S.FromOneVersion(world, r.value) && |r.value| <= U64_MAX
    ensures r.Ok? ==> r.value <= world.reps(version) && S.AllFrom(fetches, version)
    ensures r.Ok? ==> Serves(S.Logged(puts[S.LastStart(fetches)..]), clock, events)
    ensures r.Ok? ==>
              && IsTrace(crc, hash, states, hists, events)
              && Fresh(crc, hash, id.(totalLength := |r.value|), states[0], hists[0], [])
              && Whole(states[|events|].owners) && AllAccepted(hists[0], hists[|events|], ByteAt(r.value))
              && hists[0] == seq(|r.value|, _ => None)
  {
    hide IsTrace, Whole, AllAccepted, Fresh, S.NeverReturns, K.Stored, K.AllStored, S.Contiguous, S.AllFrom,
      S.LastStart, S.Logged, S.Appends, CommandOf, S.Retried, S.FetchesOf, S.Retryable;
    var attempts;
    ghost var tries;
    r, attempts, fetches, puts, version, tries := S.Download(world);
    states, hists, events := [], [], [];
    if r.Ok? {
      ghost var log := S.Logged(puts[S.LastStart(fetches)..]);
      ghost var h := id.(totalLength := |r.value|);
      states, hists, events := StreamDelivered(crc, hash, h, K.NewPart(|r.value|).content, log, r.value, clock);
    }
  }
}
