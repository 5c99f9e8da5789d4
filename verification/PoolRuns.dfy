/**
 What a pool run is: first grants, then events, each answered in one way.

 Which task acts next, how much it writes and how it ends is up to the environment, so a run is a
 list of events. Given the list, the pool, its requests to the actor and its verdict are functions:
 `Offered` is the pool's opening, `Now` the pool after some events, `Asked` what it has asked for.
 `PlayedSound` holds of every list of events that can happen.
 */
module PoolRuns {
  import opened Base
  import A = Allocator
  import T = Actor
  import opened Desk
  import opened Simulation
  import opened WorkerPool
  import opened WorkerCredit
  import Retry
  import Service = ActorService

  // ----- the first grants -----

  /** Worker `i` has grant `i` and holds exactly it; nobody else holds anything. */
  ghost predicate Granted(cells: Cells, grants: seq<Attempt>)
  {
    && Live(cells, grants) && Known(cells, grants, |grants|)
    && forall i :: 0 <= i < |grants| ==>
         grants[i].worker == i && grants[i].cursor == grants[i].lo && !grants[i].cancelled
  }

  function Regranted(grants: seq<Attempt>, al: A.Allocation): seq<Attempt>
  {
    (if al.shortened.Some? && al.shortened.value.worker < |grants|
     then grants[al.shortened.value.worker := Started(al.shortened.value)] else grants) + [Started(al.grant)]
  }

  lemma UnusedHoldsNothing(cells: Cells, grants: seq<Attempt>)
    requires Granted(cells, grants) && |grants| <= U64_MAX
    ensures HoldsNothing(cells, |grants|)
  {
  }

  /** A shortened grant is the known grant of its worker, cut on the right. */
  lemma ShortenedIsKnown(cells: Cells, grants: seq<Attempt>, al: A.Allocation)
    requires Granted(cells, grants) && al.shortened.Some?
    requires Takes(cells, al.grant.lo, al.grant.hi, al.grant.worker, al.shortened)
    ensures var s := al.shortened.value;
            s.worker < |grants| && grants[s.worker].lo == s.lo && grants[s.worker].hi == al.grant.hi
  {
    var s := al.shortened.value;
    assert cells[s.lo] == Held(s.worker);
    var t := grants[s.worker];
    assert Writing(cells, t);
    assert cells[t.lo] == Held(s.worker) && cells[t.hi - 1] == Held(s.worker);
    assert cells[al.grant.hi - 1] == Held(s.worker);
  }

  lemma RegrantedLive(cells: Cells, grants: seq<Attempt>, al: A.Allocation, i: nat)
    requires Granted(cells, grants) && al.grant.worker == |grants| && HoldsNothing(cells, al.grant.worker)
    requires Takes(cells, al.grant.lo, al.grant.hi, al.grant.worker, al.shortened)
    requires i < |grants| + 1
    ensures var g := al.grant;
            i < |Regranted(grants, al)| && Writing(HoldCells(cells, g.lo, g.hi, g.worker), Regranted(grants, al)[i])
  {
    if al.shortened.Some? {
      ShortenedIsKnown(cells, grants, al);
    }
    if i < |grants| {
      assert Writing(cells, grants[i]);
      if al.shortened.None? || i != al.shortened.value.worker {
        assert Regranted(grants, al)[i] == grants[i];
        TakenFromOthers(cells, al, i);
        OtherWriting(cells, grants[i], al.grant.lo, al.grant.hi, al.grant.worker);
      } else {
        assert Regranted(grants, al)[i] == Started(al.shortened.value);
      }
    } else {
      assert Regranted(grants, al)[i] == Started(al.grant);
    }
  }

  lemma OtherWriting(cells: Cells, t: Attempt, lo: nat, hi: nat, w: U64)
    requires Writing(cells, t) && t.cursor == t.lo && t.worker != w && lo <= hi <= |cells|
    requires forall b :: lo <= b < hi ==> cells[b] != Held(t.worker)
    ensures Writing(HoldCells(cells, lo, hi, w), t)
  {
    hide HoldCells;
    var r := HoldCells(cells, lo, hi, w);
    forall b | 0 <= b < |cells| ensures r[b] == Held(t.worker) <==> t.cursor <= b < t.hi {
      assert cells[b] == Held(t.worker) <==> t.cursor <= b < t.hi;
    }
  }

  lemma TakenFromOthers(cells: Cells, al: A.Allocation, w: U64)
    requires Takes(cells, al.grant.lo, al.grant.hi, al.grant.worker, al.shortened)
    requires al.shortened.Some? ==> al.shortened.value.worker != w
    ensures forall b :: al.grant.lo <= b < al.grant.hi ==> cells[b] != Held(w)
  {
    forall b | al.grant.lo <= b < al.grant.hi ensures cells[b] != Held(w) {
      assert al.shortened.Some? ==> cells[b] == Held(al.shortened.value.worker);
    }
  }

  lemma RegrantedGranted(cells: Cells, grants: seq<Attempt>, al: A.Allocation)
    requires Granted(cells, grants) && al.grant.worker == |grants| && HoldsNothing(cells, al.grant.worker)
    requires Takes(cells, al.grant.lo, al.grant.hi, al.grant.worker, al.shortened)
    ensures al.grant.hi <= |cells|
    ensures var g := al.grant;
            Granted(HoldCells(cells, g.lo, g.hi, g.worker), Regranted(grants, al))
  {
    hide Writing;
    if al.shortened.Some? {
      ShortenedIsKnown(cells, grants, al);
    }
    forall i | 0 <= i < |grants| + 1
      ensures Writing(HoldCells(cells, al.grant.lo, al.grant.hi, al.grant.worker), Regranted(grants, al)[i])
    {
      RegrantedLive(cells, grants, al, i);
    }
  }

  /** A map on which nobody works: fresh, or rebuilt by recovery. */
  ghost predicate Unowned(cells: Cells)
  {
    forall b :: 0 <= b < |cells| ==> cells[b] == Free || cells[b] == Done
  }

  lemma EmptyGranted(cells: Cells)
    requires Unowned(cells)
    ensures Granted(cells, []) && OneStretch(cells) && Flushed(cells) && Kept(cells, cells)
  {
  }

  lemma GrantStep(initial: Cells, cells: Cells, grants: seq<Attempt>, al: A.Allocation)
    requires Granted(cells, grants) && OneStretch(cells) && Flushed(cells) && Kept(initial, cells)
    requires al.grant.worker == |grants| && HoldsNothing(cells, al.grant.worker)
    requires Takes(cells, al.grant.lo, al.grant.hi, al.grant.worker, al.shortened)
    ensures al.grant.hi <= |cells|
    ensures var r := HoldCells(cells, al.grant.lo, al.grant.hi, al.grant.worker);
            && Granted(r, Regranted(grants, al)) && OneStretch(r) && Flushed(r)
            && CountFilled(r) == CountFilled(cells) && Kept(initial, r)
    ensures exists b :: 0 <= b < |initial| && initial[b] != Done
  {
    hide CountFilled, OneStretch, Granted;
    var g := al.grant;
    RegrantedGranted(cells, grants, al);
    TakesKeepsStretch(cells, g.lo, g.hi, g.worker, al.shortened);
    TakesUnfilled(cells, g.lo, g.hi, g.worker, al.shortened);
    HoldCounts(cells, g.lo, g.hi, g.worker);
    assert !Filled(cells[g.lo]);
    assert initial[g.lo] != Done;
  }

  lemma GrantedSeparate(cells: Cells, grants: seq<Attempt>)
    requires Granted(cells, grants)
    ensures Separate(grants)
  {
    forall i, j | 0 <= i < j < |grants| ensures Apart(grants[i], grants[j]) {
      assert Writing(cells, grants[i]) && Writing(cells, grants[j]);
      assert cells[grants[i].lo] == Held(i) && cells[grants[j].lo] == Held(j);
    }
  }

  lemma AdmittedSound(cells: Cells, grants: seq<Attempt>)
    requires Granted(cells, grants) && OneStretch(cells) && grants != []
    ensures Sound(Pool(cells, grants, [], [], None, false, 0), |grants|, CountFilled(cells))
    ensures Written(grants) == 0
  {
    hide CountFilled, OneStretch, Live;
    GrantedSeparate(cells, grants);
    WrittenFromZero(grants);
  }

  // ----- progress -----

  /** Bytes still to accept, counted again for running tasks, and one more once a worker is idle. */
  ghost predicate Within(p: Pool, fuel: nat)
  {
    |p.cells| - CountFilled(p.cells) + Written(p.running) + (if p.idle.Some? then 1 else 0) <= fuel
  }

  lemma WroteWithin(p: Pool, i: nat, n: nat, fuel: nat)
    requires Within(p, fuel) && i < |p.running| && Live(p.cells, p.running)
    requires p.running[i].cursor + n <= p.running[i].hi <= |p.cells|
    ensures Within(OnWrote(p, i, n), fuel)
  {
    hide CountFilled, Written;
    var q, t := OnWrote(p, i, n), p.running[i];
    assert Writing(p.cells, t);
    WrittenUpdate(p.running, i, q.running[i]);
    StageCounts(p.cells, t.cursor, t.cursor + n, t.worker);
  }

  lemma FlushedWithin(p: Pool, fuel: nat)
    requires Within(p, fuel)
    ensures Within(OnFlushed(p), fuel) && Within(Drained(p), fuel)
  {
    hide CountFilled, Written;
    FlushCounts(p.cells, 0);
  }

  lemma FinishedWithin(p: Pool, i: nat, fuel: nat)
    requires Within(p, fuel) && i < |p.running| && Live(p.cells, p.running) && p.running[i].cursor == p.running[i].hi
    ensures Within(OnFinished(p, i), fuel) && |OnFinished(p, i).running| < |p.running|
  {
    hide CountFilled, Written;
    RunningForward(p.cells, p.running, i);
    FlushCounts(p.cells, 0);
    WrittenWithout(p.running, i);
    WrittenCancel(Without(p.running, i));
  }

  lemma CancelledWithin(p: Pool, i: nat, fuel: nat)
    requires Within(p, fuel) && i < |p.running| && Live(p.cells, p.running)
    ensures Within(OnCancelled(p, i), fuel) && |OnCancelled(p, i).running| < |p.running|
  {
    hide CountFilled, Written;
    RunningForward(p.cells, p.running, i);
    WrittenWithout(p.running, i);
  }

  /** A retry may restore the whole length as work to do, but no more. */
  lemma SoundWithin(p: Pool, workers: nat, start: nat)
    requires Sound(p, workers, start)
    ensures Within(p, |p.cells| + 1)
  {
    hide CountFilled, Written, Total, Separate, Aside, OneStretch, IdleOk, Known;
    forall i | 0 <= i < |p.parked| ensures p.parked[i].lo <= p.parked[i].cursor {
      assert Stopped(p.cells, p.parked[i]);
    }
    WrittenForward(p.parked);
  }

  // ----- events -----

  datatype Event =
    | Wrote(task: nat, count: nat)
    | Ticked(due: bool)
    | Finished(task: nat)
    | Failed(task: nat, failure: WorkerFailure)
    | Cancelled(task: nat)
    | Panicked(task: nat)
    | Lost

  /** What the tasks and the ticker can do next, block by block; tasks may act until `quiet` runs out. */
  predicate Enabled(p: Pool, quiet: nat, e: Event)
  {
    match e
    case Wrote(i, n) =>
      && quiet > 0 && i < |p.running| && p.running[i].cursor + n <= p.running[i].hi
      && 0 < n <= Service.MAX_WRITE_BLOCK_BYTES
    case Ticked(_) => quiet > 0
    case Finished(i) => i < |p.running| && p.running[i].cursor == p.running[i].hi
    case Failed(i, _) => i < |p.running|
    case Cancelled(i) => i < |p.running| && p.running[i].cancelled
    case Panicked(i) => i < |p.running|
    case Lost => true
  }

  /** A failure that ends the run: of storage, not a transient one, or past the retry budget. */
  function Fatal(p: Pool, e: Event): Option<PoolError>
  {
    match e
    case Failed(i, f) =>
      if i >= |p.running| then None
      else
        var kind := RetryableFailure(f);
        if kind.None? || Retry.GivesUp(kind.value, p.failures) then Some(WorkerFailed(p.running[i].worker, f)) else None
    case Panicked(_) => Some(WorkerJoin)
    case Lost => Some(StorageLost)
    case _ => None
  }

  lemma FatalKinds(p: Pool, e: Event)
    ensures Fatal(p, e) == Some(StorageLost) <==> e == Lost
    ensures Fatal(p, e).None? ==> !e.Panicked? && !e.Lost?
  {
  }

  /** A failed worker is the one whose task failed. */
  lemma FatalNames(p: Pool, e: Event)
    ensures var f := Fatal(p, e);
            f.Some? && f.value.WorkerFailed? ==>
              e.Failed? && e.task < |p.running| && f.value == WorkerFailed(p.running[e.task].worker, e.failure)
  {
  }

  function React(p: Pool, e: Event): (q: Pool)
    ensures |q.cells| == |p.cells|
  {
    match e
    case Wrote(i, n) =>
      if i < |p.running| && p.running[i].cursor + n <= Min(p.running[i].hi, |p.cells|) then OnWrote(p, i, n) else p
    case Ticked(due) => if due then OnFlushed(p) else p
    case Finished(i) => if i < |p.running| then OnFinished(p, i) else p
    case Failed(i, _) => if i < |p.running| then OnFailed(p, i) else p
    case Cancelled(i) => if i < |p.running| then OnCancelled(p, i) else p
    case _ => p
  }

  lemma RunningInside(p: Pool, workers: nat, start: nat)
    requires Sound(p, workers, start)
    ensures forall i :: 0 <= i < |p.running| ==> p.running[i].hi <= |p.cells|
  {
    hide OneStretch, Resting, Separate, Aside, Known, IdleOk, Conserved;
    forall i | 0 <= i < |p.running| ensures p.running[i].hi <= |p.cells| {
      RunningForward(p.cells, p.running, i);
    }
  }

  lemma SoundLive(p: Pool, workers: nat, start: nat)
    requires Sound(p, workers, start)
    ensures Live(p.cells, p.running)
  {
  }

  /** Every reaction keeps the pool sound. */
  lemma ReactSound(p: Pool, quiet: nat, e: Event, workers: nat, start: nat)
    requires Sound(p, workers, start) && Enabled(p, quiet, e)
    ensures Sound(React(p, e), workers, start) && Kept(p.cells, React(p, e).cells)
  {
    hide Sound, OnWrote, OnFinished, OnFailed, OnCancelled, FlushCells;
    RunningInside(p, workers, start);
    match e
    case Wrote(i, n) => WroteSound(p, i, n, workers, start);
    case Ticked(_) => FlushedSound(p, workers, start);
    case Finished(i) => FinishedSound(p, i, workers, start);
    case Failed(i, _) => FailedSound(p, i, workers, start);
    case Cancelled(i) => CancelledSound(p, i, workers, start);
    case _ =>
  }

  /** What the reaction asks of the actor. */
  function OpsFor(p: Pool, e: Event): seq<Op>
  {
    match e
    case Wrote(i, n) =>
      if i < |p.running| then [Storing(p.running[i].worker, p.running[i].cursor, p.running[i].cursor + n)] else []
    case Ticked(due) => [Ticking(due)]
    case Finished(_) => [Committing]
    case Failed(i, _) => if i < |p.running| then [Releasing(p.running[i].worker)] else []
    case _ => []
  }

  lemma ReactLeads(p: Pool, quiet: nat, e: Event, workers: nat, start: nat, minSplit: U64)
    requires Sound(p, workers, start) && Enabled(p, quiet, e) && |p.cells| <= U64_MAX
    ensures Leads(p.cells, OpsFor(p, e), minSplit, React(p, e).cells)
  {
    hide Sound, FlushCells, AbandonCells, StageCells, CancelAll, Live, Leads;
    SoundLive(p, workers, start);
    RunningInside(p, workers, start);
    LeadsNowhere(p.cells, minSplit);
    if OpsFor(p, e) != [] {
      var op := OpsFor(p, e)[0];
      WroteAllowed(p, e, quiet);
      LeadsOn(p.cells, [], minSplit, p.cells, op);
      assert [] + [op] == OpsFor(p, e);
    }
  }

  lemma WroteAllowed(p: Pool, e: Event, quiet: nat)
    requires Live(p.cells, p.running) && Enabled(p, quiet, e)
    ensures OpsFor(p, e) != [] ==> Allowed(p.cells, OpsFor(p, e)[0])
  {
    if e.Wrote? {
      assert Writing(p.cells, p.running[e.task]);
    }
  }

  /** Every reaction that does not end the run uses up patience, a task, or a retry. */
  lemma ReactProgress(p: Pool, quiet: nat, e: Event, workers: nat, start: nat, fuel: nat)
    requires Sound(p, workers, start) && Enabled(p, quiet, e) && Within(p, fuel) && Fatal(p, e).None?
    ensures var q := React(p, e);
            && (e.Wrote? || e.Ticked? ==>
                quiet > 0 && |q.running| == |p.running| && q.failures == p.failures && Within(q, fuel))
            && (e.Finished? || e.Cancelled? ==>
                |q.running| < |p.running| && q.failures == p.failures && Within(q, fuel))
            && (e.Failed? ==> q.failures == p.failures + 1 <= Retry.MAX_RETRIES)
  {
    hide Sound, Within, FlushCells, CancelAll, Written, CountFilled, Live;
    SoundLive(p, workers, start);
    RunningInside(p, workers, start);
    match e
    case Wrote(i, n) => WroteWithin(p, i, n, fuel);
    case Ticked(_) => FlushedWithin(p, fuel);
    case Finished(i) => FinishedWithin(p, i, fuel);
    case Failed(i, _) =>
    case Cancelled(i) => CancelledWithin(p, i, fuel);
  }

  // ----- what a run's events say about how it ends -----

  function FailuresIn(log: seq<Event>): nat
  {
    if log == [] then 0 else FailuresIn(log[..|log| - 1]) + if log[|log| - 1].Failed? then 1 else 0
  }

  /** Event `i` ends the run: lost storage, a lost task, a permanent failure, or a sixth transient one. */
  predicate FatalAt(log: seq<Event>, i: nat)
    requires i < |log|
  {
    match log[i]
    case Panicked(_) => true
    case Lost => true
    case Failed(_, f) => f.Permanent? || FailuresIn(log[..i]) >= 5
    case _ => false
  }

  ghost predicate Unbroken(log: seq<Event>) { forall i :: 0 <= i < |log| ==> !FatalAt(log, i) }

  /** The last event, and only the last, is fatal, and `error` says so. */
  ghost predicate BrokenBy(log: seq<Event>, error: PoolError)
  {
    && log != [] && Unbroken(log[..|log| - 1]) && FatalAt(log, |log| - 1)
    && match log[|log| - 1]
       case Panicked(_) => error.WorkerJoin?
       case Lost => error.StorageLost?
       case Failed(_, f) => error.WorkerFailed? && error.failure == f
       case _ => false
  }

  lemma NothingLogged()
    ensures FailuresIn([]) == 0 && Unbroken([])
  {
  }

  lemma LogNext(p: Pool, quiet: nat, log: seq<Event>, e: Event)
    requires p.failures == FailuresIn(log) && Unbroken(log) && Enabled(p, quiet, e)
    ensures FailuresIn(log + [e]) == FailuresIn(log) + if e.Failed? then 1 else 0
    ensures Fatal(p, e).None? ==> Unbroken(log + [e])
    ensures Fatal(p, e).Some? ==> BrokenBy(log + [e], Fatal(p, e).value)
  {
    var all, n := log + [e], |log|;
    assert all[..n] == log && all[n] == e;
    forall i | 0 <= i < n ensures !FatalAt(all, i) {
      assert all[..i] == log[..i] && all[i] == log[i];
      assert !FatalAt(log, i);
    }
  }

  // ----- reports -----

  ghost predicate SortedByWorker(rs: seq<Report>)
  {
    forall i, j :: 0 <= i < j < |rs| ==> rs[i].worker <= rs[j].worker
  }

  /** Stable insertion: a report goes after those of its own worker. */
  function Placed(rs: seq<Report>, r: Report): seq<Report>
  {
    if rs == [] || rs[|rs| - 1].worker <= r.worker then rs + [r]
    else Placed(rs[..|rs| - 1], r) + [rs[|rs| - 1]]
  }

  function SortReports(rs: seq<Report>): seq<Report>
  {
    if rs == [] then [] else Placed(SortReports(rs[..|rs| - 1]), rs[|rs| - 1])
  }

  lemma {:induction false} PlacedSorted(rs: seq<Report>, r: Report)
    requires SortedByWorker(rs)
    ensures SortedByWorker(Placed(rs, r))
    ensures forall i :: 0 <= i < |Placed(rs, r)| ==>
              Placed(rs, r)[i].worker <= if rs == [] then r.worker else Max(r.worker, rs[|rs| - 1].worker)
  {
    if rs != [] && rs[|rs| - 1].worker > r.worker {
      PlacedSorted(rs[..|rs| - 1], r);
    }
  }

  lemma {:induction false} PlacedTotal(rs: seq<Report>, r: Report)
    ensures Total(Placed(rs, r)) == Total(rs) + r.bytes
  {
    if rs == [] || rs[|rs| - 1].worker <= r.worker {
      TotalSnoc(rs, r);
    } else {
      PlacedTotal(rs[..|rs| - 1], r);
      TotalSnoc(Placed(rs[..|rs| - 1], r), rs[|rs| - 1]);
    }
  }

  /** Placing a report keeps the order of every worker's own. */
  lemma {:induction false} PlacedKeeps(rs: seq<Report>, r: Report, w: U64)
    ensures ReportsOf(Placed(rs, r), w) == ReportsOf(rs + [r], w)
  {
    hide ReportsOf;
    if rs != [] && rs[|rs| - 1].worker > r.worker {
      var init, last := rs[..|rs| - 1], rs[|rs| - 1];
      PlacedKeeps(init, r, w);
      ReportsOfSnoc(Placed(init, r), last, w);
      ReportsOfSnoc(init, r, w);
      ReportsOfSnoc(rs, r, w);
      ReportsOfSnoc(init, last, w);
      assert init + [last] == rs;
    }
  }

  lemma {:induction false} PlacedNone(rs: seq<Report>, r: Report)
    requires NoneEmpty(rs) && r.bytes > 0
    ensures NoneEmpty(Placed(rs, r))
  {
    if rs != [] && rs[|rs| - 1].worker > r.worker {
      PlacedNone(rs[..|rs| - 1], r);
    }
  }

  /** Sorting is stable: it neither loses, adds nor reorders the reports of one worker. */
  lemma {:induction false} SortReportsStable(rs: seq<Report>, w: U64)
    ensures ReportsOf(SortReports(rs), w) == ReportsOf(rs, w)
    ensures NoneEmpty(rs) ==> NoneEmpty(SortReports(rs))
  {
    hide Placed;
    if rs != [] {
      var init, last := rs[..|rs| - 1], rs[|rs| - 1];
      SortReportsStable(init, w);
      PlacedKeeps(SortReports(init), last, w);
      ReportsOfSnoc(SortReports(init), last, w);
      if NoneEmpty(rs) {
        PlacedNone(SortReports(init), last);
      }
    }
  }

  lemma {:induction false} SortReportsSorted(rs: seq<Report>)
    ensures SortedByWorker(SortReports(rs)) && Total(SortReports(rs)) == Total(rs)
  {
    hide Placed, SortedByWorker;
    if rs == [] {
      NothingSorted();
    } else {
      SortReportsSorted(rs[..|rs| - 1]);
      PlacedSorted(SortReports(rs[..|rs| - 1]), rs[|rs| - 1]);
      PlacedTotal(SortReports(rs[..|rs| - 1]), rs[|rs| - 1]);
    }
  }

  lemma NothingSorted()
    ensures SortedByWorker([])
  {
  }

  // ----- finding work -----

  lemma KeptThen(a: Cells, b: Cells, c: Cells)
    requires Kept(a, b) && Kept(b, c)
    ensures Kept(a, c) && |a| == |b| == |c|
  {
  }

  lemma KeptSame(a: Cells)
    ensures Kept(a, a)
  {
  }

  lemma DrainStep(p: Pool, workers: nat, start: nat, fuel: nat)
    requires Sound(p, workers, start) && p.running == [] && Within(p, fuel)
    ensures var q := Drained(p);
            && Sound(q, workers, start) && Within(q, fuel) && Kept(p.cells, q.cells) && Flushed(q.cells)
            && q.running == [] && q.parked == [] && q.failures == p.failures
  {
    hide Sound, Within, ParkedReports;
    DrainedSound(p, workers, start);
    FlushedWithin(p, fuel);
  }

  lemma DrainLeads(from: Cells, ops: seq<Op>, minSplit: U64, p: Pool)
    requires Leads(from, ops, minSplit, p.cells)
    ensures Leads(from, ops + [Committing], minSplit, Drained(p).cells)
  {
    hide Leads, FlushCells;
    LeadsOn(from, ops, minSplit, p.cells, Committing);
  }

  lemma ScheduleStep(p: Pool, minSplit: U64, workers: nat, start: nat, fuel: nat)
    requires Sound(p, workers, start) && p.running == [] && p.parked == [] && Flushed(p.cells) && Within(p, fuel)
    requires |p.cells| <= U64_MAX && minSplit > 0 && exists b :: 0 <= b < |p.cells| && p.cells[b] != Done
    ensures Scheduled(p, minSplit).Ok? && CountFilled(p.cells) <= |p.cells|
    ensures var q, left := Scheduled(p, minSplit).value, |p.cells| - CountFilled(p.cells);
            && left < fuel && Sound(q, workers, start) && Within(q, left)
            && q.running != [] && q.failures == p.failures && Kept(p.cells, q.cells)
  {
    hide Sound, CountFilled, Scheduled;
    ScheduledSound(p, minSplit, workers, start);
    CountFilledBounds(p.cells);
    SomeoneIdle(p, workers, start);
    WrittenFromZero([]);
  }

  /** Scheduling asks for one grant; when there is none to give, the grants in force run again. */
  lemma ScheduleLeads(from: Cells, ops: seq<Op>, minSplit: U64, p: Pool)
    requires Leads(from, ops, minSplit, p.cells) && |p.cells| <= U64_MAX && Flushed(p.cells)
    requires Scheduled(p, minSplit).Ok?
    ensures p.idle.Some?
    ensures Leads(from, ops + [Granting(p.idle.value)], minSplit, Scheduled(p, minSplit).value.cells)
  {
    hide Leads, Apply, A.Decide;
    var op := Granting(p.idle.value);
    LeadsOn(from, ops, minSplit, p.cells, op);
    GrantingFlushed(p.cells, op.worker, minSplit);
  }

  lemma SomeoneIdle(p: Pool, workers: nat, start: nat)
    requires Sound(p, workers, start) && p.running == []
    ensures p.idle.Some?
  {
    hide OneStretch, Resting, Separate, Aside, Known, Live, Conserved;
  }

  lemma CountsWhenDone(cells: Cells)
    requires forall b :: 0 <= b < |cells| ==> cells[b] == Done
    ensures CountFilled(cells) == |cells| && Unowned(cells) && FlushCells(cells) == cells
  {
    CountFilledUniform(cells, true);
  }

  lemma NothingLeft(p: Pool, workers: nat, start: nat)
    requires Sound(p, workers, start) && p.running == [] && p.parked == []
    requires forall b :: 0 <= b < |p.cells| ==> p.cells[b] == Done
    ensures Total(p.reports) + start == |p.cells|
  {
    hide OneStretch, Resting, Separate, Aside, Known, IdleOk, Live, CountFilled, Total;
    CountsWhenDone(p.cells);
  }

  lemma HoldersKnown(p: Pool, workers: nat, start: nat)
    requires Sound(p, workers, start)
    ensures forall b :: 0 <= b < |p.cells| && p.cells[b].Held? ==> p.cells[b].worker < workers
  {
    hide OneStretch, Resting, Separate, Aside, IdleOk, Live, Conserved;
  }

  // ----- the opening -----

  predicate AllDone(cells: Cells) { forall b :: 0 <= b < |cells| ==> cells[b] == Done }

  /** After some workers have asked: the cells, the grants, and whether there was one for each. */
  datatype Opening = Opening(cells: Cells, grants: seq<Attempt>, forAll: bool)

  /** The first `n` workers ask for a grant in turn, until there is none to give. */
  function Offered(initial: Cells, n: nat, minSplit: U64): (o: Opening)
    requires |initial| <= U64_MAX && n <= U64_MAX
    ensures |o.cells| == |initial|
  {
    if n == 0 then Opening(initial, [], true)
    else
      var o := Offered(initial, n - 1, minSplit);
      if !o.forAll then o
      else
        T.DecideKeepsComplete(OwnersOf(FlushCells(o.cells)), n - 1, minSplit);
        var d := AllocateCells(o.cells, n - 1, minSplit);
        match d.result
        case Ok(Some(al)) => Opening(CellsOf(d.owners), Regranted(o.grants, al), true)
        case _ => o.(forAll := false)
  }

  function GrantRequests(n: nat): (ops: seq<Op>)
    requires n <= U64_MAX
    ensures |ops| == n
  {
    seq(n, i requires 0 <= i < n => Granting(i))
  }

  /** The requests of the opening: one for each grant, and the one that got nothing. */
  function Openings(initial: Cells, workers: nat, minSplit: U64): seq<Op>
    requires |initial| <= U64_MAX && workers <= U64_MAX
  {
    GrantRequests(Min(|Offered(initial, workers, minSplit).grants| + 1, workers))
  }

  ghost predicate SameFilled(a: Cells, c: Cells)
  {
    |a| == |c| && forall b :: 0 <= b < |a| ==> (Filled(a[b]) <==> Filled(c[b]))
  }

  /** The grants are disjoint, one for each worker, and there is none exactly if all was done before. */
  lemma {:induction false} OfferedWell(initial: Cells, n: nat, minSplit: U64)
    requires Unowned(initial) && |initial| <= U64_MAX && n <= U64_MAX && minSplit > 0
    ensures var o := Offered(initial, n, minSplit);
            && Granted(o.cells, o.grants) && OneStretch(o.cells) && Flushed(o.cells)
            && CountFilled(o.cells) == CountFilled(initial) && Kept(initial, o.cells) && SameFilled(initial, o.cells)
            && |o.grants| <= n && (o.forAll <==> |o.grants| == n)
            && (o.grants == [] ==> o.cells == initial) && (n > 0 ==> (o.grants == [] <==> AllDone(initial)))
            && Leads(initial, Openings(initial, n, minSplit), minSplit, o.cells)
  {
    hide Takes, A.Decide, CountFilled, OneStretch, Live, Leads, Apply, Kept;
    if n == 0 {
      EmptyGranted(initial);
      LeadsNowhere(initial, minSplit);
      assert GrantRequests(0) == [];
    } else {
      OfferedWell(initial, n - 1, minSplit);
      var o := Offered(initial, n - 1, minSplit);
      if o.forAll {
        OfferedNext(initial, o, n - 1, minSplit);
        assert GrantRequests(n) == GrantRequests(n - 1) + [Granting(n - 1)];
        LeadsOn(initial, GrantRequests(n - 1), minSplit, o.cells, Granting(n - 1));
      }
    }
  }

  /** One worker more asks. */
  lemma OfferedNext(initial: Cells, o: Opening, n: U64, minSplit: U64)
    requires Unowned(initial) && |o.cells| == |initial| <= U64_MAX && minSplit > 0 && n == |o.grants|
    requires Granted(o.cells, o.grants) && OneStretch(o.cells) && Flushed(o.cells) && Kept(initial, o.cells)
    requires o.grants == [] ==> o.cells == initial
    ensures var d := AllocateCells(o.cells, n, minSplit);
            && Apply(o.cells, Granting(n), minSplit) == CellsOf(d.owners) && d.result.Ok?
            && (d.result.value.None? ==> CellsOf(d.owners) == o.cells && (o.grants == [] ==> AllDone(initial)))
            && (d.result.value.Some? ==>
                  var cells, grants := CellsOf(d.owners), Regranted(o.grants, d.result.value.value);
                  && Granted(cells, grants) && OneStretch(cells) && Flushed(cells)
                  && CountFilled(cells) == CountFilled(o.cells) && Kept(initial, cells)
                  && SameFilled(o.cells, cells) && |grants| == n + 1 && !AllDone(initial))
  {
    hide Takes, A.Decide, CountFilled, OneStretch, Live, Apply;
    UnusedHoldsNothing(o.cells, o.grants);
    AllocatedTakes(o.cells, n, minSplit);
    GrantingFlushed(o.cells, n, minSplit);
    assert FlushCells(o.cells) == o.cells;
    var d := A.Decide(OwnersOf(o.cells), n, minSplit);
    if d.result.value.Some? {
      GrantStep(initial, o.cells, o.grants, d.result.value.value);
      var g := d.result.value.value.grant;
      TakesUnfilled(o.cells, g.lo, g.hi, g.worker, d.result.value.value.shortened);
    }
  }

  function First(initial: Cells, workers: nat, minSplit: U64): (p: Pool)
    requires |initial| <= U64_MAX && workers <= U64_MAX
    ensures |p.cells| == |initial|
  {
    var o := Offered(initial, workers, minSplit);
    Pool(o.cells, o.grants, [], [], None, false, 0)
  }

  // ----- the pool after some events -----

  lemma ScheduledLength(p: Pool, minSplit: U64)
    requires |p.cells| <= U64_MAX
    ensures Scheduled(p, minSplit).Ok? ==> |Scheduled(p, minSplit).value.cells| == |p.cells|
  {
    hide A.Decide, ActiveGrants;
    if p.idle.Some? {
      T.DecideKeepsComplete(OwnersOf(p.cells), p.idle.value, minSplit);
    }
  }

  /** With nobody at work the batch is committed and, unless all is done, somebody is given work. */
  function Staffed(p: Pool, minSplit: U64): (q: Pool)
    requires |p.cells| <= U64_MAX
    ensures |q.cells| == |p.cells|
  {
    if p.running != [] then p
    else
      var q := Drained(p);
      if AllDone(q.cells) then q
      else
        ScheduledLength(q, minSplit);
        match Scheduled(q, minSplit)
        case Ok(r) => r
        case Err(_) => q
  }

  function StaffOps(p: Pool): seq<Op>
  {
    if p.running != [] then []
    else if AllDone(FlushCells(p.cells)) || p.idle.None? then [Committing]
    else [Committing, Granting(p.idle.value)]
  }

  /** The pool after `log`, before it looks for work again; an event that ends the run changes nothing. */
  function Now(first: Pool, log: seq<Event>, minSplit: U64): (p: Pool)
    requires |first.cells| <= U64_MAX
    ensures |p.cells| == |first.cells|
  {
    if log == [] then first
    else
      var p, e := Staffed(Now(first, log[..|log| - 1], minSplit), minSplit), log[|log| - 1];
      if Fatal(p, e).Some? then p else React(p, e)
  }

  /** What the pool has asked of the actor by then. */
  function Asked(first: Pool, log: seq<Event>, minSplit: U64): seq<Op>
    requires |first.cells| <= U64_MAX
  {
    if log == [] then []
    else
      var before, e := Now(first, log[..|log| - 1], minSplit), log[|log| - 1];
      var p := Staffed(before, minSplit);
      Asked(first, log[..|log| - 1], minSplit) + StaffOps(before) + if Fatal(p, e).Some? then [] else OpsFor(p, e)
  }

  /** `e` can be what happens after `log`. */
  predicate CanBe(first: Pool, log: seq<Event>, minSplit: U64, e: Event)
    requires |first.cells| <= U64_MAX
  {
    var p := Staffed(Now(first, log, minSplit), minSplit);
    p.running != [] && Enabled(p, 1, e) && e != Lost
  }

  /** The end that `e` puts to the run, if it does. */
  function EndAt(first: Pool, log: seq<Event>, minSplit: U64, e: Event): Option<PoolError>
    requires |first.cells| <= U64_MAX
  {
    Fatal(Staffed(Now(first, log, minSplit), minSplit), e)
  }

  /** The events of `log` can happen in this order, and none of them ends the run. */
  predicate Played(first: Pool, log: seq<Event>, minSplit: U64)
    requires |first.cells| <= U64_MAX
  {
    log == [] || (var n := |log| - 1;
                  && Played(first, log[..n], minSplit) && CanBe(first, log[..n], minSplit, log[n])
                  && EndAt(first, log[..n], minSplit, log[n]).None?)
  }

  lemma PlayedOn(first: Pool, log: seq<Event>, minSplit: U64, e: Event)
    requires |first.cells| <= U64_MAX && Played(first, log, minSplit)
    ensures var p := Staffed(Now(first, log, minSplit), minSplit);
            && Now(first, log + [e], minSplit) == (if Fatal(p, e).Some? then p else React(p, e))
            && Asked(first, log + [e], minSplit)
               == Asked(first, log, minSplit) + StaffOps(Now(first, log, minSplit))
                  + (if Fatal(p, e).Some? then [] else OpsFor(p, e))
            && (CanBe(first, log, minSplit, e) && Fatal(p, e).None? ==> Played(first, log + [e], minSplit))
  {
    hide Staffed, React, Fatal, OpsFor, StaffOps, Enabled;
    assert (log + [e])[..|log|] == log;
  }

  /** Finding work keeps the pool sound, and finds some unless all is done. */
  lemma StaffedSound(p: Pool, minSplit: U64, workers: nat, start: nat, fuel: nat)
    requires Sound(p, workers, start) && |p.cells| <= U64_MAX && minSplit > 0 && Within(p, fuel)
    ensures var q := Staffed(p, minSplit);
            && Sound(q, workers, start) && Kept(p.cells, q.cells) && q.failures == p.failures
            && Leads(p.cells, StaffOps(p), minSplit, q.cells)
            && (q.running == [] <==> p.running == [] && AllDone(FlushCells(p.cells)))
            && (q.running == [] ==> q.parked == [] && AllDone(q.cells))
    ensures p.running == [] && Staffed(p, minSplit).running != [] ==>
              CountFilled(p.cells) <= |p.cells| && |p.cells| - CountFilled(p.cells) < fuel
              && Within(Staffed(p, minSplit), |p.cells| - CountFilled(p.cells))
  {
    hide Sound, Within, Leads, Scheduled, Drained, Kept, CountFilled;
    KeptSame(p.cells);
    LeadsNowhere(p.cells, minSplit);
    if p.running == [] {
      var q := Drained(p);
      DrainStep(p, workers, start, fuel);
      DrainLeads(p.cells, [], minSplit, p);
      DrainedCells(p);
      FlushCounts(p.cells, 0);
      assert [] + [Committing] == [Committing];
      if !AllDone(q.cells) {
        SomeoneIdle(p, workers, start);
        ScheduleStep(q, minSplit, workers, start, fuel);
        ScheduleLeads(p.cells, [Committing], minSplit, q);
        assert [Committing] + [Granting(p.idle.value)] == StaffOps(p);
        KeptThen(p.cells, q.cells, Scheduled(q, minSplit).value.cells);
      }
    }
  }

  lemma DrainedCells(p: Pool)
    ensures Drained(p).cells == FlushCells(p.cells) && Drained(p).idle == p.idle
  {
  }

  /** Whatever has happened, the pool is sound, has undone nothing, and asked only what was permitted. */
  lemma {:induction false} PlayedSound(first: Pool, log: seq<Event>, minSplit: U64, workers: nat, start: nat)
    requires Sound(first, workers, start) && first.failures == 0 && |first.cells| <= U64_MAX && minSplit > 0
    requires Played(first, log, minSplit)
    ensures var p := Now(first, log, minSplit);
            && Sound(p, workers, start) && Kept(first.cells, p.cells)
            && p.failures == FailuresIn(log) <= Retry.MAX_RETRIES && Unbroken(log)
            && Leads(first.cells, Asked(first, log, minSplit), minSplit, p.cells)
  {
    hide Sound, Within, Leads, Staffed, StaffOps, Kept, React, OpsFor, Fatal, FailuresIn, Unbroken, Enabled;
    if log == [] {
      KeptSame(first.cells);
      LeadsNowhere(first.cells, minSplit);
      NothingLogged();
    } else {
      var n := |log| - 1;
      var pre, e := log[..n], log[n];
      PlayedSound(first, pre, minSplit, workers, start);
      var before := Now(first, pre, minSplit);
      SoundWithin(before, workers, start);
      StaffedSound(before, minSplit, workers, start, |before.cells| + 1);
      var p := Staffed(before, minSplit);
      assert pre + [e] == log;
      SoundWithin(p, workers, start);
      LogNext(p, 1, pre, e);
      ReactSound(p, 1, e, workers, start);
      ReactProgress(p, 1, e, workers, start, |p.cells| + 1);
      FailuresGrow(p, e);
      ReactLeads(p, 1, e, workers, start, minSplit);
      LeadsThrough(first.cells, Asked(first, pre, minSplit), minSplit, before.cells, StaffOps(before), p.cells);
      LeadsThrough(first.cells, Asked(first, pre, minSplit) + StaffOps(before), minSplit, p.cells, OpsFor(p, e),
                   React(p, e).cells);
      KeptThen(first.cells, before.cells, p.cells);
      KeptThen(first.cells, p.cells, React(p, e).cells);
    }
  }

  // ----- whose bytes they are -----

  /** The bytes that `w`'s own writes stored. */
  function Stored(ops: seq<Op>, w: U64): int
  {
    if ops == [] then 0
    else
      var op := ops[|ops| - 1];
      Stored(ops[..|ops| - 1], w) + if op.Storing? && op.worker == w then op.hi - op.lo else 0
  }

  lemma {:induction false} StoredConcat(a: seq<Op>, b: seq<Op>, w: U64)
    ensures Stored(a + b, w) == Stored(a, w) + Stored(b, w)
  {
    if b == [] {
      assert a + b == a;
    } else {
      StoredConcat(a, b[..|b| - 1], w);
      assert (a + b)[..|a + b| - 1] == a + b[..|b| - 1];
    }
  }

  lemma {:induction false} StoredNothing(ops: seq<Op>, w: U64)
    requires forall i :: 0 <= i < |ops| ==> !ops[i].Storing?
    ensures Stored(ops, w) == 0
  {
    if ops != [] {
      StoredNothing(ops[..|ops| - 1], w);
    }
  }

  /** A reaction credits `w` with exactly what it asks to store for `w`. */
  lemma ReactCredit(p: Pool, quiet: nat, e: Event, w: U64)
    requires Live(p.cells, p.running) && Enabled(p, quiet, e)
    ensures Credit(React(p, e), w) == Credit(p, w) + Stored(OpsFor(p, e), w)
    ensures NoneEmpty(p.reports) ==> NoneEmpty(React(p, e).reports)
  {
    hide OnWrote, OnFinished, OnFailed, OnCancelled, FlushCells, WrittenBy, Total, ReportsOf, Writing;
    forall i | 0 <= i < |p.running|
      ensures p.running[i].lo <= p.running[i].cursor <= p.running[i].hi <= |p.cells|
              && p.running[i].lo < p.running[i].hi
    {
      RunningForward(p.cells, p.running, i);
    }
    assert OpsFor(p, e) != [] ==> OpsFor(p, e)[..|OpsFor(p, e)| - 1] == [];
    match e
    case Wrote(i, n) =>
      WroteCredit(p, i, n, w);
      WroteReports(p, i, n);
    case Finished(i) => FinishedCredit(p, i, w);
    case Failed(i, _) =>
      FailedCredit(p, i, w);
      FailedReports(p, i);
    case Cancelled(i) =>
      CancelledCredit(p, i, w);
      CancelledReports(p, i);
    case _ =>
  }

  lemma WroteReports(p: Pool, i: nat, n: nat)
    requires i < |p.running| && p.running[i].cursor + n <= |p.cells|
    ensures OnWrote(p, i, n).reports == p.reports
  {
  }

  lemma FailedReports(p: Pool, i: nat)
    requires i < |p.running|
    ensures OnFailed(p, i).reports == p.reports
  {
  }

  lemma CancelledReports(p: Pool, i: nat)
    requires i < |p.running|
    ensures OnCancelled(p, i).reports == p.reports
  {
  }

  /** Finding work credits nobody. */
  lemma StaffedCredit(p: Pool, minSplit: U64, workers: nat, start: nat, w: U64)
    requires Sound(p, workers, start) && |p.cells| <= U64_MAX
    ensures Credit(Staffed(p, minSplit), w) == Credit(p, w) && Stored(StaffOps(p), w) == 0
    ensures NoneEmpty(p.reports) ==> NoneEmpty(Staffed(p, minSplit).reports)
  {
    hide Sound, Scheduled, Drained, Credit, FlushCells, NoneEmpty;
    StoredNothing(StaffOps(p), w);
    if p.running == [] {
      DrainedCredits(p, workers, start, w);
      DrainedSound(p, workers, start);
      DrainedRunning(p);
      if Scheduled(Drained(p), minSplit).Ok? {
        ScheduledCredit(Drained(p), minSplit, w);
      }
    }
  }

  lemma DrainedRunning(p: Pool)
    ensures Drained(p).running == p.running
  {
  }

  /** Whatever has happened, a worker's account has grown by exactly what it stored. */
  lemma {:induction false} PlayedCredit(first: Pool, log: seq<Event>, minSplit: U64, workers: nat, start: nat, w: U64)
    requires Sound(first, workers, start) && first.failures == 0 && |first.cells| <= U64_MAX && minSplit > 0
    requires Played(first, log, minSplit)
    ensures Credit(Now(first, log, minSplit), w) == Credit(first, w) + Stored(Asked(first, log, minSplit), w)
    ensures NoneEmpty(first.reports) ==> NoneEmpty(Now(first, log, minSplit).reports)
  {
    hide Sound, Staffed, StaffOps, React, OpsFor, Fatal, Enabled, Credit, Leads, Kept, FailuresIn, Unbroken, NoneEmpty,
      Live, Within;
    if log != [] {
      var n := |log| - 1;
      var pre, e := log[..n], log[n];
      PlayedCredit(first, pre, minSplit, workers, start, w);
      PlayedSound(first, pre, minSplit, workers, start);
      var before := Now(first, pre, minSplit);
      StaffedCredit(before, minSplit, workers, start, w);
      SoundWithin(before, workers, start);
      StaffedSound(before, minSplit, workers, start, |before.cells| + 1);
      var p := Staffed(before, minSplit);
      SoundLive(p, workers, start);
      ReactCredit(p, 1, e, w);
      StoredConcat(Asked(first, pre, minSplit), StaffOps(before), w);
      StoredConcat(Asked(first, pre, minSplit) + StaffOps(before), OpsFor(p, e), w);
    }
  }

  /** Every worker's reports add up to what its own writes stored. */
  ghost predicate FairlyReported(first: Pool, reports: seq<Report>, ops: seq<Op>)
  {
    && NoneEmpty(reports)
    && forall w :: Total(ReportsOf(reports, w)) == Credit(first, w) + Stored(ops, w)
  }

  /** A run that succeeded reports every byte under the worker that stored it. */
  lemma FinishedFairly(first: Pool, log: seq<Event>, minSplit: U64, start: nat)
    requires Sound(first, |first.running|, start) && first.failures == 0 && |first.cells| <= U64_MAX && minSplit > 0
    requires |first.running| <= U64_MAX && Ended(first, log, minSplit) && Broken(first, log, minSplit).None?
    requires NoneEmpty(first.reports)
    ensures FairlyReported(first, Verdict(first, log, minSplit).value,
                           Asked(first, log, minSplit) + Rest(first, log, minSplit))
  {
    hide Sound, Leads, Staffed, StaffOps, Within, Fatal, Enabled, Asked, SortReports, Now, Stored, NoneEmpty, Unbroken,
      FailuresIn;
    var workers := |first.running|;
    PlayedSound(first, log, minSplit, workers, start);
    var before := Now(first, log, minSplit);
    SoundWithin(before, workers, start);
    StaffedSound(before, minSplit, workers, start, |before.cells| + 1);
    var p, asked := Staffed(before, minSplit), Asked(first, log, minSplit);
    forall w: U64
      ensures Total(ReportsOf(SortReports(p.reports), w))
              == Credit(first, w) + Stored(asked + Rest(first, log, minSplit), w)
      ensures NoneEmpty(SortReports(p.reports))
    {
      PlayedCredit(first, log, minSplit, workers, start, w);
      StaffedCredit(before, minSplit, workers, start, w);
      SortReportsStable(p.reports, w);
      StoredNothing([Committing], w);
      StoredConcat(StaffOps(before), [Committing], w);
      StoredConcat(asked, StaffOps(before) + [Committing], w);
    }
    assert NoneEmpty(SortReports(p.reports)) by {
      PlayedCredit(first, log, minSplit, workers, start, 0);
      StaffedCredit(before, minSplit, workers, start, 0);
      SortReportsStable(p.reports, 0);
    }
  }

  lemma FailuresGrow(p: Pool, e: Event)
    requires Fatal(p, e).None? && Enabled(p, 1, e)
    ensures React(p, e).failures == p.failures + if e.Failed? then 1 else 0
    ensures p.failures <= Retry.MAX_RETRIES ==> React(p, e).failures <= Retry.MAX_RETRIES
  {
  }

  // ----- how a run ends -----

  /** The end that the last event of `log` put to the run, if it did. */
  function Broken(first: Pool, log: seq<Event>, minSplit: U64): Option<PoolError>
    requires |first.cells| <= U64_MAX
  {
    if log == [] then None else EndAt(first, log[..|log| - 1], minSplit, log[|log| - 1])
  }

  /** The events of `log` can happen in this order, and only the last may end the run. */
  predicate Happened(first: Pool, log: seq<Event>, minSplit: U64)
    requires |first.cells| <= U64_MAX
  {
    log == [] || (var n := |log| - 1;
                  Played(first, log[..n], minSplit) && CanBe(first, log[..n], minSplit, log[n]))
  }

  /** `log` is all of a run: its last event ended it, or nothing is missing. */
  predicate Ended(first: Pool, log: seq<Event>, minSplit: U64)
    requires |first.cells| <= U64_MAX
  {
    && Happened(first, log, minSplit)
    && (Broken(first, log, minSplit).Some? || Staffed(Now(first, log, minSplit), minSplit).running == [])
  }

  function Releases(n: nat): (ops: seq<Op>)
    requires n <= U64_MAX
    ensures |ops| == n
  {
    seq(n, w requires 0 <= w < n => Releasing(w))
  }

  /** What the pool asks next: after a fatal event to release every worker, otherwise for work or a last commit. */
  function Rest(first: Pool, log: seq<Event>, minSplit: U64): seq<Op>
    requires |first.cells| <= U64_MAX && |first.running| <= U64_MAX
  {
    if Broken(first, log, minSplit).Some? then Releases(|first.running|)
    else
      var p := Now(first, log, minSplit);
      StaffOps(p) + if Staffed(p, minSplit).running == [] then [Committing] else []
  }

  function Verdict(first: Pool, log: seq<Event>, minSplit: U64): Result<seq<Report>, PoolError>
    requires |first.cells| <= U64_MAX
  {
    match Broken(first, log, minSplit)
    case Some(e) => Err(e)
    case None => Ok(SortReports(Staffed(Now(first, log, minSplit), minSplit).reports))
  }

  lemma ApplyKeeps(cells: Cells, op: Op, minSplit: U64)
    requires |cells| <= U64_MAX && Allowed(cells, op)
    ensures Kept(cells, Apply(cells, op, minSplit))
  {
    hide A.Decide;
    if op.Granting? {
      T.DecideKeepsComplete(OwnersOf(FlushCells(cells)), op.worker, minSplit);
    }
  }

  /** Nothing that is done is undone by anything that is permitted. */
  lemma {:induction false} LeadsKeeps(cells: Cells, ops: seq<Op>, minSplit: U64)
    requires |cells| <= U64_MAX && Permitted(cells, ops, minSplit)
    ensures Kept(cells, Operate(cells, ops, minSplit))
  {
    hide Kept, Apply, Allowed;
    if ops == [] {
      KeptSame(cells);
    } else {
      var n := |ops| - 1;
      LeadsKeeps(cells, ops[..n], minSplit);
      ApplyKeeps(Operate(cells, ops[..n], minSplit), ops[n], minSplit);
      KeptThen(cells, Operate(cells, ops[..n], minSplit), Operate(cells, ops, minSplit));
    }
  }

  /** Releasing the workers one by one leaves nothing of theirs in progress. */
  lemma {:induction false} ReleasesLead(before: Cells, n: nat, minSplit: U64, workers: nat)
    requires |before| <= U64_MAX && n <= workers <= U64_MAX
    requires forall b :: 0 <= b < |before| && before[b].Held? ==> before[b].worker < workers
    ensures var cells := Operate(before, Releases(n), minSplit);
            && Leads(before, Releases(n), minSplit, cells) && (n > 0 ==> Flushed(cells))
            && forall b :: 0 <= b < |cells| && cells[b].Held? ==> n <= cells[b].worker < workers
  {
    hide Leads, AbandonCells;
    if n == 0 {
      LeadsNowhere(before, minSplit);
      assert Releases(n) == [];
    } else {
      ReleasesLead(before, n - 1, minSplit, workers);
      var cells := Operate(before, Releases(n - 1), minSplit);
      LeadsOn(before, Releases(n - 1), minSplit, cells, Releasing(n - 1));
      assert Releases(n) == Releases(n - 1) + [Releasing(n - 1)];
      assert Releases(n)[..n - 1] == Releases(n - 1);
      AbandonCalm(cells, n - 1);
    }
  }

  lemma LeadsTo(cells: Cells, ops: seq<Op>, minSplit: U64, after: Cells)
    requires Leads(cells, ops, minSplit, after)
    ensures |cells| <= U64_MAX && Permitted(cells, ops, minSplit) && after == Operate(cells, ops, minSplit)
  {
  }

  /** How a run that failed ends: the last event is to blame, and nothing stays in progress. */
  lemma FailedWell(first: Pool, log: seq<Event>, minSplit: U64, start: nat)
    requires Sound(first, |first.running|, start) && first.failures == 0 && |first.cells| <= U64_MAX && minSplit > 0
    requires 0 < |first.running| <= U64_MAX && Ended(first, log, minSplit) && Broken(first, log, minSplit).Some?
    ensures var ops := Asked(first, log, minSplit) + Rest(first, log, minSplit);
            && Permitted(first.cells, ops, minSplit) && Unowned(Operate(first.cells, ops, minSplit))
            && ops != [] && Fence(ops[|ops| - 1])
    ensures BrokenBy(log, Broken(first, log, minSplit).value) && Broken(first, log, minSplit).value != StorageLost
    ensures var e, n := Broken(first, log, minSplit).value, |log| - 1;
            e.WorkerFailed? ==>
              var p := Staffed(Now(first, log[..n], minSplit), minSplit);
              log[n].Failed? && log[n].task < |p.running| && e.worker == p.running[log[n].task].worker
  {
    hide Sound, Leads, Staffed, StaffOps, Within, Fatal, React, BrokenBy, Played, Enabled, Operate, Permitted, OpsFor;
    var n, workers := |log| - 1, |first.running|;
    var pre, e := log[..n], log[n];
    PlayedSound(first, pre, minSplit, workers, start);
    var before := Now(first, pre, minSplit);
    SoundWithin(before, workers, start);
    StaffedSound(before, minSplit, workers, start, |before.cells| + 1);
    var p := Staffed(before, minSplit);
    assert pre + [e] == log;
    LogNext(p, 1, pre, e);
    FatalKinds(p, e);
    FatalNames(p, e);
    HoldersKnown(p, workers, start);
    ReleasesLead(p.cells, workers, minSplit, workers);
    var asked, end := Asked(first, pre, minSplit), Operate(p.cells, Releases(workers), minSplit);
    LeadsThrough(first.cells, asked, minSplit, before.cells, StaffOps(before), p.cells);
    LeadsThrough(first.cells, asked + StaffOps(before), minSplit, p.cells, Releases(workers), end);
    assert asked + StaffOps(before) + [] == asked + StaffOps(before);
    LeadsTo(first.cells, asked + StaffOps(before) + Releases(workers), minSplit, end);
    assert forall b :: 0 <= b < |end| ==> !end[b].Held? && !end[b].Staged?;
  }

  /** How a run that succeeded ends: every byte done, and the reports account for the bytes it fetched. */
  lemma FinishedWell(first: Pool, log: seq<Event>, minSplit: U64, start: nat)
    requires Sound(first, |first.running|, start) && first.failures == 0 && |first.cells| <= U64_MAX && minSplit > 0
    requires |first.running| <= U64_MAX && Ended(first, log, minSplit) && Broken(first, log, minSplit).None?
    ensures var ops := Asked(first, log, minSplit) + Rest(first, log, minSplit);
            && Permitted(first.cells, ops, minSplit) && AllDone(Operate(first.cells, ops, minSplit))
            && ops != [] && Fence(ops[|ops| - 1])
    ensures var r := Verdict(first, log, minSplit);
            r.Ok? && Total(r.value) + start == |first.cells| && SortedByWorker(r.value) && Unbroken(log)
    ensures NoneEmpty(first.reports) ==>
              FairlyReported(first, Verdict(first, log, minSplit).value,
                             Asked(first, log, minSplit) + Rest(first, log, minSplit))
  {
    hide Sound, Leads, Staffed, StaffOps, Within, Fatal, React, Enabled, Operate, Permitted, OpsFor, Asked, Total,
      SortReports, SortedByWorker, Unbroken, FlushCells, FairlyReported, NoneEmpty;
    if NoneEmpty(first.reports) {
      FinishedFairly(first, log, minSplit, start);
    }
    var workers := |first.running|;
    PlayedSound(first, log, minSplit, workers, start);
    var before := Now(first, log, minSplit);
    SoundWithin(before, workers, start);
    StaffedSound(before, minSplit, workers, start, |before.cells| + 1);
    var p, asked := Staffed(before, minSplit), Asked(first, log, minSplit);
    LeadsThrough(first.cells, asked, minSplit, before.cells, StaffOps(before), p.cells);
    LeadsOn(first.cells, asked + StaffOps(before), minSplit, p.cells, Committing);
    CountsWhenDone(p.cells);
    NothingLeft(p, workers, start);
    SortReportsSorted(p.reports);
    var ops := asked + StaffOps(before) + [Committing];
    assert ops == asked + Rest(first, log, minSplit);
    LeadsTo(first.cells, ops, minSplit, p.cells);
  }
}
