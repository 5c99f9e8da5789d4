/**
 The pool's run: first grants, the event loop, and the reclaim after a failure.

 What happens is arbitrary, so the contract of `ExecuteSegmented` speaks of every interleaving: it
 returns the events, and its requests, cells and verdict are what `PoolRuns` says of them. Any call
 to the writer may fail, and the run then ends at once. The one assumption is that some task
 eventually ends: `quiet` bounds, by an arbitrary number, how long all of them can go on.
 */
module PoolLoop {
  import opened Base
  import A = Allocator
  import opened Desk
  import opened Simulation
  import opened WorkerPool
  import opened PoolRuns
  import Retry

  function Refusal<T, E>(r: Result<T, E>): Option<E>
  {
    match r
    case Ok(_) => None
    case Err(e) => Some(e)
  }

  /** Whether the next call to the writer fails. */
  method StorageFails() returns (lost: bool)
  {
    lost := *;
  }

  lemma {:induction false} OfferedStops(initial: Cells, n: nat, m: nat, minSplit: U64)
    requires |initial| <= U64_MAX && n <= m <= U64_MAX
    ensures var o, later := Offered(initial, n, minSplit), Offered(initial, m, minSplit);
            |o.grants| <= |later.grants| && (!o.forAll ==> later == o)
    decreases m
  {
    hide A.Decide;
    if n < m {
      OfferedStops(initial, n, m - 1, minSplit);
    }
  }

  lemma RequestsGrow(n: nat, m: nat)
    requires n <= m <= U64_MAX
    ensures GrantRequests(n) <= GrantRequests(m) && Releases(n) <= Releases(m)
  {
  }

  /** One grant for each worker until the allocator has none to give. */
  method Admit(initial: Cells, workers: nat, minSplit: U64)
    returns (cells: Cells, grants: seq<Attempt>, refused: Option<A.AllocatorError>, lost: bool, ghost ops: seq<Op>)
    requires Unowned(initial) && |initial| <= U64_MAX && 0 < workers <= U64_MAX && minSplit > 0
    ensures refused.None? && |cells| == |initial| && |grants| <= workers
    ensures Granted(cells, grants) && OneStretch(cells) && Flushed(cells)
    ensures CountFilled(cells) == CountFilled(initial) && Kept(initial, cells)
    ensures !lost ==> (grants == [] <==> AllDone(initial)) && Pool(cells, grants, [], [], None, false, 0)
                                                              == First(initial, workers, minSplit)
    ensures grants == [] ==> cells == initial
    ensures Leads(initial, ops, minSplit, cells) && ops <= Openings(initial, workers, minSplit)
    ensures !lost ==> ops == Openings(initial, workers, minSplit)
  {
    hide A.Decide, CountFilled, OneStretch, Granted, Leads, Apply, GrantRequests, Regranted;
    cells, grants, refused, lost, ops := initial, [], None, false, [];
    OfferedWell(initial, 0, minSplit);
    NoRequests();
    while |grants| < workers
      invariant refused.None? && !lost && |grants| <= workers
      invariant Offered(initial, |grants|, minSplit) == Opening(cells, grants, true) && ops == GrantRequests(|grants|)
      decreases workers - |grants|
    {
      OfferedWell(initial, |grants|, minSplit);
      OfferedStops(initial, |grants|, workers, minSplit);
      RequestsGrow(|grants|, Min(|Offered(initial, workers, minSplit).grants| + 1, workers));
      lost := StorageFails();
      if lost {
        return;
      }
      OfferedNext(initial, Opening(cells, grants, true), |grants|, minSplit);
      var d := A.Decide(OwnersOf(FlushCells(cells)), |grants|, minSplit);
      OneRequest(|grants|);
      ops := ops + [Granting(|grants|)];
      refused := Refusal(d.result);
      if refused.Some? {
        break;
      }
      OfferedStops(initial, |grants| + 1, workers, minSplit);
      if d.result.value.None? {
        break;
      }
      cells, grants := CellsOf(d.owners), Regranted(grants, d.result.value.value);
    }
    OfferedWell(initial, workers, minSplit);
  }

  lemma NoRequests()
    ensures GrantRequests(0) == []
  {
  }

  lemma OneRequest(n: nat)
    requires n < U64_MAX
    ensures GrantRequests(n + 1) == GrantRequests(n) + [Granting(n)] && Releases(n + 1) == Releases(n) + [Releasing(n)]
  {
  }

  /** Returns every worker's unwritten bytes; what was accepted is committed. */
  method ReclaimAfterFailure(before: Cells, workers: nat, ghost minSplit: U64)
    returns (cells: Cells, lost: bool, ghost ops: seq<Op>)
    requires 0 < workers <= U64_MAX && |before| <= U64_MAX
    requires forall b :: 0 <= b < |before| && before[b].Held? ==> before[b].worker < workers
    ensures Kept(before, cells) && CountFilled(cells) == CountFilled(before) && Leads(before, ops, minSplit, cells)
    ensures ops <= Releases(workers) && (!lost ==> ops == Releases(workers) && Unowned(cells))
  {
    hide CountFilled, AbandonCells, Kept, Releases;
    cells, lost, ops := before, false, [];
    ReleasesLead(before, 0, minSplit, workers);
    assert Releases(0) == [];
    for w := 0 to workers
      invariant CountFilled(cells) == CountFilled(before) && !lost
      invariant ops == Releases(w) && cells == Operate(before, ops, minSplit)
    {
      RequestsGrow(w, workers);
      ReleasesLead(before, w, minSplit, workers);
      LeadsKeeps(before, ops, minSplit);
      lost := StorageFails();
      if lost {
        return;
      }
      OneRequest(w);
      ops := ops + [Releasing(w)];
      assert ops[..w] == Releases(w);
      FlushCounts(cells, w);
      cells := AbandonCells(cells, w);
    }
    ReleasesLead(before, workers, minSplit, workers);
    LeadsKeeps(before, ops, minSplit);
    assert forall b :: 0 <= b < |cells| ==> !cells[b].Held? && !cells[b].Staged?;
  }

  function NotStarted(refused: Option<A.AllocatorError>): PoolError
  {
    match refused
    case None => IncompleteCoverage
    case Some(e) => AllocatorRefused(e)
  }

  /** Anything the environment may do next. */
  method NextEvent(p: Pool, quiet: nat) returns (e: Event)
    requires p.running != []
    ensures Enabled(p, quiet, e)
  {
    e := *;
    if !Enabled(p, quiet, e) {
      e := Failed(0, Transport);
    }
  }

  /** The result once no worker failed. */
  function Settled(stuck: Option<PoolError>, done: bool, reports: seq<Report>): Result<seq<Report>, PoolError>
  {
    match stuck
    case Some(e) => Err(e)
    case None => if done then Ok(SortReports(reports)) else Err(IncompleteCoverage)
  }

  /** The last commit and the reports, once no worker failed and nothing is missing. */
  method Conclude(p: Pool, stuck: Option<PoolError>) returns (cells: Cells, result: Result<seq<Report>, PoolError>)
    requires stuck.None? && AllDone(p.cells)
    ensures cells == FlushCells(p.cells) == p.cells && result == Ok(SortReports(p.reports))
  {
    hide SortReports;
    CountsWhenDone(p.cells);
    cells := FlushCells(p.cells);
    result := Settled(stuck, forall b | 0 <= b < |cells| :: cells[b] == Done, p.reports);
  }

  /** Every task is gone: commit, and stop if nothing is missing; otherwise find work for someone. */
  method Reassign(idle: Pool, workers: nat, minSplit: U64, ghost start: nat, ghost fuel: nat)
    returns (p: Pool, done: bool, stuck: Option<PoolError>, lost: bool, ghost ops: seq<Op>)
    requires Sound(idle, workers, start) && Within(idle, fuel) && idle.running == []
    requires |idle.cells| <= U64_MAX && minSplit > 0
    ensures Kept(idle.cells, p.cells) && stuck.None? && Leads(idle.cells, ops, minSplit, p.cells)
    ensures ops <= StaffOps(idle) && (!lost ==> p == Staffed(idle, minSplit) && ops == StaffOps(idle))
    ensures !lost ==> Sound(p, workers, start) && p.failures == idle.failures && (done <==> p.running == [])
    ensures !lost && done ==> p.parked == [] && AllDone(p.cells)
    ensures !lost ==> forall w :: Credit(p, w) == Credit(idle, w)
    ensures !lost && !done ==>
              CountFilled(idle.cells) <= |idle.cells| && |idle.cells| - CountFilled(idle.cells) < fuel
              && Within(p, |idle.cells| - CountFilled(idle.cells))
  {
    hide Sound, Within, CountFilled, Scheduled, Drained, Leads, Kept, FlushCells, Credit;
    forall w: U64 ensures Credit(Staffed(idle, minSplit), w) == Credit(idle, w) {
      StaffedCredit(idle, minSplit, workers, start, w);
    }
    p, done, stuck, ops := idle, false, None, [];
    KeptSame(idle.cells);
    LeadsNowhere(idle.cells, minSplit);
    StaffedSound(idle, minSplit, workers, start, fuel);
    lost := StorageFails();
    if lost {
      return;
    }
    DrainStep(p, workers, start, fuel);
    DrainLeads(idle.cells, ops, minSplit, p);
    DrainedCells(p);
    p, ops := Drained(p), ops + [Committing];
    KeptThen(idle.cells, idle.cells, p.cells);
    lost := StorageFails();
    done := forall b | 0 <= b < |p.cells| :: p.cells[b] == Done;
    if lost || done {
      return;
    }
    ScheduleStep(p, minSplit, workers, start, fuel);
    SomeoneIdle(idle, workers, start);
    var scheduled := Scheduled(p, minSplit);
    stuck := Refusal(scheduled);
    if stuck.None? {
      ops := ops + [Granting(idle.idle.value)];
      assert ops == StaffOps(idle);
      p := scheduled.value;
    }
  }

  lemma PlayedNothing(first: Pool, minSplit: U64)
    requires |first.cells| <= U64_MAX
    ensures Played(first, [], minSplit) && Now(first, [], minSplit) == first && Asked(first, [], minSplit) == []
  {
  }

  lemma StaffedSame(p: Pool, minSplit: U64)
    requires |p.cells| <= U64_MAX && p.running != []
    ensures Staffed(p, minSplit) == p && StaffOps(p) == []
  {
  }

  lemma CanHappen(first: Pool, log: seq<Event>, minSplit: U64, quiet: nat, e: Event)
    requires |first.cells| <= U64_MAX
    requires var p := Staffed(Now(first, log, minSplit), minSplit); p.running != [] && Enabled(p, quiet, e)
    ensures e != Lost ==> CanBe(first, log, minSplit, e)
  {
  }

  /** Storage may be lost anywhere in what the pool asks next. */
  lemma StoppedShort(first: Pool, log: seq<Event>, minSplit: U64, more: seq<Op>)
    requires |first.cells| <= U64_MAX && |first.running| <= U64_MAX && Played(first, log, minSplit)
    requires more <= StaffOps(Now(first, log, minSplit))
    ensures Happened(first, log, minSplit) && Broken(first, log, minSplit).None?
    ensures var asked := Asked(first, log, minSplit);
            asked <= asked + more && asked + more <= asked + Rest(first, log, minSplit)
  {
    hide Staffed, StaffOps, Now, Asked, Fatal, CanBe;
  }

  /** The run ends at `e`. */
  lemma BrokenHere(first: Pool, log: seq<Event>, minSplit: U64, e: Event)
    requires |first.cells| <= U64_MAX && |first.running| <= U64_MAX && Played(first, log, minSplit)
    requires CanBe(first, log, minSplit, e) && EndAt(first, log, minSplit, e).Some?
    ensures Ended(first, log + [e], minSplit) && Broken(first, log + [e], minSplit) == EndAt(first, log, minSplit, e)
    ensures Rest(first, log + [e], minSplit) == Releases(|first.running|)
    ensures Verdict(first, log + [e], minSplit) == Err(EndAt(first, log, minSplit, e).value)
    ensures Asked(first, log + [e], minSplit) == Asked(first, log, minSplit) + StaffOps(Now(first, log, minSplit))
  {
    hide Staffed, StaffOps, Fatal, CanBe, React, Releases, SortReports;
    assert (log + [e])[..|log|] == log;
    PlayedOn(first, log, minSplit, e);
  }

  /** The run ends because nothing is missing. */
  lemma NothingMissing(first: Pool, log: seq<Event>, minSplit: U64)
    requires |first.cells| <= U64_MAX && |first.running| <= U64_MAX && Played(first, log, minSplit)
    requires Staffed(Now(first, log, minSplit), minSplit).running == []
    ensures Ended(first, log, minSplit)
    ensures Rest(first, log, minSplit) == StaffOps(Now(first, log, minSplit)) + [Committing]
    ensures Verdict(first, log, minSplit)
            == Ok(SortReports(Staffed(Now(first, log, minSplit), minSplit).reports))
    ensures log != [] ==> log[|log| - 1] != Lost
  {
    hide Staffed, StaffOps, Now, Fatal, SortReports, Enabled;
  }

  /** The event loop, from a sound pool with tasks running. */
  method Drive(first: Pool, workers: nat, minSplit: U64, ghost start: nat)
    returns (cells: Cells, result: Result<seq<Report>, PoolError>, log: seq<Event>, ghost ops: seq<Op>)
    requires Sound(first, workers, start) && first.running != [] && first.failures == 0
    requires |first.cells| <= U64_MAX && workers == |first.running| <= U64_MAX && minSplit > 0
    ensures Leads(first.cells, ops, minSplit, cells)
    ensures result != Err(StorageLost) ==>
              && Ended(first, log, minSplit) && result == Verdict(first, log, minSplit)
              && ops == Asked(first, log, minSplit) + Rest(first, log, minSplit)
    ensures result.Ok? && NoneEmpty(first.reports) ==> FairlyReported(first, result.value, ops)
    ensures result == Err(StorageLost) <==> log != [] && log[|log| - 1] == Lost
    ensures result == Err(StorageLost) ==>
              var before := log[..|log| - 1];
              && Happened(first, before, minSplit) && Asked(first, before, minSplit) <= ops
              && ops <= Asked(first, before, minSplit) + Rest(first, before, minSplit)
  {
    hide Sound, Within, CountFilled, React, Enabled, SortReports, Leads, OpsFor, FlushCells, Fatal, StaffOps, Staffed,
      FailuresIn, Unbroken, Releases, Kept, Now, Asked, Played, CanBe, Credit, FairlyReported, NoneEmpty, Total,
      AllDone, Rest, Operate, Permitted, SortedByWorker;
    var p, failed, stuck: Option<PoolError>, lost := first, None, None, false;
    log, ops := [], [];
    var last := Lost;
    PlayedNothing(first, minSplit);
    var quiet: nat := *;
    ghost var fuel: nat := |p.cells| + 1;
    SoundWithin(p, workers, start);
    while true
      invariant p == Now(first, log, minSplit) && ops == Asked(first, log, minSplit) && Played(first, log, minSplit)
      invariant Within(p, fuel) && |p.cells| == |first.cells| && p.failures <= Retry.MAX_RETRIES
      invariant failed.None? && stuck.None? && !lost
      decreases Retry.MAX_RETRIES - p.failures, fuel, |p.running|, quiet
    {
      PlayedSound(first, log, minSplit, workers, start);
      ghost var before := p;
      if p.running == [] {
        ghost var more;
        var done;
        p, done, stuck, lost, more := Reassign(p, workers, minSplit, start, fuel);
        LeadsThrough(first.cells, ops, minSplit, before.cells, more, p.cells);
        ops := ops + more;
        if lost || stuck.Some? || done {
          break;
        }
        fuel := |before.cells| - CountFilled(before.cells);
      } else {
        StaffedSame(p, minSplit);
        assert ops + [] == ops;
      }
      var e := NextEvent(p, quiet);
      PlayedOn(first, log, minSplit, e);
      CanHappen(first, log, minSplit, quiet, e);
      failed := Fatal(p, e);
      FatalKinds(p, e);
      if failed.Some? {
        last := e;
        break;
      }
      ReactSound(p, quiet, e, workers, start);
      ReactProgress(p, quiet, e, workers, start, fuel);
      FailuresGrow(p, e);
      log, ops, p := log + [e], ops + OpsFor(p, e), React(p, e);
      if e.Wrote? || e.Ticked? {
        quiet := quiet - 1;
      } else {
        quiet := *;
      }
      if e.Failed? {
        fuel := |p.cells| + 1;
        SoundWithin(p, workers, start);
      }
    }
    ghost var told, asked := log, Asked(first, log, minSplit);
    if lost || failed == Some(StorageLost) {
      StoppedShort(first, log, minSplit, ops[|asked|..]);
      assert asked + ops[|asked|..] == ops;
      cells, result := p.cells, Err(StorageLost);
      log := log + [Lost];
      assert log[..|log| - 1] == told;
    } else if failed.Some? {
      BrokenHere(first, log, minSplit, last);
      log := log + [last];
      HoldersKnown(p, workers, start);
      ghost var more;
      cells, lost, more := ReclaimAfterFailure(p.cells, workers, minSplit);
      LeadsThrough(first.cells, ops, minSplit, p.cells, more, cells);
      ops := ops + more;
      result := Err(if lost then StorageLost else failed.value);
      log := if lost then log + [Lost] else log;
    } else {
      NothingMissing(first, log, minSplit);
      LeadsOn(first.cells, ops, minSplit, p.cells, Committing);
      ops := ops + [Committing];
      cells, result := Conclude(p, stuck);
      FinishedWell(first, log, minSplit, start);
    }
  }

  /**
   The run that `log` tells: the opening, then for each event what `PoolRuns` says the pool asks and
   answers. When storage is lost, the requests stop short of those.
   */
  ghost predicate Tells(initial: Cells, workers: nat, minSplit: U64, log: seq<Event>,
                        result: Result<seq<Report>, PoolError>, ops: seq<Op>)
    requires |initial| <= U64_MAX && workers <= U64_MAX
  {
    var first, opening := First(initial, workers, minSplit), Openings(initial, workers, minSplit);
    if result != Err(StorageLost) then
      if first.running == [] then result == Err(IncompleteCoverage) && log == [] && ops == opening
      else
        && |first.running| <= workers && Ended(first, log, minSplit) && result == Verdict(first, log, minSplit)
        && ops == opening + (Asked(first, log, minSplit) + Rest(first, log, minSplit))
    else
      && log != [] && log[|log| - 1] == Lost && |first.running| <= workers
      && var before := log[..|log| - 1];
         && ops <= opening + (Asked(first, before, minSplit) + Rest(first, before, minSplit))
         && (before != [] ==>
               && Happened(first, before, minSplit) && first.running != []
               && opening + Asked(first, before, minSplit) <= ops)
  }

  /**
   Runs the download to the end. `log` is what the tasks did, and `ops`, the cells and the result are
   those of the run it tells. Success means every byte is done and the reports account for exactly
   the bytes this run fetched; failure leaves no byte in progress. A run that started fails exactly
   when its last event is fatal, so scheduling never gets stuck, never breaks the allocator's rules
   and never gives up early. Lost storage is reported as such and ends the run where it is.
   */
  method ExecuteSegmented(initial: Cells, workers: nat, minSplit: U64)
    returns (cells: Cells, result: Result<seq<Report>, PoolError>, log: seq<Event>, ghost ops: seq<Op>)
    requires Unowned(initial) && |initial| <= U64_MAX && 0 < workers <= U64_MAX && minSplit > 0
    ensures Tells(initial, workers, minSplit, log, result, ops) && Leads(initial, ops, minSplit, cells)
    ensures Kept(initial, cells) && (result != Err(StorageLost) ==> Unowned(cells))
    ensures result.Ok? ==> forall b :: 0 <= b < |cells| ==> cells[b] == Done
    ensures result.Ok? ==> Total(result.value) + CountFilled(initial) == |initial| && SortedByWorker(result.value)
    ensures result.Ok? ==> NoneEmpty(result.value) && forall w :: Total(ReportsOf(result.value, w)) == Stored(ops, w)
    ensures result != Err(StorageLost) ==>
              (result == Err(IncompleteCoverage) <==> forall b :: 0 <= b < |initial| ==> initial[b] == Done)
    ensures result.Ok? ==> Unbroken(log)
    ensures result == Err(StorageLost) <==> log != [] && log[|log| - 1] == Lost
    ensures result.Err? && result.error != IncompleteCoverage && result.error != StorageLost ==>
              BrokenBy(log, result.error)
    ensures result != Err(StorageLost) ==> ops != [] && Fence(ops[|ops| - 1])
  {
    hide Sound, CountFilled, OneStretch, Granted, Leads, Openings, First, Drained, Asked, Rest, Ended, Happened,
      Verdict, Unbroken, BrokenBy, Total, SortedByWorker, Operate, Permitted, Kept, Flushed, Broken, ReportsOf, Stored,
      NoneEmpty, FairlyReported;
    var grants, refused, lost;
    cells, grants, refused, lost, ops := Admit(initial, workers, minSplit);
    OpeningsFence(initial, workers, minSplit);
    if lost {
      ShortOpening(initial, workers, minSplit, ops);
      return cells, Err(StorageLost), [Lost], ops;
    }
    if grants == [] || refused.Some? {
      return cells, Err(NotStarted(refused)), [], ops;
    }
    AdmittedSound(cells, grants);
    NothingReported();
    var p := Pool(cells, grants, [], [], None, false, 0);
    ghost var more;
    cells, result, log, more := Drive(p, |grants|, minSplit, CountFilled(cells));
    LeadsThrough(initial, ops, minSplit, p.cells, more, cells);
    LeadsTo(p.cells, more, minSplit, cells);
    if result != Err(StorageLost) {
      EndedWell(p, log, minSplit, CountFilled(p.cells));
    }
    if result.Ok? {
      FairFromStart(p, grants, result.value, Openings(initial, workers, minSplit), more);
    }
    ops := ops + more;
    LeadsTo(initial, ops, minSplit, cells);
    LeadsKeeps(initial, ops, minSplit);
  }

  lemma NothingReported()
    ensures NoneEmpty([])
  {
  }

  /** Nobody has written anything at first, and asking for a grant stores nothing. */
  lemma FairFromStart(p: Pool, grants: seq<Attempt>, reports: seq<Report>, opening: seq<Op>, more: seq<Op>)
    requires Granted(p.cells, grants) && p == Pool(p.cells, grants, [], [], None, false, 0)
    requires FairlyReported(p, reports, more) && forall i :: 0 <= i < |opening| ==> opening[i].Granting?
    ensures NoneEmpty(reports) && forall w :: Total(ReportsOf(reports, w)) == Stored(opening + more, w)
  {
    hide Total, ReportsOf, Stored, NoneEmpty, WrittenBy, Live, Known;
    forall w: U64 ensures Total(ReportsOf(reports, w)) == Stored(opening + more, w) {
      WrittenByNobody(grants, w);
      WrittenByNobody([], w);
      StoredNothing(opening, w);
      StoredConcat(opening, more, w);
      ReportsOfConcat([], [], w);
      TotalConcat([], []);
      assert ReportsOf([], w) == [] + [];
    }
  }

  lemma OpeningsFence(initial: Cells, workers: nat, minSplit: U64)
    requires |initial| <= U64_MAX && 0 < workers <= U64_MAX
    ensures var ops := Openings(initial, workers, minSplit);
            ops != [] && Fence(ops[|ops| - 1]) && forall i :: 0 <= i < |ops| ==> ops[i].Granting?
  {
    hide Offered;
  }

  lemma ShortOpening(initial: Cells, workers: nat, minSplit: U64, ops: seq<Op>)
    requires Unowned(initial) && |initial| <= U64_MAX && 0 < workers <= U64_MAX && minSplit > 0
    requires ops <= Openings(initial, workers, minSplit)
    ensures Tells(initial, workers, minSplit, [Lost], Err(StorageLost), ops)
  {
    hide Openings, Asked, Rest, Granted, OneStretch, Flushed, Kept, CountFilled, Leads;
    OfferedWell(initial, workers, minSplit);
  }

  /** Both endings. */
  lemma EndedWell(first: Pool, log: seq<Event>, minSplit: U64, start: nat)
    requires Sound(first, |first.running|, start) && first.failures == 0 && |first.cells| <= U64_MAX && minSplit > 0
    requires 0 < |first.running| <= U64_MAX && Ended(first, log, minSplit)
    ensures var ops := Asked(first, log, minSplit) + Rest(first, log, minSplit);
            && Unowned(Operate(first.cells, ops, minSplit)) && ops != [] && Fence(ops[|ops| - 1])
            && (Verdict(first, log, minSplit).Ok? ==> AllDone(Operate(first.cells, ops, minSplit)))
    ensures var r := Verdict(first, log, minSplit);
            && (r.Ok? ==> Total(r.value) + start == |first.cells| && SortedByWorker(r.value) && Unbroken(log))
            && (r.Err? ==> BrokenBy(log, r.error) && r.error != StorageLost && r.error != IncompleteCoverage)
  {
    hide Sound, Asked, Rest, Ended, Unbroken, BrokenBy, Total, SortedByWorker, Operate, Permitted, Broken;
    if Broken(first, log, minSplit).Some? {
      FailedWell(first, log, minSplit, start);
      BrokenKinds(log, Broken(first, log, minSplit).value);
    } else {
      FinishedWell(first, log, minSplit, start);
    }
  }

  lemma BrokenKinds(log: seq<Event>, error: PoolError)
    requires BrokenBy(log, error)
    ensures error != IncompleteCoverage
  {
    hide Unbroken, FatalAt;
  }
}
