/**
 Whose bytes they are: no reaction of the pool moves a byte from one worker's account to another's.

 `Credit` is what a worker's reports name plus what its unreported tasks wrote. Only an accepted write
 changes it, and only that of the writer.
 */
module WorkerCredit {
  import opened Base
  import opened Intervals
  import A = Allocator
  import opened Desk
  import opened WorkerPool

  lemma WroteCredit(p: Pool, i: nat, n: nat, w: U64)
    requires i < |p.running| && p.running[i].cursor + n <= |p.cells|
    ensures Credit(OnWrote(p, i, n), w) == Credit(p, w) + if p.running[i].worker == w then n else 0
  {
    hide WrittenBy, Total, ReportsOf, StageCells;
    var t := p.running[i];
    var u := t.(cursor := t.cursor + n);
    WrittenByWithout(p.running, i, w);
    WrittenByWithout(p.running[i := u], i, w);
    assert Without(p.running[i := u], i) == Without(p.running, i);
    WrittenByOne(t, w);
    WrittenByOne(u, w);
  }

  lemma FinishedCredit(p: Pool, i: nat, w: U64)
    requires i < |p.running| && p.running[i].lo <= p.running[i].cursor
    ensures Credit(OnFinished(p, i), w) == Credit(p, w)
    ensures p.running[i].lo < p.running[i].cursor && NoneEmpty(p.reports) ==> NoneEmpty(OnFinished(p, i).reports)
  {
    hide WrittenBy, Total, ReportsOf, FlushCells;
    var t := p.running[i];
    WrittenByWithout(p.running, i, w);
    WrittenByOne(t, w);
    WrittenByCancel(Without(p.running, i), w);
    ReportsOfSnoc(p.reports, Report(t.worker, t.cursor - t.lo), w);
  }

  lemma FailedCredit(p: Pool, i: nat, w: U64)
    requires i < |p.running|
    ensures Credit(OnFailed(p, i), w) == Credit(p, w)
  {
    hide WrittenBy, Total, ReportsOf, AbandonCells;
    WrittenByWithout(p.running, i, w);
    WrittenByCancel(Without(p.running, i), w);
    WrittenByConcat(p.parked, [p.running[i]], w);
  }

  lemma CancelledCredit(p: Pool, i: nat, w: U64)
    requires i < |p.running|
    ensures Credit(OnCancelled(p, i), w) == Credit(p, w)
  {
    hide WrittenBy, Total, ReportsOf;
    WrittenByWithout(p.running, i, w);
    WrittenByConcat(p.parked, [p.running[i]], w);
  }

  /** Parked bytes become reported bytes of the same worker. */
  lemma DrainedCredits(p: Pool, workers: nat, start: nat, w: U64)
    requires Sound(p, workers, start) && p.running == []
    ensures Credit(Drained(p), w) == Credit(p, w)
  {
    hide Sound, Total, ReportsOf, ParkedReports, FlushCells;
    DrainedSound(p, workers, start);
  }

  /** New tasks start with nothing written. */
  lemma ScheduledCredit(p: Pool, minSplit: U64, w: U64)
    requires |p.cells| <= U64_MAX && p.running == [] && Scheduled(p, minSplit).Ok?
    ensures var q := Scheduled(p, minSplit).value; Credit(q, w) == Credit(p, w) && q.reports == p.reports
  {
    hide A.Decide, Runs, ActiveGrants, Total, ReportsOf;
    var q, d := Scheduled(p, minSplit).value, A.Decide(OwnersOf(p.cells), p.idle.value, minSplit);
    WrittenByNobody([], w);
    if d.result.value.Some? {
      WrittenByNobody([Started(d.result.value.value.grant)], w);
    } else {
      var tasks := ActiveGrants(Runs(OwnersOf(p.cells)));
      TasksFresh(p.cells, tasks);
      WrittenByNobody(tasks, w);
    }
  }
}
