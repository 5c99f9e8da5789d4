/**
 How the pool hands out work once the first grants are made.

 Soundness would also hold of a pool that lets idle workers wait. This one does not: as soon as
 somebody is idle everyone else has been told to stop, and when they have, work is given to the right
 worker, or every holder of unwritten bytes is set to work again.
 */
module PoolPolicy {
  import opened Base
  import opened Intervals
  import A = Allocator
  import opened Desk
  import opened WorkerPool
  import opened PoolRuns

  /** While somebody is idle every running task has been cancelled. */
  ghost predicate Orderly(p: Pool)
  {
    && (p.idle.Some? ==> forall i :: 0 <= i < |p.running| ==> p.running[i].cancelled)
    && (p.draining ==> p.idle.Some?) && (p.idle.Some? && p.running != [] ==> p.draining)
  }

  lemma ReactOrderly(p: Pool, quiet: nat, e: Event)
    requires Orderly(p) && Enabled(p, quiet, e)
    ensures Orderly(React(p, e))
  {
    hide FlushCells, StageCells, AbandonCells;
  }

  lemma StaffedOrderly(p: Pool, minSplit: U64)
    requires Orderly(p) && |p.cells| <= U64_MAX
    ensures Orderly(Staffed(p, minSplit))
  {
    hide A.Decide, ActiveGrants, Runs, FlushCells, ParkedReports;
  }

  /** In every run: whenever somebody is idle, every running task has been told to stop. */
  lemma {:induction false} PlayedOrderly(first: Pool, log: seq<Event>, minSplit: U64)
    requires Orderly(first) && |first.cells| <= U64_MAX && Played(first, log, minSplit)
    ensures Orderly(Now(first, log, minSplit))
  {
    hide Staffed, React, Enabled, Fatal, Orderly;
    if log != [] {
      var n := |log| - 1;
      PlayedOrderly(first, log[..n], minSplit);
      StaffedOrderly(Now(first, log[..n], minSplit), minSplit);
      ReactOrderly(Staffed(Now(first, log[..n], minSplit), minSplit), 1, log[n]);
    }
  }

  /** The next to be given work is the last worker to fail, or else the first to finish. */
  lemma Nominates(p: Pool, quiet: nat, e: Event)
    requires Enabled(p, quiet, e)
    ensures e.Failed? ==> React(p, e).idle == Some(p.running[e.task].worker)
    ensures e.Finished? ==>
              React(p, e).idle == if p.idle.Some? then p.idle else Some(p.running[e.task].worker)
    ensures !e.Failed? && !e.Finished? ==> React(p, e).idle == p.idle
  {
    hide FlushCells, StageCells, AbandonCells;
  }

  /**
   Nothing a task may do is left out of the runs: blocks of any size up to 256 KiB inside the grant, an
   end when the grant is full, any failure and a panic at any time, and the end of a task told to stop.
   */
  lemma NothingExcluded(p: Pool, i: nat)
    requires i < |p.running|
    ensures forall n :: 1 <= n <= 262_144 && p.running[i].cursor + n <= p.running[i].hi ==> Enabled(p, 1, Wrote(i, n))
    ensures p.running[i].cursor == p.running[i].hi ==> Enabled(p, 0, Finished(i))
    ensures p.running[i].cancelled ==> Enabled(p, 0, Cancelled(i))
    ensures (forall f :: Enabled(p, 0, Failed(i, f))) && (forall due :: Enabled(p, 1, Ticked(due)))
    ensures Enabled(p, 0, Panicked(i)) && Enabled(p, 0, Lost)
  {
  }

  // ----- who is set to work -----

  /** The idle worker alone, on bytes that were free or the right end of one stretch; nothing else moves. */
  ghost predicate OneStarts(before: Cells, q: Pool, w: U64)
  {
    && |q.running| == 1 && |q.cells| == |before|
    && var t := q.running[0];
       && t.worker == w && t.lo == t.cursor < t.hi <= |q.cells| && !t.cancelled
       && (forall b :: 0 <= b < |q.cells| ==> q.cells[b] == if t.lo <= b < t.hi then Held(w) else before[b])
       && (forall b :: t.lo <= b < t.hi ==> !Filled(before[b]) && before[b] == before[t.lo])
  }

  /** Nothing is free, and every held byte is in a fresh task of its holder. */
  ghost predicate AllStart(before: Cells, q: Pool)
  {
    && q.cells == before && (forall b :: 0 <= b < |before| ==> before[b] != Free)
    && (forall i :: 0 <= i < |q.running| ==> q.running[i].cursor == q.running[i].lo && !q.running[i].cancelled)
    && forall b :: 0 <= b < |before| && before[b].Held? ==>
         exists i :: 0 <= i < |q.running| && Serves(q.running[i], before[b].worker, b)
  }

  predicate Serves(t: Attempt, w: U64, b: nat) { t.worker == w && t.lo <= b < t.hi }

  lemma {:induction false} EachGranted(ivs: seq<Interval>, k: nat)
    requires k < |ivs| && ivs[k].state.InProgress?
    ensures exists i :: 0 <= i < |ActiveGrants(ivs)| &&
              ActiveGrants(ivs)[i] == Attempt(ivs[k].state.worker, ivs[k].start, ivs[k].end, ivs[k].start, false)
  {
    if k < |ivs| - 1 {
      EachGranted(Init(ivs), k);
      var i :| 0 <= i < |ActiveGrants(Init(ivs))| && ActiveGrants(Init(ivs))[i]
               == Attempt(ivs[k].state.worker, ivs[k].start, ivs[k].end, ivs[k].start, false);
      assert ActiveGrants(ivs)[i] == ActiveGrants(Init(ivs))[i];
    } else {
      assert ActiveGrants(ivs)[|ActiveGrants(ivs)| - 1]
          == Attempt(ivs[k].state.worker, ivs[k].start, ivs[k].end, ivs[k].start, false);
    }
  }

  lemma HolderServed(cells: Cells, tasks: seq<Attempt>, b: nat)
    requires Flushed(cells) && b < |cells| && cells[b].Held? && tasks == ActiveGrants(Runs(OwnersOf(cells)))
    ensures exists i :: 0 <= i < |tasks| && Serves(tasks[i], cells[b].worker, b)
  {
    hide Runs, ActiveGrants, Merged;
    var m := OwnersOf(cells);
    var ivs := Runs(m);
    RunsDescribe(m);
    var k := Locate(ivs, |m|, b);
    assert ivs[k].state == m[b];
    EachGranted(ivs, k);
    var i :| 0 <= i < |tasks| && tasks[i]
             == Attempt(ivs[k].state.worker, ivs[k].start, ivs[k].end, ivs[k].start, false);
    assert Serves(tasks[i], cells[b].worker, b);
  }

  /** Finding work for a drained pool that is not done: the idle worker gets some, or everyone goes on. */
  lemma StaffedStarts(p: Pool, minSplit: U64, workers: nat, start: nat)
    requires Sound(p, workers, start) && p.running == [] && |p.cells| <= U64_MAX && minSplit > 0
    requires !AllDone(FlushCells(p.cells))
    ensures p.idle.Some?
    ensures var before, q := FlushCells(p.cells), Staffed(p, minSplit);
            OneStarts(before, q, p.idle.value) || AllStart(before, q)
  {
    hide Sound, A.Decide, Runs, ActiveGrants, ParkedReports, OneStretch;
    SomeoneIdle(p, workers, start);
    DrainedSound(p, workers, start);
    var d := Drained(p);
    DrainedIdle(d, workers, start);
    AllocatedTakes(d.cells, p.idle.value, minSplit);
    var decided := A.Decide(OwnersOf(d.cells), p.idle.value, minSplit);
    if decided.result.value.Some? {
      var al := decided.result.value.value;
      TakesUnfilled(d.cells, al.grant.lo, al.grant.hi, al.grant.worker, al.shortened);
      assert OneStarts(d.cells, Staffed(p, minSplit), p.idle.value);
    } else {
      var tasks := ActiveGrants(Runs(OwnersOf(d.cells)));
      TasksFresh(d.cells, tasks);
      forall b | 0 <= b < |d.cells| && d.cells[b].Held?
        ensures exists i :: 0 <= i < |tasks| && Serves(tasks[i], d.cells[b].worker, b)
      {
        HolderServed(d.cells, tasks, b);
      }
      SomebodyHolds(d.cells, tasks);
    }
  }

  lemma DrainedIdle(p: Pool, workers: nat, start: nat)
    requires Sound(p, workers, start) && p.idle.Some?
    ensures OneStretch(p.cells) && HoldsNothing(p.cells, p.idle.value)
  {
  }

  lemma SomebodyHolds(cells: Cells, tasks: seq<Attempt>)
    requires Flushed(cells) && !AllDone(cells) && forall b :: 0 <= b < |cells| ==> cells[b] != Free
    requires forall b :: 0 <= b < |cells| && cells[b].Held? ==>
               exists i :: 0 <= i < |tasks| && Serves(tasks[i], cells[b].worker, b)
    ensures tasks != []
  {
    var b :| 0 <= b < |cells| && cells[b] != Done;
    assert cells[b].Held?;
  }
}
