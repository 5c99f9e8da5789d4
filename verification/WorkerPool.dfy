/**
 The fixed worker pool: grants, workers writing into them, and the drain, reassign and retry loop.

 The pool is a state machine over the cells of `Desk`. A worker task appends to its grant,
 finishes, fails, or is cancelled, in any order the scheduler likes; `ExecuteSegmented` is the
 loop that reacts. `Sound` is what every reaction keeps.
 */
module WorkerPool {
  import opened Base
  import opened Ownership
  import opened Intervals
  import A = Allocator
  import opened Desk
  import Retry

  /** A task with its grant `[lo, hi)`; the bytes before `cursor` have been accepted. */
  datatype Attempt = Attempt(worker: U64, lo: nat, hi: nat, cursor: nat, cancelled: bool)

  datatype Report = Report(worker: U64, bytes: nat)

  datatype Pool = Pool(
    cells: Cells,
    running: seq<Attempt>,
    parked: seq<Attempt>,
    reports: seq<Report>,
    idle: Option<U64>,
    draining: bool,
    failures: nat
  )

  function Started(g: A.Grant): Attempt { Attempt(g.worker, g.lo, g.hi, g.lo, false) }

  // ----- sums over attempts and reports -----

  function Written(ts: seq<Attempt>): int
  {
    if ts == [] then 0 else Written(ts[..|ts| - 1]) + (ts[|ts| - 1].cursor - ts[|ts| - 1].lo)
  }

  function Total(rs: seq<Report>): nat
  {
    if rs == [] then 0 else Total(rs[..|rs| - 1]) + rs[|rs| - 1].bytes
  }

  function Without(ts: seq<Attempt>, i: nat): seq<Attempt>
    requires i < |ts|
  {
    ts[..i] + ts[i + 1..]
  }

  function CancelAll(ts: seq<Attempt>): (r: seq<Attempt>)
    ensures |r| == |ts| && forall i :: 0 <= i < |ts| ==> r[i] == ts[i].(cancelled := true)
  {
    seq(|ts|, i requires 0 <= i < |ts| => ts[i].(cancelled := true))
  }

  lemma {:induction false} WrittenConcat(a: seq<Attempt>, b: seq<Attempt>)
    ensures Written(a + b) == Written(a) + Written(b)
  {
    if b == [] {
      assert a + b == a;
    } else {
      WrittenConcat(a, b[..|b| - 1]);
      assert (a + b)[..|a + b| - 1] == a + b[..|b| - 1];
    }
  }

  lemma WrittenOne(t: Attempt)
    ensures Written([t]) == t.cursor - t.lo
  {
    assert [t][..0] == [];
  }

  lemma WrittenWithout(ts: seq<Attempt>, i: nat)
    requires i < |ts|
    ensures Written(ts) == Written(Without(ts, i)) + (ts[i].cursor - ts[i].lo)
  {
    hide Written;
    assert ts == ts[..i] + [ts[i]] + ts[i + 1..];
    WrittenConcat(ts[..i] + [ts[i]], ts[i + 1..]);
    WrittenConcat(ts[..i], [ts[i]]);
    WrittenConcat(ts[..i], ts[i + 1..]);
    WrittenOne(ts[i]);
  }

  lemma WrittenUpdate(ts: seq<Attempt>, i: nat, t: Attempt)
    requires i < |ts|
    ensures Written(ts[i := t]) == Written(ts) - (ts[i].cursor - ts[i].lo) + (t.cursor - t.lo)
  {
    WrittenWithout(ts, i);
    WrittenWithout(ts[i := t], i);
    assert Without(ts[i := t], i) == Without(ts, i);
  }

  lemma {:induction false} WrittenCancel(ts: seq<Attempt>)
    ensures Written(CancelAll(ts)) == Written(ts)
  {
    if ts != [] {
      WrittenCancel(ts[..|ts| - 1]);
      assert CancelAll(ts)[..|ts| - 1] == CancelAll(ts[..|ts| - 1]);
    }
  }

  lemma {:induction false} WrittenFromZero(ts: seq<Attempt>)
    requires forall i :: 0 <= i < |ts| ==> ts[i].cursor == ts[i].lo
    ensures Written(ts) == 0
  {
    if ts != [] {
      WrittenFromZero(ts[..|ts| - 1]);
    }
  }

  lemma {:induction false} WrittenForward(ts: seq<Attempt>)
    requires forall i :: 0 <= i < |ts| ==> ts[i].lo <= ts[i].cursor
    ensures Written(ts) >= 0
  {
    if ts != [] {
      WrittenForward(ts[..|ts| - 1]);
    }
  }

  lemma TotalSnoc(rs: seq<Report>, r: Report)
    ensures Total(rs + [r]) == Total(rs) + r.bytes
  {
    assert (rs + [r])[..|rs + [r]| - 1] == rs;
  }

  // ----- the same sums, for one worker -----

  /** The bytes that `w`'s own tasks wrote. */
  function WrittenBy(ts: seq<Attempt>, w: U64): int
  {
    if ts == [] then 0
    else
      var t := ts[|ts| - 1];
      WrittenBy(ts[..|ts| - 1], w) + if t.worker == w then t.cursor - t.lo else 0
  }

  /** The reports that name `w`, in order. */
  function ReportsOf(rs: seq<Report>, w: U64): seq<Report>
  {
    if rs == [] then []
    else
      var r := rs[|rs| - 1];
      ReportsOf(rs[..|rs| - 1], w) + if r.worker == w then [r] else []
  }

  /** What `w` is credited with, or will be. */
  function Credit(p: Pool, w: U64): int
  {
    Total(ReportsOf(p.reports, w)) + WrittenBy(p.running, w) + WrittenBy(p.parked, w)
  }

  ghost predicate NoneEmpty(rs: seq<Report>) { forall i :: 0 <= i < |rs| ==> rs[i].bytes > 0 }

  lemma {:induction false} WrittenByConcat(a: seq<Attempt>, b: seq<Attempt>, w: U64)
    ensures WrittenBy(a + b, w) == WrittenBy(a, w) + WrittenBy(b, w)
  {
    if b == [] {
      assert a + b == a;
    } else {
      WrittenByConcat(a, b[..|b| - 1], w);
      assert (a + b)[..|a + b| - 1] == a + b[..|b| - 1];
    }
  }

  lemma WrittenByOne(t: Attempt, w: U64)
    ensures WrittenBy([t], w) == if t.worker == w then t.cursor - t.lo else 0
  {
    assert [t][..0] == [];
  }

  lemma WrittenByWithout(ts: seq<Attempt>, i: nat, w: U64)
    requires i < |ts|
    ensures WrittenBy(ts, w) == WrittenBy(Without(ts, i), w) + WrittenBy([ts[i]], w)
  {
    hide WrittenBy;
    assert ts == ts[..i] + [ts[i]] + ts[i + 1..];
    WrittenByConcat(ts[..i] + [ts[i]], ts[i + 1..], w);
    WrittenByConcat(ts[..i], [ts[i]], w);
    WrittenByConcat(ts[..i], ts[i + 1..], w);
  }

  lemma {:induction false} WrittenByCancel(ts: seq<Attempt>, w: U64)
    ensures WrittenBy(CancelAll(ts), w) == WrittenBy(ts, w)
  {
    if ts != [] {
      WrittenByCancel(ts[..|ts| - 1], w);
      assert CancelAll(ts)[..|ts| - 1] == CancelAll(ts[..|ts| - 1]);
    }
  }

  lemma {:induction false} WrittenByNobody(ts: seq<Attempt>, w: U64)
    requires forall i :: 0 <= i < |ts| ==> ts[i].cursor == ts[i].lo
    ensures WrittenBy(ts, w) == 0
  {
    if ts != [] {
      WrittenByNobody(ts[..|ts| - 1], w);
    }
  }

  lemma ReportsOfSnoc(rs: seq<Report>, r: Report, w: U64)
    ensures ReportsOf(rs + [r], w) == ReportsOf(rs, w) + if r.worker == w then [r] else []
    ensures Total(ReportsOf(rs + [r], w)) == Total(ReportsOf(rs, w)) + if r.worker == w then r.bytes else 0
  {
    assert (rs + [r])[..|rs + [r]| - 1] == rs;
    assert ReportsOf(rs, w) + [] == ReportsOf(rs, w);
    TotalSnoc(ReportsOf(rs, w), r);
  }

  lemma {:induction false} ReportsOfConcat(a: seq<Report>, b: seq<Report>, w: U64)
    ensures ReportsOf(a + b, w) == ReportsOf(a, w) + ReportsOf(b, w)
  {
    if b == [] {
      assert a + b == a;
    } else {
      ReportsOfConcat(a, b[..|b| - 1], w);
      assert (a + b)[..|a + b| - 1] == a + b[..|b| - 1];
    }
  }

  // ----- the invariant -----

  /** The accepted part of the grant is filled, and the worker holds exactly the rest. */
  ghost predicate Writing(cells: Cells, t: Attempt)
  {
    && t.lo <= t.cursor <= t.hi <= |cells| && t.lo < t.hi
    && (forall b :: t.lo <= b < t.cursor ==> Filled(cells[b]))
    && (forall b :: 0 <= b < |cells| ==> (cells[b] == Held(t.worker) <==> t.cursor <= b < t.hi))
  }

  ghost predicate Stopped(cells: Cells, t: Attempt)
  {
    && t.lo <= t.cursor <= t.hi <= |cells|
    && (forall b :: t.lo <= b < t.cursor ==> Filled(cells[b]))
    && (forall b :: t.cursor <= b < t.hi ==> !Filled(cells[b]))
  }

  predicate Apart(s: Attempt, t: Attempt) { s.hi <= t.lo || t.hi <= s.lo }

  ghost predicate Live(cells: Cells, ts: seq<Attempt>)
  {
    forall i :: 0 <= i < |ts| ==> Writing(cells, ts[i])
  }

  /** Different tasks serve different workers and disjoint grants. */
  ghost predicate Separate(ts: seq<Attempt>)
  {
    forall i, j :: 0 <= i < j < |ts| ==> ts[i].worker != ts[j].worker && Apart(ts[i], ts[j])
  }

  ghost predicate Resting(cells: Cells, ts: seq<Attempt>)
  {
    forall i :: 0 <= i < |ts| ==> Stopped(cells, ts[i])
  }

  ghost predicate Aside(running: seq<Attempt>, parked: seq<Attempt>)
  {
    forall i, j :: 0 <= i < |running| && 0 <= j < |parked| ==> Apart(running[i], parked[j])
  }

  /** The unwritten bytes of each worker form one stretch. */
  ghost predicate OneStretch(cells: Cells)
  {
    forall a, b, c :: 0 <= a <= b <= c < |cells| && cells[a].Held? && cells[a] == cells[c] ==> cells[b] == cells[a]
  }

  ghost predicate Known(cells: Cells, running: seq<Attempt>, workers: nat)
  {
    && (forall b :: 0 <= b < |cells| && cells[b].Held? ==> cells[b].worker < workers)
    && (forall i :: 0 <= i < |running| ==> running[i].worker < workers)
  }

  ghost predicate HoldsNothing(cells: Cells, w: U64)
  {
    forall b :: 0 <= b < |cells| ==> cells[b] != Held(w)
  }

  /** A candidate for reassignment owns nothing, and there is one whenever a task was cancelled. */
  ghost predicate IdleOk(p: Pool, workers: nat)
  {
    && (p.idle.Some? ==> p.idle.value < workers && HoldsNothing(p.cells, p.idle.value))
    && (p.running == [] ==> p.idle.Some?)
    && (p.idle.None? ==> forall i :: 0 <= i < |p.running| ==> !p.running[i].cancelled)
  }

  /** Every accepted byte is in exactly one report, running attempt or parked attempt. */
  ghost predicate Conserved(p: Pool, start: nat)
  {
    CountFilled(p.cells) == start + Total(p.reports) + Written(p.running) + Written(p.parked)
  }

  ghost predicate Sound(p: Pool, workers: nat, start: nat)
  {
    && Live(p.cells, p.running) && Separate(p.running)
    && Resting(p.cells, p.parked) && Aside(p.running, p.parked)
    && OneStretch(p.cells) && Known(p.cells, p.running, workers)
    && IdleOk(p, workers) && Conserved(p, start)
  }

  /** No done byte is ever undone. */
  ghost predicate Kept(before: Cells, after: Cells)
  {
    |before| == |after| && forall b :: 0 <= b < |before| && before[b] == Done ==> after[b] == Done
  }

  // ----- reactions -----

  function OnWrote(p: Pool, i: nat, n: nat): Pool
    requires i < |p.running| && p.running[i].cursor + n <= |p.cells|
  {
    var t := p.running[i];
    p.(cells := StageCells(p.cells, t.cursor, t.cursor + n, t.worker),
       running := p.running[i := t.(cursor := t.cursor + n)])
  }

  function OnFlushed(p: Pool): Pool { p.(cells := FlushCells(p.cells)) }

  /** A worker that filled its grant: record it, and drain the others so it can be reused. */
  function OnFinished(p: Pool, i: nat): Pool
    requires i < |p.running|
  {
    var t, rest := p.running[i], Without(p.running, i);
    var drain := rest != [] && !p.draining;
    p.(cells := FlushCells(p.cells),
       running := if drain then CancelAll(rest) else rest,
       reports := p.reports + [Report(t.worker, if t.lo <= t.cursor then t.cursor - t.lo else 0)],
       idle := if p.idle.None? then Some(t.worker) else p.idle,
       draining := p.draining || drain)
  }

  /** A transient failure within the budget: fence the accepted prefix, release the rest. */
  function OnFailed(p: Pool, i: nat): Pool
    requires i < |p.running|
  {
    var t := p.running[i];
    p.(cells := AbandonCells(p.cells, t.worker),
       running := CancelAll(Without(p.running, i)),
       parked := p.parked + [t],
       idle := Some(t.worker),
       draining := true,
       failures := p.failures + 1)
  }

  function OnCancelled(p: Pool, i: nat): Pool
    requires i < |p.running|
  {
    p.(running := Without(p.running, i), parked := p.parked + [p.running[i]])
  }

  // ----- keeping the invariant -----

  lemma WithoutKeeps(cells: Cells, ts: seq<Attempt>, parked: seq<Attempt>, i: nat)
    requires Live(cells, ts) && Separate(ts) && Aside(ts, parked) && i < |ts|
    ensures var r := Without(ts, i);
            && Live(cells, r) && Separate(r) && Aside(r, parked + [ts[i]]) && Aside(r, parked)
            && forall j :: 0 <= j < |r| ==> r[j] in ts && r[j].worker != ts[i].worker
  {
    hide Writing;
    var r := Without(ts, i);
    forall j | 0 <= j < |r|
      ensures r[j] == ts[if j < i then j else j + 1] && r[j] in ts && r[j].worker != ts[i].worker && Apart(r[j], ts[i])
    {
      var k := if j < i then j else j + 1;
      assert r[j] == ts[k];
    }
  }

  lemma CancelKeeps(cells: Cells, ts: seq<Attempt>, parked: seq<Attempt>)
    requires Live(cells, ts) && Separate(ts) && Aside(ts, parked)
    ensures Live(cells, CancelAll(ts)) && Separate(CancelAll(ts)) && Aside(CancelAll(ts), parked)
  {
    var r := CancelAll(ts);
    forall j | 0 <= j < |r| ensures Writing(cells, r[j]) {
      assert Writing(cells, ts[j]);
    }
  }

  /** What a step may do to cells without disturbing attempts: fill no held or free cell. */
  ghost predicate Calm(before: Cells, after: Cells)
  {
    && |before| == |after|
    && forall b :: 0 <= b < |before| ==>
         && (Filled(before[b]) <==> Filled(after[b]))
         && (after[b].Held? ==> after[b] == before[b])
  }

  lemma CalmResting(before: Cells, after: Cells, ts: seq<Attempt>)
    requires Calm(before, after) && Resting(before, ts)
    ensures Resting(after, ts)
  {
    forall i | 0 <= i < |ts| ensures Stopped(after, ts[i]) {
      assert Stopped(before, ts[i]);
    }
  }

  lemma CalmLive(before: Cells, after: Cells, ts: seq<Attempt>)
    requires Calm(before, after) && Live(before, ts)
    requires forall i, b :: 0 <= i < |ts| && 0 <= b < |before| && before[b] == Held(ts[i].worker) ==>
               after[b] == before[b]
    ensures Live(after, ts)
  {
    forall i | 0 <= i < |ts| ensures Writing(after, ts[i]) {
      assert Writing(before, ts[i]);
    }
  }

  lemma FlushCalm(cells: Cells)
    ensures Calm(cells, FlushCells(cells)) && Kept(cells, FlushCells(cells))
    ensures forall b :: 0 <= b < |cells| ==> (FlushCells(cells)[b].Held? <==> cells[b].Held?)
    ensures forall b :: 0 <= b < |cells| && cells[b].Held? ==> FlushCells(cells)[b] == cells[b]
    ensures forall b :: 0 <= b < |cells| ==> !FlushCells(cells)[b].Staged?
  {
  }

  lemma AbandonCalm(cells: Cells, w: U64)
    ensures |AbandonCells(cells, w)| == |cells|
    ensures Calm(cells, AbandonCells(cells, w)) && Kept(cells, AbandonCells(cells, w))
    ensures forall b :: 0 <= b < |cells| ==>
              AbandonCells(cells, w)[b]
              == if cells[b] == Held(w) then Free else if cells[b].Staged? then Done else cells[b]
  {
  }

  /** Removing whole workers from a one-stretch map leaves one. */
  lemma CalmStretch(before: Cells, after: Cells)
    requires Calm(before, after) && OneStretch(before)
    requires forall a, b :: 0 <= a < |before| && 0 <= b < |before| && before[a].Held? && before[a] == before[b] ==>
               (after[a].Held? <==> after[b].Held?)
    ensures OneStretch(after)
  {
    forall a, b, c | 0 <= a <= b <= c < |after| && after[a].Held? && after[a] == after[c]
      ensures after[b] == after[a]
    {
      assert before[a] == after[a] && before[c] == after[c] && before[b] == before[a];
    }
  }

  lemma WroteLive(p: Pool, i: nat, n: nat)
    requires Live(p.cells, p.running) && Separate(p.running) && i < |p.running|
    requires p.running[i].cursor + n <= p.running[i].hi <= |p.cells|
    ensures Live(OnWrote(p, i, n).cells, OnWrote(p, i, n).running)
  {
    var q, t := OnWrote(p, i, n), p.running[i];
    assert Writing(p.cells, t);
    forall j | 0 <= j < |q.running| ensures Writing(q.cells, q.running[j]) {
      assert Writing(p.cells, p.running[j]);
    }
  }

  lemma WroteRest(p: Pool, i: nat, n: nat)
    requires Live(p.cells, p.running) && Aside(p.running, p.parked) && Resting(p.cells, p.parked)
    requires i < |p.running| && p.running[i].cursor + n <= p.running[i].hi <= |p.cells|
    ensures Resting(OnWrote(p, i, n).cells, p.parked)
  {
    var q, t := OnWrote(p, i, n), p.running[i];
    assert Writing(p.cells, t);
    forall j | 0 <= j < |p.parked| ensures Stopped(q.cells, p.parked[j]) {
      assert Stopped(p.cells, p.parked[j]) && Apart(t, p.parked[j]);
    }
  }

  lemma WroteStretch(p: Pool, i: nat, n: nat)
    requires i < |p.running| && Writing(p.cells, p.running[i]) && OneStretch(p.cells)
    requires p.running[i].cursor + n <= p.running[i].hi
    ensures OneStretch(OnWrote(p, i, n).cells)
  {
    var q, t := OnWrote(p, i, n), p.running[i];
    forall a, b, c | 0 <= a <= b <= c < |q.cells| && q.cells[a].Held? && q.cells[a] == q.cells[c]
      ensures q.cells[b] == q.cells[a]
    {
      assert p.cells[b] == p.cells[a];
    }
  }

  lemma WroteKnown(p: Pool, i: nat, n: nat, workers: nat)
    requires i < |p.running| && Known(p.cells, p.running, workers) && IdleOk(p, workers)
    requires Writing(p.cells, p.running[i]) && p.running[i].cursor + n <= p.running[i].hi
    ensures var q := OnWrote(p, i, n);
            Known(q.cells, q.running, workers) && IdleOk(q, workers) && Kept(p.cells, q.cells)
  {
  }

  lemma WroteSeparate(p: Pool, i: nat, n: nat)
    requires i < |p.running| && Separate(p.running) && Aside(p.running, p.parked)
    requires p.running[i].cursor + n <= |p.cells|
    ensures Separate(OnWrote(p, i, n).running) && Aside(OnWrote(p, i, n).running, p.parked)
  {
    hide StageCells;
  }

  lemma WroteConserved(p: Pool, i: nat, n: nat, start: nat)
    requires i < |p.running| && Conserved(p, start)
    requires Writing(p.cells, p.running[i]) && p.running[i].cursor + n <= p.running[i].hi
    ensures Conserved(OnWrote(p, i, n), start)
  {
    hide Written, Total, CountFilled;
    var q, t := OnWrote(p, i, n), p.running[i];
    WrittenUpdate(p.running, i, q.running[i]);
    StageCounts(p.cells, t.cursor, t.cursor + n, t.worker);
  }

  lemma WroteSound(p: Pool, i: nat, n: nat, workers: nat, start: nat)
    requires Sound(p, workers, start) && i < |p.running| && p.running[i].cursor + n <= p.running[i].hi <= |p.cells|
    ensures Sound(OnWrote(p, i, n), workers, start) && Kept(p.cells, OnWrote(p, i, n).cells)
  {
    hide Resting, OneStretch, Writing, Separate, Aside, Known, IdleOk, Conserved, Kept;
    WroteLive(p, i, n);
    WroteRest(p, i, n);
    WroteStretch(p, i, n);
    WroteKnown(p, i, n, workers);
    WroteSeparate(p, i, n);
    WroteConserved(p, i, n, start);
  }

  lemma FlushedSound(p: Pool, workers: nat, start: nat)
    requires Sound(p, workers, start)
    ensures Sound(OnFlushed(p), workers, start) && Kept(p.cells, OnFlushed(p).cells)
    ensures forall b :: 0 <= b < |p.cells| ==> !OnFlushed(p).cells[b].Staged?
  {
    hide CountFilled, Written, Total, Separate, Aside, Live, Resting, OneStretch;
    FlushCalm(p.cells);
    CalmLive(p.cells, FlushCells(p.cells), p.running);
    CalmResting(p.cells, FlushCells(p.cells), p.parked);
    CalmStretch(p.cells, FlushCells(p.cells));
    FlushCounts(p.cells, 0);
  }

  /** Parking a task: what it wrote moves from the running sum to the parked sum. */
  lemma ParkConserved(p: Pool, i: nat)
    requires i < |p.running|
    ensures Written(p.running) + Written(p.parked)
            == Written(Without(p.running, i)) + Written(p.parked + [p.running[i]])
  {
    hide Written;
    WrittenWithout(p.running, i);
    WrittenConcat(p.parked, [p.running[i]]);
    WrittenOne(p.running[i]);
  }

  lemma WritingStops(cells: Cells, t: Attempt)
    requires Writing(cells, t)
    ensures Stopped(cells, t)
  {
    forall b | t.cursor <= b < t.hi ensures !Filled(cells[b]) {
      assert cells[b] == Held(t.worker);
    }
  }

  lemma ParkResting(cells: Cells, ts: seq<Attempt>, t: Attempt)
    requires Resting(cells, ts) && Stopped(cells, t)
    ensures Resting(cells, ts + [t])
  {
  }

  lemma CancelledSound(p: Pool, i: nat, workers: nat, start: nat)
    requires Sound(p, workers, start) && i < |p.running| && p.running[i].cancelled
    ensures Sound(OnCancelled(p, i), workers, start) && Kept(p.cells, OnCancelled(p, i).cells)
  {
    hide Written, Total, CountFilled, Separate, Aside, Resting, OneStretch, Writing, Stopped, HoldsNothing;
    WithoutKeeps(p.cells, p.running, p.parked, i);
    ParkConserved(p, i);
    WritingStops(p.cells, p.running[i]);
    ParkResting(p.cells, p.parked, p.running[i]);
  }

  lemma FailedCells(p: Pool, i: nat, workers: nat)
    requires i < |p.running| && Live(p.cells, p.running) && Separate(p.running) && Resting(p.cells, p.parked)
    requires OneStretch(p.cells) && Known(p.cells, p.running, workers)
    ensures var q := OnFailed(p, i);
            && Calm(p.cells, q.cells) && Kept(p.cells, q.cells) && Live(q.cells, Without(p.running, i))
            && Resting(q.cells, q.parked) && OneStretch(q.cells) && Known(q.cells, q.running, workers)
            && HoldsNothing(q.cells, p.running[i].worker)
  {
    hide AbandonCells, OneStretch, Resting, Stopped;
    var t, q := p.running[i], OnFailed(p, i);
    AbandonCalm(p.cells, t.worker);
    WithoutKeeps(p.cells, p.running, [], i);
    CalmLive(p.cells, q.cells, Without(p.running, i));
    WritingStops(p.cells, t);
    ParkResting(p.cells, p.parked, t);
    CalmResting(p.cells, q.cells, q.parked);
    CalmStretch(p.cells, q.cells);
  }

  lemma FailedSound(p: Pool, i: nat, workers: nat, start: nat)
    requires Sound(p, workers, start) && i < |p.running|
    ensures Sound(OnFailed(p, i), workers, start) && Kept(p.cells, OnFailed(p, i).cells)
  {
    hide Written, Total, CountFilled, Separate, Aside, Resting, OneStretch, Writing, Stopped, HoldsNothing,
      AbandonCells, Kept, Calm;
    var q := OnFailed(p, i);
    FailedCells(p, i, workers);
    WithoutKeeps(p.cells, p.running, p.parked, i);
    CancelKeeps(q.cells, Without(p.running, i), q.parked);
    ParkConserved(p, i);
    WrittenCancel(Without(p.running, i));
    FlushCounts(p.cells, p.running[i].worker);
  }

  lemma FinishedIdle(p: Pool, i: nat, workers: nat)
    requires i < |p.running| && Live(p.cells, p.running) && p.running[i].cursor == p.running[i].hi
    requires Known(p.cells, p.running, workers) && IdleOk(p, workers)
    ensures IdleOk(OnFinished(p, i), workers)
  {
    hide Without, CancelAll;
    FlushCalm(p.cells);
    assert Writing(p.cells, p.running[i]);
  }

  lemma FinishedConserved(p: Pool, i: nat, start: nat)
    requires i < |p.running| && Conserved(p, start) && p.running[i].lo <= p.running[i].cursor
    ensures Conserved(OnFinished(p, i), start)
  {
    hide Written, Total, CountFilled, Without;
    var t := p.running[i];
    FlushCounts(p.cells, 0);
    WrittenWithout(p.running, i);
    WrittenCancel(Without(p.running, i));
    TotalSnoc(p.reports, Report(t.worker, t.cursor - t.lo));
  }

  lemma FinishedSound(p: Pool, i: nat, workers: nat, start: nat)
    requires Sound(p, workers, start) && i < |p.running| && p.running[i].cursor == p.running[i].hi
    ensures Sound(OnFinished(p, i), workers, start) && Kept(p.cells, OnFinished(p, i).cells)
  {
    hide Separate, Aside, Resting, OneStretch, Writing, Stopped, HoldsNothing, Kept, Conserved, IdleOk;
    FlushedSound(p, workers, start);
    WithoutKeeps(FlushCells(p.cells), p.running, p.parked, i);
    CancelKeeps(FlushCells(p.cells), Without(p.running, i), p.parked);
    FinishedIdle(p, i, workers);
    RunningForward(p.cells, p.running, i);
    FinishedConserved(p, i, start);
  }

  lemma RunningForward(cells: Cells, ts: seq<Attempt>, i: nat)
    requires Live(cells, ts) && i < |ts|
    ensures ts[i].lo <= ts[i].cursor <= ts[i].hi <= |cells| && ts[i].lo < ts[i].hi
  {
    assert Writing(cells, ts[i]);
  }

  // ----- draining -----

  function Overlap(iv: Interval, lo: nat, hi: nat): nat
  {
    var from, to := Max(iv.start, lo), Min(iv.end, hi);
    if from <= to then to - from else 0
  }

  /** How many bytes of `[lo, hi)` the completed intervals cover. */
  function CompletedInside(ivs: seq<Interval>, lo: nat, hi: nat): nat
  {
    if ivs == [] then 0
    else CompletedInside(Init(ivs), lo, hi) + if Last(ivs).state == Complete then Overlap(Last(ivs), lo, hi) else 0
  }

  /** The interval sum counts the complete bytes of the range, one by one. */
  lemma {:induction false} CompletedInsideCounts(ivs: seq<Interval>, m: Owners, lo: nat, hi: nat)
    requires Describes(ivs, m) && lo <= hi
    ensures CompletedInside(ivs, lo, hi) == Count(m[Min(lo, |m|)..Min(hi, |m|)], Complete)
  {
    if ivs == [] {
      assert m == [];
    } else {
      var last := Last(ivs);
      var head := m[..last.start];
      InitDescribes(ivs, m);
      CompletedInsideCounts(Init(ivs), head, lo, hi);
      SplitCount(m, last.start, Min(lo, |m|), Min(hi, |m|));
      TailCount(m, last, lo, hi);
    }
  }

  lemma InitDescribes(ivs: seq<Interval>, m: Owners)
    requires Describes(ivs, m) && ivs != []
    ensures Last(ivs).start <= |m| && Describes(Init(ivs), m[..Last(ivs).start])
  {
    var last, init := Last(ivs), Init(ivs);
    forall k | 0 <= k < |init| ensures init[k].end <= last.start {
      DisjointOrder(ivs, |m|, k, |init|);
    }
  }

  /** Counting a range in two parts, before and after `at`. */
  lemma SplitCount(m: Owners, at: nat, lo: nat, hi: nat)
    requires at <= |m| && lo <= hi <= |m|
    ensures Count(m[lo..hi], Complete)
            == Count(m[..at][Min(lo, at)..Min(hi, at)], Complete) + Count(m[Max(lo, at)..Max(hi, at)], Complete)
  {
    hide Count;
    var a, b := m[..at][Min(lo, at)..Min(hi, at)], m[Max(lo, at)..Max(hi, at)];
    CountConcat(a, b, Complete);
    if hi <= at {
      assert m[lo..hi] == a + b;
    } else if at <= lo {
      assert m[lo..hi] == a + b;
    } else {
      assert m[lo..hi] == a + b;
    }
  }

  lemma TailCount(m: Owners, last: Interval, lo: nat, hi: nat)
    requires last.start <= last.end == |m| && AllAre(m, last.start, last.end, last.state) && lo <= hi
    ensures Count(m[Max(Min(lo, |m|), last.start)..Max(Min(hi, |m|), last.start)], Complete)
            == if last.state == Complete then Overlap(last, lo, hi) else 0
  {
    CountUniform(m[Max(Min(lo, |m|), last.start)..Max(Min(hi, |m|), last.start)], Complete, last.state);
  }

  function ParkedReports(m: Owners, ts: seq<Attempt>): seq<Report>
  {
    if ts == [] then []
    else
      var t, done := ts[|ts| - 1], ParkedReports(m, ts[..|ts| - 1]);
      var bytes := CompletedInside(Runs(m), t.lo, t.hi);
      if bytes > 0 then done + [Report(t.worker, bytes)] else done
  }

  /** Once flushed, the complete bytes of a stopped grant are those its task wrote. */
  lemma StoppedCounts(cells: Cells, t: Attempt)
    requires Stopped(cells, t) && forall b :: 0 <= b < |cells| ==> !cells[b].Staged?
    ensures CompletedInside(Runs(OwnersOf(cells)), t.lo, t.hi) == t.cursor - t.lo
  {
    hide Runs, Describes, CompletedInside, Count;
    var m := OwnersOf(cells);
    RunsDescribe(m);
    CompletedInsideCounts(Runs(m), m, t.lo, t.hi);
    CountPrefix(m, t.lo, t.cursor, t.hi);
  }

  lemma CountPrefix(m: Owners, lo: nat, mid: nat, hi: nat)
    requires lo <= mid <= hi <= |m| && AllAre(m, lo, mid, Complete)
    requires forall b :: mid <= b < hi ==> m[b] != Complete
    ensures Count(m[lo..hi], Complete) == mid - lo
  {
    hide Count;
    assert m[lo..hi] == m[lo..mid] + m[mid..hi];
    CountConcat(m[lo..mid], m[mid..hi], Complete);
    CountUniform(m[lo..mid], Complete, Complete);
    CountZeroIff(m[mid..hi], Complete);
  }

  lemma {:induction false} ParkedReportsTotal(cells: Cells, ts: seq<Attempt>)
    requires Resting(cells, ts) && forall b :: 0 <= b < |cells| ==> !cells[b].Staged?
    ensures Total(ParkedReports(OwnersOf(cells), ts)) == Written(ts)
  {
    hide CompletedInside, Runs;
    if ts != [] {
      var t, rest := ts[|ts| - 1], ts[..|ts| - 1];
      ParkedReportsTotal(cells, rest);
      assert Stopped(cells, t);
      StoppedCounts(cells, t);
      TotalSnoc(ParkedReports(OwnersOf(cells), rest), Report(t.worker, t.cursor - t.lo));
    }
  }

  lemma {:induction false} TotalConcat(a: seq<Report>, b: seq<Report>)
    ensures Total(a + b) == Total(a) + Total(b)
  {
    if b == [] {
      assert a + b == a;
    } else {
      TotalConcat(a, b[..|b| - 1]);
      assert (a + b)[..|a + b| - 1] == a + b[..|b| - 1];
    }
  }

  /** Every stopped task's worker is credited with what that task wrote, and no report is empty. */
  lemma {:induction false} ParkedReportsCredit(cells: Cells, ts: seq<Attempt>, w: U64)
    requires Resting(cells, ts) && forall b :: 0 <= b < |cells| ==> !cells[b].Staged?
    ensures var rs := ParkedReports(OwnersOf(cells), ts);
            Total(ReportsOf(rs, w)) == WrittenBy(ts, w) && NoneEmpty(rs)
  {
    hide CompletedInside, Runs, Total;
    if ts != [] {
      var t, rest := ts[|ts| - 1], ts[..|ts| - 1];
      ParkedReportsCredit(cells, rest, w);
      assert Stopped(cells, t);
      StoppedCounts(cells, t);
      ReportsOfSnoc(ParkedReports(OwnersOf(cells), rest), Report(t.worker, t.cursor - t.lo), w);
    } else {
      TotalConcat([], []);
      assert [] + [] == ReportsOf([], w);
    }
  }

  /** Every task is gone: commit what they staged and report what the parked ones completed. */
  function Drained(p: Pool): Pool
  {
    var cells := FlushCells(p.cells);
    p.(cells := cells, reports := p.reports + ParkedReports(OwnersOf(cells), p.parked), parked := [])
  }

  lemma DrainedSound(p: Pool, workers: nat, start: nat)
    requires Sound(p, workers, start) && p.running == []
    ensures Sound(Drained(p), workers, start) && Kept(p.cells, Drained(p).cells)
    ensures forall b :: 0 <= b < |p.cells| ==> !Drained(p).cells[b].Staged?
    ensures forall w :: Total(ReportsOf(Drained(p).reports, w))
                        == Total(ReportsOf(p.reports, w)) + WrittenBy(p.parked, w)
    ensures NoneEmpty(p.reports) ==> NoneEmpty(Drained(p).reports)
  {
    hide Written, Total, CountFilled, Resting, OneStretch, Stopped, HoldsNothing, ParkedReports;
    FlushedSound(p, workers, start);
    var cells := FlushCells(p.cells);
    forall w: U64
      ensures Total(ReportsOf(Drained(p).reports, w)) == Total(ReportsOf(p.reports, w)) + WrittenBy(p.parked, w)
    {
      DrainedCredit(p, cells, w);
    }
    assert NoneEmpty(ParkedReports(OwnersOf(cells), p.parked)) by {
      DrainedCredit(p, cells, 0);
    }
    ParkedReportsTotal(cells, p.parked);
    TotalConcat(p.reports, ParkedReports(OwnersOf(cells), p.parked));
    WrittenFromZero([]);
    RestingNone(cells);
  }

  lemma DrainedCredit(p: Pool, cells: Cells, w: U64)
    requires cells == FlushCells(p.cells) && Resting(cells, p.parked)
    ensures Total(ReportsOf(Drained(p).reports, w)) == Total(ReportsOf(p.reports, w)) + WrittenBy(p.parked, w)
    ensures NoneEmpty(ParkedReports(OwnersOf(cells), p.parked))
  {
    hide Total, ReportsOf, ParkedReports, Resting, WrittenBy;
    var rs := ParkedReports(OwnersOf(cells), p.parked);
    ParkedReportsCredit(cells, p.parked, w);
    ReportsOfConcat(p.reports, rs, w);
    TotalConcat(ReportsOf(p.reports, w), ReportsOf(rs, w));
  }

  lemma RestingNone(cells: Cells)
    ensures Resting(cells, [])
  {
  }

  // ----- scheduling -----

  ghost predicate Flushed(cells: Cells) { forall b :: 0 <= b < |cells| ==> !cells[b].Staged? }

  function HoldCells(cells: Cells, lo: nat, hi: nat, w: U64): (r: Cells)
    requires lo <= hi <= |cells|
    ensures |r| == |cells|
    ensures forall b :: 0 <= b < |cells| ==> r[b] == if lo <= b < hi then Held(w) else cells[b]
  {
    cells[..lo] + seq(hi - lo, _ => Held(w)) + cells[hi..]
  }

  lemma PaintHolds(cells: Cells, lo: nat, hi: nat, w: U64)
    requires Flushed(cells) && lo <= hi <= |cells|
    ensures CellsOf(Paint(OwnersOf(cells), lo, hi, InProgress(w))) == HoldCells(cells, lo, hi, w)
  {
  }

  /** A maximal run of a worker's bytes is all the worker holds. */
  lemma RunIsStretch(cells: Cells, lo: nat, hi: nat, w: U64)
    requires Flushed(cells) && OneStretch(cells)
    requires IsRun(OwnersOf(cells), lo, hi) && OwnersOf(cells)[lo] == InProgress(w)
    ensures forall b :: 0 <= b < |cells| ==> (cells[b] == Held(w) <==> lo <= b < hi)
  {
    var m := OwnersOf(cells);
    forall b | 0 <= b < |cells| ensures cells[b] == Held(w) <==> lo <= b < hi {
      assert m[b] == StateOf(cells[b]);
      assert b < lo ==> m[lo - 1] != m[lo];
      assert b >= hi ==> m[hi] != m[lo];
    }
  }

  /** The part of the cells a grant may take: all free, or the right end of one worker's stretch. */
  ghost predicate Takes(cells: Cells, lo: nat, hi: nat, w: U64, shortened: Option<A.Grant>)
  {
    && lo < hi <= |cells|
    && (shortened.None? ==> forall b :: lo <= b < hi ==> cells[b] == Free)
    && (shortened.Some? ==>
          var s := shortened.value;
          && s.worker != w && s.lo < s.hi == lo
          && forall b :: 0 <= b < |cells| ==> (cells[b] == Held(s.worker) <==> s.lo <= b < hi))
  }

  lemma TakesKeepsStretch(cells: Cells, lo: nat, hi: nat, w: U64, shortened: Option<A.Grant>)
    requires Takes(cells, lo, hi, w, shortened) && OneStretch(cells) && HoldsNothing(cells, w)
    ensures OneStretch(HoldCells(cells, lo, hi, w))
  {
    var r := HoldCells(cells, lo, hi, w);
    forall a, b, c | 0 <= a <= b <= c < |r| && r[a].Held? && r[a] == r[c] ensures r[b] == r[a] {
      if r[a] != Held(w) {
        assert cells[a] == cells[b] == cells[c];
      }
    }
  }

  /** What the allocator gives an idle worker of the pool, and that it never refuses one. */
  lemma AllocatedTakes(cells: Cells, w: U64, minSplit: U64)
    requires |cells| <= U64_MAX && minSplit > 0 && Flushed(cells) && OneStretch(cells) && HoldsNothing(cells, w)
    ensures var d := A.Decide(OwnersOf(cells), w, minSplit);
            && d.result.Ok?
            && (d.result.value.None? ==> forall b :: 0 <= b < |cells| ==> cells[b] != Free)
            && (d.result.value.Some? ==>
                  var g := d.result.value.value.grant;
                  && g.worker == w && Takes(cells, g.lo, g.hi, w, d.result.value.value.shortened)
                  && CellsOf(d.owners) == HoldCells(cells, g.lo, g.hi, w))
  {
    hide A.Decide, A.IsBestRun, OneStretch;
    var m := OwnersOf(cells);
    assert InProgress(w) !in m;
    A.AllocateNone(m, w, minSplit);
    if Pending in m {
      PendingTakes(cells, w, minSplit);
    } else if a: nat, b: nat :| IsRun(m, a, b) && m[a].InProgress? && b - a >= 2 * minSplit {
      SplitTakes(cells, w, minSplit, a, b);
    } else {
      assert forall b :: 0 <= b < |cells| ==> m[b] == StateOf(cells[b]);
    }
  }

  lemma PendingTakes(cells: Cells, w: U64, minSplit: U64)
    requires |cells| <= U64_MAX && Flushed(cells) && HoldsNothing(cells, w) && Pending in OwnersOf(cells)
    requires InProgress(w) !in OwnersOf(cells)
    ensures var d := A.Decide(OwnersOf(cells), w, minSplit);
            && d.result.Ok? && d.result.value.Some?
            && var g := d.result.value.value.grant;
               && g.worker == w && Takes(cells, g.lo, g.hi, w, d.result.value.value.shortened)
               && CellsOf(d.owners) == HoldCells(cells, g.lo, g.hi, w)
  {
    hide A.Decide, HoldsNothing;
    var m := OwnersOf(cells);
    A.AllocatePending(m, w, minSplit);
    var g := A.Decide(m, w, minSplit).result.value.value.grant;
    forall b | g.lo <= b < g.hi ensures cells[b] == Free {
      assert m[b] == m[g.lo] == StateOf(cells[b]);
    }
    PaintHolds(cells, g.lo, g.hi, w);
  }

  lemma SplitTakes(cells: Cells, w: U64, minSplit: U64, a: nat, b: nat)
    requires |cells| <= U64_MAX && minSplit > 0 && Flushed(cells) && OneStretch(cells)
    requires InProgress(w) !in OwnersOf(cells) && Pending !in OwnersOf(cells)
    requires IsRun(OwnersOf(cells), a, b) && OwnersOf(cells)[a].InProgress? && b - a >= 2 * minSplit
    ensures var d := A.Decide(OwnersOf(cells), w, minSplit);
            && d.result.Ok? && d.result.value.Some?
            && var g := d.result.value.value.grant;
               && g.worker == w && Takes(cells, g.lo, g.hi, w, d.result.value.value.shortened)
               && CellsOf(d.owners) == HoldCells(cells, g.lo, g.hi, w)
  {
    hide A.Decide, OneStretch;
    var m := OwnersOf(cells);
    A.AllocateSplit(m, w, minSplit, a, b);
    var al := A.Decide(m, w, minSplit).result.value.value;
    var g, s := al.grant, al.shortened.value;
    RunIsStretch(cells, s.lo, g.hi, s.worker);
    PaintHolds(cells, g.lo, g.hi, w);
  }

  /** The tasks restarted when no grant can be made: one for each active interval. */
  function ActiveGrants(ivs: seq<Interval>): seq<Attempt>
  {
    if ivs == [] then []
    else
      var r, iv := ActiveGrants(Init(ivs)), Last(ivs);
      if iv.state.InProgress? then r + [Attempt(iv.state.worker, iv.start, iv.end, iv.start, false)] else r
  }

  ghost predicate FromInterval(ivs: seq<Interval>, t: Attempt)
  {
    exists k :: 0 <= k < |ivs| && ivs[k] == Interval(t.lo, t.hi, InProgress(t.worker))
  }

  /** A task restarted from an interval: nothing written yet, and inside `[0, hi)`. */
  ghost predicate Restarted(ivs: seq<Interval>, t: Attempt, hi: nat)
  {
    FromInterval(ivs, t) && t.cursor == t.lo && !t.cancelled && t.hi <= hi
  }

  lemma RestartedMore(ivs: seq<Interval>, t: Attempt, hi: nat)
    requires ivs != [] && Restarted(Init(ivs), t, Last(ivs).start) && Last(ivs).start <= hi
    ensures Restarted(ivs, t, hi)
  {
    var k :| 0 <= k < |Init(ivs)| && Init(ivs)[k] == Interval(t.lo, t.hi, InProgress(t.worker));
    assert ivs[k] == Init(ivs)[k];
  }

  lemma RestartedLast(ivs: seq<Interval>, hi: nat)
    requires ivs != [] && Last(ivs).state.InProgress? && Last(ivs).end <= hi
    ensures var iv := Last(ivs); Restarted(ivs, Attempt(iv.state.worker, iv.start, iv.end, iv.start, false), hi)
  {
    assert ivs[|ivs| - 1] == Last(ivs);
  }

  lemma {:induction false} ActiveGrantsOrdered(ivs: seq<Interval>, hi: nat)
    requires Tiles(ivs, hi)
    ensures var r := ActiveGrants(ivs);
            && (forall k :: 0 <= k < |r| ==> Restarted(ivs, r[k], hi))
            && (forall j, k :: 0 <= j < k < |r| ==> r[j].hi <= r[k].lo)
  {
    hide Tiles, FromInterval;
    if ivs != [] {
      var iv, before, r := Last(ivs), ActiveGrants(Init(ivs)), ActiveGrants(ivs);
      InitTiles(ivs, hi);
      ActiveGrantsOrdered(Init(ivs), iv.start);
      assert before == ActiveGrants(Init(ivs));
      assert forall k :: 0 <= k < |before| ==> Restarted(Init(ivs), before[k], iv.start);
      forall k | 0 <= k < |r| ensures Restarted(ivs, r[k], hi) {
        if k < |before| {
          assert r[k] == before[k] && Restarted(Init(ivs), before[k], iv.start);
          RestartedMore(ivs, before[k], hi);
        } else {
          RestartedLast(ivs, hi);
        }
      }
    }
  }

  lemma {:induction false} ActiveGrantsNone(ivs: seq<Interval>)
    ensures ActiveGrants(ivs) == [] <==> forall k :: 0 <= k < |ivs| ==> !ivs[k].state.InProgress?
  {
    if ivs != [] {
      ActiveGrantsNone(Init(ivs));
      assert ivs == Init(ivs) + [Last(ivs)];
    }
  }

  lemma ActiveGrantsLive(cells: Cells)
    requires Flushed(cells) && OneStretch(cells)
    ensures var r := ActiveGrants(Runs(OwnersOf(cells)));
            && Live(cells, r) && Separate(r)
            && (r == [] <==> forall b :: 0 <= b < |cells| ==> !cells[b].Held?)
  {
    hide Runs, ActiveGrants, OneStretch, Describes, Merged;
    var m := OwnersOf(cells);
    var ivs := Runs(m);
    RunsDescribe(m);
    DescribesTiles(ivs, m);
    ActiveGrantsOrdered(ivs, |m|);
    ActiveGrantsNone(ivs);
    var r := ActiveGrants(ivs);
    forall k | 0 <= k < |r| ensures Writing(cells, r[k]) {
      assert Restarted(ivs, r[k], |m|);
      GrantIsLive(cells, ivs, r[k]);
    }
    OrderedSeparate(cells, r);
    NoneActive(cells, ivs);
  }

  lemma DescribesTiles(ivs: seq<Interval>, m: Owners)
    requires Describes(ivs, m)
    ensures Tiles(ivs, |m|)
  {
  }

  lemma GrantIsLive(cells: Cells, ivs: seq<Interval>, t: Attempt)
    requires Flushed(cells) && OneStretch(cells) && Describes(ivs, OwnersOf(cells)) && Merged(ivs)
    requires FromInterval(ivs, t) && t.cursor == t.lo
    ensures Writing(cells, t)
  {
    hide OneStretch, Describes, Merged;
    var k :| 0 <= k < |ivs| && ivs[k] == Interval(t.lo, t.hi, InProgress(t.worker));
    IntervalIsRun(ivs, OwnersOf(cells), k);
    RunIsStretch(cells, t.lo, t.hi, t.worker);
  }

  lemma OrderedSeparate(cells: Cells, r: seq<Attempt>)
    requires Live(cells, r) && forall k :: 0 <= k < |r| ==> r[k].cursor == r[k].lo
    requires forall j, k :: 0 <= j < k < |r| ==> r[j].hi <= r[k].lo
    ensures Separate(r)
  {
    forall j, k | 0 <= j < k < |r| ensures r[j].worker != r[k].worker {
      assert Writing(cells, r[j]) && Writing(cells, r[k]);
      assert cells[r[k].lo] == Held(r[k].worker) && cells[r[k].lo] != Held(r[j].worker);
    }
  }

  lemma NoneActive(cells: Cells, ivs: seq<Interval>)
    requires Flushed(cells) && Describes(ivs, OwnersOf(cells))
    ensures (forall k :: 0 <= k < |ivs| ==> !ivs[k].state.InProgress?)
            <==> (forall b :: 0 <= b < |cells| ==> !cells[b].Held?)
  {
    var m := OwnersOf(cells);
    forall b | 0 <= b < |cells| ensures exists k :: 0 <= k < |ivs| && ivs[k].state == m[b] {
      var k := Locate(ivs, |m|, b);
      assert ivs[k].state == m[b];
    }
    forall k | 0 <= k < |ivs| ensures m[ivs[k].start] == ivs[k].state {
    }
  }

  datatype WorkerFailure = Transport | TimedOut | Truncated | Permanent

  function RetryableFailure(f: WorkerFailure): Option<Retry.TransientKind>
  {
    match f
    case Transport => Some(Retry.ConnectionReset)
    case TimedOut => Some(Retry.Timeout)
    case Truncated => Some(Retry.TruncatedBody)
    case Permanent => None
  }

  datatype PoolError =
    | IncompleteCoverage
    | AllocatorRefused(error: A.AllocatorError)
    | WorkerFailed(worker: U64, failure: WorkerFailure)
    | WorkerJoin
    | StorageLost

  /** Offer work to the idle worker, or restart every worker that still owns some. */
  function Scheduled(p: Pool, minSplit: U64): Result<Pool, PoolError>
    requires |p.cells| <= U64_MAX
  {
    if p.idle.None? then Err(IncompleteCoverage)
    else
      var d := A.Decide(OwnersOf(p.cells), p.idle.value, minSplit);
      var q := p.(idle := None, draining := false);
      match d.result
      case Err(e) => Err(AllocatorRefused(e))
      case Ok(Some(a)) => Ok(q.(cells := CellsOf(d.owners), running := [Started(a.grant)]))
      case Ok(None) =>
        var tasks := ActiveGrants(Runs(OwnersOf(p.cells)));
        if tasks == [] then Err(IncompleteCoverage) else Ok(q.(running := tasks))
  }

  lemma HoldCounts(cells: Cells, lo: nat, hi: nat, w: U64)
    requires lo <= hi <= |cells| && forall b :: lo <= b < hi ==> !Filled(cells[b])
    ensures CountFilled(HoldCells(cells, lo, hi, w)) == CountFilled(cells) && Kept(cells, HoldCells(cells, lo, hi, w))
  {
    CountFilledSame(cells, HoldCells(cells, lo, hi, w));
  }

  lemma TakesUnfilled(cells: Cells, lo: nat, hi: nat, w: U64, shortened: Option<A.Grant>)
    requires Takes(cells, lo, hi, w, shortened)
    ensures forall b :: lo <= b < hi ==> !Filled(cells[b])
  {
    forall b | lo <= b < hi ensures !Filled(cells[b]) {
      assert shortened.Some? ==> cells[b] == Held(shortened.value.worker);
    }
  }

  lemma OneTask(cells: Cells, g: A.Grant)
    requires g.lo < g.hi <= |cells| && HoldsNothing(cells, g.worker)
    ensures var r := HoldCells(cells, g.lo, g.hi, g.worker);
            Live(r, [Started(g)]) && Separate([Started(g)])
  {
  }

  /** Scheduling a drained pool that is not done always starts a task, and breaks nothing. */
  lemma ScheduledSound(p: Pool, minSplit: U64, workers: nat, start: nat)
    requires Sound(p, workers, start) && p.running == [] && p.parked == [] && Flushed(p.cells)
    requires |p.cells| <= U64_MAX && minSplit > 0 && exists b :: 0 <= b < |p.cells| && p.cells[b] != Done
    ensures Scheduled(p, minSplit).Ok?
    ensures var q := Scheduled(p, minSplit).value;
            && Sound(q, workers, start) && q.running != [] && q.idle.None? && q.failures == p.failures
            && Written(q.running) == 0 && CountFilled(q.cells) == CountFilled(p.cells) && Kept(p.cells, q.cells)
  {
    hide A.Decide, OneStretch, Live, Separate, Written, Total, CountFilled, ActiveGrants, Takes;
    var w := p.idle.value;
    AllocatedTakes(p.cells, w, minSplit);
    var d := A.Decide(OwnersOf(p.cells), w, minSplit);
    if d.result.value.Some? {
      GrantedSound(p, d.result.value.value, workers, start);
    } else {
      RestartedSound(p, workers, start);
    }
  }

  lemma GrantedSound(p: Pool, al: A.Allocation, workers: nat, start: nat)
    requires Sound(p, workers, start) && p.running == [] && p.parked == []
    requires p.idle == Some(al.grant.worker) && Takes(p.cells, al.grant.lo, al.grant.hi, al.grant.worker, al.shortened)
    ensures al.grant.hi <= |p.cells|
    ensures var g := al.grant;
            var q := p.(idle := None, draining := false, cells := HoldCells(p.cells, g.lo, g.hi, g.worker),
                        running := [Started(g)]);
            && Sound(q, workers, start) && Written(q.running) == 0
            && CountFilled(q.cells) == CountFilled(p.cells) && Kept(p.cells, q.cells)
  {
    hide OneStretch, Live, Separate, Total, CountFilled, Kept;
    var g := al.grant;
    TakesUnfilled(p.cells, g.lo, g.hi, g.worker, al.shortened);
    TakesKeepsStretch(p.cells, g.lo, g.hi, g.worker, al.shortened);
    HoldCounts(p.cells, g.lo, g.hi, g.worker);
    OneTask(p.cells, g);
    WrittenOne(Started(g));
  }

  lemma RestartedSound(p: Pool, workers: nat, start: nat)
    requires Sound(p, workers, start) && p.running == [] && p.parked == [] && Flushed(p.cells)
    requires forall b :: 0 <= b < |p.cells| ==> p.cells[b] != Free
    requires exists b :: 0 <= b < |p.cells| && p.cells[b] != Done
    ensures var q := p.(idle := None, draining := false, running := ActiveGrants(Runs(OwnersOf(p.cells))));
            && Sound(q, workers, start) && Written(q.running) == 0 && q.running != []
  {
    hide OneStretch, Live, Separate, Total, CountFilled, ActiveGrants, Runs;
    var tasks := ActiveGrants(Runs(OwnersOf(p.cells)));
    ActiveGrantsLive(p.cells);
    TasksFresh(p.cells, tasks);
    forall i | 0 <= i < |tasks| ensures tasks[i].worker < workers {
      HolderKnown(p.cells, tasks, i, p.running, workers);
    }
    WrittenFromZero(tasks);
  }

  lemma HolderKnown(cells: Cells, ts: seq<Attempt>, i: nat, running: seq<Attempt>, workers: nat)
    requires Live(cells, ts) && i < |ts| && ts[i].cursor == ts[i].lo && Known(cells, running, workers)
    ensures ts[i].worker < workers
  {
    assert Writing(cells, ts[i]);
    assert cells[ts[i].lo] == Held(ts[i].worker);
  }

  lemma TasksFresh(cells: Cells, r: seq<Attempt>)
    requires r == ActiveGrants(Runs(OwnersOf(cells)))
    ensures forall k :: 0 <= k < |r| ==> r[k].cursor == r[k].lo && !r[k].cancelled
  {
    hide Runs, ActiveGrants, FromInterval;
    var m := OwnersOf(cells);
    RunsDescribe(m);
    ActiveGrantsOrdered(Runs(m), |m|);
  }
}
