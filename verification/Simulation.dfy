/**
 Cell operations carried out by a running actor.

 The scheduler speaks of cells; the actor speaks of commands, storage and a journal. `Track` ties
 the two together, and `RunSimulated` turns every permitted sequence of cell operations into a
 run of the actor that accepts the bytes of `content`.
 */
module Simulation {
  import opened Base
  import opened Ownership
  import A = Allocator
  import opened JournalFormat
  import opened Writer
  import opened CommitOrder
  import opened Actor
  import opened Desk

  datatype Op =
    | Granting(worker: U64)
    | Storing(worker: U64, lo: nat, hi: nat)
    | Committing
    | Ticking(due: bool)
    | Releasing(worker: U64)

  /** Operations that commit the batch whatever is in it. */
  predicate Fence(op: Op) { op.Granting? || op.Committing? || op.Releasing? }

  /** A worker may write one block, into cells it holds. */
  ghost predicate Allowed(cells: Cells, op: Op)
  {
    op.Storing? ==>
      && op.lo < op.hi <= |cells| && op.hi - op.lo <= U32_MAX
      && forall b :: op.lo <= b < op.hi ==> cells[b] == Held(op.worker)
  }

  function Apply(cells: Cells, op: Op, minSplit: U64): (r: Cells)
    requires |cells| <= U64_MAX
    ensures |r| == |cells|
  {
    match op
    case Granting(w) =>
      DecideKeepsComplete(OwnersOf(FlushCells(cells)), w, minSplit);
      CellsOf(AllocateCells(cells, w, minSplit).owners)
    case Storing(w, lo, hi) => if lo <= hi <= |cells| then StageCells(cells, lo, hi, w) else cells
    case Committing => FlushCells(cells)
    case Ticking(due) => if due then FlushCells(cells) else cells
    case Releasing(w) => AbandonCells(cells, w)
  }

  function Operate(cells: Cells, ops: seq<Op>, minSplit: U64): (r: Cells)
    requires |cells| <= U64_MAX
    ensures |r| == |cells|
  {
    if ops == [] then cells
    else Apply(Operate(cells, ops[..|ops| - 1], minSplit), ops[|ops| - 1], minSplit)
  }

  ghost predicate Permitted(cells: Cells, ops: seq<Op>, minSplit: U64)
    requires |cells| <= U64_MAX
  {
    ops == [] || (var n := |ops| - 1;
                  Permitted(cells, ops[..n], minSplit) && Allowed(Operate(cells, ops[..n], minSplit), ops[n]))
  }

  /** `after` is where the permitted operations `ops` lead. */
  ghost predicate Leads(cells: Cells, ops: seq<Op>, minSplit: U64, after: Cells)
  {
    |cells| <= U64_MAX && Permitted(cells, ops, minSplit) && after == Operate(cells, ops, minSplit)
  }

  lemma LeadsNowhere(cells: Cells, minSplit: U64)
    requires |cells| <= U64_MAX
    ensures Leads(cells, [], minSplit, cells)
  {
  }

  lemma LeadsOn(cells: Cells, ops: seq<Op>, minSplit: U64, mid: Cells, op: Op)
    requires Leads(cells, ops, minSplit, mid) && Allowed(mid, op)
    ensures |mid| <= U64_MAX && Leads(cells, ops + [op], minSplit, Apply(mid, op, minSplit))
  {
    hide Apply, Allowed;
    assert (ops + [op])[..|ops|] == ops;
  }

  lemma {:induction false} LeadsThrough(cells: Cells, ops: seq<Op>, minSplit: U64, mid: Cells, more: seq<Op>,
                                        after: Cells)
    requires Leads(cells, ops, minSplit, mid) && Leads(mid, more, minSplit, after)
    ensures Leads(cells, ops + more, minSplit, after)
  {
    hide Apply, Allowed;
    if more == [] {
      assert ops + more == ops;
    } else {
      var n := |more| - 1;
      LeadsThrough(cells, ops, minSplit, mid, more[..n], Operate(mid, more[..n], minSplit));
      LeadsOn(cells, ops + more[..n], minSplit, Operate(mid, more[..n], minSplit), more[n]);
      assert ops + more == ops + more[..n] + [more[n]];
    }
  }

  // ----- sequence numbers -----

  function Cost(op: Op): nat { if op.Storing? then 1 else 0 }

  function Writes(ops: seq<Op>): nat
  {
    if ops == [] then 0 else Writes(ops[..|ops| - 1]) + Cost(ops[|ops| - 1])
  }

  lemma ApplyCounts(cells: Cells, op: Op, minSplit: U64)
    requires |cells| <= U64_MAX && Allowed(cells, op)
    ensures CountFilled(Apply(cells, op, minSplit)) >= CountFilled(cells) + Cost(op)
  {
    hide CountFilled, A.Decide;
    FlushCounts(cells, if op.Releasing? then op.worker else 0);
    match op
    case Granting(w) =>
      DecideKeepsComplete(OwnersOf(FlushCells(cells)), w, minSplit);
      CountFilledSame(FlushCells(cells), Apply(cells, op, minSplit));
    case Storing(w, lo, hi) => StageCounts(cells, lo, hi, w);
    case _ =>
  }

  /** Every write fills a byte, so the missing bytes bound the sequence numbers a run needs. */
  lemma {:induction false} WritesBounded(cells: Cells, ops: seq<Op>, minSplit: U64)
    requires |cells| <= U64_MAX && Permitted(cells, ops, minSplit)
    ensures CountFilled(cells) + Writes(ops) <= CountFilled(Operate(cells, ops, minSplit)) <= |cells|
  {
    hide CountFilled, Apply, Allowed;
    CountFilledBounds(Operate(cells, ops, minSplit));
    if ops != [] {
      var n := |ops| - 1;
      WritesBounded(cells, ops[..n], minSplit);
      ApplyCounts(Operate(cells, ops[..n], minSplit), ops[n], minSplit);
    }
  }

  /** An allocation that grants nothing changes nothing. */
  lemma NoGrantKeeps(m: Owners, worker: U64, minSplit: U64)
    requires |m| <= U64_MAX
    ensures var d := A.Decide(m, worker, minSplit);
            d.result.Err? || d.result.value.None? ==> d.owners == m
  {
  }

  /** Granting over committed cells takes exactly what the allocator grants. */
  lemma GrantingFlushed(cells: Cells, worker: U64, minSplit: U64)
    requires |cells| <= U64_MAX && forall b :: 0 <= b < |cells| ==> !cells[b].Staged?
    ensures var d := A.Decide(OwnersOf(cells), worker, minSplit);
            && Apply(cells, Granting(worker), minSplit) == CellsOf(d.owners)
            && (d.result.Err? || d.result.value.None? ==> CellsOf(d.owners) == cells)
  {
    hide A.Decide;
    assert FlushCells(cells) == cells;
    NoGrantKeeps(OwnersOf(cells), worker, minSplit);
  }

  // ----- one operation -----

  /** The same cells up to what has already been committed. */
  ghost predicate Alike(c: Cells, v: Cells)
  {
    && |c| == |v|
    && forall b :: 0 <= b < |c| ==> (Filled(c[b]) <==> Filled(v[b])) && (!Filled(c[b]) ==> c[b] == v[b])
  }

  ghost predicate Track(crc: Checksum, hash: Hash, h: FileHeader, a: Actor, acc: History, recs: seq<JournalRecord>,
                        cells: Cells)
  {
    |acc| == |a.owners| && Working(crc, hash, h, a, acc, recs) && Alike(cells, View(a.owners, acc))
  }

  /** Accepted bytes are kept, and new ones are those of `content`. */
  ghost predicate Grown(acc: History, acc': History, content: nat -> Byte)
  {
    && |acc| == |acc'|
    && forall b :: 0 <= b < |acc| ==> acc'[b] == acc[b] || (acc[b].None? && acc'[b] == Some(content(b)))
  }

  function Block(content: nat -> Byte, lo: nat, hi: nat): (r: seq<Byte>)
    requires lo <= hi
    ensures |r| == hi - lo && forall i :: 0 <= i < |r| ==> r[i] == content(lo + i)
  {
    seq(hi - lo, i requires 0 <= i < hi - lo => content(lo + i))
  }

  /** The command that carries out an operation at time `now`. */
  ghost function CommandFor(op: Op, content: nat -> Byte, now: nat): Command
    requires op.Storing? ==> op.lo <= op.hi && op.lo <= U64_MAX
  {
    match op
    case Granting(w) => Allocate(w)
    case Storing(w, lo, hi) => Write(w, lo, Block(content, lo, hi), now)
    case Committing => FlushAll
    case Ticking(_) => FlushDue(now)
    case Releasing(w) => Abandon(w)
  }

  lemma AlikeFlushes(c: Cells, v: Cells)
    requires Alike(c, v)
    ensures FlushCells(c) == FlushCells(v) && Alike(FlushCells(c), v) && Alike(c, FlushCells(v))
  {
  }

  lemma AlikeStages(c: Cells, v: Cells, lo: nat, hi: nat, w: U64)
    requires Alike(c, v) && lo <= hi <= |c|
    ensures Alike(StageCells(c, lo, hi, w), StageCells(v, lo, hi, w))
  {
  }

  lemma StepKeepsSplit(crc: Checksum, hash: Hash, a: Actor, c: Command, faults: Faults)
    requires Fitting(a)
    ensures Step(crc, hash, a, c, faults).actor.minSplit == a.minSplit
  {
    hide Flush, FlushIfDue, Stage, CompleteRange, A.Decide, Count;
  }

  lemma StoringSimulated(crc: Checksum, hash: Hash, h: FileHeader, a: Actor, acc: History, recs: seq<JournalRecord>,
                         cells: Cells, op: Op, content: nat -> Byte, now: nat) returns (recs': seq<JournalRecord>)
    requires Track(crc, hash, h, a, acc, recs, cells) && Fitting(a) && Allowed(cells, op) && op.Storing?
    requires |cells| <= U64_MAX && Used(a) < U64_MAX
    ensures var c := CommandFor(op, content, now);
            var next, acc' := Step(crc, hash, a, c, HEALTHY).actor, HistoryAfter(a, c, HEALTHY, acc);
            && Track(crc, hash, h, next, acc', recs', Apply(cells, op, a.minSplit)) && Used(next) == Used(a) + 1
            && Grown(acc, acc', content)
  {
    hide Step, HistoryAfter, Working, FlushCells, StageCells;
    var bytes := Block(content, op.lo, op.hi);
    var v := View(a.owners, acc);
    forall b | op.lo <= b < op.lo + |bytes| ensures v[b] == Held(op.worker) {
      assert cells[b] == Held(op.worker);
    }
    recs' := WriteView(crc, hash, h, a, acc, recs, op.worker, op.lo, bytes, now);
    AlikeStages(cells, v, op.lo, op.hi, op.worker);
    AlikeFlushes(StageCells(cells, op.lo, op.hi, op.worker), StageCells(v, op.lo, op.hi, op.worker));
    NotYetAccepted(crc, hash, h, a, acc, recs, op.worker, op.lo, op.hi);
  }

  lemma NotYetAccepted(crc: Checksum, hash: Hash, h: FileHeader, a: Actor, acc: History, recs: seq<JournalRecord>,
                       worker: U64, lo: nat, hi: nat)
    requires Working(crc, hash, h, a, acc, recs) && lo <= hi <= |acc|
    requires forall b :: lo <= b < hi ==> View(a.owners, acc)[b] == Held(worker)
    ensures forall b :: lo <= b < hi ==> acc[b].None?
  {
    forall b | lo <= b < hi ensures acc[b].None? {
      assert View(a.owners, acc)[b] == Held(worker);
    }
  }

  /** One operation is one command; a fence makes the actor's cells exactly the operation's result. */
  lemma OpSimulated(crc: Checksum, hash: Hash, h: FileHeader, a: Actor, acc: History, recs: seq<JournalRecord>,
                    cells: Cells, op: Op, content: nat -> Byte, now: nat) returns (recs': seq<JournalRecord>)
    requires Track(crc, hash, h, a, acc, recs, cells) && Fitting(a) && Allowed(cells, op)
    requires |cells| <= U64_MAX && Used(a) + Cost(op) <= U64_MAX
    ensures var c := CommandFor(op, content, now);
            var next, acc' := Step(crc, hash, a, c, HEALTHY).actor, HistoryAfter(a, c, HEALTHY, acc);
            && Track(crc, hash, h, next, acc', recs', Apply(cells, op, a.minSplit)) && Used(next) == Used(a) + Cost(op)
            && (Fence(op) ==> View(next.owners, acc') == Apply(cells, op, a.minSplit))
            && Grown(acc, acc', content)
  {
    hide Step, Working, FlushCells, StageCells, A.Decide, View, Recorded;
    var v := View(a.owners, acc);
    AlikeFlushes(cells, v);
    match op
    case Granting(w) =>
      recs' := AllocateView(crc, hash, h, a, acc, recs, w);
      NoGrantKeeps(OwnersOf(FlushCells(cells)), w, a.minSplit);
    case Storing(_, _, _) => recs' := StoringSimulated(crc, hash, h, a, acc, recs, cells, op, content, now);
    case Committing => recs' := CommitView(crc, hash, h, a, acc, recs);
    case Ticking(_) => recs' := TickView(crc, hash, h, a, acc, recs, now);
    case Releasing(w) => recs' := AbandonView(crc, hash, h, a, acc, recs, w);
  }

  // ----- whole runs -----

  /** The commands of a run are those of its operations, served without a fault. */
  ghost predicate Carries(ops: seq<Op>, content: nat -> Byte, clock: nat -> nat, events: seq<Event>)
  {
    && |events| == |ops|
    && forall i :: 0 <= i < |ops| ==>
         && (ops[i].Storing? ==> ops[i].lo <= ops[i].hi && ops[i].lo <= U64_MAX)
         && events[i] == Event(CommandFor(ops[i], content, clock(i)), HEALTHY)
  }

  /** Every permitted sequence of operations is a run of the actor, ending in the same cells. */
  lemma {:induction false} RunSimulated(crc: Checksum, hash: Hash, h: FileHeader, a: Actor, acc: History,
                                        recs: seq<JournalRecord>, cells: Cells, ops: seq<Op>, content: nat -> Byte,
                                        clock: nat -> nat)
    returns (states: seq<Actor>, hists: seq<History>, events: seq<Event>, recs': seq<JournalRecord>)
    requires Track(crc, hash, h, a, acc, recs, cells) && |cells| <= U64_MAX && Permitted(cells, ops, a.minSplit)
    requires Used(a) + Writes(ops) <= U64_MAX
    ensures IsTrace(crc, hash, states, hists, events) && Carries(ops, content, clock, events)
    ensures states[0] == a && hists[0] == acc
    ensures var next, acc', after := states[|ops|], hists[|ops|], Operate(cells, ops, a.minSplit);
            && Track(crc, hash, h, next, acc', recs', after)
            && next.minSplit == a.minSplit && Used(next) == Used(a) + Writes(ops)
            && (ops != [] && Fence(ops[|ops| - 1]) ==> View(next.owners, acc') == after)
            && Grown(acc, acc', content)
  {
    hide Track, Step, HistoryAfter, Fitting, Apply, Allowed, CommandFor, View, Fence, Grown, Used;
    if ops == [] {
      states, hists, events, recs' := [a], [acc], [], recs;
      GrownNothing(acc, content);
    } else {
      var n := |ops| - 1;
      var mid;
      states, hists, events, mid := RunSimulated(crc, hash, h, a, acc, recs, cells, ops[..n], content, clock);
      var b, bcc, op := states[n], hists[n], ops[n];
      TrackFits(crc, hash, h, b, bcc, mid, Operate(cells, ops[..n], a.minSplit));
      StoringInside(Operate(cells, ops[..n], a.minSplit), op);
      recs' := OpSimulated(crc, hash, h, b, bcc, mid, Operate(cells, ops[..n], a.minSplit), op, content, clock(n));
      var c := CommandFor(op, content, clock(n));
      StepKeepsSplit(crc, hash, b, c, HEALTHY);
      GrownMore(acc, bcc, HistoryAfter(b, c, HEALTHY, bcc), content);
      states := states + [Step(crc, hash, b, c, HEALTHY).actor];
      hists := hists + [HistoryAfter(b, c, HEALTHY, bcc)];
      events := events + [Event(c, HEALTHY)];
    }
  }

  lemma TrackFits(crc: Checksum, hash: Hash, h: FileHeader, a: Actor, acc: History, recs: seq<JournalRecord>,
                  cells: Cells)
    requires Track(crc, hash, h, a, acc, recs, cells)
    ensures Fitting(a) && |acc| == |a.owners|
  {
    AbleFits(crc, hash, h, a, acc, recs);
  }

  lemma StoringInside(cells: Cells, op: Op)
    requires |cells| <= U64_MAX && Allowed(cells, op)
    ensures op.Storing? ==> op.lo <= op.hi && op.lo <= U64_MAX
  {
  }

  lemma GrownNothing(acc: History, content: nat -> Byte)
    ensures Grown(acc, acc, content)
  {
  }

  lemma GrownMore(acc: History, mid: History, acc': History, content: nat -> Byte)
    requires Grown(acc, mid, content) && Grown(mid, acc', content)
    ensures Grown(acc, acc', content)
  {
  }
}
