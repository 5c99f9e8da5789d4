/**
 Which version of the representation each byte of a segmented download comes from.

 The pool's workers ask for exact ranges and send no `If-Range`, so the server may answer them from
 different versions. Each answer is checked against the request before its body is accepted, and
 against the whole grant only when the worker finishes. The theorems say what that leaves: every byte
 is that byte of the version that answered its task, the file is one version exactly when the
 answers were, and a task that is cut short may leave bytes of a version of another length.
 */
module PoolVersions {
  import opened Base
  import A = Allocator
  import T = Actor
  import opened Desk
  import opened Simulation
  import opened WorkerPool
  import opened PoolRuns
  import C = ContentRange
  import S = SingleStream

  /** A response to a task: the version it is served from, and what its headers say. */
  datatype Answer = Answer(version: nat, status: nat, header: Option<string>, encoding: Option<string>)

  /** The check of the headers before the body is accepted. */
  function Checked(a: Answer, lo: nat, hi: nat): Result<C.ContentRange, C.RangeProofError>
    requires lo < hi <= U64_MAX
  {
    C.ProveRange(C.FromTo(lo, hi - 1), a.status, a.header, a.encoding, S.ClaimedLen(a.header))
  }

  /** A `Content-Range` gives the length of the version it is served from. */
  ghost predicate Genuine(world: S.World, a: Answer)
  {
    a.header.Some? ==>
      match C.Parse(a.header.value)
      case Ok(Bytes(_, _, Some(total))) => total == |world.reps(a.version)|
      case _ => true
  }

  /**
   What an event needs of the answer to its task. Answers are listed by where the task's grant begins: a
   task that writes anything fills that byte, so no later task that writes begins there.
   */
  ghost predicate Fitting(world: S.World, answers: nat -> Answer, p: Pool, e: Event)
  {
    match e
    case Wrote(i, n) =>
      i < |p.running| ==>
        var t := p.running[i];
        && t.lo < t.hi <= U64_MAX && Genuine(world, answers(t.lo))
        && var v := Checked(answers(t.lo), t.lo, t.hi);
           v.Ok? && v.value.Bytes? && t.cursor + n <= v.value.last + 1
    case Finished(i) =>
      i < |p.running| ==>
        var t := p.running[i];
        && t.lo < t.hi <= U64_MAX && Genuine(world, answers(t.lo))
        && var v := Checked(answers(t.lo), t.lo, t.hi);
           v.Ok? && C.MatchesGrant(Some(v.value), t.lo, t.hi, |p.cells|)
    case _ => true
  }

  /** Every task of the run got an answer that allowed what it did. */
  ghost predicate Served(world: S.World, answers: nat -> Answer, first: Pool, log: seq<Event>, minSplit: U64)
    requires |first.cells| <= U64_MAX
  {
    log == [] || (var n := |log| - 1;
                  && Served(world, answers, first, log[..n], minSplit)
                  && Fitting(world, answers, Staffed(Now(first, log[..n], minSplit), minSplit), log[n]))
  }

  // ----- where a byte comes from -----

  type Origins = seq<Option<nat>>

  function Marked(o: Origins, lo: nat, hi: nat, at: nat): (r: Origins)
    requires lo <= hi <= |o|
    ensures |r| == |o| && forall b :: 0 <= b < |o| ==> r[b] == if lo <= b < hi then Some(at) else o[b]
  {
    o[..lo] + seq(hi - lo, _ => Some(at)) + o[hi..]
  }

  function MarkedBy(o: Origins, p: Pool, e: Event): (r: Origins)
    ensures |r| == |o|
  {
    match e
    case Wrote(i, n) =>
      if i < |p.running| && p.running[i].cursor + n <= |o|
      then Marked(o, p.running[i].cursor, p.running[i].cursor + n, p.running[i].lo) else o
    case _ => o
  }

  /** For each byte the run wrote, where the grant of the task that wrote it begins. */
  function OriginsOf(first: Pool, log: seq<Event>, minSplit: U64): (o: Origins)
    requires |first.cells| <= U64_MAX
    ensures |o| == |first.cells|
  {
    if log == [] then seq(|first.cells|, _ => None)
    else
      var n := |log| - 1;
      MarkedBy(OriginsOf(first, log[..n], minSplit), Staffed(Now(first, log[..n], minSplit), minSplit), log[n])
  }

  /** The origins are known exactly for the bytes filled since `first`. */
  ghost predicate Matching(first: Cells, cells: Cells, o: Origins)
  {
    && |first| == |cells| == |o|
    && forall b :: 0 <= b < |o| ==>
         (Filled(cells[b]) <==> Filled(first[b]) || o[b].Some?) && (o[b].Some? ==> !Filled(first[b]))
  }

  /** The byte is that of the version that answered its task. */
  ghost predicate FromItsAnswer(world: S.World, answers: nat -> Answer, o: Origins)
  {
    forall b :: 0 <= b < |o| && o[b].Some? ==> o[b].value <= b < |world.reps(answers(o[b].value).version)|
  }

  /** Finding work fills nothing. */
  lemma StaffedMatches(first: Cells, p: Pool, minSplit: U64, o: Origins)
    requires |p.cells| <= U64_MAX && Matching(first, p.cells, o)
    ensures Matching(first, Staffed(p, minSplit).cells, o)
  {
    hide Scheduled, ParkedReports;
    if p.running == [] {
      var q := Drained(p);
      FlushCalm(p.cells);
      DrainedCells(p);
      ScheduledMatches(first, q, minSplit, o);
    }
  }

  lemma ScheduledMatches(first: Cells, q: Pool, minSplit: U64, o: Origins)
    requires |q.cells| <= U64_MAX && Matching(first, q.cells, o) && Flushed(q.cells)
    ensures Scheduled(q, minSplit).Ok? ==> Matching(first, Scheduled(q, minSplit).value.cells, o)
  {
    hide A.Decide, ActiveGrants;
    if q.idle.Some? {
      T.DecideKeepsComplete(OwnersOf(q.cells), q.idle.value, minSplit);
    }
  }

  /** An event fills exactly what it marks. */
  lemma ReactMatches(first: Cells, p: Pool, e: Event, o: Origins)
    requires Matching(first, p.cells, o) && Live(p.cells, p.running) && Enabled(p, 1, e)
    ensures Matching(first, React(p, e).cells, MarkedBy(o, p, e))
    ensures forall b :: 0 <= b < |o| && o[b].Some? ==> MarkedBy(o, p, e)[b] == o[b]
  {
    hide FlushCells, AbandonCells, CancelAll;
    FlushCalm(p.cells);
    match e
    case Wrote(i, n) => WroteMatches(first, p, i, n, o);
    case Failed(i, _) => AbandonCalm(p.cells, p.running[i].worker);
    case _ =>
  }

  lemma WroteMatches(first: Cells, p: Pool, i: nat, n: nat, o: Origins)
    requires Matching(first, p.cells, o) && Live(p.cells, p.running) && Enabled(p, 1, Wrote(i, n))
    ensures Matching(first, React(p, Wrote(i, n)).cells, MarkedBy(o, p, Wrote(i, n)))
    ensures forall b :: 0 <= b < |o| && o[b].Some? ==> MarkedBy(o, p, Wrote(i, n))[b] == o[b]
  {
    var t := p.running[i];
    assert Writing(p.cells, t);
    forall b | t.cursor <= b < t.cursor + n ensures !Filled(p.cells[b]) {
      assert p.cells[b] == Held(t.worker);
    }
  }

  /** An answer that passed the check is the part asked for of a version that long. */
  lemma CheckedPart(world: S.World, a: Answer, lo: nat, hi: nat)
    requires lo < hi <= U64_MAX && Checked(a, lo, hi).Ok? && Genuine(world, a)
    ensures var v := Checked(a, lo, hi).value;
            v.Bytes? && v.first == lo && v.last < hi && v.completeLength == Some(|world.reps(a.version)|)
            && v.last < |world.reps(a.version)|
  {
    hide C.Parse, C.Encoded, S.ClaimedLen;
    var v := Checked(a, lo, hi).value;
    C.ProvenMeans(C.FromTo(lo, hi - 1), a.status, a.header, a.encoding, S.ClaimedLen(a.header), v);
  }

  /** A marked byte lies inside the version that answered. */
  lemma MarkedInside(world: S.World, answers: nat -> Answer, p: Pool, e: Event, o: Origins)
    requires FromItsAnswer(world, answers, o) && Live(p.cells, p.running) && Enabled(p, 1, e)
    requires Fitting(world, answers, p, e)
    ensures FromItsAnswer(world, answers, MarkedBy(o, p, e))
  {
    hide Genuine, Checked;
    if e.Wrote? {
      var t := p.running[e.task];
      assert Writing(p.cells, t);
      CheckedPart(world, answers(t.lo), t.lo, t.hi);
    }
  }

  /** Every byte a run fills is that byte of the version that answered the task that wrote it. */
  lemma {:induction false} EveryByteServed(world: S.World, answers: nat -> Answer, first: Pool, log: seq<Event>,
                                           minSplit: U64, workers: nat, start: nat)
    requires Sound(first, workers, start) && first.failures == 0 && |first.cells| <= U64_MAX && minSplit > 0
    requires Played(first, log, minSplit) && Served(world, answers, first, log, minSplit)
    ensures var o := OriginsOf(first, log, minSplit);
            Matching(first.cells, Now(first, log, minSplit).cells, o) && FromItsAnswer(world, answers, o)
  {
    hide Sound, Staffed, React, Fatal, Enabled, Fitting, MarkedBy, FromItsAnswer, Matching, Leads, Within, Live, Kept;
    if log == [] {
      NothingMarked(world, answers, first.cells);
    } else {
      var n := |log| - 1;
      var p := StepPool(first, log, minSplit, workers, start);
      var o := OriginsOf(first, log[..n], minSplit);
      EveryByteServed(world, answers, first, log[..n], minSplit, workers, start);
      StaffedMatches(first.cells, Now(first, log[..n], minSplit), minSplit, o);
      ReactMatches(first.cells, p, log[n], o);
      MarkedInside(world, answers, p, log[n], o);
    }
  }

  /** The pool the last event of a run meets. */
  lemma StepPool(first: Pool, log: seq<Event>, minSplit: U64, workers: nat, start: nat) returns (p: Pool)
    requires Sound(first, workers, start) && first.failures == 0 && |first.cells| <= U64_MAX && minSplit > 0
    requires Played(first, log, minSplit) && log != []
    ensures p == Staffed(Now(first, log[..|log| - 1], minSplit), minSplit) && Live(p.cells, p.running)
    ensures Enabled(p, 1, log[|log| - 1]) && Now(first, log, minSplit) == React(p, log[|log| - 1])
  {
    hide Sound, Staffed, React, Fatal, Enabled, Within, Live, Leads, Kept;
    var pre := log[..|log| - 1];
    PlayedSound(first, pre, minSplit, workers, start);
    var before := Now(first, pre, minSplit);
    SoundWithin(before, workers, start);
    StaffedSound(before, minSplit, workers, start, |before.cells| + 1);
    p := Staffed(before, minSplit);
    SoundLive(p, workers, start);
  }

  lemma NothingMarked(world: S.World, answers: nat -> Answer, cells: Cells)
    ensures Matching(cells, cells, seq(|cells|, _ => None)) && FromItsAnswer(world, answers, seq(|cells|, _ => None))
  {
  }

  /** No byte is written by two tasks: what one write marked stays marked. */
  lemma {:induction false} MarksStay(world: S.World, answers: nat -> Answer, first: Pool, log: seq<Event>,
                                     minSplit: U64, workers: nat, start: nat, k: nat)
    requires Sound(first, workers, start) && first.failures == 0 && |first.cells| <= U64_MAX && minSplit > 0
    requires Played(first, log, minSplit) && Served(world, answers, first, log, minSplit) && k < |log|
    ensures log[k].Wrote? ==>
              var p := Staffed(Now(first, log[..k], minSplit), minSplit);
              && log[k].task < |p.running|
              && var t := p.running[log[k].task];
                 && t.cursor + log[k].count <= |first.cells|
                 && forall b :: t.cursor <= b < t.cursor + log[k].count ==>
                      OriginsOf(first, log, minSplit)[b] == Some(t.lo)
  {
    hide Sound, Staffed, React, Fatal, Fitting, Matching, Leads, Within, Live, Kept;
    var n := |log| - 1;
    var p := StepPool(first, log, minSplit, workers, start);
    var o := OriginsOf(first, log[..n], minSplit);
    if k == n {
      MarkedHere(p, log[n], o);
    } else {
      MarksStay(world, answers, first, log[..n], minSplit, workers, start, k);
      assert log[..n][..k] == log[..k];
      EveryByteServed(world, answers, first, log[..n], minSplit, workers, start);
      StaffedMatches(first.cells, Now(first, log[..n], minSplit), minSplit, o);
      ReactMatches(first.cells, p, log[n], o);
    }
  }

  lemma MarkedHere(p: Pool, e: Event, o: Origins)
    requires Live(p.cells, p.running) && Enabled(p, 1, e) && |o| == |p.cells|
    ensures e.Wrote? ==>
              && e.task < |p.running|
              && var t := p.running[e.task];
                 && t.cursor + e.count <= |o|
                 && forall b :: t.cursor <= b < t.cursor + e.count ==> MarkedBy(o, p, e)[b] == Some(t.lo)
  {
    if e.Wrote? {
      assert Writing(p.cells, p.running[e.task]);
    }
  }

  // ----- one version or several -----

  /** The byte the run put at `b`. */
  function Content(world: S.World, answers: nat -> Answer, o: Origins): nat -> Byte
  {
    (b: nat) =>
      if b < |o| && o[b].Some? && b < |world.reps(answers(o[b].value).version)|
      then world.reps(answers(o[b].value).version)[b] else 0
  }

  /** Every byte the run wrote is that byte of version `v`. */
  ghost predicate OneVersion(world: S.World, answers: nat -> Answer, o: Origins, v: nat)
  {
    forall b :: 0 <= b < |o| && o[b].Some? ==>
      b < |world.reps(v)| && Content(world, answers, o)(b) == world.reps(v)[b]
  }

  ghost predicate AllAnsweredFrom(answers: nat -> Answer, o: Origins, v: nat)
  {
    forall b :: 0 <= b < |o| && o[b].Some? ==> answers(o[b].value).version == v
  }

  /** No two versions have a byte in common. */
  ghost predicate DifferEverywhere(world: S.World)
  {
    forall i: nat, j: nat, b: nat {:trigger world.reps(i)[b], world.reps(j)[b]} ::
      i != j && b < |world.reps(i)| && b < |world.reps(j)| ==> world.reps(i)[b] != world.reps(j)[b]
  }

  /** Answers from one version give that version; where versions differ everywhere, nothing else does. */
  lemma OneVersionIff(world: S.World, answers: nat -> Answer, o: Origins, v: nat)
    requires FromItsAnswer(world, answers, o)
    ensures AllAnsweredFrom(answers, o, v) ==> OneVersion(world, answers, o, v)
    ensures DifferEverywhere(world) ==> (OneVersion(world, answers, o, v) <==> AllAnsweredFrom(answers, o, v))
  {
    if DifferEverywhere(world) && OneVersion(world, answers, o, v) {
      forall b | 0 <= b < |o| && o[b].Some? ensures answers(o[b].value).version == v {
        var w := answers(o[b].value).version;
        assert Content(world, answers, o)(b) == world.reps(w)[b] == world.reps(v)[b];
      }
    }
  }

  // ----- the length of the versions -----

  /** Where the grants of the tasks that finished begin. */
  function Finishers(first: Pool, log: seq<Event>, minSplit: U64): set<nat>
    requires |first.cells| <= U64_MAX
  {
    if log == [] then {}
    else
      var n := |log| - 1;
      var p := Staffed(Now(first, log[..n], minSplit), minSplit);
      Finishers(first, log[..n], minSplit)
      + if log[n].Finished? && log[n].task < |p.running| then {p.running[log[n].task].lo} else {}
  }

  /** A task that finished was answered from a version as long as the file. */
  lemma {:induction false} FinishedLength(world: S.World, answers: nat -> Answer, first: Pool, log: seq<Event>,
                                          minSplit: U64, at: nat)
    requires |first.cells| <= U64_MAX && Served(world, answers, first, log, minSplit)
    requires at in Finishers(first, log, minSplit)
    ensures |world.reps(answers(at).version)| == |first.cells|
  {
    hide Staffed, Now, Genuine, Checked;
    var n := |log| - 1;
    if at in Finishers(first, log[..n], minSplit) {
      FinishedLength(world, answers, first, log[..n], minSplit, at);
    } else {
      var t := Staffed(Now(first, log[..n], minSplit), minSplit).running[log[n].task];
      CheckedPart(world, answers(at), t.lo, t.hi);
    }
  }

  ghost predicate RightLength(world: S.World, answers: nat -> Answer, o: Origins, at: nat)
  {
    |world.reps(answers(at).version)| == |o|
  }

  /**
   All bytes come from versions as long as the file exactly when the tasks that were cut short after
   writing something were answered from such versions: nothing checks theirs.
   */
  lemma LengthsIff(world: S.World, answers: nat -> Answer, first: Pool, log: seq<Event>, minSplit: U64)
    requires |first.cells| <= U64_MAX && Served(world, answers, first, log, minSplit)
    ensures var o, done := OriginsOf(first, log, minSplit), Finishers(first, log, minSplit);
            (forall b :: 0 <= b < |o| && o[b].Some? ==> RightLength(world, answers, o, o[b].value)) <==>
            (forall b :: 0 <= b < |o| && o[b].Some? && o[b].value !in done ==>
               RightLength(world, answers, o, o[b].value))
  {
    hide Served, OriginsOf, Finishers;
    var o, done := OriginsOf(first, log, minSplit), Finishers(first, log, minSplit);
    forall b | 0 <= b < |o| && o[b].Some? && o[b].value in done ensures RightLength(world, answers, o, o[b].value) {
      FinishedLength(world, answers, first, log, minSplit, o[b].value);
    }
  }
}
