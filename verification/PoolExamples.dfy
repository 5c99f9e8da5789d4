/**
 Two segmented downloads of a two-byte file by two workers, over a server that changes in between.
 Both succeed; the first file is neither version, the second holds a byte of a version of another length.
 */
module PoolExamples {
  import opened Base
  import opened Ownership
  import opened Intervals
  import A = Allocator
  import opened Desk
  import opened WorkerPool
  import opened PoolRuns
  import C = ContentRange
  import S = SingleStream
  import V = PoolVersions

  const NOTHING: Cells := [Free, Free]

  /** Version 0 is two ones, version 1 two twos, and every later one three threes. */
  const WORLD: S.World :=
    S.World((v: nat) => if v == 0 then [1, 1] else if v == 1 then [2, 2] else [3, 3, 3], (v: nat) => S.NoValidator)

  const START: Pool :=
    Pool([Held(0), Held(1)], [Attempt(0, 0, 1, 0, false), Attempt(1, 1, 2, 1, false)], [], [], None, false, 0)

  /** The first worker is granted everything, and the second takes the right half of it. */
  lemma StartIsFirst()
    ensures First(NOTHING, 2, 1) == START
  {
    hide A.Decide;
    var m0 := OwnersOf(NOTHING);
    assert FlushCells(NOTHING) == NOTHING && m0 == [Pending, Pending];
    A.AllocatePending(m0, 0, 1);
    var d0 := A.Decide(m0, 0, 1);
    var g0 := d0.result.value.value.grant;
    assert IsRun(m0, 0, 2);
    assert g0.lo == 0 && g0.hi == 2;
    var cells := CellsOf(d0.owners);
    assert cells == [Held(0), Held(0)];
    var m1 := OwnersOf(FlushCells(cells));
    assert m1 == [InProgress(0), InProgress(0)];
    assert IsRun(m1, 0, 2);
    A.AllocateSplit(m1, 1, 1, 0, 2);
    var d1 := A.Decide(m1, 1, 1);
    var g1 := d1.result.value.value.grant;
    assert g1.lo == 1 && g1.hi == 2;
    assert CellsOf(d1.owners) == [Held(0), Held(1)];
    assert Offered(NOTHING, 0, 1) == Opening(NOTHING, [], true);
    assert Offered(NOTHING, 1, 1) == Opening(cells, [Attempt(0, 0, 2, 0, false)], true);
  }

  /** The answer to the task whose grant is the byte at `lo`, from version `v`. */
  function AnswerTo(lo: U64, v: nat): V.Answer
    requires lo < 2
  {
    V.Answer(v, 206, Some(C.Print(C.Bytes(lo, lo, Some(|WORLD.reps(v)|)))), None)
  }

  function Answers(left: nat, right: nat): nat -> V.Answer
  {
    (lo: nat) => if lo == 0 then AnswerTo(0, left) else AnswerTo(1, right)
  }

  lemma AnswersAre(left: nat, right: nat)
    ensures Answers(left, right)(0) == AnswerTo(0, left) && Answers(left, right)(0).version == left
    ensures Answers(left, right)(1) == AnswerTo(1, right) && Answers(left, right)(1).version == right
  {
  }

  lemma Versions(v: nat)
    ensures WORLD.reps(v) == if v == 0 then [1, 1] else if v == 1 then [2, 2] else [3, 3, 3]
  {
  }

  lemma AnswerPasses(lo: U64, v: nat)
    requires lo < 2
    ensures V.Genuine(WORLD, AnswerTo(lo, v))
    ensures V.Checked(AnswerTo(lo, v), lo, lo + 1) == Ok(C.Bytes(lo, lo, Some(|WORLD.reps(v)|)))
  {
    hide C.Parse, C.Print;
    C.PrintParse(C.Bytes(lo, lo, Some(|WORLD.reps(v)|)));
  }

  /** A run so far: possible, answered, with these marks, and the pool is now `p`. */
  ghost predicate Reached(answers: nat -> V.Answer, log: seq<Event>, p: Pool, o: V.Origins)
  {
    && Played(START, log, 1) && V.Served(WORLD, answers, START, log, 1)
    && Now(START, log, 1) == p && V.OriginsOf(START, log, 1) == o
  }

  lemma NextReached(answers: nat -> V.Answer, log: seq<Event>, p: Pool, o: V.Origins, e: Event)
    requires Reached(answers, log, p, o) && p.running != [] && Enabled(p, 1, e) && Fatal(p, e).None?
    requires V.Fitting(WORLD, answers, p, e)
    ensures Reached(answers, log + [e], React(p, e), V.MarkedBy(o, p, e))
  {
    hide React, Fatal, V.Fitting, V.MarkedBy, Enabled;
    assert (log + [e])[..|log|] == log;
    FatalKinds(p, e);
    assert Staffed(p, 1) == p;
  }

  lemma EndReached(answers: nat -> V.Answer, log: seq<Event>, p: Pool, o: V.Origins)
    requires Reached(answers, log, p, o) && p.running == [] && AllDone(FlushCells(p.cells))
    ensures Ended(START, log, 1) && Verdict(START, log, 1).Ok?
  {
    hide Fatal, Played, Now, ParkedReports, SortReports, FlushCells;
    DrainedCells(p);
    if log != [] {
      PlayedLast(log);
    }
  }

  lemma PlayedLast(log: seq<Event>)
    requires Played(START, log, 1) && log != []
    ensures Happened(START, log, 1) && Broken(START, log, 1).None?
  {
    hide Fatal, Staffed, Enabled;
  }

  lemma StartReached(answers: nat -> V.Answer)
    ensures Reached(answers, [], START, [None, None])
  {
  }

  /** What one event does, with all that `NextReached` needs to know. */
  ghost predicate Goes(answers: nat -> V.Answer, p: Pool, o: V.Origins, e: Event, q: Pool, o': V.Origins)
  {
    && p.running != [] && Enabled(p, 1, e) && Fatal(p, e).None? && V.Fitting(WORLD, answers, p, e)
    && React(p, e) == q && V.MarkedBy(o, p, e) == o'
  }

  /** A task writes its only byte. */
  lemma WriteGoes(answers: nat -> V.Answer, p: Pool, o: V.Origins, i: nat, q: Pool, marks: V.Origins)
    requires |o| == |p.cells| == 2 && i < |p.running|
    requires var t := p.running[i];
             && t.lo == t.cursor < 2 && t.hi == t.lo + 1 && answers(t.lo) == AnswerTo(t.lo, answers(t.lo).version)
             && q.cells == p.cells[t.lo := Staged(t.worker)] && marks == o[t.lo := Some(t.lo)]
             && q.running == p.running[i := t.(cursor := t.hi)] && q == p.(cells := q.cells, running := q.running)
    ensures Goes(answers, p, o, Wrote(i, 1), q, marks)
  {
    hide V.Genuine, V.Checked;
    var t := p.running[i];
    AnswerPasses(t.lo, answers(t.lo).version);
  }

  /** A task finishes that has written its only byte, of a version as long as the file. */
  lemma FinishGoes(answers: nat -> V.Answer, p: Pool, o: V.Origins, i: nat, q: Pool)
    requires |o| == |p.cells| == 2 && i < |p.running|
    requires var t := p.running[i];
             && t.lo < 2 && t.cursor == t.hi == t.lo + 1 && answers(t.lo) == AnswerTo(t.lo, answers(t.lo).version)
             && |WORLD.reps(answers(t.lo).version)| == 2
    requires q == OnFinished(p, i)
    ensures Goes(answers, p, o, Finished(i), q, o)
  {
    hide V.Genuine, V.Checked, OnFinished;
    var t := p.running[i];
    AnswerPasses(t.lo, answers(t.lo).version);
  }

  lemma GoesOn(answers: nat -> V.Answer, log: seq<Event>, p: Pool, o: V.Origins, e: Event, next: seq<Event>, q: Pool,
               o': V.Origins)
    requires Reached(answers, log, p, o) && Goes(answers, p, o, e, q, o') && next == log + [e]
    ensures Reached(answers, next, q, o')
  {
    hide Reached, React, Enabled, Fatal, V.Fitting, V.MarkedBy;
    NextReached(answers, log, p, o, e);
  }

  const MIXED: seq<Event> := [Wrote(0, 1), Wrote(1, 1), Finished(0), Finished(0)]

  lemma MixedReached()
    ensures Reached(Answers(0, 1), MIXED, Pool([Done, Done], [], [], [Report(0, 1), Report(1, 1)], Some(0), true, 0),
                    [Some(0), Some(1)])
  {
    hide Reached, Goes, AnswerTo, Answers;
    var answers, a, b := Answers(0, 1), Attempt(0, 0, 1, 1, false), Attempt(1, 1, 2, 2, false);
    StartReached(answers);
    AnswersAre(0, 1);
    Versions(0);
    Versions(1);
    var none, one, both: V.Origins := [None, None], [Some(0), None], [Some(0), Some(1)];
    var p1 := START.(cells := [Staged(0), Held(1)], running := [a, START.running[1]]);
    WriteGoes(answers, START, none, 0, p1, one);
    GoesOn(answers, [], START, none, Wrote(0, 1), MIXED[..1], p1, one);
    var p2 := START.(cells := [Staged(0), Staged(1)], running := [a, b]);
    WriteGoes(answers, p1, one, 1, p2, both);
    GoesOn(answers, MIXED[..1], p1, one, Wrote(1, 1), MIXED[..2], p2, both);
    var p3 := Pool([Done, Done], [b.(cancelled := true)], [], [Report(0, 1)], Some(0), true, 0);
    FinishGoes(answers, p2, both, 0, p3);
    GoesOn(answers, MIXED[..2], p2, both, Finished(0), MIXED[..3], p3, both);
    var p4 := Pool([Done, Done], [], [], [Report(0, 1), Report(1, 1)], Some(0), true, 0);
    FinishGoes(answers, p3, both, 0, p4);
    GoesOn(answers, MIXED[..3], p3, both, Finished(0), MIXED, p4, both);
  }

  /** The file is the first byte of version 0 and the second of version 1, and neither version. */
  lemma MixedVersions()
    ensures var first := First(NOTHING, 2, 1);
            var o := V.OriginsOf(first, MIXED, 1);
            && Ended(first, MIXED, 1) && Verdict(first, MIXED, 1).Ok?
            && V.Served(WORLD, Answers(0, 1), first, MIXED, 1)
            && V.Content(WORLD, Answers(0, 1), o)(0) == 1 && V.Content(WORLD, Answers(0, 1), o)(1) == 2
            && forall v: nat :: !V.OneVersion(WORLD, Answers(0, 1), o, v)
  {
    hide Ended, Verdict, Played, V.Served, Now, V.OriginsOf, First;
    StartIsFirst();
    MixedReached();
    EndReached(Answers(0, 1), MIXED, Pool([Done, Done], [], [], [Report(0, 1), Report(1, 1)], Some(0), true, 0),
               [Some(0), Some(1)]);
    var o: V.Origins := [Some(0), Some(1)];
    AnswersAre(0, 1);
    Versions(0);
    Versions(1);
    forall v: nat ensures !V.OneVersion(WORLD, Answers(0, 1), o, v) {
      Versions(v);
      assert o[0].Some? && o[1].Some?;
    }
  }

  const CUT: seq<Event> := [Wrote(1, 1), Finished(1), Wrote(0, 1), Cancelled(0)]

  lemma CutReached()
    ensures Reached(Answers(2, 1), CUT,
                    Pool([Staged(0), Done], [], [Attempt(0, 0, 1, 1, true)], [Report(1, 1)], Some(1), true, 0),
                    [Some(0), Some(1)])
  {
    hide Reached, Goes, AnswerTo, Answers;
    var answers, a, b := Answers(2, 1), Attempt(0, 0, 1, 0, true), Attempt(1, 1, 2, 2, false);
    StartReached(answers);
    AnswersAre(2, 1);
    Versions(1);
    var none, one, both: V.Origins := [None, None], [None, Some(1)], [Some(0), Some(1)];
    var p1 := START.(cells := [Held(0), Staged(1)], running := [START.running[0], b]);
    WriteGoes(answers, START, none, 1, p1, one);
    GoesOn(answers, [], START, none, Wrote(1, 1), CUT[..1], p1, one);
    var p2 := Pool([Held(0), Done], [a], [], [Report(1, 1)], Some(1), true, 0);
    FinishGoes(answers, p1, one, 1, p2);
    GoesOn(answers, CUT[..1], p1, one, Finished(1), CUT[..2], p2, one);
    var p3 := p2.(cells := [Staged(0), Done], running := [a.(cursor := 1)]);
    WriteGoes(answers, p2, one, 0, p3, both);
    GoesOn(answers, CUT[..2], p2, one, Wrote(0, 1), CUT[..3], p3, both);
    var p4 := p3.(running := [], parked := [a.(cursor := 1)]);
    CancelGoes(answers, p3, both, p4);
    GoesOn(answers, CUT[..3], p3, both, Cancelled(0), CUT, p4, both);
  }

  lemma CancelGoes(answers: nat -> V.Answer, p: Pool, o: V.Origins, q: Pool)
    requires |p.running| == 1 && p.running[0].cancelled && q == p.(running := [], parked := p.parked + p.running)
    ensures Goes(answers, p, o, Cancelled(0), q, o)
  {
  }

  /** The first byte is from a version of three bytes, though the file has two: its task never finished. */
  lemma OtherLength()
    ensures var first := First(NOTHING, 2, 1);
            var o := V.OriginsOf(first, CUT, 1);
            && Ended(first, CUT, 1) && Verdict(first, CUT, 1).Ok? && V.Served(WORLD, Answers(2, 1), first, CUT, 1)
            && o[0] == Some(0) && !V.RightLength(WORLD, Answers(2, 1), o, 0)
  {
    hide Ended, Verdict, Played, V.Served, Now, V.OriginsOf, First;
    StartIsFirst();
    CutReached();
    EndReached(Answers(2, 1), CUT,
               Pool([Staged(0), Done], [], [Attempt(0, 0, 1, 1, true)], [Report(1, 1)], Some(1), true, 0),
               [Some(0), Some(1)]);
    AnswersAre(2, 1);
    Versions(2);
  }
}
