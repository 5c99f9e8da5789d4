/**
 The sole allocator of byte ranges: which range an idle worker is given, and when it gets none.

 `Decide` is the decision as a function of the byte map; `AllocatePending`, `AllocateSplit` and
 `AllocateNone` say what it is in terms of maximal runs, without the search. The class makes the same
 decision on the interval vector it owns.
 */
module Allocator {
  import opened Base
  import opened Ownership
  import opened Intervals

  datatype Grant = Grant(worker: U64, lo: U64, hi: U64)

  datatype Allocation = Allocation(grant: Grant, shortened: Option<Grant>)

  datatype AllocatorError =
    | ZeroMinimumSplit
    | WorkerAlreadyActive(worker: U64)
    | Rejected(error: IntervalMapError)

  function Length(iv: Interval): int { iv.end - iv.start }

  /** The ordering of candidates: longer wins, and between equals the lower offset. */
  predicate Beats(best: Interval, other: Interval)
  {
    Length(best) > Length(other) || (Length(best) == Length(other) && other.start > best.start)
  }

  predicate IsPending(s: State) { s == Pending }

  predicate IsActive(s: State) { s.InProgress? }

  function Preferred(ivs: seq<Interval>, want: State -> bool): Option<Interval>
  {
    if ivs == [] then None
    else
      var best := Preferred(Init(ivs), want);
      if !want(Last(ivs).state) then best
      else if best.Some? && Beats(best.value, Last(ivs)) then best
      else Some(Last(ivs))
  }

  /** `Preferred` is the maximum of the wanted intervals, and absent only when there are none. */
  lemma {:induction false} PreferredIsMaximum(ivs: seq<Interval>, want: State -> bool)
    ensures Preferred(ivs, want).None? <==> forall k :: 0 <= k < |ivs| ==> !want(ivs[k].state)
    ensures Preferred(ivs, want).Some? ==>
              var iv := Preferred(ivs, want).value;
              && iv in ivs && want(iv.state)
              && forall k :: 0 <= k < |ivs| && want(ivs[k].state) ==> ivs[k] == iv || !Beats(ivs[k], iv)
  {
    if ivs != [] {
      PreferredIsMaximum(Init(ivs), want);
      assert ivs == Init(ivs) + [Last(ivs)];
    }
  }

  datatype Decision = Decision(owners: Owners, result: Result<Option<Allocation>, AllocatorError>)

  /** Where a grant is cut in half. */
  function Midpoint(lo: nat, hi: nat): (at: nat)
    requires lo <= hi
    ensures hi - lo >= 2 ==> lo < at < hi
    ensures 2 * (at - lo) <= hi - lo <= 2 * (at - lo) + 1
  {
    lo + (hi - lo) / 2
  }

  function Decide(m: Owners, worker: U64, minSplit: U64): Decision
    requires |m| <= U64_MAX
  {
    if InProgress(worker) in m then Decision(m, Err(WorkerAlreadyActive(worker)))
    else
      PreferredInside(m, IsPending);
      match Preferred(Runs(m), IsPending)
      case None => DecideSplit(m, worker, minSplit)
      case Some(iv) =>
        match Ownership.Grant(m, iv.start, iv.end, worker)
        case Err(e) => Decision(m, Err(Rejected(e)))
        case Ok(next) => Decision(next, Ok(Some(Allocation(Grant(worker, iv.start, iv.end), None))))
  }

  function DecideSplit(m: Owners, worker: U64, minSplit: U64): Decision
    requires |m| <= U64_MAX
  {
    PreferredInside(m, IsActive);
    if minSplit * 2 > U64_MAX then Decision(m, Ok(None))
    else
      match Preferred(Runs(m), IsActive)
      case None => Decision(m, Ok(None))
      case Some(iv) =>
        if Length(iv) < minSplit * 2 then Decision(m, Ok(None))
        else
          var at := Midpoint(iv.start, iv.end);
          match Split(m, at, iv.state.worker, worker)
          case Err(e) => Decision(m, Err(Rejected(e)))
          case Ok(next) =>
            Decision(next, Ok(Some(Allocation(Grant(worker, at, iv.end),
                                              Some(Grant(iv.state.worker, iv.start, at))))))
  }

  /** A preferred interval is a run of the byte map, and no wanted run beats it. */
  lemma PreferredInside(m: Owners, want: State -> bool)
    ensures Preferred(Runs(m), want).Some? ==>
              var iv := Preferred(Runs(m), want).value;
              IsRun(m, iv.start, iv.end) && m[iv.start] == iv.state && want(iv.state)
    ensures Preferred(Runs(m), want).None? ==> forall b :: 0 <= b < |m| ==> !want(m[b])
  {
    RunsDescribe(m);
    PreferredIsMaximum(Runs(m), want);
    if Preferred(Runs(m), want).Some? {
      var k :| 0 <= k < |Runs(m)| && Runs(m)[k] == Preferred(Runs(m), want).value;
      IntervalIsRun(Runs(m), m, k);
    } else {
      forall b | 0 <= b < |m| ensures !want(m[b]) {
        var k := Locate(Runs(m), |m|, b);
      }
    }
  }

  /** `[lo, hi)` is a wanted maximal run no wanted run beats. */
  ghost predicate IsBestRun(m: Owners, want: State -> bool, lo: nat, hi: nat)
  {
    && IsRun(m, lo, hi) && want(m[lo])
    && forall a: nat, b: nat :: IsRun(m, a, b) && want(m[a]) ==> b - a < hi - lo || (b - a == hi - lo && lo <= a)
  }

  lemma RunIsInterval(m: Owners, a: nat, b: nat) returns (k: nat)
    requires IsRun(m, a, b)
    ensures k < |Runs(m)| && Runs(m)[k] == Interval(a, b, m[a])
  {
    RunsDescribe(m);
    k := Locate(Runs(m), |m|, a);
    IntervalIsRun(Runs(m), m, k);
    var iv := Runs(m)[k];
    assert m[iv.start] == m[a];
    RunsStartingTogether(m, a, b, iv.end);
  }

  lemma PreferredIsBestRun(m: Owners, want: State -> bool)
    requires Preferred(Runs(m), want).Some?
    ensures var iv := Preferred(Runs(m), want).value;
            IsBestRun(m, want, iv.start, iv.end) && m[iv.start] == iv.state
  {
    PreferredInside(m, want);
    PreferredIsMaximum(Runs(m), want);
    var iv := Preferred(Runs(m), want).value;
    forall a: nat, b: nat | IsRun(m, a, b) && want(m[a])
      ensures b - a < iv.end - iv.start || (b - a == iv.end - iv.start && iv.start <= a)
    {
      var k := RunIsInterval(m, a, b);
    }
  }

  /** What an idle worker is given when some byte is pending: the best pending run, whole. */
  lemma AllocatePending(m: Owners, worker: U64, minSplit: U64)
    requires |m| <= U64_MAX && InProgress(worker) !in m && Pending in m
    ensures var d := Decide(m, worker, minSplit);
            && d.result.Ok? && d.result.value.Some? && d.result.value.value.shortened == None
            && var g := d.result.value.value.grant;
               && g.worker == worker && IsBestRun(m, IsPending, g.lo, g.hi)
               && d.owners == Paint(m, g.lo, g.hi, InProgress(worker))
  {
    PreferredInside(m, IsPending);
    PreferredIsBestRun(m, IsPending);
  }

  lemma SplitAt(m: Owners, lo: nat, hi: nat, at: U64, source: U64, worker: U64)
    requires |m| <= U64_MAX && IsRun(m, lo, hi) && lo < at < hi
    requires m[lo] == InProgress(source) && source != worker
    ensures Split(m, at, source, worker) == Ok(Paint(m, at, hi, InProgress(worker)))
  {
    assert m[at - 1] == m[at] == m[lo];
    RunEndIs(m, lo, hi, at);
  }

  lemma SplitOutcome(m: Owners, worker: U64, minSplit: U64, iv: Interval) returns (at: U64)
    requires |m| <= U64_MAX && InProgress(worker) !in m && minSplit > 0
    requires Preferred(Runs(m), IsActive) == Some(iv) && Length(iv) >= 2 * minSplit
    ensures IsBestRun(m, IsActive, iv.start, iv.end) && iv.end <= |m|
    ensures iv.state.InProgress? && m[iv.start] == iv.state && iv.state.worker != worker
    ensures iv.start + minSplit <= at <= iv.end - minSplit && at - iv.start <= iv.end - at <= at - iv.start + 1
    ensures DecideSplit(m, worker, minSplit)
            == Decision(Paint(m, at, iv.end, InProgress(worker)),
                        Ok(Some(Allocation(Grant(worker, at, iv.end),
                                           Some(Grant(iv.state.worker, iv.start, at))))))
  {
    PreferredInside(m, IsActive);
    PreferredIsBestRun(m, IsActive);
    at := Midpoint(iv.start, iv.end);
    SplitAt(m, iv.start, iv.end, at, iv.state.worker, worker);
  }

  /** With nothing pending, the best active run is halved if both halves meet the minimum. */
  lemma AllocateSplit(m: Owners, worker: U64, minSplit: U64, a: nat, b: nat)
    requires |m| <= U64_MAX && InProgress(worker) !in m && Pending !in m && minSplit > 0
    requires IsRun(m, a, b) && m[a].InProgress? && b - a >= 2 * minSplit
    ensures var d := Decide(m, worker, minSplit);
            && d.result.Ok? && d.result.value.Some? && d.result.value.value.shortened.Some?
            && var g, s := d.result.value.value.grant, d.result.value.value.shortened.value;
               && g.worker == worker && s.worker != worker && s.hi == g.lo
               && IsBestRun(m, IsActive, s.lo, g.hi) && m[s.lo] == InProgress(s.worker)
               && s.hi - s.lo >= minSplit && g.hi - g.lo >= minSplit
               && s.hi - s.lo <= g.hi - g.lo <= s.hi - s.lo + 1
               && d.owners == Paint(m, g.lo, g.hi, InProgress(worker))
  {
    PreferredInside(m, IsPending);
    PreferredInside(m, IsActive);
    var iv := Preferred(Runs(m), IsActive).value;
    PreferredIsBestRun(m, IsActive);
    assert Length(iv) >= b - a;
    var at := SplitOutcome(m, worker, minSplit, iv);
  }

  /** A worker that still holds a byte is refused, and nobody else is. */
  lemma AllocateBusy(m: Owners, worker: U64, minSplit: U64)
    requires |m| <= U64_MAX && minSplit > 0
    ensures var d := Decide(m, worker, minSplit);
            && (d.result.Err? <==> exists b :: 0 <= b < |m| && m[b] == InProgress(worker))
            && (d.result.Err? ==> d == Decision(m, Err(WorkerAlreadyActive(worker))))
  {
    hide DecideSplit, Runs, Preferred;
    if InProgress(worker) !in m {
      AllocateNone(m, worker, minSplit);
    }
  }

  /** Nothing is allocated exactly when nothing is pending and every active run is too short. */
  lemma AllocateNone(m: Owners, worker: U64, minSplit: U64)
    requires |m| <= U64_MAX && InProgress(worker) !in m && minSplit > 0
    ensures Decide(m, worker, minSplit).result.Ok?
    ensures Decide(m, worker, minSplit).result == Ok(None) <==>
            && Pending !in m
            && forall a: nat, b: nat :: IsRun(m, a, b) && m[a].InProgress? ==> b - a < 2 * minSplit
    ensures Decide(m, worker, minSplit).result == Ok(None) ==> Decide(m, worker, minSplit).owners == m
  {
    hide Midpoint, Split, Runs, Preferred;
    if Pending in m {
      AllocatePending(m, worker, minSplit);
    } else if a: nat, b: nat :| IsRun(m, a, b) && m[a].InProgress? && b - a >= 2 * minSplit {
      AllocateSplit(m, worker, minSplit, a, b);
    } else {
      PreferredInside(m, IsPending);
      PreferredInside(m, IsActive);
    }
  }

  class SegmentAllocator {
    const intervals: IntervalMap
    const minSplitBytes: U64

    ghost predicate Valid()
      reads this, intervals
    {
      intervals.Valid() && minSplitBytes > 0
    }

    constructor (owned: IntervalMap, minSplit: U64)
      requires owned.Valid() && minSplit > 0
      ensures Valid() && intervals == owned && minSplitBytes == minSplit
    {
      intervals := owned;
      minSplitBytes := minSplit;
    }

    /** A pending map over the whole representation, or the refusal of a zero split floor. */
    static method Create(total: U64, minSplit: U64) returns (r: Result<SegmentAllocator, AllocatorError>)
      ensures r.Err? <==> minSplit == 0
      ensures r.Err? ==> r.error == ZeroMinimumSplit
      ensures r.Ok? ==> fresh(r.value) && fresh(r.value.intervals) && r.value.Valid()
                        && r.value.minSplitBytes == minSplit
                        && r.value.intervals.Owners() == Fill(total, Pending)
    {
      if minSplit == 0 {
        return Err(ZeroMinimumSplit);
      }
      var owned := new IntervalMap(total);
      var allocator := new SegmentAllocator(owned, minSplit);
      r := Ok(allocator);
    }

    method Allocate(worker: U64) returns (r: Result<Option<Allocation>, AllocatorError>)
      requires Valid()
      modifies intervals`intervals
      ensures Valid() && |old(intervals.Owners())| == intervals.totalLength
      ensures Decision(intervals.Owners(), r) == Decide(old(intervals.Owners()), worker, minSplitBytes)
    {
      ghost var m := intervals.Owners();
      CanonicalIsRuns(intervals.intervals, intervals.totalLength);
      ExpandDescribes(intervals.intervals, intervals.totalLength);
      ActiveSomewhere(intervals.intervals, m, InProgress(worker));
      PreferredInside(m, IsPending);
      if exists k | 0 <= k < |intervals.intervals| :: intervals.intervals[k].state == InProgress(worker) {
        return Err(WorkerAlreadyActive(worker));
      }
      var pending := Preferred(intervals.intervals, IsPending);
      if pending.None? {
        r := SplitLargest(worker);
        return;
      }
      var lo, hi := pending.value.start, pending.value.end;
      var granted := intervals.Grant(lo, hi, worker);
      r := if granted.Err? then Err(Rejected(granted.error))
           else Ok(Some(Allocation(Grant(worker, lo, hi), None)));
    }

    method SplitLargest(worker: U64) returns (r: Result<Option<Allocation>, AllocatorError>)
      requires Valid()
      modifies intervals`intervals
      ensures Valid() && |old(intervals.Owners())| == intervals.totalLength
      ensures Decision(intervals.Owners(), r) == DecideSplit(old(intervals.Owners()), worker, minSplitBytes)
    {
      ghost var m := intervals.Owners();
      CanonicalIsRuns(intervals.intervals, intervals.totalLength);
      PreferredInside(m, IsActive);
      if minSplitBytes * 2 > U64_MAX {
        return Ok(None);
      }
      var active := Preferred(intervals.intervals, IsActive);
      if active.None? || Length(active.value) < minSplitBytes * 2 {
        return Ok(None);
      }
      var range, source := active.value, active.value.state.worker;
      var at := Midpoint(range.start, range.end);
      var split := intervals.SplitInProgress(at, source, worker);
      r := if split.Err? then Err(Rejected(split.error))
           else Ok(Some(Allocation(Grant(worker, at, range.end), Some(Grant(source, range.start, at)))));
    }

    method CompleteDurable(worker: U64, lo: U64, hi: U64) returns (r: Result<Unit, AllocatorError>)
      requires Valid()
      modifies intervals`intervals
      ensures Valid() && |old(intervals.Owners())| == intervals.totalLength
      ensures match CompleteRange(old(intervals.Owners()), lo, hi, worker)
              case Ok(m) => r.Ok? && intervals.Owners() == m
              case Err(e) => r == Err(Rejected(e)) && intervals.Owners() == old(intervals.Owners())
    {
      var done := intervals.Complete(lo, hi, worker);
      r := if done.Ok? then Ok(Unit) else Err(Rejected(done.error));
    }

    method Abandon(worker: U64) returns (released: U64)
      requires Valid()
      modifies intervals`intervals
      ensures Valid() && intervals.Owners() == Release(old(intervals.Owners()), worker)
      ensures released == Count(old(intervals.Owners()), InProgress(worker))
    {
      released := intervals.Abandon(worker);
    }
  }

  lemma ActiveSomewhere(ivs: seq<Interval>, m: Owners, s: State)
    requires Describes(ivs, m)
    ensures s in m <==> exists k :: 0 <= k < |ivs| && ivs[k].state == s
  {
    forall k | 0 <= k < |ivs| ensures ivs[k].state in m {
      assert m[ivs[k].start] == ivs[k].state;
    }
    forall b | 0 <= b < |m| ensures exists k :: 0 <= k < |ivs| && ivs[k].state == m[b] {
      var k := Locate(ivs, |m|, b);
      assert ivs[k].state == m[b];
    }
  }

  // ----- one interval per worker -----

  /** The bytes of a worker form at most one interval. */
  ghost predicate OneInterval(m: Owners, worker: U64)
  {
    forall a, b, c :: 0 <= a <= b <= c < |m| && m[a] == m[c] == InProgress(worker) ==> m[b] == m[a]
  }

  /**
   Completing `[lo, hi)` out of a worker's only interval `[a, b)` is accepted, and leaves at most
   one interval exactly when it reaches one end of it.
   */
  lemma CompletionKeepsOneIff(m: Owners, worker: U64, a: nat, b: nat, lo: U64, hi: U64)
    requires |m| <= U64_MAX && a <= lo < hi <= b <= |m|
    requires forall x :: 0 <= x < |m| ==> (m[x] == InProgress(worker) <==> a <= x < b)
    ensures CompleteRange(m, lo, hi, worker).Ok?
    ensures OneInterval(CompleteRange(m, lo, hi, worker).value, worker) <==> lo == a || hi == b
  {
    var r := Paint(m, lo, hi, Complete);
    assert CompleteRange(m, lo, hi, worker) == Ok(r);
    if lo != a && hi != b {
      assert r[a] == r[b - 1] == InProgress(worker) && r[lo] == Complete;
    }
  }

  /** Completing the middle byte of three leaves the worker two intervals. */
  lemma MiddleCompletion(worker: U64)
    ensures var m := [InProgress(worker), InProgress(worker), InProgress(worker)];
            && OneInterval(m, worker)
            && CompleteRange(m, 1, 2, worker) == Ok([InProgress(worker), Complete, InProgress(worker)])
            && !OneInterval([InProgress(worker), Complete, InProgress(worker)], worker)
  {
    var m := [InProgress(worker), InProgress(worker), InProgress(worker)];
    CompletionKeepsOneIff(m, worker, 0, 3, 1, 2);
    assert Paint(m, 1, 2, Complete) == [InProgress(worker), Complete, InProgress(worker)];
  }
}
