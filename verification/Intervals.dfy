/**
 The canonical interval map: a gap-free, merged, sorted partition of `[0, totalLength)`.

 `Expand` gives a vector of intervals its meaning as a byte map. Every mutation is proved
 against the point-wise update of that meaning in `Ownership`, and `CanonicalUnique` shows that
 the meaning determines the vector, so the point-wise statement loses nothing.
 */
module Intervals {
  import opened Base
  import opened Ownership

  datatype Interval = Interval(start: nat, end: nat, state: State)

  function Last(ivs: seq<Interval>): Interval
    requires ivs != []
  {
    ivs[|ivs| - 1]
  }

  function Init(ivs: seq<Interval>): seq<Interval>
    requires ivs != []
  {
    ivs[..|ivs| - 1]
  }

  /** The intervals are non-empty and cover `[0, hi)` in order without gap or overlap. */
  ghost predicate Tiles(ivs: seq<Interval>, hi: nat)
  {
    && (ivs == [] ==> hi == 0)
    && (ivs != [] ==> ivs[0].start == 0 && Last(ivs).end == hi)
    && (forall k :: 0 <= k < |ivs| ==> ivs[k].start < ivs[k].end)
    && (forall j, k :: 0 <= j < k < |ivs| && k == j + 1 ==> ivs[j].end == ivs[k].start)
  }

  ghost predicate Merged(ivs: seq<Interval>)
  {
    forall j, k :: 0 <= j < k < |ivs| && k == j + 1 ==> ivs[j].state != ivs[k].state
  }

  ghost predicate Canonical(total: nat, ivs: seq<Interval>)
  {
    Tiles(ivs, total) && Merged(ivs)
  }

  /** The intervals tile the bytes of `m` and each has the state of all its bytes. */
  ghost predicate Describes(ivs: seq<Interval>, m: Owners)
  {
    && Tiles(ivs, |m|)
    && forall k :: 0 <= k < |ivs| ==>
         ivs[k].end <= |m| && AllAre(m, ivs[k].start, ivs[k].end, ivs[k].state)
  }

  function Fill(n: nat, s: State): Owners { seq(n, _ => s) }

  function Expand(ivs: seq<Interval>): Owners
  {
    if ivs == [] then []
    else
      var l := Last(ivs);
      Expand(Init(ivs)) + if l.start <= l.end then Fill(l.end - l.start, l.state) else []
  }

  // ----- meaning -----

  lemma {:induction false} ExpandDescribes(ivs: seq<Interval>, hi: nat)
    requires Tiles(ivs, hi)
    ensures |Expand(ivs)| == hi && Describes(ivs, Expand(ivs))
  {
    hide Describes;
    if ivs == [] {
      assert Describes(ivs, []) by { NothingDescribed(); }
    } else {
      var l := Last(ivs);
      InitTiles(ivs, hi);
      ExpandDescribes(Init(ivs), l.start);
      DescribesLast(ivs, Expand(Init(ivs)));
    }
  }

  lemma NothingDescribed()
    ensures Describes([], [])
  {
  }

  lemma InitTiles(ivs: seq<Interval>, hi: nat)
    requires Tiles(ivs, hi) && ivs != []
    ensures Last(ivs).start < Last(ivs).end == hi && Tiles(Init(ivs), Last(ivs).start)
  {
  }

  lemma DescribesLast(ivs: seq<Interval>, m: Owners)
    requires ivs != [] && Last(ivs).start == |m| && Tiles(ivs, Last(ivs).end) && Last(ivs).start < Last(ivs).end
    requires Describes(Init(ivs), m)
    ensures Describes(ivs, m + Fill(Last(ivs).end - Last(ivs).start, Last(ivs).state))
  {
    hide Tiles;
    var l := Last(ivs);
    var all := m + Fill(l.end - l.start, l.state);
    forall k | 0 <= k < |ivs| ensures ivs[k].end <= |all| && AllAre(all, ivs[k].start, ivs[k].end, ivs[k].state) {
      if k < |ivs| - 1 {
        assert Init(ivs)[k] == ivs[k];
      }
    }
  }

  /** Where interval `i` must start: the end of the one before it. */
  ghost function StartOf(ivs: seq<Interval>, i: nat): nat
    requires i <= |ivs|
  {
    if i == 0 then 0 else ivs[i - 1].end
  }

  /** Every byte lies in some interval. */
  lemma {:induction false} Locate(ivs: seq<Interval>, hi: nat, b: nat) returns (k: nat)
    requires Tiles(ivs, hi) && b < hi
    ensures k < |ivs| && ivs[k].start <= b < ivs[k].end
  {
    if b < Last(ivs).start {
      k := Locate(Init(ivs), Last(ivs).start, b);
    } else {
      k := |ivs| - 1;
    }
  }

  lemma DescribedIsExpanded(ivs: seq<Interval>, m: Owners)
    requires Describes(ivs, m)
    ensures m == Expand(ivs)
  {
    ExpandDescribes(ivs, |m|);
    forall b | 0 <= b < |m| ensures m[b] == Expand(ivs)[b] {
      var k := Locate(ivs, |m|, b);
    }
  }

  /** `[lo, hi)` is a maximal constant stretch of the byte map. */
  ghost predicate IsRun(m: Owners, lo: nat, hi: nat)
  {
    && lo < hi <= |m|
    && AllAre(m, lo, hi, m[lo])
    && (lo > 0 ==> m[lo - 1] != m[lo])
    && (hi < |m| ==> m[hi] != m[lo])
  }

  /** A canonical interval is a maximal run of the byte map. */
  lemma IntervalIsRun(ivs: seq<Interval>, m: Owners, k: nat)
    requires Describes(ivs, m) && Merged(ivs) && k < |ivs|
    ensures IsRun(m, ivs[k].start, ivs[k].end) && m[ivs[k].start] == ivs[k].state
  {
    var iv := ivs[k];
    assert m[iv.start] == iv.state;
    if k > 0 {
      assert ivs[k - 1].end == iv.start;
      assert m[iv.start - 1] == ivs[k - 1].state;
    }
    if k + 1 < |ivs| {
      assert iv.end == ivs[k + 1].start;
      assert m[iv.end] == ivs[k + 1].state;
    }
  }

  lemma RunsStartingTogether(m: Owners, lo: nat, a: nat, b: nat)
    requires IsRun(m, lo, a) && IsRun(m, lo, b)
    ensures a == b
  {
  }

  lemma SameNext(a: seq<Interval>, b: seq<Interval>, m: Owners, k: nat)
    requires Describes(a, m) && Merged(a) && Describes(b, m) && Merged(b)
    requires k < |a| && k < |b| && StartOf(a, k) == StartOf(b, k)
    ensures a[k] == b[k]
  {
    IntervalIsRun(a, m, k);
    IntervalIsRun(b, m, k);
    assert a[k].start == StartOf(a, k) && b[k].start == StartOf(b, k);
    RunsStartingTogether(m, a[k].start, a[k].end, b[k].end);
  }

  lemma NoneLeft(ivs: seq<Interval>, m: Owners, k: nat)
    requires Describes(ivs, m) && k <= |ivs|
    ensures StartOf(ivs, k) == |m| <==> k == |ivs|
  {
    if k < |ivs| {
      assert ivs[k].start == StartOf(ivs, k);
    }
  }

  /** The byte map determines the canonical vector. */
  lemma DescriptionUnique(a: seq<Interval>, b: seq<Interval>, m: Owners)
    requires Describes(a, m) && Merged(a) && Describes(b, m) && Merged(b)
    ensures a == b
  {
    var k := 0;
    while k < |a| && k < |b|
      invariant k <= |a| && k <= |b|
      invariant forall i :: 0 <= i < k ==> a[i] == b[i]
    {
      SameNext(a, b, m, k);
      k := k + 1;
    }
    NoneLeft(a, m, k);
    NoneLeft(b, m, k);
  }

  lemma CanonicalUnique(a: seq<Interval>, b: seq<Interval>, total: nat)
    requires Canonical(total, a) && Canonical(total, b) && Expand(a) == Expand(b)
    ensures a == b
  {
    ExpandDescribes(a, total);
    ExpandDescribes(b, total);
    DescriptionUnique(a, b, Expand(a));
  }

  // ----- building canonical vectors -----

  /** Appends an interval, extending the last one when it touches and has the same state. */
  function PushMerged(ivs: seq<Interval>, iv: Interval): seq<Interval>
  {
    if ivs != [] && Last(ivs).end == iv.start && Last(ivs).state == iv.state
    then Init(ivs) + [Interval(Last(ivs).start, iv.end, iv.state)]
    else ivs + [iv]
  }

  lemma PushCanonical(ivs: seq<Interval>, iv: Interval)
    requires iv.start < iv.end && Canonical(iv.start, ivs)
    ensures Canonical(iv.end, PushMerged(ivs, iv))
  {
  }

  /** Appending the description of the next bytes describes the longer prefix. */
  lemma PushDescribes(ivs: seq<Interval>, iv: Interval, m: Owners)
    requires iv.start < iv.end <= |m| && AllAre(m, iv.start, iv.end, iv.state)
    requires Describes(ivs, m[..iv.start]) && Merged(ivs)
    ensures Describes(PushMerged(ivs, iv), m[..iv.end]) && Merged(PushMerged(ivs, iv))
  {
    var r, before, after := PushMerged(ivs, iv), m[..iv.start], m[..iv.end];
    PushCanonical(ivs, iv);
    forall k | 0 <= k < |r| ensures r[k].end <= |after| && AllAre(after, r[k].start, r[k].end, r[k].state) {
      if k < |ivs| {
        assert AllAre(before, ivs[k].start, ivs[k].end, ivs[k].state);
        assert forall b :: ivs[k].start <= b < ivs[k].end ==> after[b] == before[b];
      }
    }
  }

  function PushNonEmpty(ivs: seq<Interval>, iv: Interval): seq<Interval>
  {
    if iv.start < iv.end then PushMerged(ivs, iv) else ivs
  }

  /** The canonical vector of a byte map: its run-length encoding. */
  function Runs(m: Owners): seq<Interval>
  {
    if m == [] then []
    else PushMerged(Runs(m[..|m| - 1]), Interval(|m| - 1, |m|, m[|m| - 1]))
  }

  lemma {:induction false} RunsDescribe(m: Owners)
    ensures Describes(Runs(m), m) && Merged(Runs(m))
  {
    if m != [] {
      var n := |m| - 1;
      RunsDescribe(m[..n]);
      PushDescribes(Runs(m[..n]), Interval(n, n + 1, m[n]), m);
      assert m[..n + 1] == m;
    }
  }

  /** A canonical vector is the run-length encoding of its own meaning. */
  lemma CanonicalIsRuns(ivs: seq<Interval>, total: nat)
    requires Canonical(total, ivs)
    ensures |Expand(ivs)| == total && ivs == Runs(Expand(ivs))
  {
    ExpandDescribes(ivs, total);
    RunsDescribe(Expand(ivs));
    DescriptionUnique(ivs, Runs(Expand(ivs)), Expand(ivs));
  }

  /** One interval of `replace_range`: up to three pieces, the middle one relabelled. */
  function PushReplaced(next: seq<Interval>, iv: Interval, lo: nat, hi: nat, s: State): seq<Interval>
  {
    if iv.end <= lo || hi <= iv.start then PushMerged(next, iv)
    else
      var from, to := Max(iv.start, lo), Min(iv.end, hi);
      var left := PushNonEmpty(next, Interval(iv.start, from, iv.state));
      var middle := PushMerged(left, Interval(from, to, s));
      PushNonEmpty(middle, Interval(to, iv.end, iv.state))
  }

  lemma ReplacedDescribes(next: seq<Interval>, iv: Interval, m: Owners, lo: nat, hi: nat, s: State)
    requires lo < hi <= |m| && iv.start < iv.end <= |m| && AllAre(m, iv.start, iv.end, iv.state)
    requires Describes(next, Paint(m, lo, hi, s)[..iv.start]) && Merged(next)
    ensures var r := PushReplaced(next, iv, lo, hi, s);
            Describes(r, Paint(m, lo, hi, s)[..iv.end]) && Merged(r)
  {
    hide Describes, Merged, PushMerged;
    var p := Paint(m, lo, hi, s);
    if iv.end <= lo || hi <= iv.start {
      PushDescribes(next, iv, p);
    } else {
      var from, to := Max(iv.start, lo), Min(iv.end, hi);
      var a, b, c := Interval(iv.start, from, iv.state), Interval(from, to, s), Interval(to, iv.end, iv.state);
      if a.start < a.end { PushDescribes(next, a, p); }
      var left := PushNonEmpty(next, a);
      PushDescribes(left, b, p);
      if c.start < c.end { PushDescribes(PushMerged(left, b), c, p); }
    }
  }

  // ----- the map itself -----

  lemma NormaliseNothing(m: Owners)
    ensures Describes([], m[..0]) && Merged([])
  {
  }

  lemma NormaliseStep(next: seq<Interval>, current: seq<Interval>, i: nat, m: Owners)
    requires Describes(current, m) && i < |current| && StartOf(current, i) <= |m|
    requires Describes(next, m[..StartOf(current, i)]) && Merged(next)
    ensures StartOf(current, i + 1) <= |m|
    ensures var r := PushMerged(next, current[i]);
            Describes(r, m[..StartOf(current, i + 1)]) && Merged(r)
  {
    hide PushMerged, Merged;
    if i > 0 {
      var j := i - 1;
      assert current[j].end == current[i].start;
    }
    PushDescribes(next, current[i], m);
  }

  lemma NormalisedAll(next: seq<Interval>, current: seq<Interval>, m: Owners)
    requires Describes(current, m) && StartOf(current, |current|) <= |m|
    requires Describes(next, m[..StartOf(current, |current|)]) && Merged(next)
    ensures Canonical(|m|, next) && Expand(next) == m
  {
    hide Merged, Expand;
    assert m[..StartOf(current, |current|)] == m;
    DescribedIsExpanded(next, m);
  }

  class IntervalMap {
    var totalLength: U64
    var intervals: seq<Interval>

    ghost predicate Valid()
      reads this
    {
      Canonical(totalLength, intervals)
    }

    function Owners(): Owners
      reads this
    {
      Expand(intervals)
    }

    /** A map whose entire byte space is pending. */
    constructor (total: U64)
      ensures Valid() && totalLength == total
      ensures Owners() == Fill(total, Pending)
    {
      totalLength := total;
      intervals := if total == 0 then [] else [Interval(0, total, Pending)];
      new;
      DescribedIsExpanded(intervals, Fill(total, Pending));
    }

    constructor Clone(other: IntervalMap)
      requires other.Valid()
      ensures Valid() && totalLength == other.totalLength && intervals == other.intervals
    {
      totalLength := other.totalLength;
      intervals := other.intervals;
    }

    method Grant(lo: U64, hi: U64, worker: U64) returns (r: Result<Unit, IntervalMapError>)
      requires Valid()
      modifies this`intervals
      ensures Valid() && |old(Owners())| == totalLength
      ensures match Ownership.Grant(old(Owners()), lo, hi, worker)
              case Ok(m) => r.Ok? && Owners() == m
              case Err(e) => r == Err(e) && intervals == old(intervals)
    {
      ExpandDescribes(intervals, totalLength);
      if lo >= hi || hi > totalLength {
        return Err(InvalidRange(lo, hi, totalLength));
      }
      var pending := RangeMatches(lo, hi, s => s == Pending);
      if !pending {
        return Err(RangeNotPending(lo, hi));
      }
      ReplaceRange(lo, hi, InProgress(worker));
      r := Ok(Unit);
    }

    method SplitInProgress(at: U64, source: U64, recipient: U64)
      returns (r: Result<Unit, IntervalMapError>)
      requires Valid()
      modifies this`intervals
      ensures Valid()
      ensures match Split(old(Owners()), at, source, recipient)
              case Ok(m) => r.Ok? && Owners() == m
              case Err(e) => r == Err(e) && intervals == old(intervals)
    {
      if source == recipient {
        return Err(SplitWorkerUnchanged(source));
      }
      var index := PositionOf(at, source);
      if index == |intervals| {
        return Err(SplitPointUnavailable(at, source));
      }
      var original := intervals[index];
      ExpandDescribes(intervals, totalLength);
      IntervalIsRun(intervals, Owners(), index);
      RunEndIs(Owners(), original.start, original.end, at);
      SplitDescribes(intervals, Owners(), index, at, InProgress(recipient));
      ghost var target := Paint(Owners(), at, original.end, InProgress(recipient));
      intervals := intervals[..index]
                   + [Interval(original.start, at, InProgress(source)),
                      Interval(at, original.end, InProgress(recipient))]
                   + intervals[index + 1..];
      Normalise(target);
      r := Ok(Unit);
    }

    method Complete(lo: U64, hi: U64, worker: U64) returns (r: Result<Unit, IntervalMapError>)
      requires Valid()
      modifies this`intervals
      ensures Valid() && |old(Owners())| == totalLength
      ensures match CompleteRange(old(Owners()), lo, hi, worker)
              case Ok(m) => r.Ok? && Owners() == m
              case Err(e) => r == Err(e) && intervals == old(intervals)
    {
      ExpandDescribes(intervals, totalLength);
      if lo >= hi || hi > totalLength {
        return Err(InvalidRange(lo, hi, totalLength));
      }
      var owned := RangeMatches(lo, hi, s => s == InProgress(worker));
      if !owned {
        return Err(RangeNotOwned(lo, hi, worker));
      }
      ReplaceRange(lo, hi, State.Complete);
      r := Ok(Unit);
    }

    /** Returns every byte of `worker` to pending and reports how many there were. */
    method Abandon(worker: U64) returns (released: U64)
      requires Valid()
      modifies this`intervals
      ensures Valid() && Owners() == Release(old(Owners()), worker)
      ensures released == Count(old(Owners()), InProgress(worker))
    {
      hide Count, Describes, Tiles, Merged, Expand, RevertedUpTo;
      ExpandDescribes(intervals, totalLength);
      ghost var before, m := intervals, Owners();
      var current := intervals;
      AbandonStart(before, m, worker);
      var i, total := 0, 0;
      while i < |current|
        invariant i <= |current| == |before| && RevertedUpTo(before, current, i, worker)
        invariant StartOf(before, i) <= |m|
        invariant total == Count(m[..StartOf(before, i)], InProgress(worker))
      {
        var iv := current[i];
        CountStep(before, m, i, InProgress(worker));
        RevertStep(before, current, i, worker);
        if iv.state == InProgress(worker) {
          total := total + (iv.end - iv.start);
          current := current[i := Interval(iv.start, iv.end, Pending)];
        }
        i := i + 1;
      }
      AbandonEnd(before, current, m, worker);
      intervals := current;
      Normalise(Release(m, worker));
      released := total;
    }

    method RangeMatches(lo: U64, hi: U64, want: State -> bool) returns (ok: bool)
      requires Valid() && lo < hi <= totalLength
      ensures |Owners()| == totalLength
      ensures ok <==> forall b :: lo <= b < hi ==> want(Owners()[b])
    {
      ExpandDescribes(intervals, totalLength);
      var i := 0;
      while i < |intervals|
        invariant i <= |intervals|
        invariant forall k :: 0 <= k < i && intervals[k].start < hi && lo < intervals[k].end
                              ==> want(intervals[k].state)
      {
        var iv := intervals[i];
        if iv.start < hi && lo < iv.end && !want(iv.state) {
          assert !want(Owners()[Max(lo, iv.start)]);
          return false;
        }
        i := i + 1;
      }
      forall b | lo <= b < hi ensures want(Owners()[b]) {
        var k := Locate(intervals, totalLength, b);
      }
      ok := true;
    }

    method PositionOf(at: U64, source: U64) returns (index: nat)
      requires Valid()
      ensures |Owners()| == totalLength && index <= |intervals|
      ensures index < |intervals| ==>
                && intervals[index].start < at < intervals[index].end
                && intervals[index].state == InProgress(source)
      ensures index < |intervals| <==>
                0 < at < totalLength && Owners()[at - 1] == Owners()[at] == InProgress(source)
    {
      ExpandDescribes(intervals, totalLength);
      index := 0;
      while index < |intervals|
        invariant index <= |intervals|
        invariant forall k :: 0 <= k < index ==>
          !(intervals[k].start < at < intervals[k].end && intervals[k].state == InProgress(source))
      {
        var iv := intervals[index];
        if iv.start < at && at < iv.end && iv.state == InProgress(source) {
          return;
        }
        index := index + 1;
      }
      if 0 < at < totalLength {
        var k := Locate(intervals, totalLength, at);
        IntervalIsRun(intervals, Owners(), k);
      }
    }

    method ReplaceRange(lo: U64, hi: U64, s: State)
      requires Valid() && lo < hi <= totalLength
      modifies this`intervals
      ensures Valid() && hi <= |old(Owners())| && Owners() == Paint(old(Owners()), lo, hi, s)
    {
      var current := intervals;
      ExpandDescribes(current, totalLength);
      ghost var m := Expand(current);
      ghost var target := Paint(m, lo, hi, s);
      var next: seq<Interval> := [];
      var i := 0;
      while i < |current|
        invariant i <= |current| && StartOf(current, i) <= totalLength
        invariant Describes(next, target[..StartOf(current, i)]) && Merged(next)
      {
        ReplacedDescribes(next, current[i], m, lo, hi, s);
        next := PushReplaced(next, current[i], lo, hi, s);
        i := i + 1;
      }
      assert target[..StartOf(current, i)] == target;
      DescribedIsExpanded(next, target);
      intervals := next;
    }

    method Normalise(ghost m: Owners)
      requires |m| == totalLength && Describes(intervals, m)
      modifies this`intervals
      ensures Valid() && Owners() == m
    {
      hide Describes, Merged, PushMerged, Canonical, Expand;
      var current := intervals;
      var next: seq<Interval> := [];
      var i := 0;
      NormaliseNothing(m);
      while i < |current|
        invariant i <= |current| && StartOf(current, i) <= |m|
        invariant Describes(next, m[..StartOf(current, i)]) && Merged(next)
      {
        NormaliseStep(next, current, i, m);
        next := PushMerged(next, current[i]);
        i := i + 1;
      }
      NormalisedAll(next, current, m);
      intervals := next;
    }

    /** The runtime invariant check agrees with the definition of a canonical partition. */
    method InvariantsHold() returns (ok: bool)
      ensures ok <==> Valid()
    {
      if totalLength == 0 {
        if intervals != [] { EndsInsidePositive(intervals, totalLength); }
        return intervals == [];
      }
      var cursor := 0;
      var previous: Option<State> := None;
      var i := 0;
      while i < |intervals|
        invariant i <= |intervals| && cursor == StartOf(intervals, i)
        invariant i > 0 ==> intervals[0].start == 0
        invariant forall k :: 0 <= k < i ==> intervals[k].start < intervals[k].end
        invariant forall j, k :: 0 <= j < k < i && k == j + 1 ==>
          intervals[j].end == intervals[k].start && intervals[j].state != intervals[k].state
        invariant previous == if i == 0 then None else Some(intervals[i - 1].state)
      {
        var iv := intervals[i];
        if iv.start != cursor || iv.start >= iv.end {
          assert i > 0 ==> intervals[i - 1].end == cursor;
          return false;
        }
        if previous == Some(iv.state) {
          assert intervals[i - 1].state == intervals[i].state;
          return false;
        }
        cursor := iv.end;
        previous := Some(iv.state);
        i := i + 1;
      }
      ok := cursor == totalLength;
    }
  }

  // ----- lemmas for the loops above -----

  lemma EndsInsidePositive(ivs: seq<Interval>, hi: nat)
    requires ivs != []
    ensures Tiles(ivs, hi) ==> hi > 0
  {
  }

  function Reverted(iv: Interval, worker: U64): Interval
  {
    if iv.state == InProgress(worker) then Interval(iv.start, iv.end, Pending) else iv
  }

  ghost predicate RevertedUpTo(a: seq<Interval>, b: seq<Interval>, i: nat, worker: U64)
  {
    && |a| == |b|
    && forall k :: 0 <= k < |a| ==> b[k] == if k < i then Reverted(a[k], worker) else a[k]
  }

  lemma RevertStep(a: seq<Interval>, b: seq<Interval>, i: nat, worker: U64)
    requires RevertedUpTo(a, b, i, worker) && i < |a|
    ensures b[i] == a[i]
    ensures RevertedUpTo(a, b[i := Reverted(b[i], worker)], i + 1, worker)
    ensures b[i].state != InProgress(worker) ==> b[i := Reverted(b[i], worker)] == b
  {
  }

  lemma AbandonStart(ivs: seq<Interval>, m: Owners, worker: U64)
    ensures RevertedUpTo(ivs, ivs, 0, worker) && Count(m[..StartOf(ivs, 0)], InProgress(worker)) == 0
  {
  }

  lemma AbandonEnd(a: seq<Interval>, b: seq<Interval>, m: Owners, worker: U64)
    requires Describes(a, m) && RevertedUpTo(a, b, |a|, worker)
    ensures Describes(b, Release(m, worker)) && StartOf(a, |a|) == |m|
    ensures Count(m[..StartOf(a, |a|)], InProgress(worker)) == Count(m, InProgress(worker)) <= |m|
  {
    RevertedDescribes(a, b, m, worker);
    assert m[..|m|] == m;
    CountZeroIff(m, InProgress(worker));
  }

  lemma CountStep(ivs: seq<Interval>, m: Owners, i: nat, s: State)
    requires Describes(ivs, m) && i < |ivs|
    ensures StartOf(ivs, i) == ivs[i].start < ivs[i].end == StartOf(ivs, i + 1) <= |m|
    ensures Count(m[..ivs[i].end], s)
            == Count(m[..ivs[i].start], s) + if ivs[i].state == s then ivs[i].end - ivs[i].start else 0
  {
    var iv := ivs[i];
    assert m[..iv.end] == m[..iv.start] + m[iv.start..iv.end];
    CountConcat(m[..iv.start], m[iv.start..iv.end], s);
    CountUniform(m[iv.start..iv.end], s, iv.state);
  }

  lemma RevertedDescribes(a: seq<Interval>, b: seq<Interval>, m: Owners, worker: U64)
    requires Describes(a, m) && RevertedUpTo(a, b, |a|, worker)
    ensures Describes(b, Release(m, worker))
  {
  }

  lemma RunEndIs(m: Owners, lo: nat, hi: nat, at: nat)
    requires IsRun(m, lo, hi) && lo <= at < hi
    ensures RunEnd(m, at) == hi
  {
    assert m[at] == m[lo];
  }

  ghost function Cut(ivs: seq<Interval>, k: nat, at: nat, s: State): seq<Interval>
    requires k < |ivs|
  {
    ivs[..k] + [Interval(ivs[k].start, at, ivs[k].state), Interval(at, ivs[k].end, s)] + ivs[k + 1..]
  }

  lemma CutAt(ivs: seq<Interval>, k: nat, at: nat, s: State)
    requires k < |ivs|
    ensures var cut := Cut(ivs, k, at, s);
            && |cut| == |ivs| + 1
            && forall j :: 0 <= j < |cut| ==>
                 cut[j] == if j < k then ivs[j]
                           else if j == k then Interval(ivs[k].start, at, ivs[k].state)
                           else if j == k + 1 then Interval(at, ivs[k].end, s)
                           else ivs[j - 1]
  {
  }

  lemma CutTiles(ivs: seq<Interval>, hi: nat, k: nat, at: nat, s: State)
    requires Tiles(ivs, hi) && k < |ivs| && ivs[k].start < at < ivs[k].end
    ensures Tiles(Cut(ivs, k, at, s), hi)
  {
    CutAt(ivs, k, at, s);
  }

  /** Cutting interval `k` in two and relabelling the right part paints exactly that part. */
  lemma SplitDescribes(ivs: seq<Interval>, m: Owners, k: nat, at: nat, s: State)
    requires Describes(ivs, m) && k < |ivs| && ivs[k].start < at < ivs[k].end
    ensures Describes(Cut(ivs, k, at, s), Paint(m, at, ivs[k].end, s))
  {
    var cut, p := Cut(ivs, k, at, s), Paint(m, at, ivs[k].end, s);
    CutTiles(ivs, |m|, k, at, s);
    forall j | 0 <= j < |cut|
      ensures cut[j].end <= |p| && AllAre(p, cut[j].start, cut[j].end, cut[j].state)
    {
      CutAt(ivs, k, at, s);
      if j < k {
        DisjointOrder(ivs, |m|, j, k);
      } else if j > k + 1 {
        DisjointOrder(ivs, |m|, k, j - 1);
      }
    }
  }

  lemma {:induction false} DisjointOrder(ivs: seq<Interval>, hi: nat, j: nat, k: nat)
    requires Tiles(ivs, hi) && j < k < |ivs|
    ensures ivs[j].end <= ivs[k].start
    decreases k - j
  {
    assert ivs[j].end == ivs[j + 1].start;
    if j + 1 < k {
      DisjointOrder(ivs, hi, j + 1, k);
    }
  }
}
