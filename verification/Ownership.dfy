/**
 Byte ownership, stated one byte at a time.

 A map over a representation of `n` bytes is a sequence of `n` states. This is the meaning of
 the canonical interval vector of `Intervals`, and the vocabulary of every theorem above it:
 grants, splits, completions and abandons are point-wise updates of this sequence.
 */
module Ownership {
  import opened Base

  datatype State = Pending | InProgress(worker: U64) | Complete

  type Owners = seq<State>

  datatype IntervalMapError =
    | InvalidRange(start: U64, end: U64, totalLength: U64)
    | RangeNotPending(start: U64, end: U64)
    | RangeNotOwned(start: U64, end: U64, worker: U64)
    | SplitPointUnavailable(at: U64, source: U64)
    | SplitWorkerUnchanged(worker: U64)

  predicate AllAre(m: Owners, lo: nat, hi: nat, s: State)
    requires hi <= |m|
  {
    forall b :: lo <= b < hi ==> m[b] == s
  }

  /** The map with every byte of `[lo, hi)` moved to state `s`. */
  function Paint(m: Owners, lo: nat, hi: nat, s: State): (r: Owners)
    requires lo <= hi <= |m|
    ensures |r| == |m|
    ensures forall b :: 0 <= b < |m| ==> r[b] == if lo <= b < hi then s else m[b]
  {
    m[..lo] + seq(hi - lo, _ => s) + m[hi..]
  }

  /** The map in which every byte of `worker` is pending again. */
  function Release(m: Owners, worker: U64): (r: Owners)
    ensures |r| == |m|
    ensures forall b :: 0 <= b < |m| ==> r[b] == if m[b] == InProgress(worker) then Pending else m[b]
  {
    seq(|m|, b requires 0 <= b < |m| => if m[b] == InProgress(worker) then Pending else m[b])
  }

  /** How many bytes are in state `s`. */
  function Count(m: Owners, s: State): nat
  {
    if m == [] then 0 else Count(m[..|m| - 1], s) + if m[|m| - 1] == s then 1 else 0
  }

  /** End of the maximal constant run containing byte `at`. */
  function RunEnd(m: Owners, at: nat): (e: nat)
    requires at < |m|
    ensures at < e <= |m| && AllAre(m, at, e, m[at])
    ensures e < |m| ==> m[e] != m[at]
    decreases |m| - at
  {
    if at + 1 < |m| && m[at + 1] == m[at] then RunEnd(m, at + 1) else at + 1
  }

  predicate ValidRange(m: Owners, lo: int, hi: int)
  {
    0 <= lo < hi <= |m|
  }

  function Grant(m: Owners, lo: U64, hi: U64, worker: U64): Result<Owners, IntervalMapError>
    requires |m| <= U64_MAX
  {
    if !ValidRange(m, lo, hi) then Err(InvalidRange(lo, hi, |m|))
    else if !AllAre(m, lo, hi, Pending) then Err(RangeNotPending(lo, hi))
    else Ok(Paint(m, lo, hi, InProgress(worker)))
  }

  function CompleteRange(m: Owners, lo: U64, hi: U64, worker: U64): Result<Owners, IntervalMapError>
    requires |m| <= U64_MAX
  {
    if !ValidRange(m, lo, hi) then Err(InvalidRange(lo, hi, |m|))
    else if !AllAre(m, lo, hi, InProgress(worker)) then Err(RangeNotOwned(lo, hi, worker))
    else Ok(Paint(m, lo, hi, Complete))
  }

  /** Gives `recipient` everything from `at` to the end of the run of `source` around it. */
  function Split(m: Owners, at: U64, source: U64, recipient: U64): Result<Owners, IntervalMapError>
  {
    if source == recipient then Err(SplitWorkerUnchanged(source))
    else if !(0 < at < |m| && m[at - 1] == m[at] == InProgress(source)) then
      Err(SplitPointUnavailable(at, source))
    else Ok(Paint(m, at, RunEnd(m, at), InProgress(recipient)))
  }

  // ----- counting -----

  lemma {:induction false} CountConcat(a: Owners, b: Owners, s: State)
    ensures Count(a + b, s) == Count(a, s) + Count(b, s)
  {
    if b == [] {
      assert a + b == a;
    } else {
      var n := |b| - 1;
      CountConcat(a, b[..n], s);
      assert (a + b)[..|a + b| - 1] == a + b[..n];
    }
  }

  lemma {:induction false} CountUniform(m: Owners, s: State, t: State)
    requires AllAre(m, 0, |m|, t)
    ensures Count(m, s) == if s == t then |m| else 0
  {
    if m != [] {
      CountUniform(m[..|m| - 1], s, t);
    }
  }

  lemma CountSplit3(m: Owners, lo: nat, hi: nat, s: State)
    requires lo <= hi <= |m|
    ensures Count(m, s) == Count(m[..lo], s) + Count(m[lo..hi], s) + Count(m[hi..], s)
  {
    assert m == m[..lo] + m[lo..hi] + m[hi..];
    CountConcat(m[..lo] + m[lo..hi], m[hi..], s);
    CountConcat(m[..lo], m[lo..hi], s);
  }

  /** Painting a uniform range moves exactly its length between two states. */
  lemma PaintMovesCount(m: Owners, lo: nat, hi: nat, from: State, to: State, s: State)
    requires lo <= hi <= |m| && AllAre(m, lo, hi, from) && from != to
    ensures Count(Paint(m, lo, hi, to), s)
            == Count(m, s) + (if s == to then hi - lo else 0) - (if s == from then hi - lo else 0)
  {
    var r := Paint(m, lo, hi, to);
    CountSplit3(m, lo, hi, s);
    CountSplit3(r, lo, hi, s);
    assert r[..lo] == m[..lo] && r[hi..] == m[hi..];
    CountUniform(m[lo..hi], s, from);
    CountUniform(r[lo..hi], s, to);
  }

  /** Abandoning conserves bytes: what the worker held is exactly what becomes pending. */
  lemma {:induction false} ReleaseCounts(m: Owners, worker: U64)
    ensures Count(Release(m, worker), InProgress(worker)) == 0
    ensures Count(Release(m, worker), Pending) == Count(m, Pending) + Count(m, InProgress(worker))
    ensures forall s :: s != Pending && s != InProgress(worker) ==> Count(Release(m, worker), s) == Count(m, s)
  {
    if m != [] {
      var n := |m| - 1;
      ReleaseCounts(m[..n], worker);
      assert Release(m, worker)[..n] == Release(m[..n], worker);
    }
  }

  /** A positive count has a witness. */
  lemma {:induction false} CountZeroIff(m: Owners, s: State)
    ensures Count(m, s) == 0 <==> s !in m
    ensures Count(m, s) <= |m|
    ensures Count(m, s) == |m| <==> AllAre(m, 0, |m|, s)
  {
    if m != [] {
      var n := |m| - 1;
      CountZeroIff(m[..n], s);
      assert m == m[..n] + [m[n]];
    }
  }

  // ----- laws of the four mutations -----

  ghost predicate EachIs(m: Owners, lo: nat, hi: nat, s: State)
  {
    lo < hi <= |m| && forall b :: lo <= b < hi ==> m[b] == s
  }

  /** What each mutation takes, and what it says when it does not. */
  lemma Refusals(m: Owners, lo: U64, hi: U64, worker: U64, other: U64)
    requires |m| <= U64_MAX
    ensures var bad := Err(InvalidRange(lo, hi, |m|));
            && (Grant(m, lo, hi, worker).Ok? <==> EachIs(m, lo, hi, Pending))
            && (CompleteRange(m, lo, hi, worker).Ok? <==> EachIs(m, lo, hi, InProgress(worker)))
            && (lo < hi <= |m| && !EachIs(m, lo, hi, Pending) ==>
                  Grant(m, lo, hi, worker) == Err(RangeNotPending(lo, hi)))
            && (lo < hi <= |m| && !EachIs(m, lo, hi, InProgress(worker)) ==>
                  CompleteRange(m, lo, hi, worker) == Err(RangeNotOwned(lo, hi, worker)))
            && (hi <= lo || hi > |m| ==> Grant(m, lo, hi, worker) == CompleteRange(m, lo, hi, worker) == bad)
    ensures var r := Split(m, lo, worker, other);
            && (r.Ok? <==> worker != other && lo > 0 && EachIs(m, lo - 1, lo + 1, InProgress(worker)))
            && (worker == other ==> r == Err(SplitWorkerUnchanged(worker)))
            && (worker != other && r.Err? ==> r == Err(SplitPointUnavailable(lo, worker)))
  {
  }

  /** Completions of disjoint ranges commute, whoever reports them. */
  lemma DisjointCompletionsCommute(m: Owners, a: U64, b: U64, v: U64, c: U64, d: U64, w: U64)
    requires |m| <= U64_MAX && (b <= c || d <= a)
    requires CompleteRange(m, a, b, v).Ok? && CompleteRange(m, c, d, w).Ok?
    ensures var left := CompleteRange(CompleteRange(m, a, b, v).value, c, d, w);
            var right := CompleteRange(CompleteRange(m, c, d, w).value, a, b, v);
            left.Ok? && left == right
  {
    var left := Paint(Paint(m, a, b, Complete), c, d, Complete);
    var right := Paint(Paint(m, c, d, Complete), a, b, Complete);
    assert left == right;
  }

  /** Completing both halves of a split grant is completing the grant before the split. */
  lemma SplitThenCompleteBoth(m: Owners, lo: U64, at: U64, source: U64, recipient: U64)
    requires |m| <= U64_MAX && lo < at && Split(m, at, source, recipient).Ok?
    requires AllAre(m, lo, RunEnd(m, at), InProgress(source))
    ensures var hi := RunEnd(m, at);
            var s := Split(m, at, source, recipient).value;
            var left := CompleteRange(s, lo, at, source);
            && left.Ok?
            && CompleteRange(left.value, at, hi, recipient).Ok?
            && CompleteRange(left.value, at, hi, recipient) == CompleteRange(m, lo, hi, source)
  {
    var hi := RunEnd(m, at);
    var s := Split(m, at, source, recipient).value;
    var both := Paint(Paint(s, lo, at, Complete), at, hi, Complete);
    assert both == Paint(m, lo, hi, Complete);
  }
}
