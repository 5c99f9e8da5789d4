/**
 Where fetched bytes go: an append-only window onto one download's storage.

 The target is owned by the sink alone, so it is a value here: the cells of `Desk` for the one
 worker a single stream has, and the bytes of the part file. A backend can only append; the
 contract of `Accept` says that nothing outside the window can change.
 */
module Sink {
  import opened Base
  import opened Ownership
  import opened Intervals
  import opened Desk
  import opened Simulation

  const SINGLE_STREAM_WORKER: U64 := 1

  datatype SinkError =
    | BeyondGrant(grant: U64, alreadyWritten: U64, attempted: nat)
    | LengthOverflow
    | Io(offset: nat)

  datatype Part = Part(cells: Cells, content: seq<Byte>)

  predicate ValidPart(p: Part) { |p.content| == |p.cells| <= U64_MAX }

  /** A fresh part file of `total` bytes, wholly granted to the single stream. */
  function NewPart(total: U64): (p: Part)
    ensures ValidPart(p) && |p.cells| == total
  {
    Part(seq(total, _ => Held(SINGLE_STREAM_WORKER)), seq(total, _ => 0))
  }

  function WritePart(p: Part, offset: nat, bytes: seq<Byte>): (r: Result<Part, SinkError>)
    requires ValidPart(p)
    ensures r.Ok? ==> ValidPart(r.value) && |r.value.cells| == |p.cells|
    ensures r.Ok? ==> 0 < |bytes| && offset + |bytes| <= |p.cells|
    ensures r.Ok? ==> forall b :: 0 <= b < |p.content| ==>
              r.value.content[b] == if offset <= b < offset + |bytes| then bytes[b - offset] else p.content[b]
  {
    var end := offset + |bytes|;
    if bytes == [] || |bytes| > U32_MAX || end > |p.cells| then Err(Io(offset))
    else if exists b | offset <= b < end :: p.cells[b] != Held(SINGLE_STREAM_WORKER) then Err(Io(offset))
    else
      Ok(Part(StageCells(p.cells, offset, end, SINGLE_STREAM_WORKER), p.content[..offset] + bytes + p.content[end..]))
  }

  /** The commit point. */
  function SyncPart(p: Part): Part { p.(cells := FlushCells(p.cells)) }

  /** Bytes `[0, k)` are accepted, and committed if `durable`; the rest is still to be written. */
  ghost predicate Reached(p: Part, k: nat, durable: bool)
  {
    && ValidPart(p) && k <= |p.cells|
    && forall b :: 0 <= b < |p.cells| ==>
         if b < k then Filled(p.cells[b]) && (durable ==> p.cells[b] == Done)
         else p.cells[b] == Held(SINGLE_STREAM_WORKER)
  }

  lemma NewReached(total: U64)
    ensures Reached(NewPart(total), 0, true)
  {
  }

  /** A write at the end of what was reached is accepted and reaches exactly its own end. */
  lemma WriteReaches(p: Part, k: nat, durable: bool, bytes: seq<Byte>)
    requires Reached(p, k, durable) && bytes != []
    ensures WritePart(p, k, bytes).Ok? <==> k + |bytes| <= |p.cells| && |bytes| <= U32_MAX
    ensures WritePart(p, k, bytes).Ok? ==>
              Reached(WritePart(p, k, bytes).value, k + |bytes|, false)
              && WritePart(p, k, bytes).value.content[..k] == p.content[..k]
              && WritePart(p, k, bytes).value.content[..k + |bytes|] == p.content[..k] + bytes
  {
  }

  lemma SyncReaches(p: Part, k: nat, durable: bool)
    requires Reached(p, k, durable)
    ensures Reached(SyncPart(p), k, true) && SyncPart(p).content == p.content
  {
  }

  // ----- what a sink has done to its target -----

  datatype SinkOp = Put(offset: nat, bytes: seq<Byte>) | Commit

  function Stored(p: Part, log: seq<SinkOp>): (r: Part)
    requires ValidPart(p)
    ensures ValidPart(r) && |r.cells| == |p.cells|
  {
    if log == [] then p
    else
      var mid := Stored(p, log[..|log| - 1]);
      match log[|log| - 1]
      case Put(offset, bytes) => (match WritePart(mid, offset, bytes) case Ok(next) => next case Err(_) => mid)
      case Commit => SyncPart(mid)
  }

  /** Every write of the log went through. */
  predicate AllStored(p: Part, log: seq<SinkOp>)
    requires ValidPart(p)
  {
    log == [] || (var n := |log| - 1;
                  && AllStored(p, log[..n])
                  && (log[n].Put? ==> WritePart(Stored(p, log[..n]), log[n].offset, log[n].bytes).Ok?))
  }

  lemma StoredOn(p: Part, log: seq<SinkOp>, op: SinkOp)
    requires ValidPart(p) && AllStored(p, log)
    requires op.Put? ==> WritePart(Stored(p, log), op.offset, op.bytes).Ok?
    ensures AllStored(p, log + [op])
    ensures Stored(p, log + [op])
            == if op.Put? then WritePart(Stored(p, log), op.offset, op.bytes).value else SyncPart(Stored(p, log))
  {
    hide WritePart;
    assert (log + [op])[..|log|] == log;
  }

  function OpOf(op: SinkOp): Op
  {
    match op
    case Put(offset, bytes) => Storing(SINGLE_STREAM_WORKER, offset, offset + |bytes|)
    case Commit => Committing
  }

  function OpsOf(log: seq<SinkOp>): (ops: seq<Op>)
    ensures |ops| == |log| && forall i :: 0 <= i < |log| ==> ops[i] == OpOf(log[i])
  {
    seq(|log|, i requires 0 <= i < |log| => OpOf(log[i]))
  }

  /** What a sink does is permitted of the worker it writes for. */
  lemma {:induction false} StoredLeads(p: Part, log: seq<SinkOp>, minSplit: U64)
    requires ValidPart(p) && AllStored(p, log)
    ensures Leads(p.cells, OpsOf(log), minSplit, Stored(p, log).cells)
  {
    hide Leads, StageCells, FlushCells, SyncPart;
    if log == [] {
      LeadsNowhere(p.cells, minSplit);
    } else {
      var n := |log| - 1;
      StoredLeads(p, log[..n], minSplit);
      var mid := Stored(p, log[..n]);
      PutAllowed(mid, log[n]);
      LeadsOn(p.cells, OpsOf(log[..n]), minSplit, mid.cells, OpOf(log[n]));
      assert OpsOf(log) == OpsOf(log[..n]) + [OpOf(log[n])];
      SyncCells(mid);
    }
  }

  lemma PutAllowed(p: Part, op: SinkOp)
    requires ValidPart(p) && (op.Put? ==> WritePart(p, op.offset, op.bytes).Ok?)
    ensures Allowed(p.cells, OpOf(op))
    ensures op.Put? ==> WritePart(p, op.offset, op.bytes).value.cells
                        == StageCells(p.cells, op.offset, op.offset + |op.bytes|, SINGLE_STREAM_WORKER)
  {
    hide StageCells;
  }

  lemma SyncCells(p: Part)
    ensures SyncPart(p).cells == FlushCells(p.cells) && SyncPart(p).content == p.content
  {
  }

  /** No byte is written twice: every write of the log is still there at the end. */
  lemma {:induction false} PutsKept(p: Part, log: seq<SinkOp>, i: nat)
    requires ValidPart(p) && AllStored(p, log) && i < |log| && log[i].Put?
    ensures var end := log[i].offset + |log[i].bytes|;
            && end <= |p.cells| && Stored(p, log).content[log[i].offset..end] == log[i].bytes
            && forall b :: log[i].offset <= b < end ==> Filled(Stored(p, log).cells[b])
  {
    var n := |log| - 1;
    var mid, last := Stored(p, log[..n]), Stored(p, log);
    if i < n {
      PutsKept(p, log[..n], i);
      assert log[..n][i] == log[i];
      FilledKept(mid, log[n], log[i].offset, log[i].offset + |log[i].bytes|);
    }
  }

  /** One more operation leaves written bytes alone. */
  lemma FilledKept(p: Part, op: SinkOp, lo: nat, hi: nat)
    requires ValidPart(p) && lo <= hi <= |p.cells| && forall b :: lo <= b < hi ==> Filled(p.cells[b])
    ensures op.Put? && WritePart(p, op.offset, op.bytes).Ok? ==>
              var q := WritePart(p, op.offset, op.bytes).value;
              q.content[lo..hi] == p.content[lo..hi] && forall b :: lo <= b < hi ==> Filled(q.cells[b])
    ensures forall b :: lo <= b < hi ==> Filled(SyncPart(p).cells[b])
  {
    if op.Put? && WritePart(p, op.offset, op.bytes).Ok? {
      var q := WritePart(p, op.offset, op.bytes).value;
      forall b | lo <= b < hi ensures q.content[b] == p.content[b] && Filled(q.cells[b]) {
        assert p.cells[b] != Held(SINGLE_STREAM_WORKER);
      }
    }
  }

  /** `file` was put into a fresh part file block by block, and its last block committed. */
  ghost predicate WrittenBy(log: seq<SinkOp>, file: seq<Byte>)
  {
    && |file| <= U64_MAX && log != [] && log[|log| - 1].Commit? && AllStored(NewPart(|file|), log)
    && var p := Stored(NewPart(|file|), log);
       p.content == file && forall b :: 0 <= b < |file| ==> p.cells[b] == Done
  }

  /** The start of the first interval that is not complete, or the total length. */
  method DurablePrefixEnd(p: Part) returns (n: nat)
    requires ValidPart(p)
    ensures n <= |p.cells| && forall b :: 0 <= b < n ==> p.cells[b] == Done
    ensures n < |p.cells| ==> p.cells[n] != Done
  {
    hide Runs, Describes;
    var m := OwnersOf(p.cells);
    var ivs := Runs(m);
    RunsDescribe(m);
    PrefixStart(ivs, m);
    for k := 0 to |ivs|
      invariant StartOf(ivs, k) <= |m| && AllAre(m, 0, StartOf(ivs, k), Complete)
    {
      PrefixStep(ivs, m, k);
      if ivs[k].state != Complete {
        n := ivs[k].start;
        assert forall b :: 0 <= b < n ==> m[b] == StateOf(p.cells[b]);
        assert m[n] == StateOf(p.cells[n]);
        return;
      }
    }
    n := |p.cells|;
    PrefixEnd(ivs, m);
    assert forall b :: 0 <= b < n ==> m[b] == StateOf(p.cells[b]);
  }

  lemma PrefixStart(ivs: seq<Interval>, m: Owners)
    ensures StartOf(ivs, 0) == 0 && AllAre(m, 0, 0, Complete)
  {
  }

  lemma PrefixStep(ivs: seq<Interval>, m: Owners, k: nat)
    requires Describes(ivs, m) && k < |ivs| && StartOf(ivs, k) <= |m| && AllAre(m, 0, StartOf(ivs, k), Complete)
    ensures StartOf(ivs, k) == ivs[k].start < ivs[k].end <= |m| && m[ivs[k].start] == ivs[k].state
    ensures StartOf(ivs, k + 1) == ivs[k].end
    ensures ivs[k].state == Complete ==> AllAre(m, 0, ivs[k].end, Complete)
  {
    if k > 0 {
      var j := k - 1;
      assert ivs[j].end == ivs[k].start;
    }
  }

  lemma PrefixEnd(ivs: seq<Interval>, m: Owners)
    requires Describes(ivs, m)
    ensures StartOf(ivs, |ivs|) == |m|
  {
  }

  class RangeSink {
    var part: Part
    var baseOffset: U64
    var written: U64
    var limit: Option<U64>
    ghost const origin: Part
    ghost var log: seq<SinkOp>

    ghost predicate Valid()
      reads this
    {
      ValidPart(origin) && AllStored(origin, log) && part == Stored(origin, log)
    }

    constructor (target: Part, start: U64, cap: Option<U64>)
      requires ValidPart(target)
      ensures Valid() && part == target && baseOffset == start && written == 0 && limit == cap
      ensures origin == target && log == []
    {
      part, baseOffset, written, limit := target, start, 0, cap;
      origin, log := target, [];
    }

    function NextOffset(): U64
      reads this
    {
      Min(baseOffset + written, U64_MAX)
    }

    /** Appends, or refuses without writing anything. */
    method Accept(bytes: seq<Byte>) returns (r: Result<Unit, SinkError>)
      requires Valid()
      modifies this
      ensures Valid() && baseOffset == old(baseOffset) && limit == old(limit)
      ensures r.Ok? ==> WritePart(old(part), old(baseOffset) + old(written), bytes) == Ok(part)
                        && written == old(written) + |bytes|
                        && log == old(log) + [Put(old(baseOffset) + old(written), bytes)]
      ensures r.Err? ==> part == old(part) && written == old(written) && log == old(log)
      ensures limit.Some? && old(written) <= limit.value ==> written <= limit.value
      ensures limit.Some? && Min(old(written) + |bytes|, U64_MAX) > limit.value ==>
                r == Err(BeyondGrant(limit.value, old(written), |bytes|))
      ensures limit.None? || Min(old(written) + |bytes|, U64_MAX) <= limit.value ==>
                (r.Ok? <==> WritePart(old(part), old(baseOffset) + old(written), bytes).Ok?)
    {
      hide Stored, AllStored, WritePart;
      if limit.Some? && Min(written + |bytes|, U64_MAX) > limit.value {
        return Err(BeyondGrant(limit.value, written, |bytes|));
      }
      if baseOffset + written > U64_MAX {
        return Err(LengthOverflow);
      }
      var wrote := WritePart(part, baseOffset + written, bytes);
      if wrote.Err? {
        return Err(wrote.error);
      }
      StoredOn(origin, log, Put(baseOffset + written, bytes));
      part, log := wrote.value, log + [Put(baseOffset + written, bytes)];
      written := Min(written + |bytes|, U64_MAX);
      r := Ok(Unit);
    }

    method Sync()
      requires Valid()
      modifies this`part, this`log
      ensures Valid() && part == SyncPart(old(part)) && log == old(log) + [Commit]
    {
      StoredOn(origin, log, Commit);
      part, log := SyncPart(part), log + [Commit];
    }

    /** Moves the window; the target is untouched. */
    method Rebase(start: U64, cap: Option<U64>)
      modifies this
      ensures part == old(part) && baseOffset == start && written == 0 && limit == cap && log == old(log)
    {
      baseOffset, written, limit := start, 0, cap;
    }
  }
}
