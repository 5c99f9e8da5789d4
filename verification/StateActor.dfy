/**
 The actor as an object: one writer, one allocator, and the loop that serves commands on them.

 `Serve` does on the object what `Actor.Step` says, and `Run` leaves a trace of `Actor`, so every
 theorem about traces is a theorem about this loop. `GrantWriter` is the worker's handle.
 */
module ActorService {
  import opened Base
  import opened Ownership
  import opened Intervals
  import A = Allocator
  import opened JournalFormat
  import W = Writer
  import opened CommitOrder
  import S = Actor
  import D = DurableWriting

  const MAX_WRITE_BLOCK_BYTES: nat := 256 * 1024

  class StateActor {
    const writer: D.DurableWriter
    const allocator: A.SegmentAllocator
    var stopped: bool

    ghost predicate Valid()
      reads this, writer, allocator, allocator.intervals
    {
      allocator.Valid()
    }

    ghost function Value(): S.Actor
      reads this, writer, allocator, allocator.intervals
    {
      S.Actor(writer.Value(), allocator.intervals.Owners(), allocator.minSplitBytes, stopped)
    }

    constructor (w: D.DurableWriter, a: A.SegmentAllocator)
      requires a.Valid()
      ensures Valid() && writer == w && allocator == a
      ensures Value() == S.Actor(w.Value(), a.intervals.Owners(), a.minSplitBytes, false)
    {
      writer, allocator, stopped := w, a, false;
    }

    /** The fence ahead of every control command. */
    method Fence(crc: Checksum, faults: W.Faults) returns (r: Result<seq<W.DurableBlock>, W.WriterError>)
      requires Valid()
      modifies writer, allocator.intervals`intervals
      ensures Valid() && |old(allocator.intervals.Owners())| == allocator.intervals.totalLength
      ensures W.Outcome(writer.Value(), allocator.intervals.Owners(), r)
              == W.Flush(crc, old(writer.Value()), old(allocator.intervals.Owners()), faults.flush)
    {
      r := writer.Flush(crc, allocator.intervals, faults.flush);
    }

    method Allocate(crc: Checksum, hash: Hash, worker: U64, faults: W.Faults) returns (reply: S.Reply)
      requires Valid() && !stopped && S.Fitting(Value())
      modifies writer, allocator.intervals`intervals
      ensures Valid() && S.Turn(Value(), reply) == S.Step(crc, hash, old(Value()), S.Allocate(worker), faults)
    {
      hide W.Flush, A.Decide, Canonical, Expand;
      var durable := Fence(crc, faults);
      if durable.Err? {
        return S.Refused(S.WriterFailed(durable.error));
      }
      var given := allocator.Allocate(worker);
      reply := match given
               case Err(e) => S.Refused(S.AllocatorFailed(e))
               case Ok(a) => S.Allocated(a, durable.value);
      RefusalKeepsMap(old(Value()), worker, faults, crc);
    }

    method FlushAll(crc: Checksum, hash: Hash, faults: W.Faults) returns (reply: S.Reply)
      requires Valid() && !stopped && S.Fitting(Value())
      modifies writer, allocator.intervals`intervals
      ensures Valid() && S.Turn(Value(), reply) == S.Step(crc, hash, old(Value()), S.FlushAll, faults)
    {
      hide W.Flush, Canonical, Expand;
      var durable := Fence(crc, faults);
      reply := match durable
               case Err(e) => S.Refused(S.WriterFailed(e))
               case Ok(blocks) => S.Flushed(blocks);
    }

    method FlushDue(crc: Checksum, hash: Hash, now: nat, faults: W.Faults) returns (reply: S.Reply)
      requires Valid() && !stopped && S.Fitting(Value())
      modifies writer, allocator.intervals`intervals
      ensures Valid() && S.Turn(Value(), reply) == S.Step(crc, hash, old(Value()), S.FlushDue(now), faults)
    {
      hide W.FlushIfDue, Canonical, Expand;
      var durable := writer.FlushIfDue(crc, allocator.intervals, now, faults.flush);
      reply := match durable
               case Err(e) => S.Refused(S.WriterFailed(e))
               case Ok(blocks) => S.Flushed(blocks);
    }

    method Abandon(crc: Checksum, hash: Hash, worker: U64, faults: W.Faults) returns (reply: S.Reply)
      requires Valid() && !stopped && S.Fitting(Value())
      modifies writer, allocator.intervals`intervals
      ensures Valid() && S.Turn(Value(), reply) == S.Step(crc, hash, old(Value()), S.Abandon(worker), faults)
    {
      hide W.Flush, Canonical, Expand, Count;
      var durable := Fence(crc, faults);
      if durable.Err? {
        return S.Refused(S.WriterFailed(durable.error));
      }
      var released := allocator.Abandon(worker);
      reply := S.Abandoned(released, durable.value);
    }

    /** Refuses a write the current map does not allow before the writer or the disk sees it. */
    method Write(crc: Checksum, hash: Hash, worker: U64, offset: U64, bytes: seq<Byte>, now: nat, faults: W.Faults)
      returns (reply: S.Reply)
      requires Valid() && !stopped && S.Fitting(Value())
      modifies writer, allocator.intervals`intervals
      ensures Valid() && S.Turn(Value(), reply)
              == S.Step(crc, hash, old(Value()), S.Write(worker, offset, bytes, now), faults)
    {
      hide W.Stage, Canonical, Expand, CompleteRange;
      var end := offset + |bytes|;
      if end > U64_MAX {
        return S.Refused(S.CursorOverflow);
      }
      D.MapLength(allocator.intervals);
      var candidate := new IntervalMap.Clone(allocator.intervals);
      var owned := candidate.Complete(offset, end, worker);
      if owned.Err? {
        return S.Refused(S.WriterFailed(W.Rejected(owned.error)));
      }
      var staged := writer.Stage(crc, hash, allocator.intervals, worker, offset, bytes, now, faults);
      reply := match staged
               case Err(e) => S.Refused(S.WriterFailed(e))
               case Ok(blocks) => S.Written(offset, end, blocks);
    }

    method Shutdown(crc: Checksum, hash: Hash, faults: W.Faults) returns (reply: S.Reply)
      requires Valid() && !stopped && S.Fitting(Value())
      modifies this, writer, allocator.intervals`intervals
      ensures Valid() && S.Turn(Value(), reply) == S.Step(crc, hash, old(Value()), S.Shutdown, faults)
    {
      hide W.Flush, Canonical;
      var durable := Fence(crc, faults);
      stopped := true;
      reply := match durable
               case Err(e) => S.Refused(S.WriterFailed(e))
               case Ok(_) => S.Snapshotted(allocator.intervals.Owners());
    }

    method Snapshot(crc: Checksum, hash: Hash, faults: W.Faults) returns (reply: S.Reply)
      requires Valid() && !stopped && S.Fitting(Value())
      ensures S.Turn(Value(), reply) == S.Step(crc, hash, Value(), S.Snapshot, faults)
    {
      reply := S.Snapshotted(allocator.intervals.Owners());
    }

    /** Serves one command. */
    method Serve(crc: Checksum, hash: Hash, c: S.Command, faults: W.Faults) returns (reply: S.Reply)
      requires Valid() && S.Fitting(Value())
      modifies this, writer, allocator.intervals`intervals
      ensures Valid() && S.Turn(Value(), reply) == S.Step(crc, hash, old(Value()), c, faults)
    {
      hide S.Step;
      if stopped {
        StoppedStep(crc, hash, Value(), c, faults);
        return S.Refused(S.ActorStopped);
      }
      match c
      case Allocate(worker) => reply := Allocate(crc, hash, worker, faults);
      case Write(worker, offset, bytes, now) => reply := Write(crc, hash, worker, offset, bytes, now, faults);
      case FlushAll => reply := FlushAll(crc, hash, faults);
      case FlushDue(now) => reply := FlushDue(crc, hash, now, faults);
      case Abandon(worker) => reply := Abandon(crc, hash, worker, faults);
      case Snapshot => reply := Snapshot(crc, hash, faults);
      case Shutdown => reply := Shutdown(crc, hash, faults);
    }

    /** The receive loop. What it leaves behind is a run in the sense of `Actor.IsTrace`. */
    method Run(crc: Checksum, hash: Hash, events: seq<S.Event>, ghost h: FileHeader, ghost acc: History,
               ghost recs: seq<JournalRecord>, ghost floor: nat)
      returns (replies: seq<S.Reply>, ghost states: seq<S.Actor>, ghost hists: seq<History>)
      requires Valid() && S.ActorSound(crc, hash, h, Value(), acc, recs, floor)
      modifies this, writer, allocator.intervals`intervals
      ensures Valid() && S.IsTrace(crc, hash, states, hists, events) && |replies| == |events|
      ensures states[0] == old(Value()) && hists[0] == acc && states[|events|] == Value()
      ensures forall i :: 0 <= i < |events| ==> Answers(crc, hash, states[i], events[i], replies[i])
    {
      hide S.Step, S.ActorSound, S.HistoryAfter, Extends, S.CompleteStays, Visited;
      replies, states, hists := [], [Value()], [acc];
      ghost var journal, kept := recs, floor;
      for i := 0 to |events|
        invariant Valid() && |states| == |hists| == i + 1 && |replies| == i
        invariant states[0] == old(Value()) && hists[0] == acc && states[i] == Value()
        invariant S.ActorSound(crc, hash, h, states[i], hists[i], journal, kept)
        invariant S.IsTrace(crc, hash, states, hists, events[..i])
        invariant forall j :: 0 <= j < i ==> Answers(crc, hash, states[j], events[j], replies[j])
      {
        var e := events[i];
        ghost var a, was := Value(), hists[i];
        ghost var journal', kept' := S.StepSound(crc, hash, h, a, e.command, e.faults, was, journal, kept);
        var reply := Serve(crc, hash, e.command, e.faults);
        replies := replies + [reply];
        ghost var next := S.HistoryAfter(a, e.command, e.faults, was);
        TraceSnoc(crc, hash, states, hists, events, i, Value(), next);
        states, hists, journal, kept := states + [Value()], hists + [next], journal', kept';
      }
      assert events[..|events|] == events;
    }
  }

  /** The reply the actor in state `a` gives to an event. */
  ghost predicate Answers(crc: Checksum, hash: Hash, a: S.Actor, e: S.Event, reply: S.Reply)
  {
    S.Fitting(a) && S.Step(crc, hash, a, e.command, e.faults).reply == reply
  }

  lemma TraceSnoc(crc: Checksum, hash: Hash, states: seq<S.Actor>, hists: seq<History>, events: seq<S.Event>, i: nat,
                  next: S.Actor, acc: History)
    requires i < |events| && |states| == |hists| == i + 1 && S.IsTrace(crc, hash, states, hists, events[..i])
    requires S.Follows(crc, hash, states[i], hists[i], events[i], next, acc)
    ensures S.IsTrace(crc, hash, states + [next], hists + [acc], events[..i + 1])
  {
    hide S.Follows;
    var s, t, e := states + [next], hists + [acc], events[..i + 1];
    forall j | 0 <= j < |e| ensures S.Follows(crc, hash, s[j], t[j], e[j], s[j + 1], t[j + 1]) {
      if j < i {
        assert e[j] == events[..i][j];
      }
    }
  }

  datatype GrantError =
    | BlockTooLarge(actual: nat, maximum: nat)
    | CursorOverflow
    | BeyondGrant(start: U64, end: nat, grantStart: U64, grantEnd: U64)
    | Failed(error: S.ServiceError)

  /** A worker's sequential cursor over one grant; it has no way to choose an offset. */
  class GrantWriter {
    const grant: A.Grant
    var nextOffset: U64

    ghost predicate Valid()
      reads this
    {
      grant.lo <= nextOffset <= grant.hi
    }

    constructor (g: A.Grant)
      requires g.lo <= g.hi
      ensures Valid() && grant == g && nextOffset == g.lo
    {
      grant, nextOffset := g, g.lo;
    }

    /**
     Appends at the cursor. A payload past the end of the grant never reaches the actor, and the
     cursor moves only over bytes the actor accepted.
     */
    method Write(actor: StateActor, crc: Checksum, hash: Hash, bytes: seq<Byte>, now: nat, faults: W.Faults)
      returns (r: Result<S.Reply, GrantError>)
      requires Valid() && actor.Valid() && S.Fitting(actor.Value())
      modifies this, actor, actor.writer, actor.allocator.intervals`intervals
      ensures Valid() && actor.Valid()
      ensures r.Ok? ==> r.value.Written? && r.value.lo == old(nextOffset) && r.value.hi == nextOffset
                        && nextOffset == old(nextOffset) + |bytes|
      ensures r.Err? ==> nextOffset == old(nextOffset)
      ensures if old(nextOffset) + |bytes| > grant.hi || |bytes| > 262_144
              then r.Err? && actor.Value() == old(actor.Value())
              else
                var c := S.Write(grant.worker, old(nextOffset), bytes, now);
                var t := S.Step(crc, hash, old(actor.Value()), c, faults);
                && actor.Value() == t.actor
                && r == if t.reply.Refused? then Err(Failed(t.reply.error)) else Ok(t.reply)
      ensures |bytes| > 262_144 ==> r == Err(BlockTooLarge(|bytes|, 262_144))
      ensures |bytes| <= 262_144 && grant.hi < old(nextOffset) + |bytes| <= U64_MAX ==>
                r == Err(BeyondGrant(old(nextOffset), old(nextOffset) + |bytes|, grant.lo, grant.hi))
      ensures |bytes| <= 262_144 && old(nextOffset) + |bytes| > U64_MAX ==> r == Err(CursorOverflow)
    {
      hide S.Step, W.Fits, Canonical;
      if |bytes| > MAX_WRITE_BLOCK_BYTES {
        return Err(BlockTooLarge(|bytes|, MAX_WRITE_BLOCK_BYTES));
      }
      var end := nextOffset + |bytes|;
      if end > U64_MAX {
        return Err(CursorOverflow);
      }
      if end > grant.hi {
        return Err(BeyondGrant(nextOffset, end, grant.lo, grant.hi));
      }
      WriteReplies(crc, hash, actor.Value(), S.Write(grant.worker, nextOffset, bytes, now), faults);
      var reply := actor.Serve(crc, hash, S.Write(grant.worker, nextOffset, bytes, now), faults);
      if reply.Refused? {
        return Err(Failed(reply.error));
      }
      nextOffset := end;
      r := Ok(reply);
    }
  }

  /** A write is refused, or acknowledged with exactly its own range. */
  lemma WriteReplies(crc: Checksum, hash: Hash, a: S.Actor, c: S.Command, faults: W.Faults)
    requires S.Fitting(a) && c.Write?
    ensures var reply := S.Step(crc, hash, a, c, faults).reply;
            reply.Refused? || (reply.Written? && reply.lo == c.offset && reply.hi == c.offset + |c.bytes|)
  {
    hide W.Stage;
  }

  lemma StoppedStep(crc: Checksum, hash: Hash, a: S.Actor, c: S.Command, faults: W.Faults)
    requires S.Fitting(a) && a.stopped
    ensures S.Step(crc, hash, a, c, faults) == S.Turn(a, S.Refused(S.ActorStopped))
  {
  }

  /** An allocation the allocator refuses leaves the fenced map alone. */
  lemma RefusalKeepsMap(a: S.Actor, worker: U64, faults: W.Faults, crc: Checksum)
    requires S.Fitting(a)
    ensures var o := W.Flush(crc, a.writer, a.owners, faults.flush);
            && |o.owners| <= U64_MAX
            && var d := A.Decide(o.owners, worker, a.minSplit); d.result.Err? ==> d.owners == o.owners
  {
    hide W.CommitBatch, Runs, A.Preferred, A.Midpoint;
    S.FlushLength(crc, a.writer, a.owners, faults.flush);
  }
}
