/**
 The single-stream download: probe, fetch, retry and resume.

 The server is a world of versions of one representation. It may move to a later version before
 any request, it never returns to an earlier validator, and it honours `If-Range` (section
 13.1.5 of RFC 9110): a 206 to a conditional request comes from the version the validator names.
 The body of a 206 is the part that its own `Content-Range` names (section 14.4 of RFC 9110); the
 body of a 200 is the representation from its first byte, and so is that of an unsolicited 206 to
 a whole request, whose `Content-Range` is never read. When versions change, what headers say,
 where bodies are cut and which failures come in between are arbitrary. Under these assumptions a
 completed file is never spliced from two versions.
 */
module SingleStream {
  import opened Base
  import opened Desk
  import opened Sink
  import R = ContentRange
  import Retry

  datatype Validator = StrongETag(value: string) | LastModified(value: string) | NoValidator

  function IfRangeValue(v: Validator): Option<string>
  {
    if v.NoValidator? then None else Some(v.value)
  }

  /** What each version of the representation is, and the validator it is served with. */
  datatype World = World(reps: nat -> seq<Byte>, validators: nat -> Validator)

  /** Two versions never share a validator that can be sent in `If-Range`. */
  ghost predicate NeverReturns(world: World)
  {
    forall i: nat, j: nat {:trigger world.validators(i), world.validators(j)} ::
      var sent := IfRangeValue(world.validators(i));
      sent.Some? && sent == IfRangeValue(world.validators(j)) ==> i == j
  }

  ghost predicate Addressable(world: World) { forall v: nat :: |world.reps(v)| <= U64_MAX }

  datatype ProbeError = ProbeTransport | ProbeTimeout | ProbeStatus(status: nat) | ProbeRefused

  datatype TransferError =
    | Transport
    | TransferTimeout
    | TruncatedBody
    | UnexpectedStatus(status: nat)
    | ValidatorMismatch(resumeOffset: nat)
    | OverDelivery
    | UnusableResponse
    | SinkRefused

  datatype DownloadError =
    | Probe(probe: ProbeError)
    | Transfer(transfer: TransferError)
    | Incomplete(expected: U64, actual: nat)
    | TargetExists
    | StorageFailed
    | Unverified

  function TransientKindOf(e: DownloadError): Option<Retry.TransientKind>
  {
    match e
    case Probe(ProbeTransport) => Some(Retry.ConnectionReset)
    case Transfer(Transport) => Some(Retry.ConnectionReset)
    case Probe(ProbeTimeout) => Some(Retry.Timeout)
    case Transfer(TransferTimeout) => Some(Retry.Timeout)
    case Transfer(TruncatedBody) => Some(Retry.TruncatedBody)
    case Incomplete(_, _) => Some(Retry.TruncatedBody)
    case Probe(ProbeStatus(s)) => Retry.FromStatus(s)
    case Transfer(UnexpectedStatus(s)) => Retry.FromStatus(s)
    case _ => None
  }

  /** One request for bytes: where it started, where the file ended, if it continued, and what was being served. */
  datatype Fetch = Fetch(start: nat, end: nat, resumed: bool, version: nat)

  /** The writes `puts` append the bytes `[lo, hi)` of `rep`, one after the other. */
  ghost predicate Appends(puts: seq<SinkOp>, rep: seq<Byte>, lo: nat, hi: nat)
  {
    if puts == [] then lo == hi
    else
      var n := |puts| - 1;
      && puts[n].Put? && puts[n].bytes != [] && lo <= puts[n].offset && puts[n].offset + |puts[n].bytes| == hi <= |rep|
      && puts[n].bytes == rep[puts[n].offset..hi] && Appends(puts[..n], rep, lo, puts[n].offset)
  }

  lemma AppendsMore(puts: seq<SinkOp>, rep: seq<Byte>, lo: nat, hi: nat, n: nat)
    requires Appends(puts, rep, lo, hi) && lo <= hi && 0 < n && hi + n <= |rep|
    ensures Appends(puts + [Put(hi, rep[hi..hi + n])], rep, lo, hi + n)
  {
    var all := puts + [Put(hi, rep[hi..hi + n])];
    assert all[..|all| - 1] == puts;
  }

  /** What a sink was asked to do: the writes of each fetch, and a commit after each. */
  ghost function Logged(puts: seq<seq<SinkOp>>): seq<SinkOp>
  {
    if puts == [] then [] else Logged(puts[..|puts| - 1]) + puts[|puts| - 1] + [Commit]
  }

  lemma LoggedOne(puts: seq<SinkOp>)
    ensures Logged([puts]) == puts + [Commit]
  {
    assert [puts][..0] == [];
    assert Logged([puts]) == [] + puts + [Commit];
  }

  lemma LoggedMore(puts: seq<seq<SinkOp>>, more: seq<SinkOp>)
    ensures Logged(puts + [more]) == Logged(puts) + more + [Commit]
  {
    assert (puts + [more])[..|puts|] == puts;
  }

  /** The last fetch that started over. */
  function LastStart(fetches: seq<Fetch>): (i: nat)
    ensures i <= |fetches|
  {
    if fetches == [] || !fetches[|fetches| - 1].resumed then if fetches == [] then 0 else |fetches| - 1
    else LastStart(fetches[..|fetches| - 1])
  }

  /** Every fetch appended the bytes it was served, from where it started to where the file ended. */
  ghost predicate Recorded(world: World, fetches: seq<Fetch>, puts: seq<seq<SinkOp>>)
  {
    && |puts| == |fetches|
    && forall i :: 0 <= i < |fetches| ==>
         Appends(puts[i], world.reps(fetches[i].version), fetches[i].start, fetches[i].end)
  }

  /** Every fetch since the last start that delivered anything was served from version `v`. */
  ghost predicate AllFrom(fetches: seq<Fetch>, v: nat)
  {
    forall i :: LastStart(fetches) <= i < |fetches| && fetches[i].start < fetches[i].end ==> fetches[i].version == v
  }

  /** The state carried across the attempts of one download. */
  datatype Session = Session(sink: RangeSink, validator: Validator)

  /**
   The session's first `k` bytes are accepted, durable and all from version `served`; the
   validator and the length are those of version `probed`, seen no later.
   */
  ghost predicate Holding(world: World, s: Session, probed: nat, served: nat, now: nat, k: nat)
    reads s.sink
  {
    && s.sink.Valid() && Reached(s.sink.part, k, true) && probed <= served <= now
    && |s.sink.part.cells| <= U64_MAX && s.sink.origin == NewPart(|s.sink.part.cells|)
    && s.validator == world.validators(probed) && |s.sink.part.cells| == |world.reps(probed)|
    && k <= |world.reps(served)| && s.sink.part.content[..k] == world.reps(served)[..k]
  }

  /** All of `file` is the beginning of one version, and as long as the version that was probed. */
  ghost predicate FromOneVersion(world: World, file: seq<Byte>)
  {
    exists p: nat, v: nat :: p <= v && |file| == |world.reps(p)| && file <= world.reps(v)
  }

  /** The server may have moved on since the last request. */
  method Later(now: nat) returns (next: nat)
    ensures next >= now
  {
    next := *;
    if next < now {
      next := now;
    }
  }

  method ProbeServer(world: World, now: nat) returns (next: nat, r: Result<Validator, ProbeError>)
    ensures next >= now && (r.Ok? ==> r.value == world.validators(next))
  {
    next := Later(now);
    var failure: Option<ProbeError> := *;
    r := match failure
         case Some(e) => Err(e)
         case None => Ok(world.validators(next));
  }

  /** From `before`, bytes `[base, k)` of `rep` have been appended and nothing else changed. */
  ghost predicate Delivered(before: Part, after: Part, base: nat, k: nat, rep: seq<Byte>)
  {
    && |before.cells| == |after.cells| && base <= k <= |after.cells| && Reached(after, k, false)
    && |before.content| == |after.content| == |after.cells| && after.content[..base] == before.content[..base]
    && (k > base ==> k <= |rep| && after.content[base..k] == rep[base..k])
  }

  lemma DeliveredNothing(part: Part, base: nat, rep: seq<Byte>)
    requires Reached(part, base, true)
    ensures Delivered(part, part, base, base, rep)
  {
  }

  lemma DeliveredMore(before: Part, part: Part, base: nat, k: nat, rep: seq<Byte>, n: nat)
    requires Delivered(before, part, base, k, rep) && 0 < n && k + n <= |rep| && ValidPart(part)
    ensures WritePart(part, k, rep[k..k + n]).Ok? ==>
              Delivered(before, WritePart(part, k, rep[k..k + n]).value, base, k + n, rep)
  {
    hide Reached, WritePart;
    var wrote := WritePart(part, k, rep[k..k + n]);
    WriteReaches(part, k, false, rep[k..k + n]);
    if wrote.Ok? {
      var after := wrote.value;
      assert after.content[..base] == after.content[..k][..base] == part.content[..base];
      assert after.content[base..k + n] == after.content[..k + n][base..];
      assert after.content[base..k + n] == part.content[base..k] + rep[k..k + n];
      assert part.content[base..k] == rep[base..k];
      assert rep[base..k + n] == rep[base..k] + rep[k..k + n];
    }
  }

  lemma NothingAppended(rep: seq<Byte>, base: nat)
    ensures Appends([], rep, base, base)
  {
  }

  /** The body of one response, the bytes of `rep` from `start` on: chunks of any size, ending however it ends. */
  method ReadBody(rep: seq<Byte>, start: nat, sink: RangeSink)
    returns (r: Result<bool, TransferError>, ghost puts: seq<SinkOp>)
    requires sink.Valid() && sink.written == 0 && Reached(sink.part, sink.baseOffset, true)
    requires start == sink.baseOffset
    modifies sink
    ensures sink.Valid() && sink.baseOffset == old(sink.baseOffset)
    ensures Delivered(old(sink.part), sink.part, sink.baseOffset, sink.baseOffset + sink.written, rep)
    ensures sink.log == old(sink.log) + puts && Appends(puts, rep, sink.baseOffset, sink.baseOffset + sink.written)
  {
    hide Delivered, Reached, WritePart, Appends;
    puts := [];
    NothingAppended(rep, sink.baseOffset);
    var chunks: nat := *;
    DeliveredNothing(sink.part, sink.baseOffset, rep);
    while chunks > 0
      invariant sink.Valid() && sink.baseOffset == old(sink.baseOffset)
      invariant Delivered(old(sink.part), sink.part, sink.baseOffset, sink.baseOffset + sink.written, rep)
      invariant sink.log == old(sink.log) + puts && Appends(puts, rep, sink.baseOffset, sink.baseOffset + sink.written)
      decreases chunks
    {
      chunks := chunks - 1;
      var n: nat := *;
      var at := start + sink.written;
      if 0 < n && at + n <= |rep| {
        DeliveredMore(old(sink.part), sink.part, sink.baseOffset, at, rep, n);
        AppendsMore(puts, rep, sink.baseOffset, at, n);
        var accepted := sink.Accept(rep[at..at + n]);
        if accepted.Err? {
          return Err(if accepted.error.BeyondGrant? then OverDelivery else SinkRefused), puts;
        }
        puts := puts + [Put(at, rep[at..at + n])];
      }
    }
    r := *;
  }

  /** A whole request names no range; a conditional one asks for everything from `offset` on. */
  function RangeFor(ifRange: Option<string>, offset: U64): Option<R.ByteRangeSpec>
  {
    if ifRange.Some? then Some(R.From(offset)) else None
  }

  /** The length a `Content-Range` header claims for its part, or 0. */
  function ClaimedLen(header: Option<string>): nat
  {
    if header.None? then 0
    else
      R.ParsedWellFormed(header.value);
      match R.Parse(header.value)
      case Err(_) => 0
      case Ok(v) => (match R.Len(v) case None => 0 case Some(n) => n)
  }

  /** What the response headers say against accepting the body. */
  function HeaderCheck(range: Option<R.ByteRangeSpec>, status: nat, header: Option<string>, encoding: Option<string>):
    Result<Unit, TransferError>
  {
    match range
    case Some(requested) =>
      (match R.ProveRange(requested, status, header, encoding, ClaimedLen(header))
       case Ok(_) => Ok(Unit)
       case Err(_) => Err(UnusableResponse))
    case None => if R.Encoded(encoding) then Err(UnusableResponse) else Ok(Unit)
  }

  /**
   Where the body of a response begins: the part a `Content-Range` names, if a range was asked
   for, and otherwise the beginning.
   */
  function BodyStart(range: Option<R.ByteRangeSpec>, header: Option<string>): nat
  {
    if range.None? || header.None? then 0
    else
      match R.Parse(header.value)
      case Ok(Bytes(first, _, _)) => first
      case _ => 0
  }

  /** A response that passes begins exactly where it was asked to. */
  lemma CheckedStart(ifRange: Option<string>, offset: U64, status: nat, header: Option<string>,
                     encoding: Option<string>)
    requires HeaderCheck(RangeFor(ifRange, offset), status, header, encoding).Ok? && (ifRange.None? ==> offset == 0)
    ensures BodyStart(RangeFor(ifRange, offset), header) == offset
    ensures ifRange.Some? ==> status == 206
  {
    hide R.Parse, R.Encoded, ClaimedLen;
    if ifRange.Some? {
      var v := R.ProveRange(R.From(offset), status, header, encoding, ClaimedLen(header)).value;
      R.ProvenMeans(R.From(offset), status, header, encoding, ClaimedLen(header), v);
    }
  }

  /**
   Sends one request and appends what arrives. A conditional request that is not answered with
   206 is refused before its body is touched, and so is an answer whose `Content-Range` does not
   begin where the file ends; what is appended comes from one version.
   */
  method FetchRange(world: World, now: nat, sink: RangeSink, ifRange: Option<string>)
    returns (next: nat, r: Result<bool, TransferError>, ghost puts: seq<SinkOp>)
    requires sink.Valid() && sink.written == 0 && Reached(sink.part, sink.baseOffset, true)
    requires ifRange.None? ==> sink.baseOffset == 0
    modifies sink
    ensures next >= now && sink.Valid() && sink.baseOffset == old(sink.baseOffset)
    ensures Delivered(old(sink.part), sink.part, sink.baseOffset, sink.baseOffset + sink.written, world.reps(next))
    ensures sink.written > 0 && ifRange.Some? ==> IfRangeValue(world.validators(next)) == ifRange
    ensures sink.log == old(sink.log) + puts
    ensures Appends(puts, world.reps(next), sink.baseOffset, sink.baseOffset + sink.written)
  {
    hide Delivered, Reached, HeaderCheck, BodyStart, Appends;
    next := Later(now);
    puts := [];
    NothingAppended(world.reps(next), sink.baseOffset);
    DeliveredNothing(sink.part, sink.baseOffset, world.reps(next));
    var refusal: Option<TransferError> := *;
    if refusal.Some? {
      return next, Err(refusal.value), puts;
    }
    var status: nat := *;
    var honoured := ifRange.None? || IfRangeValue(world.validators(next)) == ifRange;
    if ifRange.Some? && (status != 206 || !honoured) {
      return next, Err(ValidatorMismatch(sink.baseOffset)), puts;
    }
    if status != 200 && status != 206 {
      return next, Err(UnexpectedStatus(status)), puts;
    }
    var header: Option<string> := *;
    var encoding: Option<string> := *;
    var range := RangeFor(ifRange, sink.baseOffset);
    var checked := HeaderCheck(range, status, header, encoding);
    if checked.Err? {
      return next, Err(checked.error), puts;
    }
    CheckedStart(ifRange, sink.baseOffset, status, header, encoding);
    r, puts := ReadBody(world.reps(next), BodyStart(range, header), sink);
  }

  // ----- running a session -----

  /** A conditional request that delivered something came from the probed version itself. */
  lemma ResumedSame(world: World, s: Session, probed: nat, served: nat, now: nat, next: nat)
    requires NeverReturns(world) && probed <= served <= now <= next
    requires s.validator == world.validators(probed) && IfRangeValue(s.validator).Some?
    requires IfRangeValue(world.validators(next)) == IfRangeValue(s.validator)
    ensures served == next
  {
  }

  /** Joining what was held with what was delivered, when both come from the same version. */
  lemma HeldThenDelivered(before: Part, after: Part, base: nat, k: nat, rep: seq<Byte>)
    requires Delivered(before, after, base, k, rep) && base <= |rep|
    requires before.content[..base] == rep[..base]
    ensures k <= |rep| && after.content[..k] == rep[..k]
  {
    hide Reached;
    assert after.content[..k] == after.content[..base] + after.content[base..k];
    assert k > base ==> rep[..k] == rep[..base] + rep[base..k];
  }

  lemma RunHolding(world: World, s: Session, before: Part, probed: nat, served: nat, now: nat, next: nat, k: nat,
                   k': nat)
    returns (served': nat)
    requires NeverReturns(world) && now <= next && probed <= served <= now && s.validator == world.validators(probed)
    requires |before.cells| == |before.content| == |world.reps(probed)|
    requires k <= |before.cells| && k <= |world.reps(served)| && before.content[..k] == world.reps(served)[..k]
    requires Delivered(before, s.sink.part, k, k', world.reps(next))
    requires k' > k && k > 0 ==>
               IfRangeValue(s.validator).Some? && IfRangeValue(world.validators(next)) == IfRangeValue(s.validator)
    ensures probed <= served' <= next && k' <= |world.reps(served')|
    ensures k' <= |s.sink.part.content| && s.sink.part.content[..k'] == world.reps(served')[..k']
    ensures k' > k ==> served' == next
    ensures k' == k || k > 0 ==> served' == served
  {
    hide Reached;
    if k' == k {
      served' := served;
    } else {
      served' := next;
      if k > 0 {
        ResumedSame(world, s, probed, served, now, next);
      }
      HeldThenDelivered(before, s.sink.part, k, k', world.reps(next));
    }
  }

  /**
   Fetches into a session, commits what arrived whatever happened, and completes the file if it
   is whole. Otherwise the session is handed back for a retry to continue or discard. `puts` are the
   writes of this fetch, in the order the sink made them.
   */
  method Run(world: World, now: nat, s: Session, ifRange: Option<string>, ghost probed: nat, ghost served: nat,
             ghost k: nat)
    returns (next: nat, r: Result<seq<Byte>, DownloadError>, back: Option<Session>, fetch: Fetch, ghost served': nat,
             ghost puts: seq<SinkOp>)
    requires NeverReturns(world) && Holding(world, s, probed, served, now, k)
    requires s.sink.baseOffset == k && s.sink.written == 0
    requires if ifRange.Some? then ifRange == IfRangeValue(s.validator) else k == 0
    modifies s.sink
    ensures next >= now && fetch == Fetch(k, fetch.end, ifRange.Some?, next)
    ensures r.Ok? ==> FromOneVersion(world, r.value) && r.value <= world.reps(served') && |r.value| == fetch.end
    ensures s.sink.log == old(s.sink.log) + puts + [Commit] && (r.Ok? ==> WrittenBy(s.sink.log, r.value))
    ensures Appends(puts, world.reps(next), k, fetch.end)
    ensures (fetch.end > k ==> served' == next) && (fetch.end == k || k > 0 ==> served' == served)
    ensures back.None? ==> r.Ok? || r.error == StorageFailed
    ensures r.Err? && r.error.Incomplete? ==> r.error == Incomplete(|world.reps(probed)|, fetch.end)
    ensures back.Some? ==> back.value == s && Holding(world, s, probed, served', next, fetch.end)
  {
    hide Delivered, Reached, NeverReturns, Stored, AllStored, Appends, WrittenBy, FromOneVersion;
    ghost var before := s.sink.part;
    HoldingParts(world, s, probed, served, now, k);
    var fetched;
    next, fetched, puts := FetchRange(world, now, s.sink, ifRange);
    ghost var k' := s.sink.baseOffset + s.sink.written;
    served' := RunHolding(world, s, before, probed, served, now, next, k, k');
    DeliveredReached(before, s.sink.part, k, k', world.reps(next));
    fetch := Fetch(s.sink.baseOffset, s.sink.baseOffset + s.sink.written, ifRange.Some?, next);
    SyncReaches(s.sink.part, k', false);
    s.sink.Sync();
    HoldingIs(world, s, probed, served', next, k');
    var total := |s.sink.part.cells|;
    var committed: bool := *;
    if !committed {
      return next, Err(StorageFailed), None, fetch, served', puts;
    }
    if fetched.Err? {
      return next, Err(Transfer(fetched.error)), Some(s), fetch, served', puts;
    }
    var delivered := s.sink.NextOffset();
    if delivered != total || fetched.value {
      return next, Err(Incomplete(total, delivered)), Some(s), fetch, served', puts;
    }
    var verified: bool := *;
    if !verified {
      return next, Err(Unverified), Some(s), fetch, served', puts;
    }
    WholeFile(world, s, probed, served', next, k');
    return next, Ok(s.sink.part.content), None, fetch, served', puts;
  }

  lemma HoldingParts(world: World, s: Session, probed: nat, served: nat, now: nat, k: nat)
    requires Holding(world, s, probed, served, now, k)
    ensures s.sink.Valid() && k <= |s.sink.part.cells| <= U64_MAX && s.sink.origin == NewPart(|s.sink.part.cells|)
    ensures Reached(s.sink.part, k, true)
  {
  }

  lemma DeliveredReached(before: Part, after: Part, base: nat, k: nat, rep: seq<Byte>)
    requires Delivered(before, after, base, k, rep)
    ensures |after.cells| == |before.cells| && Reached(after, k, false) && ValidPart(after) && k <= |after.cells|
  {
  }

  lemma HoldingIs(world: World, s: Session, probed: nat, served: nat, now: nat, k: nat)
    requires s.sink.Valid() && Reached(s.sink.part, k, true) && probed <= served <= now
    requires |s.sink.part.cells| <= U64_MAX && s.sink.origin == NewPart(|s.sink.part.cells|)
    requires s.validator == world.validators(probed) && |s.sink.part.cells| == |world.reps(probed)|
    requires k <= |s.sink.part.content| && k <= |world.reps(served)|
             && s.sink.part.content[..k] == world.reps(served)[..k]
    ensures Holding(world, s, probed, served, now, k)
  {
  }

  lemma WholeFile(world: World, s: Session, probed: nat, served: nat, now: nat, k: nat)
    requires Holding(world, s, probed, served, now, k) && k == |s.sink.part.cells|
    requires s.sink.log != [] && s.sink.log[|s.sink.log| - 1].Commit?
    ensures FromOneVersion(world, s.sink.part.content) && s.sink.part.content <= world.reps(served)
    ensures WrittenBy(s.sink.log, s.sink.part.content) && |s.sink.part.content| == k
  {
    hide AllStored, Stored;
    assert s.sink.part.content[..k] == s.sink.part.content;
    assert |s.sink.part.content| == |world.reps(probed)| && s.sink.part.content <= world.reps(served);
  }

  // ----- attempts -----

  /**
   What one attempt ends with: the retry loop continues or discards the session it hands back. The
   attempt continues what the sink had done before, `log`, with the writes `puts` of its fetch.
   */
  ghost predicate Attempted(world: World, r: Result<seq<Byte>, DownloadError>, back: Option<Session>, probed: nat,
                            served: nat, now: nat, fetches: seq<Fetch>, log: seq<SinkOp>, puts: seq<seq<SinkOp>>)
    reads if back.Some? then {back.value.sink} else {}
  {
    && |fetches| <= 1 && Recorded(world, fetches, puts)
    && (r.Ok? ==>
          && FromOneVersion(world, r.value) && r.value <= world.reps(served)
          && fetches != [] && WrittenBy(log + Logged(puts), r.value))
    && (back.Some? ==>
          && fetches != [] && Holding(world, back.value, probed, served, now, fetches[0].end)
          && back.value.sink.log == log + Logged(puts))
    && (forall i :: 0 <= i < |fetches| && fetches[i].start < fetches[i].end ==> fetches[i].version == served)
  }

  /** A first attempt: probe, create the artifacts, and fetch the whole representation. */
  method Begin(world: World, now: nat, leftover: bool)
    returns (next: nat, r: Result<seq<Byte>, DownloadError>, back: Option<Session>, fetches: seq<Fetch>,
             ghost probed: nat, ghost served: nat, ghost puts: seq<seq<SinkOp>>)
    requires NeverReturns(world) && Addressable(world)
    ensures next >= now && Attempted(world, r, back, probed, served, next, fetches, [], puts)
    ensures back.Some? ==> fresh(back.value.sink)
    ensures fetches != [] && back.None? ==> r.Ok? || r.error == StorageFailed
    ensures leftover ==> fetches == []
    ensures fetches == [] && r == Err(StorageFailed) ==> leftover
    ensures forall i :: 0 <= i < |fetches| ==> fetches[i].start == 0 && !fetches[i].resumed
  {
    hide NeverReturns, FromOneVersion, Stored, AllStored, WrittenBy, Appends, Logged;
    var probe;
    next, probe := ProbeServer(world, now);
    probed, served, back, fetches, puts := next, next, None, [], [];
    if probe.Err? {
      return next, Err(Probe(probe.error)), back, fetches, probed, served, puts;
    }
    var occupied: bool := *;
    if occupied {
      return next, Err(TargetExists), back, fetches, probed, served, puts;
    }
    if leftover {
      return next, Err(StorageFailed), back, fetches, probed, served, puts;
    }
    var total := |world.reps(next)|;
    NewReached(total);
    var sink := new RangeSink(NewPart(total), 0, Some(total));
    var s := Session(sink, probe.value);
    NothingHeld(world, s, next);
    var fetch;
    ghost var mine;
    next, r, back, fetch, served, mine := Run(world, next, s, None, next, next, 0);
    LoggedOne(mine);
    fetches, puts := [fetch], [mine];
    assert sink.log == [] + Logged(puts);
  }

  lemma NothingHeld(world: World, s: Session, now: nat)
    requires |world.reps(now)| <= U64_MAX && s.sink.part == NewPart(|world.reps(now)|)
    requires s.sink.Valid() && s.sink.origin == s.sink.part
    requires s.validator == world.validators(now)
    ensures Holding(world, s, now, now, now, 0)
  {
    NewReached(|world.reps(now)|);
  }

  /**
   Continues a session from its durable prefix, conditional on its own validator. Stale evidence
   is refreshed first; a changed validator or length stops the download.
   */
  method Resume(world: World, now: nat, s: Session, ghost probed: nat, ghost served: nat, ghost k: nat)
    returns (next: nat, r: Result<seq<Byte>, DownloadError>, back: Option<Session>, fetches: seq<Fetch>,
             ghost served': nat, ghost puts: seq<seq<SinkOp>>)
    requires NeverReturns(world) && Holding(world, s, probed, served, now, k) && IfRangeValue(s.validator).Some?
    modifies s.sink
    ensures next >= now && Attempted(world, r, back, probed, served', next, fetches, old(s.sink.log), puts)
    ensures back.Some? ==> back.value == s
    ensures fetches != [] && back.None? ==> r.Ok? || r.error == StorageFailed
    ensures fetches == [] ==> r != Err(StorageFailed)
    ensures k > 0 ==> served' == served
    ensures forall i :: 0 <= i < |fetches| ==> fetches[i].start == k && fetches[i].resumed
  {
    hide NeverReturns, FromOneVersion, Reached, Stored, AllStored, WrittenBy, Appends, Logged;
    next, back, fetches, served', puts := now, None, [], served, [];
    var stale: bool := *;
    if stale {
      var probe;
      next, probe := ProbeServer(world, now);
      if probe.Err? {
        return next, Err(Probe(probe.error)), None, [], served, [];
      }
      if probe.value != s.validator || |world.reps(next)| != |s.sink.part.cells| {
        var kept := DurablePrefixEnd(s.sink.part);
        return next, Err(Transfer(ValidatorMismatch(kept))), None, [], served, [];
      }
    }
    HoldingParts(world, s, probed, served, now, k);
    var from := DurablePrefixEnd(s.sink.part);
    PrefixIsHeld(s.sink.part, k, from);
    s.sink.Rebase(from, Some(|s.sink.part.cells| - from));
    var fetch;
    ghost var log, mine := s.sink.log, [];
    next, r, back, fetch, served', mine := Run(world, next, s, IfRangeValue(s.validator), probed, served, k);
    LoggedOne(mine);
    fetches, puts := [fetch], [mine];
    assert log + mine + [Commit] == log + Logged(puts);
  }

  /** The durable prefix is exactly what was accepted. */
  lemma PrefixIsHeld(p: Part, k: nat, n: nat)
    requires Reached(p, k, true) && n <= |p.cells| && (forall b :: 0 <= b < n ==> p.cells[b] == Done)
    requires n < |p.cells| ==> p.cells[n] != Done
    ensures n == k
  {
    var x := Min(n, k);
    var c := if x < |p.cells| then p.cells[x] else Done;
  }

  /** Fetches alternate between starting over and continuing exactly where the last one ended. */
  ghost predicate Contiguous(fetches: seq<Fetch>)
  {
    && (forall i :: 0 <= i < |fetches| && !fetches[i].resumed ==> fetches[i].start == 0)
    && (fetches != [] ==> !fetches[0].resumed)
    && (forall i, j :: 0 <= i < j < |fetches| && j == i + 1 && fetches[j].resumed ==>
        fetches[j].start == fetches[i].end)
  }

  // ----- retrying -----

  /** A request timeout, too many requests, or an error of the server. */
  predicate RetryableStatus(status: nat) { status == 408 || status == 429 || 500 <= status <= 599 }

  /** The connection or the body broke off, or the server said to come back later. */
  predicate Retryable(e: DownloadError)
  {
    match e
    case Probe(p) => p == ProbeTransport || p == ProbeTimeout || (p.ProbeStatus? && RetryableStatus(p.status))
    case Transfer(t) =>
      t == Transport || t == TransferTimeout || t == TruncatedBody || (t.UnexpectedStatus? && RetryableStatus(t.status))
    case Incomplete(_, _) => true
    case _ => false
  }

  /** The policy retries exactly those, five times. */
  lemma RetriesExactly(e: DownloadError, failures: nat)
    ensures var kind := TransientKindOf(e);
            kind.Some? && !Retry.GivesUp(kind.value, failures) <==> Retryable(e) && failures < 5
  {
  }

  /** One attempt: whether it continued, the version that was probed, its request, and how it failed. */
  datatype Try = Try(resumed: bool, probed: nat, fetch: Option<Fetch>, error: Option<DownloadError>)

  /** There are durable bytes to continue from, and a validator to continue them with. */
  ghost predicate Resumable(world: World, t: Try)
  {
    t.fetch.Some? && t.fetch.value.end > 0 && IfRangeValue(world.validators(t.probed)).Some?
  }

  /** An attempt to continue that made no request gave up its session, but not the files of it. */
  ghost predicate Orphaned(tries: seq<Try>, n: nat)
    requires n <= |tries|
  {
    exists i :: 0 <= i < n && tries[i].resumed && tries[i].fetch.None?
  }

  /** Every attempt but the last failed in a way worth retrying, and the next continued it exactly if it could. */
  ghost predicate Retried(world: World, tries: seq<Try>)
  {
    && (forall i :: 0 <= i < |tries| - 1 ==> tries[i].error.Some? && Retryable(tries[i].error.value))
    && (tries != [] ==> !tries[0].resumed)
    && (forall i, j :: 0 <= i < j < |tries| && j == i + 1 ==> Follows(world, tries[i], tries[j]))
    && (forall i :: 0 <= i < |tries| ==> Collides(tries, i))
    && (forall i :: 0 <= i < |tries| && tries[i].fetch.Some? ==> tries[i].fetch.value.resumed == tries[i].resumed)
  }

  ghost predicate Follows(world: World, s: Try, t: Try)
  {
    && (t.resumed <==> Resumable(world, s)) && (t.resumed ==> t.probed == s.probed)
    && (t.resumed && t.fetch.Some? ==> t.fetch.value.start == s.fetch.value.end)
  }

  /** Starting over fails on files that were left behind, and on no others. */
  ghost predicate Collides(tries: seq<Try>, i: nat)
    requires i < |tries|
  {
    && (!tries[i].resumed && Orphaned(tries, i) ==> tries[i].fetch.None?)
    && (tries[i].fetch.None? && tries[i].error == Some(StorageFailed) ==> Orphaned(tries, i))
  }

  function FetchesOf(tries: seq<Try>): seq<Fetch>
  {
    if tries == [] then []
    else
      var t := tries[|tries| - 1];
      FetchesOf(tries[..|tries| - 1]) + if t.fetch.Some? then [t.fetch.value] else []
  }

  lemma RetriedMore(world: World, tries: seq<Try>, t: Try)
    requires Retried(world, tries) && (t.fetch.Some? ==> t.fetch.value.resumed == t.resumed)
    requires if tries == [] then !t.resumed
             else var s := tries[|tries| - 1]; Follows(world, s, t) && s.error.Some? && Retryable(s.error.value)
    requires !t.resumed && Orphaned(tries, |tries|) ==> t.fetch.None?
    requires t.fetch.None? && t.error == Some(StorageFailed) ==> Orphaned(tries, |tries|)
    ensures Retried(world, tries + [t])
    ensures Orphaned(tries + [t], |tries| + 1) <==> Orphaned(tries, |tries|) || (t.resumed && t.fetch.None?)
    ensures FetchesOf(tries + [t]) == FetchesOf(tries) + if t.fetch.Some? then [t.fetch.value] else []
  {
    hide Follows, Retryable;
    var all := tries + [t];
    assert all[..|tries|] == tries;
    forall i | 0 <= i <= |tries| ensures Orphaned(all, i) <==> Orphaned(tries, i) {
      OrphanedSame(tries, t, i);
    }
    forall i | 0 <= i < |all| ensures Collides(all, i) {
      assert i < |tries| ==> Collides(tries, i) && all[i] == tries[i];
    }
    OrphanedNext(tries, t);
  }

  lemma OrphanedSame(tries: seq<Try>, t: Try, n: nat)
    requires n <= |tries|
    ensures Orphaned(tries + [t], n) <==> Orphaned(tries, n)
  {
    assert (tries + [t])[..n] == tries[..n];
    if Orphaned(tries, n) {
      var i :| 0 <= i < n && tries[i].resumed && tries[i].fetch.None?;
      assert (tries + [t])[i] == tries[i];
    }
  }

  lemma OrphanedNext(tries: seq<Try>, t: Try)
    ensures Orphaned(tries + [t], |tries| + 1) <==> Orphaned(tries, |tries|) || (t.resumed && t.fetch.None?)
  {
    var all := tries + [t];
    assert all[|tries|] == t;
    OrphanedSame(tries, t, |tries|);
  }

  lemma NothingTried(world: World)
    ensures Retried(world, []) && !Orphaned([], 0) && FetchesOf([]) == [] && Contiguous([]) && !Retryable(StorageFailed)
  {
  }

  /** Continues the session if there is one, and starts over otherwise. */
  method AttemptOnce(world: World, now: nat, session: Option<Session>, leftover: bool, ghost probed: nat,
                     ghost served: nat, ghost k: nat)
    returns (next: nat, r: Result<seq<Byte>, DownloadError>, back: Option<Session>, fetches: seq<Fetch>,
             ghost probed': nat, ghost served': nat, ghost puts: seq<seq<SinkOp>>)
    requires NeverReturns(world) && Addressable(world)
    requires session.Some? ==>
               && Holding(world, session.value, probed, served, now, k) && k > 0
               && IfRangeValue(session.value.validator).Some?
    modifies if session.Some? then {session.value.sink} else {}
    ensures next >= now
    ensures Attempted(world, r, back, probed', served', next, fetches,
                      if session.Some? then old(session.value.sink.log) else [], puts)
    ensures session.Some? ==> probed' == probed && served' == served && (back.Some? ==> back == session)
    ensures session.None? && back.Some? ==> fresh(back.value.sink)
    ensures forall i :: 0 <= i < |fetches| ==>
              fetches[i].resumed == session.Some? && fetches[i].start == if session.Some? then k else 0
    ensures fetches != [] && back.None? ==> r.Ok? || r.error == StorageFailed
    ensures session.None? && leftover ==> fetches == []
    ensures fetches == [] && r == Err(StorageFailed) ==> session.None? && leftover
  {
    hide NeverReturns, Addressable, Holding, Attempted;
    if session.Some? {
      probed' := probed;
      next, r, back, fetches, served', puts := Resume(world, now, session.value, probed, served, k);
    } else {
      next, r, back, fetches, probed', served', puts := Begin(world, now, leftover);
    }
  }

  /** A session is kept if there are durable bytes in it and a validator to continue them with. */
  method KeepSession(world: World, back: Option<Session>, ghost probed: nat, ghost served: nat, ghost now: nat,
                     ghost k: nat)
    returns (session: Option<Session>)
    requires back.Some? ==> Holding(world, back.value, probed, served, now, k)
    ensures session.Some? <==> back.Some? && IfRangeValue(world.validators(probed)).Some? && k > 0
    ensures session.Some? ==> session == back && IfRangeValue(session.value.validator).Some?
  {
    session := back;
    if session.Some? {
      var from := DurablePrefixEnd(session.value.sink.part);
      PrefixIsHeld(session.value.sink.part, k, from);
      if IfRangeValue(session.value.validator).None? || from == 0 {
        session := None;
      }
    }
  }

  /** `tries`, `fetches` and `puts` tell of the same attempts. */
  ghost predicate Told(world: World, tries: seq<Try>, fetches: seq<Fetch>, puts: seq<seq<SinkOp>>)
  {
    && Retried(world, tries) && fetches == FetchesOf(tries) && Contiguous(fetches)
    && Recorded(world, fetches, puts) && |puts| == |fetches|
  }

  /** What the session carries over is what the last attempts did since they started over. */
  ghost predicate Carried(world: World, s: Session, probed: nat, version: nat, now: nat, tries: seq<Try>,
                          fetches: seq<Fetch>, puts: seq<seq<SinkOp>>)
    reads s.sink
  {
    && fetches != [] && |puts| == |fetches| && tries != []
    && var last := fetches[|fetches| - 1];
       && tries[|tries| - 1].probed == probed && tries[|tries| - 1].fetch == Some(last) && AllFrom(fetches, version)
       && Holding(world, s, probed, version, now, last.end) && s.sink.log == Logged(puts[LastStart(fetches)..])
  }

  /** One attempt more, told. */
  lemma ToldMore(world: World, tries: seq<Try>, fetches: seq<Fetch>, puts: seq<seq<SinkOp>>, t: Try, more: seq<Fetch>,
                 wrote: seq<seq<SinkOp>>)
    requires Told(world, tries, fetches, puts) && Recorded(world, more, wrote)
    requires |more| <= 1 && t.fetch == if more == [] then None else Some(more[0])
    requires more != [] ==> more[0].resumed == t.resumed
    requires more != [] && !t.resumed ==> more[0].start == 0
    requires if tries == [] then !t.resumed
             else var s := tries[|tries| - 1]; Follows(world, s, t) && s.error.Some? && Retryable(s.error.value)
    requires t.resumed ==> tries != [] && fetches != [] && tries[|tries| - 1].fetch == Some(fetches[|fetches| - 1])
    requires !t.resumed && Orphaned(tries, |tries|) ==> t.fetch.None?
    requires t.fetch.None? && t.error == Some(StorageFailed) ==> Orphaned(tries, |tries|)
    ensures Told(world, tries + [t], fetches + more, puts + wrote)
    ensures Orphaned(tries + [t], |tries| + 1) <==> Orphaned(tries, |tries|) || (t.resumed && t.fetch.None?)
  {
    hide Retried, Orphaned, FetchesOf, Retryable, Contiguous, Recorded, AllFrom, Logged, LastStart;
    RetriedMore(world, tries, t);
    ContiguousMore(fetches, more);
    RecordedSizes(world, fetches, puts);
    RecordedSizes(world, more, wrote);
    RecordedBoth(world, fetches, puts, more, wrote);
    assert more == [] || more == [more[0]];
    assert fetches + [] == fetches;
  }

  lemma RecordedSizes(world: World, fetches: seq<Fetch>, puts: seq<seq<SinkOp>>)
    requires Recorded(world, fetches, puts)
    ensures |puts| == |fetches|
  {
  }

  lemma RecordedBoth(world: World, fetches: seq<Fetch>, puts: seq<seq<SinkOp>>, more: seq<Fetch>,
                     wrote: seq<seq<SinkOp>>)
    requires Recorded(world, fetches, puts) && Recorded(world, more, wrote)
    ensures Recorded(world, fetches + more, puts + wrote)
  {
    hide Appends;
  }

  /** The attempt that made a fetch, continuing or starting over: its session carries on, and so does a whole file. */
  lemma CarriedOn(world: World, r: Result<seq<Byte>, DownloadError>, back: Option<Session>, probed: nat, version: nat,
                  now: nat, tries: seq<Try>, fetches: seq<Fetch>, puts: seq<seq<SinkOp>>, t: Try, more: seq<Fetch>,
                  log: seq<SinkOp>, wrote: seq<seq<SinkOp>>)
    requires Told(world, tries, fetches, puts) && Attempted(world, r, back, probed, version, now, more, log, wrote)
    requires t.probed == probed && t.fetch == if more == [] then None else Some(more[0])
    requires more != [] && !more[0].resumed ==> log == []
    requires more != [] && more[0].resumed ==>
               fetches != [] && AllFrom(fetches, version) && log == Logged(puts[LastStart(fetches)..])
    ensures back.Some? ==> Carried(world, back.value, probed, version, now, tries + [t], fetches + more, puts + wrote)
    ensures r.Ok? ==> AllFrom(fetches + more, version)
    ensures r.Ok? ==> fetches + more != [] && |puts + wrote| == |fetches + more|
                      && WrittenBy(Logged((puts + wrote)[LastStart(fetches + more)..]), r.value)
  {
    hide Retried, FetchesOf, Contiguous, Recorded, AllFrom, Logged, LastStart, Holding, WrittenBy, FromOneVersion;
    RecordedMore(world, fetches, puts, more, wrote, version);
    if more != [] {
      assert (fetches + more)[|fetches + more| - 1] == more[0] && (tries + [t])[|tries + [t]| - 1] == t;
    }
  }

  /**
   Downloads one representation, retrying transient failures. `tries` are its attempts: at most six,
   and fewer only after a success or a failure that retrying cannot help; each continues the one before
   exactly if that left durable bytes and the server a validator. Every resume starts exactly where
   the accepted bytes end, and a completed file comes from one version, whatever the server did in
   between. `puts` are the writes of each fetch: the bytes it was served, from its start to its end. A
   completed file is what the writes since the last start put into a fresh part file, with a commit
   after each fetch, and all of them were served from the version `version`.
   */
  method Download(world: World)
    returns (r: Result<seq<Byte>, DownloadError>, attempts: nat, fetches: seq<Fetch>, ghost puts: seq<seq<SinkOp>>,
             ghost version: nat, ghost tries: seq<Try>)
    requires NeverReturns(world) && Addressable(world)
    ensures 0 < attempts == |tries| <= 6 && fetches == FetchesOf(tries) && Recorded(world, fetches, puts)
    ensures Retried(world, tries) && tries[|tries| - 1].error == if r.Ok? then None else Some(r.error)
    ensures r.Err? ==> |tries| == 6 || !Retryable(r.error)
    ensures r.Ok? ==> FromOneVersion(world, r.value) && r.value <= world.reps(version) && AllFrom(fetches, version)
    ensures r.Ok? ==> fetches != [] && WrittenBy(Logged(puts[LastStart(fetches)..]), r.value)
    ensures Contiguous(fetches)
  {
    hide NeverReturns, Addressable, FromOneVersion, Holding, WrittenBy, Appends, Logged, LastStart, Recorded, AllFrom,
      Retried, Orphaned, FetchesOf, Retryable, TransientKindOf, Retry.GivesUp, IfRangeValue, Contiguous,
      Attempted;
    var now, failures, leftover := 0, 0, false;
    var session: Option<Session> := None;
    ghost var probed := 0;
    attempts, fetches, puts, version, tries := 0, [], [], 0, [];
    NothingRecorded(world);
    NothingTried(world);
    while true
      invariant attempts == failures == |tries| <= 5 && Told(world, tries, fetches, puts)
      invariant leftover <==> Orphaned(tries, |tries|)
      invariant tries == [] ==> session.None?
      invariant tries != [] ==>
                  && tries[|tries| - 1].error.Some? && Retryable(tries[|tries| - 1].error.value)
                  && (session.Some? <==> Resumable(world, tries[|tries| - 1]))
      invariant session.Some? ==> fresh(session.value.sink) && IfRangeValue(session.value.validator).Some?
      invariant session.Some? ==> Carried(world, session.value, probed, version, now, tries, fetches, puts)
      decreases 5 - failures
    {
      attempts := attempts + 1;
      var back, more;
      ghost var wrote;
      ghost var k := if session.Some? then fetches[|fetches| - 1].end else 0;
      ghost var log := if session.Some? then session.value.sink.log else [];
      var resumed := session.Some?;
      now, r, back, more, probed, version, wrote := AttemptOnce(world, now, session, leftover, probed, version, k);
      AttemptedParts(world, r, back, probed, version, now, more, log, wrote);
      ghost var t := Try(resumed, probed, if more == [] then None else Some(more[0]),
                         if r.Ok? then None else Some(r.error));
      ToldMore(world, tries, fetches, puts, t, more, wrote);
      CarriedOn(world, r, back, probed, version, now, tries, fetches, puts, t, more, log, wrote);
      fetches, puts, tries := fetches + more, puts + wrote, tries + [t];
      if r.Ok? {
        return;
      }
      RetriesExactly(r.error, failures);
      var kind := TransientKindOf(r.error);
      if kind.None? || Retry.GivesUp(kind.value, failures) {
        return;
      }
      failures := failures + 1;
      leftover := leftover || (resumed && back.None?);
      session := KeepSession(world, back, probed, version, now, if more == [] then 0 else more[0].end);
    }
  }

  lemma AttemptedParts(world: World, r: Result<seq<Byte>, DownloadError>, back: Option<Session>, probed: nat,
                       served: nat, now: nat, fetches: seq<Fetch>, log: seq<SinkOp>, puts: seq<seq<SinkOp>>)
    requires Attempted(world, r, back, probed, served, now, fetches, log, puts)
    ensures |fetches| <= 1 && Recorded(world, fetches, puts)
    ensures r.Ok? ==> FromOneVersion(world, r.value) && r.value <= world.reps(served)
    ensures back.Some? ==> fetches != [] && Holding(world, back.value, probed, served, now, fetches[0].end)
  {
    hide FromOneVersion, Holding, WrittenBy, Recorded, Logged;
  }

  lemma NothingRecorded(world: World)
    ensures Recorded(world, [], [])
  {
  }

  /** One attempt more: its fetch starts over or continues, and so do the writes. */
  lemma RecordedMore(world: World, fetches: seq<Fetch>, puts: seq<seq<SinkOp>>, more: seq<Fetch>,
                     wrote: seq<seq<SinkOp>>, v: nat)
    requires Recorded(world, fetches, puts) && Recorded(world, more, wrote) && |more| <= 1
    requires more != [] && more[0].start < more[0].end ==> more[0].version == v
    ensures Recorded(world, fetches + more, puts + wrote) && |puts + wrote| == |fetches + more|
    ensures more != [] && !more[0].resumed ==>
              && AllFrom(fetches + more, v)
              && Logged((puts + wrote)[LastStart(fetches + more)..]) == [] + Logged(wrote)
    ensures more != [] && more[0].resumed ==>
              && |puts| == |fetches| && (AllFrom(fetches, v) ==> AllFrom(fetches + more, v))
              && Logged((puts + wrote)[LastStart(fetches + more)..])
                 == Logged(puts[LastStart(fetches)..]) + Logged(wrote)
  {
    hide Appends, Logged;
    if more != [] {
      var all := fetches + more;
      assert more == [more[0]] && wrote == [wrote[0]] && all[..|all| - 1] == fetches;
      LoggedOne(wrote[0]);
      if more[0].resumed {
        var i := LastStart(fetches);
        LoggedMore(puts[i..], wrote[0]);
        assert (puts + wrote)[i..] == puts[i..] + [wrote[0]];
      } else {
        assert (puts + wrote)[|fetches|..] == wrote;
      }
    }
  }

  lemma ContiguousMore(fetches: seq<Fetch>, more: seq<Fetch>)
    requires Contiguous(fetches) && |more| <= 1
    requires more != [] ==>
               if more[0].resumed then fetches != [] && more[0].start == fetches[|fetches| - 1].end
               else more[0].start == 0
    ensures Contiguous(fetches + more)
  {
  }
}
