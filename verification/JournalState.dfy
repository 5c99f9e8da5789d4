/**
 What a journal's records mean, taken together.

 `Effective` folds records into the state they describe. `FoldClosedForm` and
 `EffectiveClosedForm` say when that succeeds and what it yields without running the fold: the
 blocks that survive are the recorded ones ending at or before the last length in force, and
 they come out sorted and disjoint.
 */
module JournalState {
  import opened Base
  import opened JournalFormat

  datatype CompletedBlock = CompletedBlock(offset: U64, len: U32, blake3: Digest)

  datatype StateError =
    | ZeroLengthBlock
    | BlockEndOverflow
    | BlockBeyondLength
    | TruncateIncreases
    | SealNotFinal
    | BlocksOverlap

  datatype EffectiveState = EffectiveState(
    effectiveLength: U64,
    truncate: Option<U64>,
    identities: seq<seq<Byte>>,
    blocks: seq<CompletedBlock>,
    sealed: Option<Digest>)

  function End(b: CompletedBlock): nat { b.offset + b.len }

  function CheckedEnd(b: CompletedBlock): Result<U64, StateError>
  {
    if End(b) > U64_MAX then Err(BlockEndOverflow) else Ok(End(b))
  }

  /** `Vec::retain` of the blocks that end inside the new length. */
  function Inside(blocks: seq<CompletedBlock>, length: nat): seq<CompletedBlock>
  {
    if blocks == [] then []
    else
      var kept := Inside(blocks[..|blocks| - 1], length);
      if End(blocks[|blocks| - 1]) <= length then kept + [blocks[|blocks| - 1]] else kept
  }

  function Initial(h: FileHeader): EffectiveState
  {
    EffectiveState(h.totalLength, None, [], [], None)
  }

  function Apply(s: EffectiveState, r: JournalRecord, last: bool): Result<EffectiveState, StateError>
  {
    match r
    case BlockComplete(offset, len, blake3) =>
      if len == 0 then Err(ZeroLengthBlock)
      else
        var block := CompletedBlock(offset, len, blake3);
        if CheckedEnd(block).Err? then Err(BlockEndOverflow)
        else if CheckedEnd(block).value > s.effectiveLength then Err(BlockBeyondLength)
        else Ok(s.(blocks := s.blocks + [block]))
    case Checkpoint(_, _) => Ok(s)
    case IdentityUpdate(cbor) => Ok(s.(identities := s.identities + [cbor]))
    case Truncate(newLength) =>
      if newLength > s.effectiveLength then Err(TruncateIncreases)
      else
        Ok(s.(effectiveLength := newLength, truncate := Some(newLength),
              blocks := Inside(s.blocks, newLength)))
    case Sealed(digest) =>
      if s.sealed.Some? || !last then Err(SealNotFinal) else Ok(s.(sealed := Some(digest)))
  }

  /** The state after the first `n` records. */
  function FoldTo(h: FileHeader, recs: seq<JournalRecord>, n: nat): Result<EffectiveState, StateError>
    requires n <= |recs|
  {
    if n == 0 then Ok(Initial(h))
    else
      match FoldTo(h, recs, n - 1)
      case Err(e) => Err(e)
      case Ok(s) => Apply(s, recs[n - 1], n == |recs|)
  }

  function Insert(sorted: seq<CompletedBlock>, b: CompletedBlock): seq<CompletedBlock>
  {
    if sorted == [] || sorted[|sorted| - 1].offset <= b.offset then sorted + [b]
    else Insert(sorted[..|sorted| - 1], b) + [sorted[|sorted| - 1]]
  }

  /** `sort_by_key(|block| block.offset)`, which is stable. */
  function SortByOffset(blocks: seq<CompletedBlock>): seq<CompletedBlock>
  {
    if blocks == [] then []
    else Insert(SortByOffset(blocks[..|blocks| - 1]), blocks[|blocks| - 1])
  }

  predicate Touching(blocks: seq<CompletedBlock>)
  {
    forall j, k :: 0 <= j < |blocks| && 0 <= k < |blocks| && k == j + 1 ==> End(blocks[j]) <= blocks[k].offset
  }

  function Effective(h: FileHeader, recs: seq<JournalRecord>): Result<EffectiveState, StateError>
  {
    match FoldTo(h, recs, |recs|)
    case Err(e) => Err(e)
    case Ok(s) =>
      var sorted := SortByOffset(s.blocks);
      if Touching(sorted) then Ok(s.(blocks := sorted)) else Err(BlocksOverlap)
  }

  // ----- the closed form -----

  /** The length in force after the first `n` records: the last truncation, or the header's. */
  function LengthAt(h: FileHeader, recs: seq<JournalRecord>, n: nat): U64
    requires n <= |recs|
  {
    if n == 0 then h.totalLength
    else if recs[n - 1].Truncate? then recs[n - 1].newLength
    else LengthAt(h, recs, n - 1)
  }

  function LastTruncate(recs: seq<JournalRecord>): Option<U64>
  {
    if recs == [] then None
    else if recs[|recs| - 1].Truncate? then Some(recs[|recs| - 1].newLength)
    else LastTruncate(recs[..|recs| - 1])
  }

  function IdentitiesOf(recs: seq<JournalRecord>): seq<seq<Byte>>
  {
    if recs == [] then []
    else
      var before := IdentitiesOf(recs[..|recs| - 1]);
      if recs[|recs| - 1].IdentityUpdate? then before + [recs[|recs| - 1].cbor] else before
  }

  /** Every block recorded, in order, whether or not it survives. */
  function BlocksOf(recs: seq<JournalRecord>): seq<CompletedBlock>
  {
    if recs == [] then []
    else
      var before, r := BlocksOf(recs[..|recs| - 1]), recs[|recs| - 1];
      if r.BlockComplete? then before + [CompletedBlock(r.offset, r.len, r.blake3)] else before
  }

  function SealOf(recs: seq<JournalRecord>): Option<Digest>
  {
    if recs != [] && recs[|recs| - 1].Sealed? then Some(recs[|recs| - 1].finalBlake3) else None
  }

  /** What record `i` must satisfy for the fold to accept it. */
  predicate RecordFits(h: FileHeader, recs: seq<JournalRecord>, i: nat)
    requires i < |recs|
  {
    match recs[i]
    case BlockComplete(offset, len, _) => 0 < len && offset + len <= LengthAt(h, recs, i)
    case Truncate(newLength) => newLength <= LengthAt(h, recs, i)
    case Sealed(_) => i + 1 == |recs|
    case _ => true
  }

  lemma {:induction false} InsideSnoc(blocks: seq<CompletedBlock>, b: CompletedBlock, length: nat)
    ensures Inside(blocks + [b], length) == Inside(blocks, length) + if End(b) <= length then [b] else []
  {
    assert (blocks + [b])[..|blocks|] == blocks;
  }

  lemma {:induction false} InsideTwice(blocks: seq<CompletedBlock>, a: nat, b: nat)
    requires b <= a
    ensures Inside(Inside(blocks, a), b) == Inside(blocks, b)
  {
    if blocks != [] {
      var init, l := blocks[..|blocks| - 1], blocks[|blocks| - 1];
      InsideTwice(init, a, b);
      InsideSnoc(Inside(init, a), l, b);
    }
  }

  /** The closed form of the state after `n` records. */
  function ClosedState(h: FileHeader, recs: seq<JournalRecord>, n: nat): EffectiveState
    requires n <= |recs|
  {
    EffectiveState(
      LengthAt(h, recs, n), LastTruncate(recs[..n]), IdentitiesOf(recs[..n]),
      Inside(BlocksOf(recs[..n]), LengthAt(h, recs, n)),
      if n == |recs| then SealOf(recs) else None)
  }

  lemma ClosedStep(h: FileHeader, recs: seq<JournalRecord>, n: nat)
    requires n < |recs|
    ensures var s := Apply(ClosedState(h, recs, n), recs[n], n + 1 == |recs|);
            if RecordFits(h, recs, n) then s == Ok(ClosedState(h, recs, n + 1)) else s.Err?
  {
    hide Inside;
    var p, r := recs[..n + 1], recs[n];
    assert p[..n] == recs[..n] && p[n] == r;
    var before := BlocksOf(recs[..n]);
    var here := LengthAt(h, recs, n);
    match r
    case BlockComplete(offset, len, blake3) => InsideSnoc(before, CompletedBlock(offset, len, blake3), here);
    case Truncate(newLength) => if newLength <= here { InsideTwice(before, here, newLength); }
    case Checkpoint(_, _) =>
    case IdentityUpdate(_) =>
    case Sealed(_) =>
  }

  lemma {:induction false} FoldClosedForm(h: FileHeader, recs: seq<JournalRecord>, n: nat)
    requires n <= |recs|
    ensures FoldTo(h, recs, n).Ok? <==> forall i :: 0 <= i < n ==> RecordFits(h, recs, i)
    ensures FoldTo(h, recs, n).Ok? ==> FoldTo(h, recs, n).value == ClosedState(h, recs, n)
  {
    hide ClosedState, RecordFits;
    if n == 0 {
      ClosedInitial(h, recs);
    } else {
      FoldClosedForm(h, recs, n - 1);
      ClosedStep(h, recs, n - 1);
    }
  }

  lemma ClosedInitial(h: FileHeader, recs: seq<JournalRecord>)
    ensures ClosedState(h, recs, 0) == Initial(h)
  {
  }

  /** The length in force is the last truncation, and no truncation lengthens. */
  ghost predicate LengthExplained(h: FileHeader, s: EffectiveState)
  {
    && (s.truncate.None? ==> s.effectiveLength == h.totalLength)
    && (s.truncate.Some? ==> s.truncate.value == s.effectiveLength <= h.totalLength)
  }

  lemma {:induction false} FoldExplainsLength(h: FileHeader, recs: seq<JournalRecord>, n: nat)
    requires n <= |recs| && FoldTo(h, recs, n).Ok?
    ensures LengthExplained(h, FoldTo(h, recs, n).value)
  {
    hide Inside;
    if n > 0 {
      FoldExplainsLength(h, recs, n - 1);
    }
  }

  /** The length in force at the end is that of the last truncation. */
  lemma {:induction false} LengthIsLast(h: FileHeader, recs: seq<JournalRecord>, n: nat)
    requires n <= |recs|
    ensures LengthAt(h, recs, n)
            == if LastTruncate(recs[..n]).Some? then LastTruncate(recs[..n]).value else h.totalLength
  {
    if n > 0 {
      LengthIsLast(h, recs, n - 1);
      assert recs[..n][..n - 1] == recs[..n - 1];
    }
  }

  // ----- sorting -----

  ghost predicate Sorted(blocks: seq<CompletedBlock>)
  {
    forall i, j :: 0 <= i < j < |blocks| ==> blocks[i].offset <= blocks[j].offset
  }

  lemma {:induction false} InsertSorts(sorted: seq<CompletedBlock>, b: CompletedBlock)
    requires Sorted(sorted)
    ensures Sorted(Insert(sorted, b))
    ensures forall i :: 0 <= i < |Insert(sorted, b)| ==>
              Insert(sorted, b)[i].offset
              <= if sorted == [] then b.offset else Max(b.offset, sorted[|sorted| - 1].offset)
  {
    if sorted != [] && sorted[|sorted| - 1].offset > b.offset {
      InsertSorts(sorted[..|sorted| - 1], b);
    }
  }

  lemma {:induction false} InsertMembers(sorted: seq<CompletedBlock>, b: CompletedBlock)
    ensures multiset(Insert(sorted, b)) == multiset(sorted) + multiset{b}
  {
    if sorted != [] && sorted[|sorted| - 1].offset > b.offset {
      var init, l := sorted[..|sorted| - 1], sorted[|sorted| - 1];
      assert sorted == init + [l];
      InsertMembers(init, b);
    }
  }

  lemma {:induction false} SortByOffsetSorts(blocks: seq<CompletedBlock>)
    ensures Sorted(SortByOffset(blocks))
    ensures multiset(SortByOffset(blocks)) == multiset(blocks)
  {
    if blocks != [] {
      var init, l := blocks[..|blocks| - 1], blocks[|blocks| - 1];
      assert blocks == init + [l];
      SortByOffsetSorts(init);
      InsertSorts(SortByOffset(init), l);
      InsertMembers(SortByOffset(init), l);
    }
  }

  // ----- meaning -----

  /** Byte `b` lies in some block. */
  ghost predicate Covered(blocks: seq<CompletedBlock>, b: nat)
  {
    exists i :: 0 <= i < |blocks| && blocks[i].offset <= b < End(blocks[i])
  }

  ghost predicate Disjoint(blocks: seq<CompletedBlock>)
  {
    forall i, j :: 0 <= i < j < |blocks| ==>
      End(blocks[i]) <= blocks[j].offset || End(blocks[j]) <= blocks[i].offset
  }

  ghost predicate NonEmpty(blocks: seq<CompletedBlock>)
  {
    forall i :: 0 <= i < |blocks| ==> blocks[i].len > 0
  }

  ghost predicate Ordered(blocks: seq<CompletedBlock>)
  {
    forall i, j :: 0 <= i < j < |blocks| ==> End(blocks[i]) <= blocks[j].offset
  }

  lemma {:induction false} TouchingOrders(blocks: seq<CompletedBlock>)
    requires Touching(blocks)
    ensures Ordered(blocks)
  {
    forall i, j | 0 <= i < j < |blocks| ensures End(blocks[i]) <= blocks[j].offset {
      TouchingChain(blocks, i, j);
    }
  }

  lemma {:induction false} TouchingChain(blocks: seq<CompletedBlock>, i: nat, j: nat)
    requires Touching(blocks) && i < j < |blocks|
    ensures End(blocks[i]) <= blocks[j].offset
    decreases j - i
  {
    if i + 1 < j {
      TouchingChain(blocks, i + 1, j);
      assert End(blocks[i]) <= blocks[i + 1].offset;
    }
  }

  lemma {:induction false} InsideMembers(blocks: seq<CompletedBlock>, length: nat)
    ensures forall b :: b in Inside(blocks, length) <==> b in blocks && End(b) <= length
  {
    if blocks != [] {
      var init, l := blocks[..|blocks| - 1], blocks[|blocks| - 1];
      assert blocks == init + [l];
      InsideMembers(init, length);
    }
  }

  /** A successful fold yields exactly the recorded blocks that still fit, sorted and disjoint. */
  lemma EffectiveClosedForm(h: FileHeader, recs: seq<JournalRecord>)
    requires Effective(h, recs).Ok?
    ensures var s := Effective(h, recs).value;
            && s.effectiveLength == LengthAt(h, recs, |recs|)
            && s.truncate == LastTruncate(recs) && s.identities == IdentitiesOf(recs)
            && s.sealed == SealOf(recs)
            && multiset(s.blocks) == multiset(Inside(BlocksOf(recs), s.effectiveLength))
            && Ordered(s.blocks)
            && (forall b :: b in s.blocks <==> b in BlocksOf(recs) && End(b) <= s.effectiveLength)
  {
    hide Inside, SortByOffset, FoldTo, LengthAt;
    FoldClosedForm(h, recs, |recs|);
    assert recs[..|recs|] == recs;
    var s := FoldTo(h, recs, |recs|).value;
    SortByOffsetSorts(s.blocks);
    TouchingOrders(SortByOffset(s.blocks));
    InsideMembers(BlocksOf(recs), s.effectiveLength);
    SameMembers(SortByOffset(s.blocks), s.blocks);
  }

  lemma SameMembers(a: seq<CompletedBlock>, b: seq<CompletedBlock>)
    requires multiset(a) == multiset(b)
    ensures forall x :: x in a <==> x in b
  {
    forall x ensures x in a <==> x in b {
      assert x in a <==> x in multiset(a);
      assert x in b <==> x in multiset(b);
    }
  }

  /** The fold accepts a sequence exactly when every record fits and the survivors are disjoint. */
  lemma EffectiveSucceedsIff(h: FileHeader, recs: seq<JournalRecord>)
    ensures Effective(h, recs).Ok? <==>
            && (forall i :: 0 <= i < |recs| ==> RecordFits(h, recs, i))
            && Disjoint(Inside(BlocksOf(recs), LengthAt(h, recs, |recs|)))
  {
    hide Inside, SortByOffset, FoldTo, LengthAt, RecordFits;
    FoldClosedForm(h, recs, |recs|);
    assert recs[..|recs|] == recs;
    if forall i :: 0 <= i < |recs| ==> RecordFits(h, recs, i) {
      var blocks := Inside(BlocksOf(recs), LengthAt(h, recs, |recs|));
      SortByOffsetSorts(blocks);
      FittingBlocksNonEmpty(h, recs);
      DisjointIffTouching(blocks, SortByOffset(blocks));
    }
  }

  lemma FittingBlocksNonEmpty(h: FileHeader, recs: seq<JournalRecord>)
    requires forall i :: 0 <= i < |recs| ==> RecordFits(h, recs, i)
    ensures NonEmpty(Inside(BlocksOf(recs), LengthAt(h, recs, |recs|)))
  {
    hide Inside, LengthAt;
    InsideMembers(BlocksOf(recs), LengthAt(h, recs, |recs|));
    forall b | b in BlocksOf(recs) ensures b.len > 0 {
      var i := BlockOrigin(recs, b);
      assert RecordFits(h, recs, i);
    }
  }

  lemma {:induction false} BlockOrigin(recs: seq<JournalRecord>, b: CompletedBlock) returns (i: nat)
    requires b in BlocksOf(recs)
    ensures i < |recs| && recs[i] == BlockComplete(b.offset, b.len, b.blake3)
  {
    var n := |recs| - 1;
    if recs[n].BlockComplete? && b == CompletedBlock(recs[n].offset, recs[n].len, recs[n].blake3) {
      i := n;
    } else {
      i := BlockOrigin(recs[..n], b);
    }
  }

  /** Disjointness of non-empty blocks does not depend on their order. */
  lemma DisjointIffTouching(blocks: seq<CompletedBlock>, sorted: seq<CompletedBlock>)
    requires multiset(blocks) == multiset(sorted) && Sorted(sorted) && NonEmpty(blocks)
    ensures Disjoint(blocks) <==> Touching(sorted)
  {
    DisjointPermutes(blocks, sorted);
    DisjointPermutes(sorted, blocks);
    SameMembers(blocks, sorted);
    if Touching(sorted) {
      TouchingOrders(sorted);
    }
    forall i | 0 <= i < |sorted| ensures sorted[i].len > 0 {
      assert sorted[i] in blocks;
    }
  }

  /** Pairwise disjointness of non-empty blocks, as a statement about a multiset. */
  ghost predicate DisjointBag(m: multiset<CompletedBlock>)
  {
    && (forall x :: x in m ==> m[x] <= 1)
    && (forall x, y :: x in m && y in m && x != y ==> End(x) <= y.offset || End(y) <= x.offset)
  }

  lemma DisjointIsBag(blocks: seq<CompletedBlock>)
    requires NonEmpty(blocks)
    ensures Disjoint(blocks) <==> DisjointBag(multiset(blocks))
  {
    var m := multiset(blocks);
    if Disjoint(blocks) {
      forall x | x in m ensures m[x] <= 1 {
        if m[x] >= 2 {
          var i, j := TwicePresent(blocks, x);
        }
      }
    }
    if DisjointBag(m) {
      forall i, j | 0 <= i < j < |blocks|
        ensures End(blocks[i]) <= blocks[j].offset || End(blocks[j]) <= blocks[i].offset
      {
        assert blocks[i] in m && blocks[j] in m;
        if blocks[i] == blocks[j] {
          PresentTwice(blocks, i, j);
        }
      }
    }
  }

  lemma {:induction false} TwicePresent(blocks: seq<CompletedBlock>, x: CompletedBlock) returns (i: nat, j: nat)
    requires multiset(blocks)[x] >= 2
    ensures i < j < |blocks| && blocks[i] == blocks[j] == x
  {
    var n := |blocks| - 1;
    assert blocks == blocks[..n] + [blocks[n]];
    if blocks[n] == x {
      j := n;
      i :| 0 <= i < n && blocks[i] == x;
    } else {
      i, j := TwicePresent(blocks[..n], x);
    }
  }

  lemma PresentTwice(blocks: seq<CompletedBlock>, i: nat, j: nat)
    requires i < j < |blocks| && blocks[i] == blocks[j]
    ensures multiset(blocks)[blocks[i]] >= 2
  {
    assert blocks == blocks[..j] + blocks[j..];
    assert blocks[i] in blocks[..j] && blocks[j] in blocks[j..];
  }

  lemma DisjointPermutes(a: seq<CompletedBlock>, b: seq<CompletedBlock>)
    requires multiset(a) == multiset(b) && NonEmpty(a)
    ensures NonEmpty(b) && (Disjoint(a) ==> Disjoint(b))
  {
    SameMembers(a, b);
    forall i | 0 <= i < |b| ensures b[i].len > 0 {
      assert b[i] in a;
    }
    DisjointIsBag(a);
    DisjointIsBag(b);
  }

  // ----- the fold as a loop -----

  lemma {:induction false} FoldStops(h: FileHeader, recs: seq<JournalRecord>, i: nat, n: nat, e: StateError)
    requires i <= n <= |recs| && FoldTo(h, recs, i) == Err(e)
    ensures FoldTo(h, recs, n) == Err(e)
  {
    if i < n {
      FoldStops(h, recs, i, n - 1, e);
    }
  }

  /** One pass over the records, then one over the sorted blocks. */
  method ComputeEffective(h: FileHeader, recs: seq<JournalRecord>) returns (r: Result<EffectiveState, StateError>)
    ensures r == Effective(h, recs)
  {
    hide Inside, SortByOffset, Insert;
    var s := Initial(h);
    for i := 0 to |recs|
      invariant FoldTo(h, recs, i) == Ok(s)
    {
      assert FoldTo(h, recs, i + 1) == Apply(s, recs[i], i + 1 == |recs|);
      var failure: Option<StateError> := None;
      match recs[i] {
        case BlockComplete(offset, len, blake3) =>
          if len == 0 {
            failure := Some(ZeroLengthBlock);
          } else if offset + len > U64_MAX {
            failure := Some(BlockEndOverflow);
          } else if offset + len > s.effectiveLength {
            failure := Some(BlockBeyondLength);
          } else {
            s := s.(blocks := s.blocks + [CompletedBlock(offset, len, blake3)]);
          }
        case Checkpoint(_, _) =>
        case IdentityUpdate(cbor) => s := s.(identities := s.identities + [cbor]);
        case Truncate(newLength) =>
          if newLength > s.effectiveLength {
            failure := Some(TruncateIncreases);
          } else {
            s := s.(effectiveLength := newLength, truncate := Some(newLength), blocks := Inside(s.blocks, newLength));
          }
        case Sealed(digest) =>
          if s.sealed.Some? || i + 1 != |recs| {
            failure := Some(SealNotFinal);
          } else {
            s := s.(sealed := Some(digest));
          }
      }
      if failure.Some? {
        FoldStops(h, recs, i + 1, |recs|, failure.value);
        return Err(failure.value);
      }
    }
    s := s.(blocks := SortByOffset(s.blocks));
    var k := 1;
    while k < |s.blocks|
      invariant 1 <= k
      invariant forall i, j :: 0 <= i < j < |s.blocks| && j < k && j == i + 1 ==> End(s.blocks[i]) <= s.blocks[j].offset
    {
      var j := k - 1;
      if s.blocks[k].offset < End(s.blocks[j]) {
        return Err(BlocksOverlap);
      }
      k := k + 1;
    }
    r := Ok(s);
  }
}
