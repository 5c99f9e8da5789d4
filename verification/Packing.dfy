/**
 Merging completed blocks for a compacted journal.

 Blocks are read back from the part file, checked against their digests, and fed byte by byte
 into maximal runs of at most `u32::MAX` bytes. `Packed` describes the result without
 mentioning the buffer or the order of feeding, and `PackedUnique` shows that it is determined
 by the bytes covered.
 */
module Packing {
  import opened Base
  import opened JournalState
  import opened Recovery

  const HASH_BUFFER_LEN: nat := 64 * 1024

  datatype CompactionError =
    | UnexpectedEof
    | BlockDigestMismatch(offset: U64, len: U32)
    | InvalidState
    | Unreadable
    | Oversized
    | CutFailed
    | ReplaceFailed

  /** A run being built; its hasher is the bytes it was fed. */
  datatype Builder = Builder(start: U64, bytes: seq<Byte>)

  /** What reading one block back from the part file finds. */
  function BlockCheck(hash: Hash, part: seq<Byte>, b: CompletedBlock): Result<Unit, CompactionError>
  {
    if End(b) > |part| then Err(UnexpectedEof)
    else if hash(part[b.offset..End(b)]) != b.blake3 then Err(BlockDigestMismatch(b.offset, b.len))
    else Ok(Unit)
  }

  ghost predicate Piece(hash: Hash, part: seq<Byte>, b: CompletedBlock)
  {
    0 < b.len && End(b) <= |part| && b.blake3 == hash(part[b.offset..End(b)])
  }

  /** Non-empty digested pieces in order, where only a full piece may touch the next one. */
  ghost predicate Packed(hash: Hash, part: seq<Byte>, out: seq<CompletedBlock>)
  {
    && (forall i :: 0 <= i < |out| ==> Piece(hash, part, out[i]))
    && Ordered(out)
    && (forall j, k :: 0 <= j < k < |out| && k == j + 1 && End(out[j]) == out[k].offset ==> out[j].len == U32_MAX)
  }

  ghost predicate SameBytes(a: seq<CompletedBlock>, b: seq<CompletedBlock>)
  {
    forall x: nat :: Covered(a, x) <==> Covered(b, x)
  }

  // ----- uniqueness -----

  lemma FirstByte(hash: Hash, part: seq<Byte>, a: seq<CompletedBlock>, x: nat)
    requires Packed(hash, part, a) && a != []
    ensures Covered(a, a[0].offset)
    ensures Covered(a, x) ==> a[0].offset <= x
  {
    assert a[0].offset <= a[0].offset < End(a[0]);
  }

  lemma TailCovers(hash: Hash, part: seq<Byte>, a: seq<CompletedBlock>, x: nat)
    requires Packed(hash, part, a) && a != []
    ensures Covered(a[1..], x) <==> Covered(a, x) && End(a[0]) <= x
  {
    if Covered(a[1..], x) {
      var i :| 0 <= i < |a[1..]| && a[1..][i].offset <= x < End(a[1..][i]);
      assert a[i + 1].offset <= x < End(a[i + 1]);
    }
    if Covered(a, x) && End(a[0]) <= x {
      var i :| 0 <= i < |a| && a[i].offset <= x < End(a[i]);
      assert a[1..][i - 1] == a[i];
    }
  }

  /** A first piece cannot be shorter than another packing of the same bytes makes it. */
  lemma FirstPieceFull(hash: Hash, part: seq<Byte>, a: seq<CompletedBlock>, b: seq<CompletedBlock>)
    requires Packed(hash, part, a) && Packed(hash, part, b) && SameBytes(a, b)
    requires a != [] && b != [] && a[0].offset == b[0].offset
    ensures a[0].len >= b[0].len
  {
    AfterFirst(hash, part, a);
    var x: nat := End(a[0]);
    assert b[0].offset <= x < End(b[0]) ==> Covered(b, x);
    assert Covered(a, x) <==> Covered(b, x);
  }

  lemma AfterFirst(hash: Hash, part: seq<Byte>, a: seq<CompletedBlock>)
    requires Packed(hash, part, a) && a != []
    ensures Covered(a, End(a[0])) ==> a[0].len == U32_MAX
  {
    var x := End(a[0]);
    if i :| 0 <= i < |a| && a[i].offset <= x < End(a[i]) {
      assert a[1].offset <= x;
    }
  }

  lemma TailPacked(hash: Hash, part: seq<Byte>, a: seq<CompletedBlock>)
    requires Packed(hash, part, a) && a != []
    ensures Packed(hash, part, a[1..])
  {
    var t := a[1..];
    forall j, k | 0 <= j < k < |t| && k == j + 1 && End(t[j]) == t[k].offset ensures t[j].len == U32_MAX {
      assert t[j] == a[j + 1] && t[k] == a[k + 1];
    }
  }

  /** The bytes covered and the part file determine a packing. */
  lemma {:induction false} PackedUnique(hash: Hash, part: seq<Byte>, a: seq<CompletedBlock>, b: seq<CompletedBlock>)
    requires Packed(hash, part, a) && Packed(hash, part, b) && SameBytes(a, b)
    ensures a == b
    decreases |a|
  {
    hide Packed;
    if a == [] {
      if b != [] {
        FirstByte(hash, part, b, 0);
      }
    } else {
      FirstByte(hash, part, a, 0);
      assert b != [];
      SameFirst(hash, part, a, b);
      TailPacked(hash, part, a);
      TailPacked(hash, part, b);
      forall x: nat ensures Covered(a[1..], x) <==> Covered(b[1..], x) {
        TailCovers(hash, part, a, x);
        TailCovers(hash, part, b, x);
      }
      PackedUnique(hash, part, a[1..], b[1..]);
      assert a == [a[0]] + a[1..] && b == [b[0]] + b[1..];
    }
  }

  lemma SameFirst(hash: Hash, part: seq<Byte>, a: seq<CompletedBlock>, b: seq<CompletedBlock>)
    requires Packed(hash, part, a) && Packed(hash, part, b) && SameBytes(a, b) && a != [] && b != []
    ensures a[0] == b[0]
  {
    hide Covered;
    FirstByte(hash, part, a, b[0].offset);
    FirstByte(hash, part, b, a[0].offset);
    FirstPieceFull(hash, part, a, b);
    FirstPieceFull(hash, part, b, a);
    assert Piece(hash, part, a[0]) && Piece(hash, part, b[0]);
  }

  // ----- building -----

  ghost function LastOf(out: seq<CompletedBlock>): CompletedBlock
    requires out != []
  {
    out[|out| - 1]
  }

  /** A piece starting at `at` may follow: it is not too early, and touches only a full piece. */
  ghost predicate MayFollow(out: seq<CompletedBlock>, at: nat)
  {
    out != [] ==> End(LastOf(out)) <= at && (End(LastOf(out)) == at ==> LastOf(out).len == U32_MAX)
  }

  /** The merge state once every byte fed so far ends at `at`. */
  ghost predicate Building(hash: Hash, part: seq<Byte>, merged: seq<CompletedBlock>, current: Option<Builder>, at: nat)
  {
    && Packed(hash, part, merged) && at <= |part|
    && (current.None? ==> MayFollow(merged, at))
    && (current.Some? ==>
          var c := current.value;
          && 0 < |c.bytes| < U32_MAX && c.start + |c.bytes| == at
          && c.bytes == part[c.start..at] && MayFollow(merged, c.start))
  }

  ghost predicate Fed(merged: seq<CompletedBlock>, current: Option<Builder>, x: nat)
  {
    Covered(merged, x) || (current.Some? && current.value.start <= x < current.value.start + |current.value.bytes|)
  }

  /** `finish_merge`: the run built so far becomes a piece. */
  function Finished(hash: Hash, merged: seq<CompletedBlock>, current: Option<Builder>): seq<CompletedBlock>
    requires current.Some? ==> |current.value.bytes| <= U32_MAX
  {
    if current.Some? && |current.value.bytes| != 0
    then merged + [CompletedBlock(current.value.start, |current.value.bytes|, hash(current.value.bytes))]
    else merged
  }

  lemma PackedSnoc(hash: Hash, part: seq<Byte>, merged: seq<CompletedBlock>, b: CompletedBlock)
    requires Packed(hash, part, merged) && Piece(hash, part, b) && MayFollow(merged, b.offset)
    ensures Packed(hash, part, merged + [b])
    ensures forall x: nat :: Covered(merged + [b], x) <==> Covered(merged, x) || b.offset <= x < End(b)
  {
    hide Covered;
    var out := merged + [b];
    forall x: nat ensures Covered(out, x) <==> Covered(merged, x) || b.offset <= x < End(b) {
      CoveredLast(out, x);
      assert out[..|out| - 1] == merged;
    }
  }

  lemma FinishedPacked(hash: Hash, part: seq<Byte>, merged: seq<CompletedBlock>, current: Option<Builder>, at: nat)
    requires Building(hash, part, merged, current, at)
    ensures Packed(hash, part, Finished(hash, merged, current))
    ensures forall x: nat :: Covered(Finished(hash, merged, current), x) <==> Fed(merged, current, x)
    ensures forall later: nat :: later > at ==> MayFollow(Finished(hash, merged, current), later)
  {
    hide Covered, Packed;
    if current.Some? {
      var c := current.value;
      PackedSnoc(hash, part, merged, CompletedBlock(c.start, |c.bytes|, hash(c.bytes)));
    }
  }

  /** The builder after `take` more bytes, which fit it. */
  function Grown(current: Option<Builder>, at: U64, bytes: seq<Byte>): Builder
  {
    var c := if current.Some? then current.value else Builder(at, []);
    c.(bytes := c.bytes + bytes)
  }

  lemma GrownSlice(hash: Hash, part: seq<Byte>, merged: seq<CompletedBlock>, current: Option<Builder>, at: U64,
                   bytes: seq<Byte>)
    requires Building(hash, part, merged, current, at)
    requires at + |bytes| <= |part| && bytes == part[at..at + |bytes|]
    ensures var c := Grown(current, at, bytes);
            && c.start + |c.bytes| == at + |bytes| && c.bytes == part[c.start..at + |bytes|]
            && MayFollow(merged, c.start)
            && forall x: nat :: Fed(merged, Some(c), x) <==> Fed(merged, current, x) || at <= x < at + |bytes|
  {
    hide Covered, Packed, MayFollow;
    var c := Grown(current, at, bytes);
    assert c.bytes == part[c.start..at] + part[at..at + |bytes|];
  }

  lemma FeedStep(hash: Hash, part: seq<Byte>, merged: seq<CompletedBlock>, current: Option<Builder>, at: U64,
                 bytes: seq<Byte>)
    requires Building(hash, part, merged, current, at) && bytes != []
    requires at + |bytes| <= |part| && bytes == part[at..at + |bytes|]
    requires |Grown(current, at, bytes).bytes| <= U32_MAX
    ensures var c := Grown(current, at, bytes);
            var full := Finished(hash, merged, Some(c));
            && (|c.bytes| < U32_MAX ==> Building(hash, part, merged, Some(c), at + |bytes|))
            && (|c.bytes| == U32_MAX ==> Building(hash, part, full, None, at + |bytes|))
            && (forall x: nat :: Fed(merged, Some(c), x) <==> Fed(merged, current, x) || at <= x < at + |bytes|)
            && (forall x: nat :: Fed(full, None, x) <==> Fed(merged, Some(c), x))
  {
    hide Covered, Packed;
    GrownSlice(hash, part, merged, current, at, bytes);
    var c := Grown(current, at, bytes);
    PackedSnoc(hash, part, merged, CompletedBlock(c.start, |c.bytes|, hash(c.bytes)));
  }

  /** Feeds one buffer of bytes, starting a new piece whenever the current one is full. */
  method FeedMerge(hash: Hash, ghost part: seq<Byte>, merged0: seq<CompletedBlock>, current0: Option<Builder>,
                   position: U64, bytes: seq<Byte>)
    returns (merged: seq<CompletedBlock>, current: Option<Builder>)
    requires Building(hash, part, merged0, current0, position) && |part| <= U64_MAX
    requires position + |bytes| <= |part| && bytes == part[position..position + |bytes|]
    ensures Building(hash, part, merged, current, position + |bytes|)
    ensures forall x: nat ::
              Fed(merged, current, x) <==> Fed(merged0, current0, x) || position <= x < position + |bytes|
  {
    hide Building, Fed, Finished;
    merged, current := merged0, current0;
    var at, rest := position, bytes;
    while rest != []
      invariant position <= at && at + |rest| == position + |bytes| && rest == part[at..at + |rest|]
      invariant Building(hash, part, merged, current, at)
      invariant forall x: nat :: Fed(merged, current, x) <==> Fed(merged0, current0, x) || position <= x < at
      decreases |rest|
    {
      BuilderRoom(hash, part, merged, current, at);
      var room := U32_MAX - if current.Some? then |current.value.bytes| else 0;
      var take := Min(room, |rest|);
      FeedStep(hash, part, merged, current, at, rest[..take]);
      var c := Grown(current, at, rest[..take]);
      at, rest := at + take, rest[take..];
      if |c.bytes| == U32_MAX {
        merged, current := Finished(hash, merged, Some(c)), None;
      } else {
        current := Some(c);
      }
    }
  }

  lemma BuilderRoom(hash: Hash, part: seq<Byte>, merged: seq<CompletedBlock>, current: Option<Builder>, at: nat)
    requires Building(hash, part, merged, current, at)
    ensures current.Some? ==> |current.value.bytes| < U32_MAX
  {
  }

  // ----- verify and merge -----

  /** Reads one block through the buffer, feeding the merge, and returns the bytes hashed. */
  method ReadBlock(hash: Hash, part: seq<Byte>, block: CompletedBlock, merged0: seq<CompletedBlock>,
                   current0: Option<Builder>)
    returns (merged: seq<CompletedBlock>, current: Option<Builder>, hashed: seq<Byte>)
    requires End(block) <= |part| <= U64_MAX && Building(hash, part, merged0, current0, block.offset)
    ensures Building(hash, part, merged, current, End(block)) && hashed == part[block.offset..End(block)]
    ensures forall x: nat :: Fed(merged, current, x) <==> Fed(merged0, current0, x) || block.offset <= x < End(block)
  {
    hide Building, Fed;
    merged, current, hashed := merged0, current0, [];
    var position, remaining := block.offset, block.len;
    while remaining > 0
      invariant block.offset <= position && 0 <= remaining && position + remaining == End(block)
      invariant Building(hash, part, merged, current, position) && hashed == part[block.offset..position]
      invariant forall x: nat :: Fed(merged, current, x) <==> Fed(merged0, current0, x) || block.offset <= x < position
      decreases remaining
    {
      var take := Min(remaining, HASH_BUFFER_LEN);
      var buffer := part[position..position + take];
      merged, current := FeedMerge(hash, part, merged, current, position, buffer);
      hashed := hashed + buffer;
      position, remaining := position + take, remaining - take;
    }
  }

  /** Before a block that does not continue the current run, the run is finished. */
  lemma NextBlock(hash: Hash, part: seq<Byte>, merged: seq<CompletedBlock>, current: Option<Builder>, at: nat,
                  offset: nat)
    requires Building(hash, part, merged, current, at) && at <= offset <= |part|
    ensures current.None? || at == offset ==> Building(hash, part, merged, current, offset)
    ensures current.Some? && at != offset ==> Building(hash, part, Finished(hash, merged, current), None, offset)
  {
    hide Covered, Packed;
    FinishedPacked(hash, part, merged, current, at);
  }

  ghost predicate FirstBad(hash: Hash, part: seq<Byte>, blocks: seq<CompletedBlock>, i: nat, e: CompactionError)
  {
    && i < |blocks| && BlockCheck(hash, part, blocks[i]) == Err(e)
    && forall j :: 0 <= j < i ==> BlockCheck(hash, part, blocks[j]).Ok?
  }

  lemma CoveredUpTo(blocks: seq<CompletedBlock>, i: nat, x: nat)
    requires i < |blocks|
    ensures Covered(blocks[..i + 1], x) <==> Covered(blocks[..i], x) || blocks[i].offset <= x < End(blocks[i])
  {
    CoveredLast(blocks[..i + 1], x);
    assert blocks[..i + 1][..i] == blocks[..i];
  }

  /** Where the fed bytes end before block `i`. */
  ghost function FedEnd(blocks: seq<CompletedBlock>, i: nat): nat
    requires i <= |blocks|
  {
    if i == 0 then 0 else End(blocks[i - 1])
  }

  lemma StartsEmpty(hash: Hash, part: seq<Byte>)
    ensures Building(hash, part, [], None, 0) && forall x: nat :: !Fed([], None, x) && !Covered([], x)
  {
  }

  /**
   Checks every block against its digest and merges them; a damaged block stops the compaction
   and the first one is named.
   */
  method VerifyAndMerge(hash: Hash, part: seq<Byte>, blocks: seq<CompletedBlock>)
    returns (r: Result<seq<CompletedBlock>, CompactionError>)
    requires |part| <= U64_MAX && Ordered(blocks) && NonEmpty(blocks)
    ensures r.Ok? <==> forall i :: 0 <= i < |blocks| ==> BlockCheck(hash, part, blocks[i]).Ok?
    ensures r.Ok? ==> Packed(hash, part, r.value) && SameBytes(r.value, blocks)
    ensures r.Err? ==> exists i :: FirstBad(hash, part, blocks, i, r.error)
  {
    hide Building, Packed, Fed, Finished, Covered;
    var merged, current := [], None;
    StartsEmpty(hash, part);
    assert blocks[..0] == [];
    for i := 0 to |blocks|
      invariant Building(hash, part, merged, current, FedEnd(blocks, i))
      invariant forall j :: 0 <= j < i ==> BlockCheck(hash, part, blocks[j]).Ok?
      invariant forall x: nat :: Fed(merged, current, x) <==> Covered(blocks[..i], x)
    {
      var block := blocks[i];
      if End(block) > |part| {
        assert FirstBad(hash, part, blocks, i, UnexpectedEof);
        return Err(UnexpectedEof);
      }
      BuilderEnd(hash, part, merged, current, FedEnd(blocks, i));
      NextBlock(hash, part, merged, current, FedEnd(blocks, i), block.offset);
      if current.Some? && current.value.start + |current.value.bytes| != block.offset {
        FinishedFed(hash, part, merged, current, FedEnd(blocks, i));
        merged, current := Finished(hash, merged, current), None;
      }
      var hashed;
      merged, current, hashed := ReadBlock(hash, part, block, merged, current);
      if hash(hashed) != block.blake3 {
        assert FirstBad(hash, part, blocks, i, BlockDigestMismatch(block.offset, block.len));
        return Err(BlockDigestMismatch(block.offset, block.len));
      }
      forall x: nat ensures Fed(merged, current, x) <==> Covered(blocks[..i + 1], x) {
        CoveredUpTo(blocks, i, x);
      }
    }
    BuilderEnd(hash, part, merged, current, FedEnd(blocks, |blocks|));
    FinishedPacked(hash, part, merged, current, FedEnd(blocks, |blocks|));
    assert blocks[..|blocks|] == blocks;
    r := Ok(Finished(hash, merged, current));
  }

  lemma BuilderEnd(hash: Hash, part: seq<Byte>, merged: seq<CompletedBlock>, current: Option<Builder>, at: nat)
    requires Building(hash, part, merged, current, at)
    ensures at <= |part|
    ensures current.Some? ==> |current.value.bytes| < U32_MAX && current.value.start + |current.value.bytes| == at
  {
  }

  lemma FinishedFed(hash: Hash, part: seq<Byte>, merged: seq<CompletedBlock>, current: Option<Builder>, at: nat)
    requires Building(hash, part, merged, current, at)
    ensures forall x: nat :: Fed(Finished(hash, merged, current), None, x) <==> Fed(merged, current, x)
  {
    hide Covered, Packed, Finished;
    FinishedPacked(hash, part, merged, current, at);
  }

  /** A packing checks out against its own digests. */
  lemma PackedChecks(hash: Hash, part: seq<Byte>, out: seq<CompletedBlock>)
    requires Packed(hash, part, out)
    ensures NonEmpty(out) && Ordered(out) && forall i :: 0 <= i < |out| ==> BlockCheck(hash, part, out[i]).Ok?
  {
    forall i | 0 <= i < |out| ensures out[i].len > 0 && BlockCheck(hash, part, out[i]).Ok? {
      assert Piece(hash, part, out[i]);
    }
  }

  // ----- merging never adds blocks -----

  lemma NotBetween(hash: Hash, part: seq<Byte>, a: seq<CompletedBlock>, i: nat)
    requires Packed(hash, part, a) && i + 1 < |a| && End(a[i]) < a[i + 1].offset
    ensures !Covered(a, End(a[i]))
  {
  }

  /** No block holds the first bytes of two neighbouring pieces. */
  lemma OneStartPerBlock(hash: Hash, part: seq<Byte>, merged: seq<CompletedBlock>, blocks: seq<CompletedBlock>, i: nat,
                         j: nat)
    requires Packed(hash, part, merged) && SameBytes(merged, blocks) && i + 1 < |merged| && j < |blocks|
    ensures !(blocks[j].offset <= merged[i].offset && merged[i + 1].offset < End(blocks[j]))
  {
    var z: nat, k := End(merged[i]), i + 1;
    assert Piece(hash, part, merged[i]) && z <= merged[k].offset;
    assert blocks[j].offset <= z < End(blocks[j]) ==> Covered(blocks, z);
    assert Covered(merged, z) <==> Covered(blocks, z);
    if z < merged[k].offset {
      NotBetween(hash, part, merged, i);
    }
  }

  /** The first `n` pieces begin in different blocks, all before block `k`. */
  lemma {:induction false} PiecesInBlocks(hash: Hash, part: seq<Byte>, merged: seq<CompletedBlock>,
                                          blocks: seq<CompletedBlock>, n: nat, k: nat)
    requires Packed(hash, part, merged) && SameBytes(merged, blocks) && Ordered(blocks)
    requires n < |merged| && k < |blocks| && blocks[k].offset <= merged[n].offset < End(blocks[k])
    ensures n <= k
  {
    if n > 0 {
      var m := n - 1;
      StartIsCovered(hash, part, merged, m);
      var j :| 0 <= j < |blocks| && blocks[j].offset <= merged[m].offset < End(blocks[j]);
      OneStartPerBlock(hash, part, merged, blocks, m, k);
      PiecesInBlocks(hash, part, merged, blocks, m, j);
    }
  }

  lemma StartIsCovered(hash: Hash, part: seq<Byte>, merged: seq<CompletedBlock>, n: nat)
    requires Packed(hash, part, merged) && n < |merged|
    ensures Covered(merged, merged[n].offset)
    ensures forall i :: 0 <= i < n ==> merged[i].offset < merged[n].offset
  {
    assert Piece(hash, part, merged[n]);
    forall i | 0 <= i < n ensures merged[i].offset < merged[n].offset {
      assert Piece(hash, part, merged[i]);
    }
  }

  /** There are no more merged blocks than there were blocks. */
  lemma MergedFewer(hash: Hash, part: seq<Byte>, merged: seq<CompletedBlock>, blocks: seq<CompletedBlock>)
    requires Packed(hash, part, merged) && SameBytes(merged, blocks) && Ordered(blocks)
    ensures |merged| <= |blocks|
  {
    if merged != [] {
      var n := |merged| - 1;
      StartIsCovered(hash, part, merged, n);
      var k :| 0 <= k < |blocks| && blocks[k].offset <= merged[n].offset < End(blocks[k]);
      PiecesInBlocks(hash, part, merged, blocks, n, k);
    }
  }
}
