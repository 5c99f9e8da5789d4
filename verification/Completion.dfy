/**
 Verification before naming.

 A finished download is measured, checked for gaps, hashed and compared with the server's
 digest; then its journal is sealed and synced, and only then does the part file get its name.
 `VerifyAndRename` records every disk state on the way, and its contract says what holds
 whenever the name exists.
 */
module Completion {
  import opened Base
  import opened Ownership
  import opened Intervals
  import opened JournalFormat
  import opened Replay
  import opened Storage

  const VERIFY_BUFFER: nat := 64 * 1024
  const MAX_DIGEST_BASE64: nat := 128

  datatype Algorithm = Sha256 | Sha512

  datatype ContentDigest = ContentDigest(algorithm: Algorithm, encoded: seq<Byte>)

  /** The digest functions and the base64 decoder; nothing below depends on which they are. */
  datatype Digests = Digests(
    blake3: Hash,
    sha: (Algorithm, seq<Byte>) -> seq<bv8>,
    base64: seq<Byte> -> Option<seq<bv8>>)

  datatype DigestOutcome = NotOffered | Verified(algorithm: Algorithm) | Unreadable

  datatype CompletionError =
    | WrongLength(expected: U64, actual: nat)
    | IncompleteCoverage(covered: nat, total: U64, gap: nat)
    | DigestMismatch(algorithm: Algorithm)
    | IoFailed
    | SealFailed
    | WorkStillStaged

  datatype SealedFile = SealedFile(finalBlake3: Digest, digestChecked: DigestOutcome)

  /** The part file and journal, the file under the final name, and whether the journal is gone. */
  datatype Shelf = Shelf(store: Store, named: Option<seq<Byte>>, retired: bool)

  datatype CompletionFault = NoFault | ReadFails | SealAppendFails(torn: nat) | SealSyncFails | RenameFails

  // ----- coverage -----

  /** `gap` is the first byte of the map that is not complete, or its length. */
  ghost predicate FirstGap(m: Owners, gap: nat)
  {
    gap <= |m| && AllAre(m, 0, gap, Complete) && (gap < |m| ==> m[gap] != Complete)
  }

  /** One pass over the intervals; the whole map must be complete and as long as claimed. */
  method CheckCoverage(ivs: seq<Interval>, total: U64, ghost m: Owners) returns (r: Result<Unit, CompletionError>)
    requires Describes(ivs, m) && |m| <= U64_MAX
    ensures r.Ok? <==> |m| == total && AllAre(m, 0, |m|, Complete)
    ensures r.Err? ==> r.error.IncompleteCoverage? && r.error.total == total
                       && r.error.covered == Count(m, Complete) && FirstGap(m, r.error.gap)
  {
    hide Count;
    var covered: nat, gap: Option<nat> := 0, None;
    CountUniform([], Complete, Complete);
    assert m[..0] == [];
    for i := 0 to |ivs|
      invariant StartOf(ivs, i) <= |m| && covered == Count(m[..StartOf(ivs, i)], Complete)
      invariant gap.None? ==> AllAre(m, 0, StartOf(ivs, i), Complete)
      invariant gap.Some? ==> gap.value < |m| && FirstGap(m, gap.value)
    {
      CountStep(ivs, m, i, Complete);
      if ivs[i].state == Complete {
        covered := Min(covered + (ivs[i].end - ivs[i].start), U64_MAX);
        CountZeroIff(m[..ivs[i].end], Complete);
      } else if gap.None? {
        gap := Some(ivs[i].start);
      }
    }
    assert StartOf(ivs, |ivs|) == |m| && m[..|m|] == m;
    CountZeroIff(m, Complete);
    if gap.Some? {
      return Err(IncompleteCoverage(covered, total, gap.value));
    }
    if covered != total {
      return Err(IncompleteCoverage(covered, total, covered));
    }
    r := Ok(Unit);
  }

  // ----- digests -----

  lemma OrXorZero(d: bv8, a: bv8, b: bv8)
    ensures d | (a ^ b) == 0 <==> d == 0 && a == b
  {
  }

  /** Looks at every position whatever it finds, and answers equality. */
  method ConstantTimeEq(left: seq<bv8>, right: seq<bv8>) returns (equal: bool)
    ensures equal <==> left == right
  {
    if |left| != |right| {
      return false;
    }
    var diff: bv8 := 0;
    for i := 0 to |left|
      invariant diff == 0 <==> left[..i] == right[..i]
    {
      OrXorZero(diff, left[i], right[i]);
      assert left[..i + 1] == left[..i] + [left[i]] && right[..i + 1] == right[..i] + [right[i]];
      diff := diff | (left[i] ^ right[i]);
    }
    assert left[..|left|] == left && right[..|right|] == right;
    equal := diff == 0;
  }

  function DigestLength(a: Algorithm): nat
  {
    match a
    case Sha256 => 32
    case Sha512 => 64
  }

  function DecodeDigest(env: Digests, d: ContentDigest): Option<seq<bv8>>
  {
    if |d.encoded| > MAX_DIGEST_BASE64 then None
    else
      match env.base64(d.encoded)
      case None => None
      case Some(bytes) => if |bytes| == DigestLength(d.algorithm) then Some(bytes) else None
  }

  /** The offered digest is at most 128 characters long and decodes to `bytes`, as many as its algorithm has. */
  ghost predicate Reads(env: Digests, d: ContentDigest, bytes: seq<bv8>)
  {
    && |d.encoded| <= 128 && env.base64(d.encoded) == Some(bytes)
    && |bytes| == match d.algorithm { case Sha256 => 32 case Sha512 => 64 }
  }

  /**
   What a digest decides: one that reads as the file's own is verified, one that reads as anything else
   is a mismatch, and one that does not read decides nothing.
   */
  ghost predicate Decides(env: Digests, offered: Option<ContentDigest>, file: seq<Byte>,
                          r: Result<DigestOutcome, CompletionError>)
  {
    match offered
    case None => r == Ok(NotOffered)
    case Some(d) =>
      && (forall bytes :: Reads(env, d, bytes) ==>
            r == if bytes == env.sha(d.algorithm, file) then Ok(Verified(d.algorithm))
                 else Err(DigestMismatch(d.algorithm)))
      && ((forall bytes :: !Reads(env, d, bytes)) ==> r == Ok(Unreadable))
  }

  /** The offered digest reads, and as something other than the file's. */
  ghost predicate Contradicts(env: Digests, offered: Option<ContentDigest>, file: seq<Byte>)
  {
    exists bytes :: offered.Some? && Reads(env, offered.value, bytes) && bytes != env.sha(offered.value.algorithm, file)
  }

  lemma ContradictsIff(env: Digests, offered: Option<ContentDigest>, file: seq<Byte>)
    ensures Contradicts(env, offered, file) <==> !Agrees(env, offered, file)
  {
    if !Agrees(env, offered, file) {
      assert Reads(env, offered.value, DecodeDigest(env, offered.value).value);
    }
  }

  lemma AgreesDecides(env: Digests, offered: Option<ContentDigest>, file: seq<Byte>)
    ensures Decides(env, offered, file,
                    if Agrees(env, offered, file) then Ok(OutcomeOf(env, offered))
                    else Err(DigestMismatch(offered.value.algorithm)))
  {
    if offered.Some? && DecodeDigest(env, offered.value).Some? {
      assert Reads(env, offered.value, DecodeDigest(env, offered.value).value);
    }
  }

  /** No digest that could be read disagrees with the bytes. */
  predicate Agrees(env: Digests, offered: Option<ContentDigest>, bytes: seq<Byte>)
  {
    offered.Some? && DecodeDigest(env, offered.value).Some? ==>
      DecodeDigest(env, offered.value).value == env.sha(offered.value.algorithm, bytes)
  }

  function OutcomeOf(env: Digests, offered: Option<ContentDigest>): DigestOutcome
  {
    if offered.None? then NotOffered
    else if DecodeDigest(env, offered.value).None? then Unreadable
    else Verified(offered.value.algorithm)
  }

  /** Streams the file once, in reads of any size, feeding both hashers the same bytes. */
  method HashFile(env: Digests, part: seq<Byte>, offered: Option<ContentDigest>)
    returns (blake3: Digest, server: Option<seq<bv8>>)
    ensures blake3 == env.blake3(part)
    ensures server == if offered.Some? then Some(env.sha(offered.value.algorithm, part)) else None
  {
    var fed, at := [], 0;
    while at < |part|
      invariant 0 <= at <= |part| && fed == part[..at]
    {
      var read: nat := *;
      if !(0 < read <= Min(VERIFY_BUFFER, |part| - at)) {
        read := Min(VERIFY_BUFFER, |part| - at);
      }
      fed, at := fed + part[at..at + read], at + read;
    }
    assert fed == part;
    blake3 := env.blake3(fed);
    server := if offered.Some? then Some(env.sha(offered.value.algorithm, fed)) else None;
  }

  /** Compares the computed server digest with the offered one. */
  method CheckDigest(env: Digests, offered: Option<ContentDigest>, server: Option<seq<bv8>>, ghost part: seq<Byte>)
    returns (r: Result<DigestOutcome, CompletionError>)
    requires server == if offered.Some? then Some(env.sha(offered.value.algorithm, part)) else None
    ensures r.Ok? <==> Agrees(env, offered, part)
    ensures r.Ok? ==> r.value == OutcomeOf(env, offered)
    ensures r.Err? ==> offered.Some? && r.error == DigestMismatch(offered.value.algorithm)
    ensures Decides(env, offered, part, r)
  {
    hide DecodeDigest, Decides;
    AgreesDecides(env, offered, part);
    if offered.None? {
      return Ok(NotOffered);
    }
    if server.None? {
      return Ok(Unreadable);
    }
    var expected := DecodeDigest(env, offered.value);
    if expected.None? {
      return Ok(Unreadable);
    }
    var equal := ConstantTimeEq(expected.value, server.value);
    r := if equal then Ok(Verified(offered.value.algorithm)) else Err(DigestMismatch(offered.value.algorithm));
  }

  // ----- seal and rename -----

  function SealFrame(crc: Checksum, sequence: U64, digest: Digest): seq<Byte>
  {
    Frame(crc, sequence, Sealed(digest))
  }

  /** What the existence of the final name proves about a download that started as `s`. */
  ghost predicate Earned(crc: Checksum, env: Digests, s: Store, m: Owners, total: U64, offered: Option<ContentDigest>,
                         sequence: U64, now: Shelf)
  {
    && |s.data| == total == |m| && AllAre(m, 0, |m|, Complete) && Agrees(env, offered, s.data)
    && now.named == Some(s.data)
    && now.store.journal == s.journal + SealFrame(crc, sequence, env.blake3(s.data))
    && now.store.synced == |now.store.journal|
  }

  /** The disk a completion passes through: data untouched, and the journal grows by part of the seal. */
  ghost predicate Sealing(crc: Checksum, env: Digests, s: Store, sequence: U64, now: Shelf)
  {
    && now.store.data == s.data && now.store.dirty == s.dirty && s.synced <= now.store.synced
    && s.journal <= now.store.journal <= s.journal + SealFrame(crc, sequence, env.blake3(s.data))
    && (now.store.synced == s.synced || now.store.journal == s.journal + SealFrame(crc, sequence, env.blake3(s.data)))
  }

  ghost predicate Allowed(crc: Checksum, env: Digests, s: Store, m: Owners, total: U64, offered: Option<ContentDigest>,
                          sequence: U64, now: Shelf)
  {
    && Sealing(crc, env, s, sequence, now)
    && (now.named.Some? ==> Earned(crc, env, s, m, total, offered, sequence, now))
    && (now.retired ==> now.named.Some?)
  }

  /** One operation lies between the two states: an append, a sync of the journal, the rename, or its removal. */
  ghost predicate OneOperation(a: Shelf, b: Shelf)
  {
    || (exists bytes :: b == a.(store := AppendJournal(a.store, bytes)))
    || b == a.(store := SyncJournal(a.store))
    || b == a.(named := Some(a.store.data))
    || b == a.(retired := true)
  }

  /** The states on the way, from `s` on, with none left out. */
  ghost predicate Gapless(s: Shelf, images: seq<Shelf>)
  {
    && images != [] && images[0] == s
    && forall i, j :: 0 <= i < j < |images| && j == i + 1 ==> OneOperation(images[i], images[j])
  }

  method SealAndRename(crc: Checksum, s: Shelf, blake3: Digest, sequence: U64, fault: CompletionFault)
    returns (images: seq<Shelf>, done: bool)
    requires s.named.None? && !s.retired
    ensures images != [] && done == !(fault.SealAppendFails? || fault == SealSyncFails || fault == RenameFails)
    ensures var frame := SealFrame(crc, sequence, blake3);
            forall i :: 0 <= i < |images| ==>
              && images[i].store.data == s.store.data && images[i].store.dirty == s.store.dirty && !images[i].retired
              && s.store.journal <= images[i].store.journal <= s.store.journal + frame
              && (images[i].store.synced == s.store.synced
                  || images[i].store.synced == |images[i].store.journal| == |s.store.journal + frame|)
              && (images[i].named.Some? ==>
                    && images[i].named == Some(s.store.data) && images[i].store.journal == s.store.journal + frame
                    && images[i].store.synced == |images[i].store.journal|)
    ensures done <==> images[|images| - 1].named.Some?
    ensures forall i :: 0 <= i < |images| - 1 ==> images[i].named.None?
    ensures Gapless(s, images)
  {
    hide Frame;
    var frame := SealFrame(crc, sequence, blake3);
    images, done := [s], false;
    if fault.SealAppendFails? {
      images := images + [s.(store := AppendJournal(s.store, frame[..Min(fault.torn, |frame|)]))];
      return;
    }
    var now := s.(store := AppendJournal(s.store, frame));
    images := images + [now];
    if fault == SealSyncFails {
      return;
    }
    now := now.(store := SyncJournal(now.store));
    images := images + [now];
    if fault == RenameFails {
      return;
    }
    now := now.(named := Some(now.store.data));
    images, done := images + [now], true;
  }

  /** Why a download is not named: the first of the checks, in their order, that does not hold. */
  ghost predicate Explains(env: Digests, s: Store, total: U64, m: Owners, offered: Option<ContentDigest>,
                           fault: CompletionFault, e: CompletionError)
  {
    if |s.data| != total then e == WrongLength(total, |s.data|)
    else if |m| != total || exists b :: 0 <= b < |m| && m[b] != Complete then
      e.IncompleteCoverage? && e.total == total && e.covered == Count(m, Complete) && FirstGap(m, e.gap)
    else if fault == ReadFails then e == IoFailed
    else if Contradicts(env, offered, s.data) then e == DigestMismatch(offered.value.algorithm)
    else if fault == RenameFails then e == IoFailed
    else e == SealFailed && (fault == SealSyncFails || fault.SealAppendFails?)
  }

  /**
   Verifies a download and, only then, names it. `images` are the disk states on the way. A
   check that fails leaves the files exactly as they were found.
   */
  method VerifyAndRename(crc: Checksum, env: Digests, s: Store, total: U64, ivs: seq<Interval>, ghost m: Owners,
                         offered: Option<ContentDigest>, sequence: U64, fault: CompletionFault)
    returns (images: seq<Shelf>, r: Result<SealedFile, CompletionError>)
    requires Describes(ivs, m) && |m| <= U64_MAX && s.synced <= |s.journal|
    ensures images != [] && forall i :: 0 <= i < |images| ==>
              Allowed(crc, env, s, m, total, offered, sequence, images[i]) && !images[i].retired
    ensures r.Ok? <==> |s.data| == total == |m| && AllAre(m, 0, |m|, Complete) && Agrees(env, offered, s.data)
                       && fault == NoFault
    ensures r.Ok? <==> images[|images| - 1].named.Some?
    ensures r.Ok? ==> r.value == SealedFile(env.blake3(s.data), OutcomeOf(env, offered))
    ensures r.Err? && !r.error.SealFailed? && fault != RenameFails ==> images == [Shelf(s, None, false)]
    ensures r.Ok? ==> Decides(env, offered, s.data, Ok(r.value.digestChecked))
    ensures Contradicts(env, offered, s.data) ==> forall i :: 0 <= i < |images| ==> images[i] == Shelf(s, None, false)
    ensures r.Err? ==> Explains(env, s, total, m, offered, fault, r.error)
    ensures Gapless(Shelf(s, None, false), images)
  {
    hide OneOperation, Frame, SealFrame, Decides, Agrees, OutcomeOf, Contradicts, Count;
    ContradictsIff(env, offered, s.data);
    var shelf := Shelf(s, None, false);
    images := [shelf];
    if |s.data| != total {
      return images, Err(WrongLength(total, |s.data|));
    }
    var coverage := CheckCoverage(ivs, total, m);
    if coverage.Err? {
      return images, Err(coverage.error);
    }
    if fault == ReadFails {
      return images, Err(IoFailed);
    }
    var blake3, server := HashFile(env, s.data, offered);
    var digest := CheckDigest(env, offered, server, s.data);
    if digest.Err? {
      return images, Err(digest.error);
    }
    var done;
    images, done := SealAndRename(crc, shelf, blake3, sequence, fault);
    r := if done then Ok(SealedFile(blake3, digest.value))
         else if fault == RenameFails then Err(IoFailed) else Err(SealFailed);
  }
}
