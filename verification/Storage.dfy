/**
 The part file and the recovery journal as a crash sees them.

 `data` and `journal` are what reads return now. `dirty` marks the offsets written since the
 last data sync and `synced` is the journal length at the last journal sync. A crash keeps
 everything synced, gives any value to dirty bytes and keeps any byte prefix of the journal that
 is no shorter than `synced`.
 */
module Storage {
  import opened Base

  datatype Store = Store(data: seq<Byte>, dirty: seq<bool>, journal: seq<Byte>, synced: nat)

  ghost predicate ValidStore(s: Store)
  {
    |s.dirty| == |s.data| && s.synced <= |s.journal|
  }

  /** The bytes a positional write reaches; a failed write may leave anything in that range. */
  function WriteData(s: Store, offset: nat, bytes: seq<Byte>): (r: Store)
    requires offset + |bytes| <= |s.data| == |s.dirty|
    ensures |r.data| == |s.data| == |r.dirty|
    ensures forall b :: 0 <= b < |s.data| ==>
              r.data[b] == if offset <= b < offset + |bytes| then bytes[b - offset] else s.data[b]
    ensures forall b :: 0 <= b < |s.data| ==>
              r.dirty[b] == if offset <= b < offset + |bytes| then true else s.dirty[b]
    ensures r.journal == s.journal && r.synced == s.synced
  {
    var end := offset + |bytes|;
    s.(data := s.data[..offset] + bytes + s.data[end..],
       dirty := s.dirty[..offset] + seq(|bytes|, _ => true) + s.dirty[end..])
  }

  function SyncData(s: Store): Store { s.(dirty := seq(|s.data|, _ => false)) }

  function AppendJournal(s: Store, bytes: seq<Byte>): Store { s.(journal := s.journal + bytes) }

  function SyncJournal(s: Store): Store { s.(synced := |s.journal|) }

  /** One write, one append or one sync lies between the two states. */
  ghost predicate OneOperation(a: Store, b: Store)
  {
    || (exists offset: nat, bytes ::
          offset + |bytes| <= |a.data| == |a.dirty| && b == WriteData(a, offset, bytes))
    || (exists bytes :: b == AppendJournal(a, bytes))
    || b == SyncData(a) || b == SyncJournal(a)
  }

  /** The states a disk passes through, with none left out. */
  ghost predicate Gapless(images: seq<Store>)
  {
    forall i, j :: 0 <= i < j < |images| && j == i + 1 ==> OneOperation(images[i], images[j])
  }

  /** `after` is what may be found on disk when the machine stopped while it was in state `s`. */
  ghost predicate Crash(s: Store, after: Store)
  {
    && |after.data| == |s.data| == |s.dirty|
    && (forall b :: 0 <= b < |s.data| && !s.dirty[b] ==> after.data[b] == s.data[b])
    && s.synced <= |after.journal| && after.journal <= s.journal
    && after.dirty == seq(|s.data|, _ => false) && after.synced == |after.journal|
  }
}
