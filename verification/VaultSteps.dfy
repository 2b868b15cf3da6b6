/** What each operation of the vault does to its state, and what holds over whole runs. */
module VaultSteps {
  import opened BitOps
  import opened Shards
  import opened TrustedTime
  import opened Audit
  import opened VaultState

  const COMPACT_LIMIT := 20000
  const CLOCK_TOLERANCE: Time := 2

  /** The clock as the last snapshot has it. */
  datatype SavedClock = SavedClock(floor: Time, isSealed: bool)

  /** The vault: its durable state, its clock, the clock of the snapshot on disk if there is one, and
      the number of journal records since. */
  datatype State = State(d: Durable, clock: Guard, started: bool, saved: Option<SavedClock>, count: nat)

  datatype Result = Done | VaultSealed | SyncClosed | InvalidMode | NotFound | OutOfRange | BucketExists
                  | BucketNotEmpty | LogFull | DeleteRefused

  function NameDigest(hash: Hash, name: string): Digest {
    hash(seq(|name|, i requires 0 <= i < |name| => (name[i] as int % 256) as Byte))
  }

  // ---- Persistence ----

  function Saving(s: State): State {
    s.(saved := Some(SavedClock(s.clock.floor, s.clock.isSealed)), count := 0)
  }

  /** A group commit of `k` records: an append to the journal, or a new snapshot. */
  function Committing(s: State, k: nat): (r: State)
    ensures r.d == s.d
  {
    if k == 0 then s else if s.count + k >= COMPACT_LIMIT then Saving(s) else s.(count := s.count + k)
  }

  // ---- Operations ----

  predicate HasRoom(d: Durable, entries: nat) {
    |d.log| > 0 && d.log[|d.log| - 1].num + entries <= SEQ_LAST
  }

  function NewEntry(hash: Hash, s: State, kind: Event, subject: Digest, detail: Time): Entry
    requires HasRoom(s.d, 1)
  {
    Append(hash, s.d.log[|s.d.log| - 1], s.clock.floor, kind, subject, detail)
  }

  function Audited1(hash: Hash, s: State, kind: Event, subject: Digest, detail: Time): State
    requires HasRoom(s.d, 1)
  {
    s.(d := s.d.(log := s.d.log + [NewEntry(hash, s, kind, subject, detail)]))
  }

  function IngestRefusal(s: State): Result {
    if s.d.opSealed then VaultSealed else if s.d.syncShut then SyncClosed else Done
  }

  /** Puts an object that has been stored as `id` under a name. */
  function Put(hash: Hash, s: State, name: string, id: Digest, composite: bool, size: nat, mode: Mode,
               retainFor: Time, userMeta: string): (State, Result)
  {
    if IngestRefusal(s) != Done then (s, IngestRefusal(s))
    else if mode == Unlocked then (s, InvalidMode)
    else if s.clock.floor + retainFor > TIME_LAST then (s, OutOfRange)
    else if !HasRoom(s.d, 1) then (s, LogFull)
    else
      var until: Time := s.clock.floor + retainFor;
      var meta := Meta(id, CreateLock(mode, until, s.clock.floor), composite, false, size, userMeta);
      var s' := Audited1(hash, s, LockCreated, NameDigest(hash, name), until);
      (Committing(s'.(d := s'.d.(index := s'.d.index[name := meta])), 2), Done)
  }

  function Delete(hash: Hash, s: State, name: string, bypass: bool): (State, Result) {
    if s.d.opSealed then (s, VaultSealed)
    else if name !in s.d.index then (s, NotFound)
    else if !HasRoom(s.d, 1) then (s, LogFull)
    else if CanDelete(s.d.index[name].lock, s.clock.floor, bypass) then
      var s' := Audited1(hash, s, DeleteAllowed, NameDigest(hash, name), s.clock.floor);
      (Committing(s'.(d := s'.d.(index := s'.d.index - {name})), 2), Done)
    else
      (Committing(Audited1(hash, s, DeleteDenied, NameDigest(hash, name), s.clock.floor), 1), DeleteRefused)
  }

  function CreateBucket(s: State, name: string, objectLock: bool): (State, Result) {
    if IngestRefusal(s) != Done then (s, IngestRefusal(s))
    else if name in s.d.buckets then (s, BucketExists)
    else (Saving(s.(d := s.d.(buckets := s.d.buckets[name := objectLock]))), Done)
  }

  predicate InBucket(name: string, bucket: string) {
    bucket + "/" <= name
  }

  function DeleteBucket(s: State, name: string): (State, Result) {
    if IngestRefusal(s) != Done then (s, IngestRefusal(s))
    else if name !in s.d.buckets then (s, NotFound)
    else if exists key :: key in s.d.index && InBucket(key, name) then (s, BucketNotEmpty)
    else (Saving(s.(d := s.d.(buckets := s.d.buckets - {name}))), Done)
  }

  function SetVersioning(s: State, bucket: string, on: bool): State {
    Saving(s.(d := s.d.(versioned := if on then s.d.versioned + {bucket} else s.d.versioned - {bucket})))
  }

  function AddVersion(d: Durable, name: string, v: Version): Durable {
    d.(verSeq := v.vid, versions := d.versions[name := History(d, name) + [v]])
  }

  function RecordVersion(s: State, name: string): (State, Result) {
    if name !in s.d.index then (s, NotFound)
    else
      var m := s.d.index[name];
      (Committing(s.(d := AddVersion(s.d, name, Version(s.d.verSeq + 1, m.id, m.size, m.userMeta, false))), 2), Done)
  }

  function Marker(d: Durable): Version {
    Version(d.verSeq + 1, ZERO_DIGEST, 0, "", true)
  }

  /** The name is dropped and a delete marker is the newest version. */
  function MarkedDeleted(d: Durable, name: string, e: Entry): Durable {
    AddVersion(d, name, Marker(d)).(index := d.index - {name}, log := d.log + [e])
  }

  function DeleteMarker(hash: Hash, s: State, name: string): (State, Result) {
    if !HasRoom(s.d, 1) then (s, LogFull)
    else
      var e := NewEntry(hash, s, DeleteAllowed, NameDigest(hash, name), s.clock.floor);
      (Committing(s.(d := MarkedDeleted(s.d, name, e)), if name in s.d.index then 4 else 3), Done)
  }

  /** The newest version that is not a delete marker. */
  function Newest(vs: seq<Version>): Option<Version> {
    if |vs| == 0 then Option.None
    else if !vs[|vs| - 1].deleted then Some(vs[|vs| - 1])
    else Newest(vs[..|vs| - 1])
  }

  /** It is not a marker, and all later ones are. */
  lemma {:induction false} NewestIs(vs: seq<Version>, v: Version)
    ensures Newest(vs) == Some(v)
       <==> exists i :: 0 <= i < |vs| && vs[i] == v && !v.deleted && forall j :: i < j < |vs| ==> vs[j].deleted
  {
    if |vs| > 0 && vs[|vs| - 1].deleted {
      var front := vs[..|vs| - 1];
      NewestIs(front, v);
      assert forall j :: 0 <= j < |front| ==> front[j] == vs[j];
      if i :| 0 <= i < |front| && front[i] == v && !v.deleted && forall j :: i < j < |front| ==> front[j].deleted {
        assert vs[i] == v;
      }
      if i :| 0 <= i < |vs| && vs[i] == v && !v.deleted && forall j :: i < j < |vs| ==> vs[j].deleted {
        assert front[i] == v;
      }
    }
  }

  /** What the name stands for when its newest version becomes current. */
  function Current(v: Version): Meta {
    Meta(v.id, CreateLock(Governance, 0, 0), false, false, v.size, v.meta)
  }

  function Relinked(d: Durable, name: string, vs: seq<Version>): Durable {
    var index := match Newest(vs)
      case None => d.index - {name}
      case Some(v) => d.index[name := Current(v)];
    d.(index := index, versions := if |vs| == 0 then d.versions - {name} else d.versions[name := vs])
  }

  /** Where the version is in the history; the length if it is not there. */
  function VersionIndex(vs: seq<Version>, vid: nat): (i: nat)
    ensures i <= |vs| && (i < |vs| ==> vs[i].vid == vid)
    ensures i == |vs| ==> !HasVersion(vs, vid)
  {
    if |vs| == 0 then 0
    else if vs[|vs| - 1].vid == vid then |vs| - 1
    else
      var i := VersionIndex(vs[..|vs| - 1], vid);
      if i == |vs| - 1 then |vs| else i
  }

  function DeleteVersion(s: State, name: string, vid: nat): (State, Result) {
    if name !in s.d.versions then (s, NotFound)
    else
      var vs := s.d.versions[name];
      var i := VersionIndex(vs, vid);
      if i == |vs| then (s, NotFound)
      else (Saving(s.(d := Relinked(s.d, name, vs[..i] + vs[i + 1..]))), Done)
  }

  /** One object of a scrub: quarantined when it cannot be repaired, released when it can again. */
  function Scrub1(hash: Hash, s: State, name: string, recoverable: bool): State
    requires HasRoom(s.d, 1)
  {
    if name !in s.d.index || s.d.index[name].quarantined == !recoverable then s
    else
      var s' := s.(d := s.d.(index := s.d.index[name := s.d.index[name].(quarantined := !recoverable)]));
      if recoverable then s' else Audited1(hash, s', ObjectQuarantined, NameDigest(hash, name), 0)
  }

  /** The records that a scrub of one object writes. */
  function ScrubRecords(hash: Hash, s: State, name: string, recoverable: bool): seq<Record>
    requires HasRoom(s.d, 1)
  {
    if name !in s.d.index || s.d.index[name].quarantined == !recoverable then []
    else
      var m := s.d.index[name].(quarantined := !recoverable);
      var s' := s.(d := s.d.(index := s.d.index[name := m]));
      if recoverable then [Object(name, m)]
      else [Object(name, m), Audited(NewEntry(hash, s', ObjectQuarantined, NameDigest(hash, name), 0))]
  }

  /** A scrub over objects in some order, with what the repair of each found. */
  function ScrubAll(hash: Hash, s: State, verdicts: seq<(string, bool)>): (r: State)
    requires HasRoom(s.d, |verdicts|)
    ensures HasRoom(s.d, |verdicts|) && |r.d.log| > 0
    ensures r.d.log[|r.d.log| - 1].num <= s.d.log[|s.d.log| - 1].num + |verdicts|
  {
    if |verdicts| == 0 then s
    else
      var (name, recoverable) := verdicts[|verdicts| - 1];
      Scrub1(hash, ScrubAll(hash, s, verdicts[..|verdicts| - 1]), name, recoverable)
  }

  function ScrubWrites(hash: Hash, s: State, verdicts: seq<(string, bool)>): nat
    requires HasRoom(s.d, |verdicts|)
  {
    if |verdicts| == 0 then 0
    else
      var (name, recoverable) := verdicts[|verdicts| - 1];
      var s' := ScrubAll(hash, s, verdicts[..|verdicts| - 1]);
      ScrubWrites(hash, s, verdicts[..|verdicts| - 1]) + |ScrubRecords(hash, s', name, recoverable)|
  }

  /** A whole scrub, with one commit at the end. */
  function Scrub(hash: Hash, s: State, verdicts: seq<(string, bool)>): (State, Result) {
    if !HasRoom(s.d, |verdicts|) then (s, LogFull)
    else (Committing(ScrubAll(hash, s, verdicts), ScrubWrites(hash, s, verdicts)), Done)
  }

  function Reading(hash: Hash, s: State, sample: Sample): (State, Result) {
    if !s.started then (s.(clock := Init(sample), started := true), Done)
    else
      var s' := s.(clock := Ticked(s.clock, sample, CLOCK_TOLERANCE));
      if !s'.clock.isSealed || s.clock.isSealed then (s', Done)
      else if !HasRoom(s.d, 1) then (s', LogFull)
      else (Saving(Audited1(hash, s', SealEngaged, ZERO_DIGEST, s'.clock.floor)), Done)
  }

  function SetLegalHold(hash: Hash, s: State, name: string, hold: bool): (State, Result) {
    if name !in s.d.index then (s, NotFound)
    else if !HasRoom(s.d, 1) then (s, LogFull)
    else
      var m := s.d.index[name];
      var lock := if hold then SetHold(m.lock) else ReleaseHold(m.lock);
      var s' := s.(d := s.d.(index := s.d.index[name := m.(lock := lock)]));
      (Saving(Audited1(hash, s', if hold then LegalHoldSet else LegalHoldReleased, NameDigest(hash, name),
                       s.clock.floor)), Done)
  }

  function TickFromSystem(hash: Hash, s: State, sample: Sample, boot: string): (State, Result) {
    var last := s.d.lastBoot;
    var t := Reading(hash, s.(d := s.d.(lastBoot := boot)), sample.(bootChanged := |last| > 0 && last != boot));
    if t.1 == Done && last != boot then (Saving(t.0), Done) else t
  }

  function Seal(hash: Hash, s: State): (State, Result) {
    if s.d.opSealed then (s, Done)
    else if !HasRoom(s.d, 1) then (s, LogFull)
    else (Saving(Audited1(hash, s.(d := s.d.(opSealed := true)), SealEngaged, ZERO_DIGEST, s.clock.floor)), Done)
  }

  function SetModes(s: State, ingestOnly: bool, syncShut: bool): State {
    Saving(s.(d := s.d.(ingestOnly := ingestOnly, syncShut := syncShut)))
  }

  /** The state after a start on an empty disk. */
  function Fresh(hash: Hash): State {
    State(EMPTY.(log := [GenesisEntry(hash, 0)]), Init(Sample(0, 0, false)), false, Option.None, 0)
  }

  /** Closing and opening again.  Without a snapshot everything starts over, whatever the journal
      has; with one the durable state comes back, and the clock as the snapshot has it. */
  function Reopen(hash: Hash, s: State): State {
    match s.saved
    case None => Fresh(hash)
    case Some(c) => s.(clock := Guard(c.floor, 0, 0, Anomaly.None, c.isSealed), started := false)
  }

  // ---- What every operation keeps ----

  lemma EntryKeepsInv(hash: Hash, s: State, kind: Event, subject: Digest, detail: Time)
    requires Inv(hash, s.d) && HasRoom(s.d, 1)
    ensures Inv(hash, Audited1(hash, s, kind, subject, detail).d)
  {
    hide ComputeHash;
    AppendKeepsChain(hash, s.d.log, NewEntry(hash, s, kind, subject, detail));
  }

  lemma EntryNumber(hash: Hash, s: State, kind: Event, subject: Digest, detail: Time)
    requires Inv(hash, s.d) && HasRoom(s.d, 1)
    ensures NewEntry(hash, s, kind, subject, detail).num == |s.d.log|
  {
    hide ComputeHash;
    SequenceCounts(hash, s.d.log, |s.d.log| - 1);
  }

  lemma FreshInv(hash: Hash)
    ensures Inv(hash, Fresh(hash).d)
  {
    hide ComputeHash;
  }

  lemma VersionKeepsInv(hash: Hash, d: Durable, name: string, v: Version)
    requires Inv(hash, d) && v.vid == d.verSeq + 1
    ensures Inv(hash, AddVersion(d, name, v))
  {
    hide ValidChain;
  }

  lemma RelinkedKeepsInv(hash: Hash, d: Durable, name: string, i: nat)
    requires Inv(hash, d) && name in d.versions && i < |d.versions[name]|
    ensures Inv(hash, Relinked(d, name, d.versions[name][..i] + d.versions[name][i + 1..]))
  {
    hide ValidChain, Newest;
  }

  // ---- What an operation decides, and what another one undoes ----

  predicate Decides(s: State) {
    !s.d.opSealed && HasRoom(s.d, 1)
  }

  /** A delete removes the name, and nothing else from the index, exactly when the vault is not sealed,
      the log has room, and the object is not on hold and its time is over, unless it has a governance
      lock that is bypassed. */
  lemma DeleteDecides(hash: Hash, s: State, name: string, bypass: bool)
    requires name in s.d.index
    ensures var (s', r) := Delete(hash, s, name, bypass);
            var lock := s.d.index[name].lock;
            && (r == Done <==>
                  && Decides(s) && !lock.legalHold
                  && (|| s.clock.floor >= lock.retainUntil || lock.mode == Unlocked
                      || (lock.mode == Governance && bypass)))
            && s'.d.index == if r == Done then s.d.index - {name} else s.d.index
  {
    hide Append, NameDigest;
  }

  /** Either decision is the newest entry of the log; without one nothing changes. */
  lemma DeleteIsRecorded(hash: Hash, s: State, name: string, bypass: bool)
    requires name in s.d.index
    ensures var (s', r) := Delete(hash, s, name, bypass);
            if Decides(s) then
              && |s'.d.log| == |s.d.log| + 1 && s.d.log < s'.d.log
              && var e := s'.d.log[|s.d.log|];
                 e.kind == (if r == Done then DeleteAllowed else DeleteDenied) && e.subject == NameDigest(hash, name)
            else s' == s
  {
    hide Append, NameDigest, CanDelete, Committing;
  }

  /** Deleting the delete marker: the history is as before, and the name stands for its newest
      version.  The index is as before exactly when that is what the name stood for: not with
      another lock, a quarantine, or an object in parts. */
  lemma MarkerUndone(hash: Hash, s: State, name: string)
    requires HasRoom(s.d, 1)
    ensures var d := DeleteVersion(DeleteMarker(hash, s, name).0, name, s.d.verSeq + 1).0.d;
            && History(d, name) == History(s.d, name)
            && (d.index == s.d.index <==>
                  Lookup(s.d, name)
                      == match Newest(History(s.d, name)) case None => Option.None case Some(v) => Some(Current(v)))
  {
    hide Relinked, DeleteMarker, Newest, History;
    var s', h := DeleteMarker(hash, s, name).0, History(s.d, name);
    MarkerIsNewest(hash, s, name);
    assert (h + [Marker(s.d)])[..|h|] == h && (h + [Marker(s.d)])[|h| + 1..] == [] && h + [] == h;
    RelinkedIndex(s.d, s'.d, name, h);
  }

  lemma MarkerIsNewest(hash: Hash, s: State, name: string)
    requires HasRoom(s.d, 1)
    ensures var d := DeleteMarker(hash, s, name).0.d;
            && d.index == s.d.index - {name} && name in d.versions
                 && d.versions[name] == History(s.d, name) + [Marker(s.d)]
            && VersionIndex(d.versions[name], s.d.verSeq + 1) == |History(s.d, name)|
  {
    hide Append, NameDigest, Committing, VersionIndex;
    LastIndex(History(s.d, name), Marker(s.d));
  }

  lemma LastIndex(vs: seq<Version>, v: Version)
    ensures VersionIndex(vs + [v], v.vid) == |vs|
  {}

  lemma RelinkedIndex(d: Durable, d': Durable, name: string, vs: seq<Version>)
    requires d'.index == d.index - {name}
    ensures Relinked(d', name, vs).index == d.index <==>
              Lookup(d, name) == match Newest(vs) case None => Option.None case Some(v) => Some(Current(v))
    ensures History(Relinked(d', name, vs), name) == vs
  {
    hide Newest;
    var index := Relinked(d', name, vs).index;
    match Newest(vs) {
      case None => assert name in d.index ==> index != d.index;
      case Some(v) => assert index[name] == Current(v);
    }
  }

  // ---- Runs ----

  datatype Op =
    | PutOp(name: string, id: Digest, composite: bool, size: nat, mode: Mode, retainFor: Time, userMeta: string)
    | DeleteOp(name: string, bypass: bool)
    | CreateBucketOp(name: string, objectLock: bool)
    | DeleteBucketOp(name: string)
    | VersioningOp(name: string, on: bool)
    | RecordVersionOp(name: string)
    | DeleteMarkerOp(name: string)
    | DeleteVersionOp(name: string, vid: nat)
    | ScrubOp(verdicts: seq<(string, bool)>)
    | TickOp(sample: Sample)
    | SystemTickOp(sample: Sample, boot: string)
    | HoldOp(name: string, hold: bool)
    | SealOp
    | ModesOp(ingestOnly: bool, syncShut: bool)
    | ReopenOp

  function Next(hash: Hash, s: State, op: Op): State {
    match op
    case PutOp(name, id, composite, size, mode, retainFor, userMeta) =>
      Put(hash, s, name, id, composite, size, mode, retainFor, userMeta).0
    case DeleteOp(name, bypass) => Delete(hash, s, name, bypass).0
    case CreateBucketOp(name, objectLock) => CreateBucket(s, name, objectLock).0
    case DeleteBucketOp(name) => DeleteBucket(s, name).0
    case VersioningOp(name, on) => SetVersioning(s, name, on)
    case RecordVersionOp(name) => RecordVersion(s, name).0
    case DeleteMarkerOp(name) => DeleteMarker(hash, s, name).0
    case DeleteVersionOp(name, vid) => DeleteVersion(s, name, vid).0
    case ScrubOp(verdicts) => Scrub(hash, s, verdicts).0
    case TickOp(sample) => Reading(hash, s, sample).0
    case SystemTickOp(sample, boot) => TickFromSystem(hash, s, sample, boot).0
    case HoldOp(name, hold) => SetLegalHold(hash, s, name, hold).0
    case SealOp => Seal(hash, s).0
    case ModesOp(ingestOnly, syncShut) => SetModes(s, ingestOnly, syncShut)
    case ReopenOp => Reopen(hash, s)
  }

  function Run(hash: Hash, s: State, ops: seq<Op>): State {
    if |ops| == 0 then s else Next(hash, Run(hash, s, ops[..|ops| - 1]), ops[|ops| - 1])
  }

  /** The log is only added to, except by a start on a disk without a snapshot. */
  ghost predicate LogGrows(s: State, op: Op, s': State) {
    (op == ReopenOp && s.saved == Option.None) || s.d.log <= s'.d.log
  }

  lemma {:induction false} ScrubKeepsInv(hash: Hash, s: State, verdicts: seq<(string, bool)>)
    requires Inv(hash, s.d) && HasRoom(s.d, |verdicts|)
    ensures var r := ScrubAll(hash, s, verdicts); Inv(hash, r.d) && s.d.log <= r.d.log
    ensures ScrubAll(hash, s, verdicts) == s.(d := ScrubAll(hash, s, verdicts).d)
  {
    hide ValidChain, Append, NameDigest;
    if |verdicts| > 0 {
      var (name, recoverable) := verdicts[|verdicts| - 1];
      var front := verdicts[..|verdicts| - 1];
      ScrubKeepsInv(hash, s, front);
      Scrub1KeepsInv(hash, ScrubAll(hash, s, front), name, recoverable);
    }
  }

  lemma Scrub1KeepsInv(hash: Hash, s: State, name: string, recoverable: bool)
    requires Inv(hash, s.d) && HasRoom(s.d, 1)
    ensures var r := Scrub1(hash, s, name, recoverable);
            Inv(hash, r.d) && s.d.log <= r.d.log && r == s.(d := r.d)
  {
    hide ValidChain, Append, NameDigest;
    if name in s.d.index {
      var m := s.d.index[name].(quarantined := !recoverable);
      var s' := s.(d := s.d.(index := s.d.index[name := m]));
      EntryKeepsInv(hash, s', ObjectQuarantined, NameDigest(hash, name), 0);
    }
  }

  /** The invariant is about the log and the versions. */
  lemma InvDependsOn(hash: Hash, d: Durable, d': Durable)
    requires Inv(hash, d) && d'.log == d.log && d'.versions == d.versions && d'.verSeq == d.verSeq
    ensures Inv(hash, d')
  {
    hide ValidChain;
  }

  /** `d'` is `d` with one more entry, and perhaps other changes outside log and versions. */
  lemma OneMoreEntry(hash: Hash, s: State, d': Durable, kind: Event, subject: Digest, detail: Time)
    requires Inv(hash, s.d) && HasRoom(s.d, 1)
    requires d'.log == s.d.log + [NewEntry(hash, s, kind, subject, detail)]
    requires d'.versions == s.d.versions && d'.verSeq == s.d.verSeq
    ensures Inv(hash, d') && s.d.log <= d'.log
  {
    hide Inv, Append;
    EntryKeepsInv(hash, s, kind, subject, detail);
    InvDependsOn(hash, Audited1(hash, s, kind, subject, detail).d, d');
  }

  lemma PutKeepsInv(hash: Hash, s: State, op: Op)
    requires Inv(hash, s.d) && (op.PutOp? || op.DeleteOp?)
    ensures Inv(hash, Next(hash, s, op).d) && s.d.log <= Next(hash, s, op).d.log
  {
    hide Inv, Append, NameDigest;
    var s', subject := Next(hash, s, op), NameDigest(hash, op.name);
    if HasRoom(s.d, 1) && s'.d != s.d {
      if op.PutOp? {
        var until: Time := s.clock.floor + op.retainFor;
        OneMoreEntry(hash, s, s'.d, LockCreated, subject, until);
      } else {
        var allowed := CanDelete(s.d.index[op.name].lock, s.clock.floor, op.bypass);
        var kind := if allowed then DeleteAllowed else DeleteDenied;
        OneMoreEntry(hash, s, s'.d, kind, subject, s.clock.floor);
      }
    }
  }

  lemma VersionOpKeepsInv(hash: Hash, s: State, op: Op)
    requires Inv(hash, s.d) && (op.RecordVersionOp? || op.DeleteMarkerOp? || op.DeleteVersionOp?)
    ensures Inv(hash, Next(hash, s, op).d) && s.d.log <= Next(hash, s, op).d.log
  {
    hide Inv, Append, NameDigest, Newest;
    var name := op.name;
    match op {
      case RecordVersionOp(_) =>
        if name in s.d.index {
          var m := s.d.index[name];
          VersionKeepsInv(hash, s.d, name, Version(s.d.verSeq + 1, m.id, m.size, m.userMeta, false));
        }
      case DeleteMarkerOp(_) =>
        if HasRoom(s.d, 1) {
          VersionKeepsInv(hash, s.d, name, Marker(s.d));
          var v := s.(d := AddVersion(s.d, name, Marker(s.d)));
          OneMoreEntry(hash, v, Next(hash, s, op).d, DeleteAllowed, NameDigest(hash, name), s.clock.floor);
        }
      case DeleteVersionOp(_, vid) =>
        if name in s.d.versions {
          var i := VersionIndex(s.d.versions[name], vid);
          if i < |s.d.versions[name]| {
            RelinkedKeepsInv(hash, s.d, name, i);
          }
        }
    }
  }

  lemma TickKeepsInv(hash: Hash, s: State, sample: Sample)
    requires Inv(hash, s.d)
    ensures var s' := Reading(hash, s, sample).0;
            Inv(hash, s'.d) && s.d.log <= s'.d.log && s'.d.(log := []) == s.d.(log := [])
  {
    hide Inv, Append, Ticked;
    var s', t := Reading(hash, s, sample).0, s.(clock := Ticked(s.clock, sample, CLOCK_TOLERANCE));
    if HasRoom(s.d, 1) && s'.d != s.d {
      OneMoreEntry(hash, t, s'.d, SealEngaged, ZERO_DIGEST, t.clock.floor);
    }
  }

  lemma HoldKeepsInv(hash: Hash, s: State, op: Op)
    requires Inv(hash, s.d) && (op.HoldOp? || op.SealOp?)
    ensures Inv(hash, Next(hash, s, op).d) && s.d.log <= Next(hash, s, op).d.log
  {
    hide Inv, Append, NameDigest;
    var s' := Next(hash, s, op);
    if HasRoom(s.d, 1) && s'.d != s.d {
      if op.SealOp? {
        OneMoreEntry(hash, s, s'.d, SealEngaged, ZERO_DIGEST, s.clock.floor);
      } else {
        OneMoreEntry(hash, s, s'.d, if op.hold then LegalHoldSet else LegalHoldReleased, NameDigest(hash, op.name),
                     s.clock.floor);
      }
    }
  }

  lemma ClockKeepsInv(hash: Hash, s: State, op: Op)
    requires Inv(hash, s.d) && (op.TickOp? || op.SystemTickOp?)
    ensures Inv(hash, Next(hash, s, op).d) && s.d.log <= Next(hash, s, op).d.log
  {
    hide Inv, Reading;
    if op.TickOp? {
      TickKeepsInv(hash, s, op.sample);
    } else {
      var last, t := s.d.lastBoot, s.(d := s.d.(lastBoot := op.boot));
      InvDependsOn(hash, s.d, t.d);
      TickKeepsInv(hash, t, op.sample.(bootChanged := |last| > 0 && last != op.boot));
    }
  }

  lemma ScrubOpKeepsInv(hash: Hash, s: State, verdicts: seq<(string, bool)>)
    requires Inv(hash, s.d)
    ensures Inv(hash, Next(hash, s, ScrubOp(verdicts)).d) && s.d.log <= Next(hash, s, ScrubOp(verdicts)).d.log
  {
    hide Inv, ScrubAll, ScrubWrites;
    if HasRoom(s.d, |verdicts|) {
      ScrubKeepsInv(hash, s, verdicts);
    }
  }

  lemma PlainKeepsInv(hash: Hash, s: State, op: Op)
    requires Inv(hash, s.d)
               && (op.CreateBucketOp? || op.DeleteBucketOp? || op.VersioningOp? || op.ModesOp? || op.ReopenOp?)
    ensures Inv(hash, Next(hash, s, op).d) && LogGrows(s, op, Next(hash, s, op))
  {
    hide Inv;
    FreshInv(hash);
    if !op.ReopenOp? {
      InvDependsOn(hash, s.d, Next(hash, s, op).d);
    }
  }

  /** Every operation keeps a valid audit chain, and only adds to it. */
  lemma NextKeepsInv(hash: Hash, s: State, op: Op)
    requires Inv(hash, s.d)
    ensures Inv(hash, Next(hash, s, op).d) && LogGrows(s, op, Next(hash, s, op))
  {
    hide Inv, Next;
    match op {
      case PutOp(_, _, _, _, _, _, _) => PutKeepsInv(hash, s, op);
      case DeleteOp(_, _) => PutKeepsInv(hash, s, op);
      case RecordVersionOp(_) => VersionOpKeepsInv(hash, s, op);
      case DeleteMarkerOp(_) => VersionOpKeepsInv(hash, s, op);
      case DeleteVersionOp(_, _) => VersionOpKeepsInv(hash, s, op);
      case ScrubOp(verdicts) => ScrubOpKeepsInv(hash, s, verdicts);
      case TickOp(_) => ClockKeepsInv(hash, s, op);
      case SystemTickOp(_, _) => ClockKeepsInv(hash, s, op);
      case HoldOp(_, _) => HoldKeepsInv(hash, s, op);
      case SealOp => HoldKeepsInv(hash, s, op);
      case _ => PlainKeepsInv(hash, s, op);
    }
  }

  /** In every run the log verifies, its sequence numbers count, and it only grows. */
  lemma {:induction false} RunKeepsInv(hash: Hash, s: State, ops: seq<Op>)
    requires Inv(hash, s.d)
    ensures Inv(hash, Run(hash, s, ops).d)
    ensures forall i :: 0 <= i < |Run(hash, s, ops).d.log| ==> Run(hash, s, ops).d.log[i].num == i
  {
    hide Next;
    if |ops| > 0 {
      RunKeepsInv(hash, s, ops[..|ops| - 1]);
      NextKeepsInv(hash, Run(hash, s, ops[..|ops| - 1]), ops[|ops| - 1]);
    }
    var log := Run(hash, s, ops).d.log;
    forall i | 0 <= i < |log|
      ensures log[i].num == i
    {
      SequenceCounts(hash, log, i);
    }
  }
}
