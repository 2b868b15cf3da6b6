/** Write once, read many: what no sequence of operations can do to a locked object. */
module Worm {
  import opened Shards
  import opened TrustedTime
  import opened Audit
  import opened VaultState
  import opened VaultSteps

  // ---- Time in a run ----

  function SystemSample(s: State, sample: Sample, boot: string): Sample {
    sample.(bootChanged := |s.d.lastBoot| > 0 && s.d.lastBoot != boot)
  }

  /** The monotonic time that an operation reports as passed. */
  function Passed(s: State, op: Op): nat {
    if !s.started then 0
    else match op
      case TickOp(sample) => MonoDelta(s.clock, sample)
      case SystemTickOp(sample, boot) => MonoDelta(s.clock, SystemSample(s, sample, boot))
      case _ => 0
  }

  function Elapsed(hash: Hash, s: State, ops: seq<Op>): nat {
    if |ops| == 0 then 0
    else Elapsed(hash, s, ops[..|ops| - 1]) + Passed(Run(hash, s, ops[..|ops| - 1]), ops[|ops| - 1])
  }

  /** Only readings of a clock, and starting again, change the clock. */
  lemma ClockOnlyTicks(hash: Hash, s: State, op: Op)
    requires !op.TickOp? && !op.SystemTickOp? && !op.ReopenOp?
    ensures Next(hash, s, op).clock == s.clock && Next(hash, s, op).started == s.started
  {
    hide Append, NameDigest, CanDelete, Relinked, MarkedDeleted, ScrubAll, ScrubWrites;
    if op.ScrubOp? && HasRoom(s.d, |op.verdicts|) {
      ScrubLeavesClock(hash, s, op.verdicts);
    }
  }

  lemma {:induction false} ScrubLeavesClock(hash: Hash, s: State, verdicts: seq<(string, bool)>)
    requires HasRoom(s.d, |verdicts|)
    ensures ScrubAll(hash, s, verdicts) == s.(d := ScrubAll(hash, s, verdicts).d)
  {
    hide Append, NameDigest;
    if |verdicts| > 0 {
      ScrubLeavesClock(hash, s, verdicts[..|verdicts| - 1]);
    }
  }

  /** The floor, once the clock has started, is at most `bound`. */
  ghost predicate FloorWithin(s: State, bound: int) {
    s.started ==> s.clock.floor <= bound
  }

  lemma TickFloor(hash: Hash, s: State, sample: Sample, bound: nat)
    requires FloorWithin(s, bound)
    ensures FloorWithin(Reading(hash, s, sample).0, bound + if s.started then MonoDelta(s.clock, sample) else 0)
  {
    hide Append, AnomalyOf;
  }

  /** The floor rises by no more than the monotonic clock reports, whatever the wall clock says. */
  lemma FloorStep(hash: Hash, s: State, op: Op, bound: nat)
    requires FloorWithin(s, bound)
    ensures FloorWithin(Next(hash, s, op), bound + Passed(s, op))
  {
    hide Reading, Append;
    match op {
      case TickOp(sample) => TickFloor(hash, s, sample, bound);
      case SystemTickOp(sample, boot) =>
        TickFloor(hash, s.(d := s.d.(lastBoot := boot)), SystemSample(s, sample, boot), bound);
      case ReopenOp =>
      case _ => ClockOnlyTicks(hash, s, op);
    }
  }

  // ---- What an operation does to a name ----

  function LockOf(d: Durable, name: string): Option<Lock> {
    match Lookup(d, name)
    case None => Option.None
    case Some(m) => Some(m.lock)
  }

  /** A put that is not refused: the vault is open, the object is locked, and the time and the log
      have room. */
  predicate Stores(s: State, op: Op) {
    && op.PutOp? && !s.d.opSealed && !s.d.syncShut && op.mode != Unlocked
    && s.clock.floor + op.retainFor <= TIME_LAST && HasRoom(s.d, 1)
  }

  /** A deletion of a version that is there. */
  predicate DropsVersion(s: State, op: Op) {
    op.DeleteVersionOp? && op.name in s.d.versions && HasVersion(s.d.versions[op.name], op.vid)
  }

  /** The versions that are left. */
  function VersionsLeft(s: State, op: Op): seq<Version>
    requires DropsVersion(s, op)
  {
    var vs := s.d.versions[op.name];
    var i := VersionIndex(vs, op.vid);
    vs[..i] + vs[i + 1..]
  }

  /** What the last repair of the object found, if there was one. */
  function LastVerdict(verdicts: seq<(string, bool)>, name: string): Option<bool> {
    if |verdicts| == 0 then Option.None
    else if verdicts[|verdicts| - 1].0 == name then Some(verdicts[|verdicts| - 1].1)
    else LastVerdict(verdicts[..|verdicts| - 1], name)
  }

  /** What a name stands for after an operation, from what is known before it. */
  function EntryAfter(s: State, op: Op, name: string): Option<Meta> {
    var entry := Lookup(s.d, name);
    if op.PutOp? && op.name == name && Stores(s, op) then
      Some(Meta(op.id, Lock(op.mode, s.clock.floor + op.retainFor, s.clock.floor, false), op.composite, false, op.size,
                op.userMeta))
    else if op.DeleteOp? && op.name == name && entry.Some? && !s.d.opSealed && HasRoom(s.d, 1)
            && !entry.value.lock.legalHold
            && (|| s.clock.floor >= entry.value.lock.retainUntil || entry.value.lock.mode == Unlocked
                || (op.bypass && entry.value.lock.mode == Governance)) then Option.None
    else if op.DeleteMarkerOp? && op.name == name && HasRoom(s.d, 1) then Option.None
    else if op.DeleteVersionOp? && op.name == name && DropsVersion(s, op) then
      match Newest(VersionsLeft(s, op))
      case None => Option.None
      case Some(v) => Some(Meta(v.id, Lock(Governance, 0, 0, false), false, false, v.size, v.meta))
    else if op.HoldOp? && op.name == name && entry.Some? && HasRoom(s.d, 1) then
      Some(entry.value.(lock := entry.value.lock.(legalHold := op.hold)))
    else if op.ScrubOp? && entry.Some? && HasRoom(s.d, |op.verdicts|) && LastVerdict(op.verdicts, name).Some? then
      Some(entry.value.(quarantined := !LastVerdict(op.verdicts, name).value))
    else if op.ReopenOp? && s.saved == Option.None then Option.None
    else entry
  }

  lemma PutEntry(hash: Hash, s: State, op: Op, name: string)
    requires op.PutOp?
    ensures Lookup(Next(hash, s, op).d, name) == EntryAfter(s, op, name)
  {
    hide Append, NameDigest, Committing;
  }

  lemma DeleteEntry(hash: Hash, s: State, op: Op, name: string)
    requires op.DeleteOp?
    ensures Lookup(Next(hash, s, op).d, name) == EntryAfter(s, op, name)
  {
    hide Append, NameDigest, CanDelete, Committing;
    if op.name in s.d.index {
      DeleteDecides(hash, s, op.name, op.bypass);
    }
  }

  lemma MarkerEntry(hash: Hash, s: State, op: Op, name: string)
    requires op.RecordVersionOp? || op.DeleteMarkerOp?
    ensures Lookup(Next(hash, s, op).d, name) == EntryAfter(s, op, name)
  {
    hide Append, NameDigest, Newest, Committing, VersionIndex;
  }

  lemma VersionEntry(hash: Hash, s: State, op: Op, name: string)
    requires op.DeleteVersionOp?
    ensures Lookup(Next(hash, s, op).d, name) == EntryAfter(s, op, name)
  {
    hide Newest;
  }

  lemma HeldIndex(hash: Hash, s: State, name: string, hold: bool)
    ensures var index := SetLegalHold(hash, s, name, hold).0.d.index;
            if name in s.d.index && HasRoom(s.d, 1)
            then index == s.d.index[name := s.d.index[name].(lock := s.d.index[name].lock.(legalHold := hold))]
            else index == s.d.index
  {
    hide Append, NameDigest;
  }

  lemma HoldEntry(hash: Hash, s: State, op: Op, name: string)
    requires op.HoldOp?
    ensures Lookup(Next(hash, s, op).d, name) == EntryAfter(s, op, name)
  {
    hide SetLegalHold;
    HeldIndex(hash, s, op.name, op.hold);
  }

  lemma ReadingKeepsIndex(hash: Hash, s: State, sample: Sample)
    ensures Reading(hash, s, sample).0.d.index == s.d.index
  {
    hide Append, Ticked;
  }

  lemma ClockEntry(hash: Hash, s: State, op: Op, name: string)
    requires op.TickOp? || op.SystemTickOp?
    ensures Lookup(Next(hash, s, op).d, name) == EntryAfter(s, op, name)
  {
    hide Reading;
    if op.TickOp? {
      ReadingKeepsIndex(hash, s, op.sample);
    } else {
      ReadingKeepsIndex(hash, s.(d := s.d.(lastBoot := op.boot)), SystemSample(s, op.sample, op.boot));
    }
  }

  lemma PlainEntry(hash: Hash, s: State, op: Op, name: string)
    requires op.CreateBucketOp? || op.DeleteBucketOp? || op.VersioningOp? || op.ModesOp? || op.ReopenOp? || op.SealOp?
    ensures Lookup(Next(hash, s, op).d, name) == EntryAfter(s, op, name)
  {
    hide Append, GenesisEntry;
  }

  lemma {:induction false} Scrubbed(hash: Hash, s: State, verdicts: seq<(string, bool)>, name: string)
    requires HasRoom(s.d, |verdicts|)
    ensures var entry, verdict := Lookup(s.d, name), LastVerdict(verdicts, name);
            Lookup(ScrubAll(hash, s, verdicts).d, name)
              == if entry.Some? && verdict.Some? then Some(entry.value.(quarantined := !verdict.value)) else entry
  {
    hide Append, NameDigest;
    if |verdicts| > 0 {
      Scrubbed(hash, s, verdicts[..|verdicts| - 1], name);
    }
  }

  lemma ScrubEntry(hash: Hash, s: State, op: Op, name: string)
    requires op.ScrubOp?
    ensures Lookup(Next(hash, s, op).d, name) == EntryAfter(s, op, name)
  {
    hide ScrubAll, ScrubWrites, Committing, LastVerdict;
    if HasRoom(s.d, |op.verdicts|) {
      Scrubbed(hash, s, op.verdicts, name);
    }
  }

  /** Exactly what every operation does to every name. */
  lemma EntryStep(hash: Hash, s: State, op: Op, name: string)
    ensures Lookup(Next(hash, s, op).d, name) == EntryAfter(s, op, name)
  {
    hide Next, Lookup, EntryAfter;
    match op {
      case PutOp(_, _, _, _, _, _, _) => PutEntry(hash, s, op, name);
      case DeleteOp(_, _) => DeleteEntry(hash, s, op, name);
      case RecordVersionOp(_) => MarkerEntry(hash, s, op, name);
      case DeleteMarkerOp(_) => MarkerEntry(hash, s, op, name);
      case DeleteVersionOp(_, _) => VersionEntry(hash, s, op, name);
      case ScrubOp(_) => ScrubEntry(hash, s, op, name);
      case TickOp(_) => ClockEntry(hash, s, op, name);
      case SystemTickOp(_, _) => ClockEntry(hash, s, op, name);
      case HoldOp(_, _) => HoldEntry(hash, s, op, name);
      case _ => PlainEntry(hash, s, op, name);
    }
  }

  // ---- Locks over whole runs ----

  /** What is stored under a name: the object, in parts or not, with its size and its metadata. */
  datatype Content = Content(id: Digest, composite: bool, size: nat, userMeta: string)

  function ContentOf(m: Meta): Content {
    Content(m.id, m.composite, m.size, m.userMeta)
  }

  /** What is kept, under which lock, and until when. */
  datatype Lease = Lease(what: Content, mode: Mode, until: Time)

  function LeaseOf(m: Meta): Lease {
    Lease(ContentOf(m), m.lock.mode, m.lock.retainUntil)
  }

  ghost predicate Locked(s: State, name: string, lease: Lease) {
    name in s.d.index && LeaseOf(s.d.index[name]) == lease
  }

  /** The operations that put something else under a name without asking its lock, and starting
      over on a disk without a snapshot. */
  predicate Replaces(s: State, op: Op, name: string, lease: Lease) {
    || (op.PutOp? && op.name == name && Stores(s, op)
        && lease != Lease(Content(op.id, op.composite, op.size, op.userMeta), op.mode, s.clock.floor + op.retainFor))
    || (op.DeleteMarkerOp? && op.name == name && HasRoom(s.d, 1))
    || (op.DeleteVersionOp? && op.name == name && DropsVersion(s, op)
        && match Newest(VersionsLeft(s, op))
           case None => true
           case Some(v) => lease != Lease(Content(v.id, false, v.size, v.meta), Governance, 0))
    || (op.ReopenOp? && s.saved == Option.None)
  }

  /** A delete of a name that the lock does not stop: not on hold, and the clock is at the end of the
      retention time, or the lock is of governance mode and the delete bypasses it. */
  predicate Removes(s: State, op: Op, name: string, lease: Lease) {
    && op.DeleteOp? && op.name == name && !s.d.opSealed && HasRoom(s.d, 1)
    && name in s.d.index && !s.d.index[name].lock.legalHold
    && (s.clock.floor >= lease.until || Weak(lease.mode, op.bypass))
  }

  /** No retention time stands in the way of a delete. */
  predicate Weak(mode: Mode, bypass: bool) {
    mode == Unlocked || (mode == Governance && bypass)
  }

  /** An operation unlocks an object exactly if it replaces or removes it. */
  lemma LockedStep(hash: Hash, s: State, op: Op, name: string, lease: Lease)
    requires Locked(s, name, lease)
    ensures Locked(Next(hash, s, op), name, lease)
       <==> !Replaces(s, op, name, lease) && !Removes(s, op, name, lease)
  {
    hide Next, Newest, LastVerdict;
    EntryStep(hash, s, op, name);
  }

  /** The object is locked at every point of the run. */
  ghost predicate StaysLocked(hash: Hash, s: State, ops: seq<Op>, name: string, lease: Lease) {
    forall i: nat :: i <= |ops| ==> Locked(Run(hash, s, ops[..i]), name, lease)
  }

  /** An operation that ends a lock before its time: it replaces the object, or it is a delete that
      bypasses a governance lock, or one before the first clock reading of a session, when the clock
      is that of the snapshot, and that clock is at the end of the retention time. */
  predicate EndsEarly(s: State, op: Op, name: string, lease: Lease) {
    || Replaces(s, op, name, lease)
    || (Removes(s, op, name, lease) && (!s.started || Weak(lease.mode, op.bypass)))
  }

  ghost predicate NoneEndsEarly(hash: Hash, s: State, ops: seq<Op>, name: string, lease: Lease) {
    forall i: nat :: i < |ops| ==> !EndsEarly(Run(hash, s, ops[..i]), ops[i], name, lease)
  }

  lemma LastStep(hash: Hash, s: State, ops: seq<Op>, name: string, lease: Lease)
    requires |ops| > 0
    ensures var front := ops[..|ops| - 1];
            && (StaysLocked(hash, s, ops, name, lease)
                <==> StaysLocked(hash, s, front, name, lease) && Locked(Run(hash, s, ops), name, lease))
            && (NoneEndsEarly(hash, s, ops, name, lease)
                <==> NoneEndsEarly(hash, s, front, name, lease)
                     && !EndsEarly(Run(hash, s, front), ops[|ops| - 1], name, lease))
  {
    hide Run, Locked, EndsEarly;
    var front, n := ops[..|ops| - 1], |ops| - 1;
    assert ops[..|ops|] == ops && front[..n] == front;
    assert forall i: nat :: i <= n ==> front[..i] == ops[..i];
    if StaysLocked(hash, s, front, name, lease) && Locked(Run(hash, s, ops), name, lease) {
      forall i: nat | i <= |ops|
        ensures Locked(Run(hash, s, ops[..i]), name, lease)
      {
        if i <= n {
          assert Locked(Run(hash, s, front[..i]), name, lease);
        }
      }
    }
    if StaysLocked(hash, s, ops, name, lease) {
      forall i: nat | i <= |front|
        ensures Locked(Run(hash, s, front[..i]), name, lease)
      {
        assert Locked(Run(hash, s, ops[..i]), name, lease);
      }
      assert Locked(Run(hash, s, ops[..|ops|]), name, lease);
    }
    if NoneEndsEarly(hash, s, front, name, lease) && !EndsEarly(Run(hash, s, front), ops[n], name, lease) {
      forall i: nat | i < |ops|
        ensures !EndsEarly(Run(hash, s, ops[..i]), ops[i], name, lease)
      {
        if i < n {
          assert !EndsEarly(Run(hash, s, front[..i]), front[i], name, lease);
        }
      }
    }
    if NoneEndsEarly(hash, s, ops, name, lease) {
      forall i: nat | i < |front|
        ensures !EndsEarly(Run(hash, s, front[..i]), front[i], name, lease)
      {
        assert !EndsEarly(Run(hash, s, ops[..i]), ops[i], name, lease);
      }
      assert !EndsEarly(Run(hash, s, ops[..n]), ops[n], name, lease);
    }
  }

  /** Until the monotonic clock has counted the whole retention time, an object is there and locked
      throughout a run exactly if no operation ends the lock early: for any wall-clock readings,
      reboots and sessions, and under a compliance lock for any bypass flags. */
  lemma {:induction false} RetentionHolds(hash: Hash, s: State, ops: seq<Op>, name: string, lease: Lease,
                                          retention: nat)
    requires Locked(s, name, lease) && s.clock.floor + retention <= lease.until && Elapsed(hash, s, ops) < retention
    ensures StaysLocked(hash, s, ops, name, lease) <==> NoneEndsEarly(hash, s, ops, name, lease)
    ensures FloorWithin(Run(hash, s, ops), s.clock.floor + Elapsed(hash, s, ops))
  {
    hide Next, Locked, Passed, StaysLocked, NoneEndsEarly, Replaces, Removes;
    if |ops| == 0 {
      NoStep(hash, s, ops, name, lease);
    } else {
      var front, op := ops[..|ops| - 1], ops[|ops| - 1];
      var t := Run(hash, s, front);
      RetentionHolds(hash, s, front, name, lease, retention);
      LastStep(hash, s, ops, name, lease);
      FloorStep(hash, t, op, s.clock.floor + Elapsed(hash, s, front));
      if StaysLocked(hash, s, front, name, lease) {
        LockedAtEnd(hash, s, front, name, lease);
        LockedStep(hash, t, op, name, lease);
        NotExpired(t, op, name, lease);
      }
    }
  }

  lemma NoStep(hash: Hash, s: State, ops: seq<Op>, name: string, lease: Lease)
    requires |ops| == 0 && Locked(s, name, lease)
    ensures StaysLocked(hash, s, ops, name, lease) && NoneEndsEarly(hash, s, ops, name, lease)
  {
    hide Locked, EndsEarly;
  }

  lemma LockedAtEnd(hash: Hash, s: State, ops: seq<Op>, name: string, lease: Lease)
    requires StaysLocked(hash, s, ops, name, lease)
    ensures Locked(Run(hash, s, ops), name, lease)
  {
    hide Run, Locked;
    assert ops[..|ops|] == ops;
  }

  lemma NotExpired(s: State, op: Op, name: string, lease: Lease)
    requires FloorWithin(s, lease.until - 1)
    ensures Removes(s, op, name, lease) ==> !s.started || Weak(lease.mode, op.bypass)
  {}

  // ---- The seal over whole runs ----

  /** A sealed vault refuses puts, deletes and changes of its buckets; a closed one all but deletes. */
  lemma ClosedRefuses(hash: Hash, s: State, op: Op)
    requires s.d.opSealed || s.d.syncShut
    requires op.PutOp? || op.CreateBucketOp? || op.DeleteBucketOp? || (op.DeleteOp? && s.d.opSealed)
    ensures Next(hash, s, op) == s
    ensures op.PutOp? ==> Put(hash, s, op.name, op.id, op.composite, op.size, op.mode, op.retainFor, op.userMeta).1
                            == if s.d.opSealed then VaultSealed else SyncClosed
  {}

  lemma {:induction false} ScrubKeepsSeal(hash: Hash, s: State, verdicts: seq<(string, bool)>)
    requires HasRoom(s.d, |verdicts|)
    ensures ScrubAll(hash, s, verdicts).d.opSealed == s.d.opSealed
  {
    hide Append, NameDigest;
    if |verdicts| > 0 {
      ScrubKeepsSeal(hash, s, verdicts[..|verdicts| - 1]);
    }
  }

  lemma ReadingKeepsSeal(hash: Hash, s: State, sample: Sample)
    ensures Reading(hash, s, sample).0.d.opSealed == s.d.opSealed
  {
    hide Append, Ticked;
  }

  /** Only the operator seals the vault, if the log has room, and only starting over unseals it. */
  lemma SealStep(hash: Hash, s: State, op: Op)
    ensures Next(hash, s, op).d.opSealed
       <==> !(op.ReopenOp? && s.saved == Option.None) && (s.d.opSealed || (op.SealOp? && HasRoom(s.d, 1)))
  {
    hide Append, NameDigest, CanDelete, ScrubAll, ScrubWrites, Reading, GenesisEntry, Newest, VersionIndex, Committing;
    if op.ScrubOp? && HasRoom(s.d, |op.verdicts|) {
      ScrubKeepsSeal(hash, s, op.verdicts);
    } else if op.TickOp? {
      ReadingKeepsSeal(hash, s, op.sample);
    } else if op.SystemTickOp? {
      ReadingKeepsSeal(hash, s.(d := s.d.(lastBoot := op.boot)), SystemSample(s, op.sample, op.boot));
    }
  }

  /** Once sealed, a vault stays sealed in every run, unless it starts over without a snapshot. */
  lemma {:induction false} SealHolds(hash: Hash, s: State, ops: seq<Op>)
    requires s.d.opSealed
    requires forall i: nat :: i < |ops| ==> !(ops[i].ReopenOp? && Run(hash, s, ops[..i]).saved == Option.None)
    ensures Run(hash, s, ops).d.opSealed
  {
    hide Next;
    if |ops| > 0 {
      var front := ops[..|ops| - 1];
      assert forall i: nat :: i < |front| ==> front[..i] == ops[..i] && front[i] == ops[i];
      SealHolds(hash, s, front);
      SealStep(hash, Run(hash, s, front), ops[|ops| - 1]);
    }
  }

  // ---- Buckets and settings ----

  /** What is set for the whole vault. */
  datatype Settings = Settings(buckets: map<string, bool>, versioned: set<string>, ingestOnly: bool, syncShut: bool,
                               lastBoot: string)

  function SettingsOf(d: Durable): Settings {
    Settings(d.buckets, d.versioned, d.ingestOnly, d.syncShut, d.lastBoot)
  }

  /** The settings after an operation: an open vault creates a new bucket, and deletes one that no name
      starts with; versioning, modes and the boot id are set as given. */
  ghost function SettingsAfter(s: State, op: Op): Settings {
    var now, open := SettingsOf(s.d), !s.d.opSealed && !s.d.syncShut;
    match op
    case CreateBucketOp(name, objectLock) =>
      if open && name !in now.buckets then now.(buckets := now.buckets[name := objectLock]) else now
    case DeleteBucketOp(name) =>
      if open && forall key :: key in s.d.index ==> !(name + "/" <= key) then now.(buckets := now.buckets - {name})
      else now
    case VersioningOp(name, on) =>
      now.(versioned := if on then now.versioned + {name} else now.versioned - {name})
    case ModesOp(ingestOnly, syncShut) => now.(ingestOnly := ingestOnly, syncShut := syncShut)
    case SystemTickOp(_, boot) => now.(lastBoot := boot)
    case ReopenOp => if s.saved == Option.None then Settings(map[], {}, false, false, "") else now
    case _ => now
  }

  lemma {:induction false} ScrubKeepsSettings(hash: Hash, s: State, verdicts: seq<(string, bool)>)
    requires HasRoom(s.d, |verdicts|)
    ensures SettingsOf(ScrubAll(hash, s, verdicts).d) == SettingsOf(s.d)
  {
    hide Append, NameDigest;
    if |verdicts| > 0 {
      ScrubKeepsSettings(hash, s, verdicts[..|verdicts| - 1]);
    }
  }

  lemma ReadingKeepsSettings(hash: Hash, s: State, sample: Sample)
    ensures SettingsOf(Reading(hash, s, sample).0.d) == SettingsOf(s.d)
  {
    hide Append, Ticked;
  }

  lemma BucketSettings(hash: Hash, s: State, op: Op)
    requires op.CreateBucketOp? || op.DeleteBucketOp? || op.VersioningOp? || op.ModesOp? || op.ReopenOp? || op.SealOp?
    ensures SettingsOf(Next(hash, s, op).d) == SettingsAfter(s, op)
  {
    hide Append, GenesisEntry;
    if op.DeleteBucketOp? {
      assert forall key :: InBucket(key, op.name) <==> op.name + "/" <= key;
      assert op.name !in s.d.buckets ==> s.d.buckets - {op.name} == s.d.buckets;
    }
  }

  /** Exactly what every operation does to the settings. */
  lemma SettingsStep(hash: Hash, s: State, op: Op)
    ensures SettingsOf(Next(hash, s, op).d) == SettingsAfter(s, op)
  {
    hide Append, NameDigest, CanDelete, ScrubAll, ScrubWrites, Reading, Newest, VersionIndex, Committing;
    match op {
      case ScrubOp(verdicts) =>
        if HasRoom(s.d, |verdicts|) {
          ScrubKeepsSettings(hash, s, verdicts);
        }
      case TickOp(sample) => ReadingKeepsSettings(hash, s, sample);
      case SystemTickOp(sample, boot) =>
        ReadingKeepsSettings(hash, s.(d := s.d.(lastBoot := boot)), SystemSample(s, sample, boot));
      case PutOp(_, _, _, _, _, _, _) =>
      case DeleteOp(_, _) =>
      case RecordVersionOp(_) =>
      case DeleteMarkerOp(_) =>
      case DeleteVersionOp(_, _) =>
      case HoldOp(_, _) =>
      case _ => BucketSettings(hash, s, op);
    }
  }

  // ---- Legal holds over whole runs ----

  ghost predicate OnHold(s: State, name: string) {
    name in s.d.index && s.d.index[name].lock.legalHold
  }

  ghost predicate SameContent(s: State, t: State, name: string) {
    name in s.d.index && name in t.d.index && ContentOf(t.d.index[name]) == ContentOf(s.d.index[name])
  }

  /** A put, a delete marker or the deletion of a version, a release of the hold, and starting over
      on a disk without a snapshot; but no delete. */
  predicate Releases(s: State, op: Op, name: string) {
    || (op.PutOp? && op.name == name && Stores(s, op))
    || (op.DeleteMarkerOp? && op.name == name && HasRoom(s.d, 1))
    || (op.DeleteVersionOp? && op.name == name && DropsVersion(s, op))
    || (op.HoldOp? && op.name == name && !op.hold && HasRoom(s.d, 1))
    || (op.ReopenOp? && s.saved == Option.None)
  }

  lemma HeldStep(hash: Hash, s: State, op: Op, name: string)
    requires OnHold(s, name)
    ensures OnHold(Next(hash, s, op), name) <==> !Releases(s, op, name)
    ensures OnHold(Next(hash, s, op), name) ==> SameContent(s, Next(hash, s, op), name)
  {
    hide Next, Newest;
    EntryStep(hash, s, op, name);
  }

  /** An object on legal hold stays on hold, and stays what it is, whatever its retention, as long as
      no operation of the run releases it; and the first that does is the end of the hold. */
  lemma {:induction false} HoldHolds(hash: Hash, s: State, ops: seq<Op>, name: string)
    requires OnHold(s, name)
    requires forall i: nat :: i + 1 < |ops| ==> !Releases(Run(hash, s, ops[..i]), ops[i], name)
    ensures OnHold(Run(hash, s, ops), name)
       <==> |ops| == 0 || !Releases(Run(hash, s, ops[..|ops| - 1]), ops[|ops| - 1], name)
    ensures OnHold(Run(hash, s, ops), name) ==> SameContent(s, Run(hash, s, ops), name)
  {
    hide Next, Releases;
    if |ops| > 0 {
      var front := ops[..|ops| - 1];
      forall i: nat | i + 1 < |front|
        ensures !Releases(Run(hash, s, front[..i]), front[i], name)
      {
        assert front[..i] == ops[..i] && front[i] == ops[i];
      }
      if |front| > 0 {
        assert front[..|front| - 1] == ops[..|ops| - 2] && front[|front| - 1] == ops[|ops| - 2];
      }
      HoldHolds(hash, s, front, name);
      HeldStep(hash, Run(hash, s, front), ops[|ops| - 1], name);
    }
  }

  // ---- Runs that end a lock early ----

  const START := Sample(0, 0, false)

  function PutA(id: Digest): Op {
    PutOp("a", id, false, 1, Compliance, 10, "")
  }

  function A(id: Digest): Lease {
    Lease(Content(id, false, 1, ""), Compliance, 10)
  }

  /** A session that counts a thousand seconds and writes a snapshot, and a second one. */
  const SESSIONS := [TickOp(START), TickOp(Sample(1000, 1000, false)), ModesOp(false, false), ReopenOp, TickOp(START)]

  lemma SecondSession(hash: Hash)
    ensures Run(hash, Fresh(hash), SESSIONS)
         == Fresh(hash).(clock := Init(START), started := true, saved := Some(SavedClock(1000, false)))
  {
    hide Append, GenesisEntry, Run;
    var s0 := Fresh(hash);
    var s1 := s0.(clock := Init(START), started := true);
    var s2 := s1.(clock := Guard(1000, 1000, 1000, Anomaly.None, false));
    var s3 := Saving(s2);
    var s4 := Reopen(hash, s3);
    assert SESSIONS[..0] == [] && Run(hash, s0, []) == s0 by {
      RunNone(hash, s0);
    }
    StepRun(hash, s0, SESSIONS, 0, s0, s1);
    StepRun(hash, s0, SESSIONS, 1, s1, s2);
    StepRun(hash, s0, SESSIONS, 2, s2, s3);
    StepRun(hash, s0, SESSIONS, 3, s3, s4);
    StepRun(hash, s0, SESSIONS, 4, s4, s4.(clock := Init(START), started := true));
    assert SESSIONS[..5] == SESSIONS;
  }

  lemma RunNone(hash: Hash, s: State)
    ensures Run(hash, s, []) == s
  {}

  lemma StepRun(hash: Hash, s: State, ops: seq<Op>, i: nat, t: State, t': State)
    requires i < |ops| && Run(hash, s, ops[..i]) == t && Next(hash, t, ops[i]) == t'
    ensures Run(hash, s, ops[..i + 1]) == t'
  {
    hide Next;
    assert ops[..i + 1][..i] == ops[..i];
  }

  lemma RunOne(hash: Hash, s: State, ops: seq<Op>, op: Op)
    ensures Run(hash, s, ops + [op]) == Next(hash, Run(hash, s, ops), op)
  {
    hide Next;
    assert (ops + [op])[..|ops|] == ops;
  }

  /** What a put in the second session leads to. */
  ghost predicate JustPut(s: State, id: Digest) {
    && Locked(s, "a", A(id)) && !s.d.index["a"].lock.legalHold && s.clock == Init(START) && s.started
    && s.saved == Some(SavedClock(1000, false)) && Decides(s) && s.d.versions == map[] && !s.d.syncShut
         && s.d.verSeq == 0
  }

  lemma PutInSecondSession(hash: Hash, id: Digest)
    ensures JustPut(Run(hash, Fresh(hash), SESSIONS + [PutA(id)]), id)
  {
    hide NameDigest, Run, ComputeHash;
    SecondSession(hash);
    RunOne(hash, Fresh(hash), SESSIONS, PutA(id));
  }

  lemma TwoOps(hash: Hash, s: State, a: Op, b: Op)
    ensures Run(hash, s, [a]) == Next(hash, s, a) && Run(hash, s, [a, b]) == Next(hash, Next(hash, s, a), b)
    ensures Elapsed(hash, s, [a, b]) == Passed(s, a) + Passed(Next(hash, s, a), b)
              && Elapsed(hash, s, [a]) == Passed(s, a)
  {
    hide Next, Passed;
    assert [a, b][..1] == [a] && [a][..0] == [];
    RunNone(hash, s);
    assert Elapsed(hash, s, []) == 0;
  }

  /** A delete right after opening goes by the clock of the snapshot: the object is gone although
      no time has passed. */
  lemma DeleteBeforeReading(hash: Hash, id: Digest)
    ensures var s := Run(hash, Fresh(hash), SESSIONS + [PutA(id)]);
            var ops := [ReopenOp, DeleteOp("a", false)];
            && Locked(s, "a", A(id)) && s.clock.floor == 0
            && Elapsed(hash, s, ops) == 0 && "a" !in Run(hash, s, ops).d.index
  {
    hide Run, Elapsed, Append, NameDigest;
    var s := Run(hash, Fresh(hash), SESSIONS + [PutA(id)]);
    PutInSecondSession(hash, id);
    TwoOps(hash, s, ReopenOp, DeleteOp("a", false));
    EntryStep(hash, Reopen(hash, s), DeleteOp("a", false), "a");
  }

  /** A second put, a delete marker and the deletion of the only version end a lock at once; a put
      with the same lock puts another object in its place. */
  lemma LocksAreBypassed(hash: Hash, id: Digest, other: Digest)
    ensures var s := Run(hash, Fresh(hash), SESSIONS + [PutA(id)]);
            var put, mark := PutOp("a", id, false, 1, Governance, 0, ""), DeleteMarkerOp("a");
            var ops := [RecordVersionOp("a"), DeleteVersionOp("a", 1)];
            && Locked(s, "a", A(id)) && s.clock.floor == 0
            && Elapsed(hash, s, [put]) == 0 && LockOf(Run(hash, s, [put]).d, "a") == Some(CreateLock(Governance, 0, 0))
            && Elapsed(hash, s, [PutA(other)]) == 0 && Locked(Run(hash, s, [PutA(other)]), "a", A(other))
            && Elapsed(hash, s, [mark]) == 0 && LockOf(Run(hash, s, [mark]).d, "a") == Option.None
            && Elapsed(hash, s, ops) == 0 && LockOf(Run(hash, s, ops).d, "a") == Option.None
  {
    hide Run, Elapsed, Next, Newest;
    var s := Run(hash, Fresh(hash), SESSIONS + [PutA(id)]);
    PutInSecondSession(hash, id);
    var put, mark := PutOp("a", id, false, 1, Governance, 0, ""), DeleteMarkerOp("a");
    TwoOps(hash, s, put, mark);
    TwoOps(hash, s, mark, put);
    TwoOps(hash, s, PutA(other), mark);
    EntryStep(hash, s, put, "a");
    EntryStep(hash, s, PutA(other), "a");
    EntryStep(hash, s, mark, "a");
    TwoOps(hash, s, RecordVersionOp("a"), DeleteVersionOp("a", 1));
    OnlyVersion(hash, s, id);
  }

  /** A delete marker whose deletion brings the object back without its lock. */
  lemma MarkerUndoneUnlocks(hash: Hash, id: Digest)
    ensures var s := Next(hash, Run(hash, Fresh(hash), SESSIONS + [PutA(id)]), RecordVersionOp("a"));
            var t := Run(hash, s, [DeleteMarkerOp("a"), DeleteVersionOp("a", 2)]);
            && Locked(s, "a", A(id)) && History(t.d, "a") == History(s.d, "a") && t.d.index != s.d.index
            && Lookup(t.d, "a") == Some(Meta(id, CreateLock(Governance, 0, 0), false, false, 1, ""))
  {
    hide Run, Next, Newest, Relinked, DeleteMarker, DeleteVersion, HasRoom, Elapsed;
    var r := Run(hash, Fresh(hash), SESSIONS + [PutA(id)]);
    var s := Next(hash, r, RecordVersionOp("a"));
    PutInSecondSession(hash, id);
    EntryStep(hash, r, RecordVersionOp("a"), "a");
    var t := Next(hash, s, DeleteMarkerOp("a"));
    TwoOps(hash, s, DeleteMarkerOp("a"), DeleteVersionOp("a", 2));
    OneRecorded(hash, r, s, id);
    MarkerUndone(hash, s, "a");
    MarkerDropped(hash, s, t, id);
    EntryStep(hash, t, DeleteVersionOp("a", 2), "a");
    assert s.d.index["a"].lock.mode == Compliance;
  }

  lemma OneRecorded(hash: Hash, r: State, s: State, id: Digest)
    requires JustPut(r, id) && s == Next(hash, r, RecordVersionOp("a"))
    ensures History(s.d, "a") == [Version(1, id, 1, "", false)] && s.d.verSeq == 1 && HasRoom(s.d, 1)
  {
    hide Committing;
  }

  lemma MarkerDropped(hash: Hash, s: State, t: State, id: Digest)
    requires History(s.d, "a") == [Version(1, id, 1, "", false)] && s.d.verSeq == 1 && HasRoom(s.d, 1)
    requires t == Next(hash, s, DeleteMarkerOp("a"))
    ensures var op := DeleteVersionOp("a", 2); DropsVersion(t, op) && VersionsLeft(t, op) == History(s.d, "a")
    ensures Newest(History(s.d, "a")) == Some(Version(1, id, 1, "", false))
    ensures Next(hash, t, DeleteVersionOp("a", 2)) == DeleteVersion(DeleteMarker(hash, s, "a").0, "a", s.d.verSeq + 1).0
  {
    hide DeleteMarker, VersionIndex;
    MarkerIsNewest(hash, s, "a");
    var vs := t.d.versions["a"];
    assert vs[1] == Marker(s.d) && VersionIndex(vs, 2) == 1;
  }

  lemma OnlyVersion(hash: Hash, s: State, id: Digest)
    requires JustPut(s, id)
    ensures var t := Next(hash, s, RecordVersionOp("a"));
            LockOf(Next(hash, t, DeleteVersionOp("a", 1)).d, "a") == Option.None
  {
    hide Newest;
    var t, op := Next(hash, s, RecordVersionOp("a")), DeleteVersionOp("a", 1);
    var vs := t.d.versions["a"];
    assert |vs| == 1 && vs[0].vid == 1;
    assert VersionsLeft(t, op) == [] && Newest([]) == Option.None by {
      NoneNewest();
    }
    EntryStep(hash, t, op, "a");
  }

  lemma NoneNewest()
    ensures Newest([]) == Option.None
  {}

  /** Starting over keeps the durable state exactly when there is a snapshot, or nothing to keep. */
  lemma ReopenKeeps(hash: Hash, s: State)
    ensures Reopen(hash, s).d == s.d <==> s.saved.Some? || s.d == Fresh(hash).d
  {
    hide GenesisEntry;
  }

  /** An object put before the first snapshot is gone after closing and opening. */
  lemma LostWithoutSnapshot(hash: Hash, id: Digest)
    ensures var s := Run(hash, Fresh(hash), [PutA(id)]); "a" in s.d.index && s.saved == Option.None
    ensures "a" !in Run(hash, Fresh(hash), [PutA(id), ReopenOp]).d.index
  {
    hide Append, NameDigest, GenesisEntry;
    var put := PutA(id);
    assert [put][..0] == [] && [put, ReopenOp][..1] == [put];
  }

}
