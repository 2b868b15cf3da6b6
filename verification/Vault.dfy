/** The vault: in-memory state, a snapshot and a journal on disk.

    Every operation is proved to do what `VaultSteps` says, and to leave the disk such that
    replaying the journal over the snapshot, if there is one, gives the state in memory. */
module Vault {
  import opened Shards
  import opened TrustedTime
  import opened Audit
  import opened VaultState
  import opened Snapshot
  import opened Steps = VaultSteps

  /** The only clock record is the first. */
  ghost predicate OneClock(rs: seq<Record>) {
    |rs| > 0 && rs[0].Clock? && forall i :: 1 <= i < |rs| ==> !rs[i].Clock?
  }

  class Vault {
    const hash: Hash
    // In memory.
    var d: Durable
    var clock: Guard
    var started: bool
    var pending: seq<Record>
    var count: nat
    // On disk.
    var snapshot: Option<seq<Record>>
    var journal: seq<Record>

    ghost function SavedClock(): Option<Steps.SavedClock>
      reads `snapshot
    {
      if snapshot.Some? && |snapshot.value| > 0 && snapshot.value[0].Clock?
      then Some(Steps.SavedClock(snapshot.value[0].floor, snapshot.value[0].isSealed))
      else Option.None
    }

    ghost function Abs(): Steps.State
      reads this
    {
      Steps.State(d, clock, started, SavedClock(), count)
    }

    /** The snapshot starts with its only clock record; the journal has none. */
    ghost predicate WellFormed()
      reads `snapshot, `journal, `pending, `count
    {
      && (snapshot.Some? ==> OneClock(snapshot.value))
      && (forall i :: 0 <= i < |journal| ==> IsJournalRecord(journal[i]))
      && (forall i :: 0 <= i < |pending| ==> IsJournalRecord(pending[i]))
      && (snapshot.Some? ==> count == |journal|)
    }

    /** Replaying snapshot, journal and what is pending gives the state in memory, whose log has all
        the entries of the journal. */
    ghost predicate Refined()
      reads `d, `snapshot, `journal, `pending
    {
      snapshot.Some? ==> Rebuilt(snapshot.value + journal + pending) == d && Numbered(journal + pending, |d.log|)
    }

    ghost predicate Valid()
      reads this
    {
      Inv(hash, d) && WellFormed() && Refined() && pending == []
    }

    /** A vault on an empty disk. */
    constructor (hash: Hash)
      ensures Valid() && Abs() == Steps.Fresh(hash) && this.hash == hash
      ensures snapshot == Option.None && journal == []
    {
      this.hash := hash;
      d := Steps.Fresh(hash).d;
      clock := Init(Sample(0, 0, false));
      started := false;
      pending, count, snapshot, journal := [], 0, Option.None, [];
      new;
      Steps.FreshInv(hash);
    }

    // ---- Persistence ----

    /** Writes a full snapshot and empties the journal. */
    method SaveAll()
      requires Inv(hash, d)
      modifies `pending, `count, `snapshot, `journal
      ensures Valid() && Abs() == Steps.Saving(old(Abs()))
    {
      hide Rebuilt, Inv;
      var rs := Save(hash, d, clock);
      snapshot := Some(rs);
      journal, count, pending := [], 0, [];
      assert rs + [] + [] == rs;
    }

    method AppendJrnl(r: Record)
      requires WellFormed() && IsJournalRecord(r)
      modifies `pending
      ensures WellFormed() && pending == old(pending) + [r]
    {
      pending := pending + [r];
    }

    /** Writes what is pending to the journal, or a snapshot if the journal would get too long. */
    method CommitJrnl()
      requires Inv(hash, d) && WellFormed() && Refined()
      modifies `pending, `count, `snapshot, `journal
      ensures Valid() && Abs() == Steps.Committing(old(Abs()), |old(pending)|)
      ensures old(count) + |old(pending)| < Steps.COMPACT_LIMIT ==>
                snapshot == old(snapshot) && journal == old(journal) + old(pending)
    {
      hide Rebuilt, Inv;
      if |pending| == 0 {
        assert journal + pending == journal;
        return;
      }
      if count + |pending| >= Steps.COMPACT_LIMIT {
        SaveAll();
        return;
      }
      ghost var all := if snapshot.Some? then snapshot.value + journal + pending else [];
      journal := journal + pending;
      count := count + |pending|;
      pending := [];
      if snapshot.Some? {
        assert snapshot.value + journal + pending == all && journal + pending == journal;
      }
    }

    /** The pending records lead from the state that the disk has to the state in memory. */
    lemma PendingRefines(before: Durable)
      requires WellFormed() && Replay(before, pending) == d && Numbered(pending, |d.log|)
      requires snapshot.Some? ==> Rebuilt(snapshot.value + journal) == before && Numbered(journal, |before.log|)
      ensures Refined()
    {
      hide Replay, Apply;
      if snapshot.Some? {
        LogAfterReplay(before, pending);
        ReplayAppend(EMPTY, snapshot.value + journal, pending);
        assert snapshot.value + journal + pending == (snapshot.value + journal) + pending;
      }
    }

    /** Nothing is pending between operations, so the disk has the state in memory. */
    lemma OnDisk()
      requires Valid()
      ensures snapshot.Some? ==> Rebuilt(snapshot.value + journal) == d && Numbered(journal, |d.log|)
    {
      hide Rebuilt;
      if snapshot.Some? {
        assert snapshot.value + journal + [] == snapshot.value + journal && journal + [] == journal;
      }
    }

    method AddAudit(kind: Event, subject: Digest, detail: Time)
      requires Inv(hash, d) && WellFormed() && Steps.HasRoom(d, 1)
      modifies `d, `pending
      ensures Abs() == Steps.Audited1(hash, old(Abs()), kind, subject, detail) && Inv(hash, d) && WellFormed()
      ensures pending == old(pending) + [Audited(Steps.NewEntry(hash, old(Abs()), kind, subject, detail))]
      ensures Steps.NewEntry(hash, old(Abs()), kind, subject, detail).num == |old(d.log)|
    {
      Steps.EntryNumber(hash, Abs(), kind, subject, detail);
      Steps.EntryKeepsInv(hash, Abs(), kind, subject, detail);
      hide Inv, Append;
      var e := Append(hash, d.log[|d.log| - 1], clock.floor, kind, subject, detail);
      d := d.(log := d.log + [e]);
      AppendJrnl(Audited(e));
    }

    // ---- Operations ----

    method PutObject(name: string, id: Digest, composite: bool, size: nat, mode: Mode, retainFor: Time,
                     userMeta: string) returns (r: Steps.Result)
      requires Valid()
      modifies this
      ensures Valid() && (Abs(), r) == Steps.Put(hash, old(Abs()), name, id, composite, size, mode, retainFor, userMeta)
      ensures r == Steps.Done && old(count) + 2 < Steps.COMPACT_LIMIT ==>
                && snapshot == old(snapshot) && |d.log| > 0 && name in d.index
                && journal == old(journal) + [Audited(d.log[|d.log| - 1]), Object(name, d.index[name])]
    {
      hide Valid, Append, NameDigest;
      if d.opSealed {
        return Steps.VaultSealed;
      }
      if d.syncShut {
        return Steps.SyncClosed;
      }
      if mode == Unlocked {
        return Steps.InvalidMode;
      }
      if clock.floor + retainFor > TIME_LAST {
        return Steps.OutOfRange;
      }
      if !Steps.HasRoom(d, 1) {
        return Steps.LogFull;
      }
      var until: Time := clock.floor + retainFor;
      EnterObject(name, Meta(id, CreateLock(mode, until, clock.floor), composite, false, size, userMeta), until);
      return Steps.Done;
    }

    method EnterObject(name: string, meta: Meta, until: Time)
      requires Valid() && Steps.HasRoom(d, 1)
      modifies this
      ensures Valid()
      ensures var s := Steps.Audited1(hash, old(Abs()), LockCreated, Steps.NameDigest(hash, name), until);
              Abs() == Steps.Committing(s.(d := s.d.(index := s.d.index[name := meta])), 2)
      ensures old(count) + 2 < Steps.COMPACT_LIMIT ==>
                && snapshot == old(snapshot) && |d.log| > 0
                && journal == old(journal) + [Audited(d.log[|d.log| - 1]), Object(name, meta)]
    {
      hide Inv, Rebuilt, Append, NameDigest, Apply, WellFormed, Refined, SavedClock, Replay, Committing;
      OnDisk();
      ghost var before := d;
      IndexKeepsInv(hash, d, d.index[name := meta]);
      d := d.(index := d.index[name := meta]);
      ghost var e := Steps.NewEntry(hash, Abs(), LockCreated, Steps.NameDigest(hash, name), until);
      AddAudit(LockCreated, Steps.NameDigest(hash, name), until);
      AppendJrnl(Object(name, meta));
      PutReplays(before, e, name, meta);
      PendingRefines(before);
      ghost var written := pending;
      assert written == [Audited(e), Object(name, meta)];
      CommitJrnl();
    }

    /** Deletes an object if its lock allows it; a refusal is recorded too. */
    method DeleteObject(name: string, bypass: bool) returns (r: Steps.Result)
      requires Valid()
      modifies this
      ensures Valid() && (Abs(), r) == Steps.Delete(hash, old(Abs()), name, bypass)
    {
      hide Valid, Append, NameDigest, CanDelete;
      if d.opSealed {
        return Steps.VaultSealed;
      }
      if name !in d.index {
        return Steps.NotFound;
      }
      if !Steps.HasRoom(d, 1) {
        return Steps.LogFull;
      }
      if CanDelete(d.index[name].lock, clock.floor, bypass) {
        DropObject(name);
        return Steps.Done;
      } else {
        RecordDenial(name);
        return Steps.DeleteRefused;
      }
    }

    method DropObject(name: string)
      requires Valid() && Steps.HasRoom(d, 1)
      modifies this
      ensures Valid()
      ensures var s := Steps.Audited1(hash, old(Abs()), DeleteAllowed, Steps.NameDigest(hash, name), clock.floor);
              Abs() == Steps.Committing(s.(d := s.d.(index := s.d.index - {name})), 2)
    {
      hide Inv, Rebuilt, Append, NameDigest, Apply, WellFormed, Refined, SavedClock, Replay, Committing;
      OnDisk();
      ghost var before := d;
      IndexKeepsInv(hash, d, d.index - {name});
      d := d.(index := d.index - {name});
      ghost var e := Steps.NewEntry(hash, Abs(), DeleteAllowed, Steps.NameDigest(hash, name), clock.floor);
      AddAudit(DeleteAllowed, Steps.NameDigest(hash, name), clock.floor);
      AppendJrnl(Deleted(name));
      DeleteReplays(before, e, name);
      PendingRefines(before);
      CommitJrnl();
    }

    method RecordDenial(name: string)
      requires Valid() && Steps.HasRoom(d, 1)
      modifies this
      ensures Valid()
      ensures Abs()
                == Steps.Committing(Steps.Audited1(hash, old(Abs()), DeleteDenied, Steps.NameDigest(hash, name),
                                                   clock.floor), 1)
    {
      hide Inv, Rebuilt, Append, NameDigest, Apply, WellFormed, Refined, SavedClock, Replay, Committing;
      OnDisk();
      ghost var before := d;
      ghost var e := Steps.NewEntry(hash, Abs(), DeleteDenied, Steps.NameDigest(hash, name), clock.floor);
      AddAudit(DeleteDenied, Steps.NameDigest(hash, name), clock.floor);
      DenialReplays(before, e);
      PendingRefines(before);
      CommitJrnl();
    }

    method CreateBucket(name: string, objectLock: bool) returns (r: Steps.Result)
      requires Valid()
      modifies this
      ensures Valid() && (Abs(), r) == Steps.CreateBucket(old(Abs()), name, objectLock)
    {
      hide ValidChain, Rebuilt;
      if d.opSealed {
        return Steps.VaultSealed;
      }
      if d.syncShut {
        return Steps.SyncClosed;
      }
      if name in d.buckets {
        return Steps.BucketExists;
      }
      d := d.(buckets := d.buckets[name := objectLock]);
      SaveAll();
      return Steps.Done;
    }

    method DeleteBucket(name: string) returns (r: Steps.Result)
      requires Valid()
      modifies this
      ensures Valid() && (Abs(), r) == Steps.DeleteBucket(old(Abs()), name)
    {
      hide ValidChain, Rebuilt;
      if d.opSealed {
        return Steps.VaultSealed;
      }
      if d.syncShut {
        return Steps.SyncClosed;
      }
      if name !in d.buckets {
        return Steps.NotFound;
      }
      var occupied := Occupied(d.index, name);
      if occupied {
        return Steps.BucketNotEmpty;
      }
      d := d.(buckets := d.buckets - {name});
      SaveAll();
      return Steps.Done;
    }

    method SetVersioning(bucket: string, on: bool)
      requires Valid()
      modifies this
      ensures Valid() && Abs() == Steps.SetVersioning(old(Abs()), bucket, on)
    {
      hide ValidChain, Rebuilt;
      d := d.(versioned := if on then d.versioned + {bucket} else d.versioned - {bucket});
      SaveAll();
    }

    method RecordVersion(name: string) returns (r: Steps.Result)
      requires Valid()
      modifies this
      ensures Valid() && (Abs(), r) == Steps.RecordVersion(old(Abs()), name)
    {
      hide Inv, Rebuilt, Apply, HasVersion, WellFormed, Refined, SavedClock, Replay, Committing;
      OnDisk();
      ghost var before := d;
      if name !in d.index {
        return Steps.NotFound;
      }
      var m := d.index[name];
      var v := Version(d.verSeq + 1, m.id, m.size, m.userMeta, false);
      NewVersionIsNew(hash, d, name);
      Steps.VersionKeepsInv(hash, d, name, v);
      d := Steps.AddVersion(d, name, v);
      AppendJrnl(Counter(d.verSeq));
      AppendJrnl(Versioned(name, v));
      VersionReplays(before, name, v);
      PendingRefines(before);
      CommitJrnl();
      return Steps.Done;
    }

    /** Marks a name as deleted; its versions stay.  The lock of the object is not consulted. */
    method DeleteMarker(name: string) returns (r: Steps.Result)
      requires Valid()
      modifies this
      ensures Valid() && (Abs(), r) == Steps.DeleteMarker(hash, old(Abs()), name)
    {
      hide Inv, Rebuilt, Append, NameDigest, WellFormed, Refined, SavedClock, Replay, MarkedDeleted,
           Marker, Committing;
      OnDisk();
      ghost var before := d;
      if !Steps.HasRoom(d, 1) {
        return Steps.LogFull;
      }
      MarkDeleted(name);
      PendingRefines(before);
      CommitJrnl();
      return Steps.Done;
    }

    /** The part of `DeleteMarker` before the commit. */
    method MarkDeleted(name: string)
      requires Inv(hash, d) && WellFormed() && Steps.HasRoom(d, 1) && pending == []
      modifies `d, `pending
      ensures Inv(hash, d) && WellFormed() && Replay(old(d), pending) == d && Numbered(pending, |d.log|)
      ensures |pending| == if name in old(d).index then 4 else 3
      ensures d == Steps.MarkedDeleted(old(d), name,
                     Steps.NewEntry(hash, old(Abs()), DeleteAllowed, Steps.NameDigest(hash, name), clock.floor))
    {
      hide Inv, Rebuilt, Append, NameDigest, Apply, HasVersion, WellFormed, Refined, SavedClock, Replay;
      var v := Steps.Marker(d);
      NewVersionIsNew(hash, d, name);
      Steps.VersionKeepsInv(hash, d, name, v);
      d := Steps.AddVersion(d, name, v);
      var listed := name in d.index;
      if listed {
        IndexKeepsInv(hash, d, d.index - {name});
        d := d.(index := d.index - {name});
        AppendJrnl(Deleted(name));
      }
      ghost var e := Steps.NewEntry(hash, Abs(), DeleteAllowed, Steps.NameDigest(hash, name), clock.floor);
      AddAudit(DeleteAllowed, Steps.NameDigest(hash, name), clock.floor);
      AppendJrnl(Counter(d.verSeq));
      AppendJrnl(Versioned(name, v));
      MarkerReplays(old(d), listed, e, name, v);
      assert !listed ==> d.index - {name} == d.index;
    }

    /** Deletes one version; the name goes to the newest version left.  No lock is consulted. */
    method DeleteVersion(name: string, vid: nat) returns (r: Steps.Result)
      requires Valid()
      modifies this
      ensures Valid() && (Abs(), r) == Steps.DeleteVersion(old(Abs()), name, vid)
    {
      hide Inv, Rebuilt, Relinked;
      if name !in d.versions {
        return Steps.NotFound;
      }
      var vs := d.versions[name];
      var i := FindVersion(vs, vid);
      if i == |vs| {
        return Steps.NotFound;
      }
      Steps.RelinkedKeepsInv(hash, d, name, i);
      d := Steps.Relinked(d, name, vs[..i] + vs[i + 1..]);
      SaveAll();
      return Steps.Done;
    }

    /** Records what a scrub found, object by object, with one commit at the end. */
    method Scrub(verdicts: seq<(string, bool)>) returns (r: Steps.Result)
      requires Valid()
      modifies this
      ensures Valid() && (Abs(), r) == Steps.Scrub(hash, old(Abs()), verdicts)
    {
      hide Inv, Rebuilt, Replay, Apply, Scrub1, ScrubRecords;
      OnDisk();
      ghost var before := d;
      if !Steps.HasRoom(d, |verdicts|) {
        return Steps.LogFull;
      }
      ReplayStep(d, []);
      for i := 0 to |verdicts|
        invariant Inv(hash, d) && WellFormed() && Steps.HasRoom(old(d), i)
        invariant Abs() == Steps.ScrubAll(hash, old(Abs()), verdicts[..i])
        invariant |pending| == Steps.ScrubWrites(hash, old(Abs()), verdicts[..i])
        invariant Replay(before, pending) == d && snapshot == old(snapshot) && journal == old(journal)
        invariant Numbered(pending, |d.log|)
      {
        assert verdicts[..i + 1][..i] == verdicts[..i];
        ScrubOne(verdicts[i].0, verdicts[i].1, before);
      }
      assert verdicts[..|verdicts|] == verdicts;
      PendingRefines(before);
      CommitJrnl();
      return Steps.Done;
    }

    method ScrubOne(name: string, recoverable: bool, ghost before: Durable)
      requires Inv(hash, d) && WellFormed() && Steps.HasRoom(d, 1)
      requires Replay(before, pending) == d && Numbered(pending, |d.log|)
      modifies `d, `pending
      ensures Inv(hash, d) && WellFormed() && Replay(before, pending) == d && Numbered(pending, |d.log|)
      ensures Abs() == Steps.Scrub1(hash, old(Abs()), name, recoverable)
      ensures pending == old(pending) + Steps.ScrubRecords(hash, old(Abs()), name, recoverable)
    {
      hide Inv, Rebuilt, Replay, Append, NameDigest, Apply, WellFormed, SavedClock;
      if name !in d.index || d.index[name].quarantined == !recoverable {
        return;
      }
      var m := d.index[name].(quarantined := !recoverable);
      IndexKeepsInv(hash, d, d.index[name := m]);
      d := d.(index := d.index[name := m]);
      ReplayOne(before, pending, Object(name, m));
      ApplyObject(old(d), name, m);
      AppendJrnl(Object(name, m));
      if !recoverable {
        ghost var e := Steps.NewEntry(hash, Abs(), ObjectQuarantined, Steps.NameDigest(hash, name), 0);
        ReplayOne(before, pending, Audited(e));
        Steps.EntryNumber(hash, Abs(), ObjectQuarantined, Steps.NameDigest(hash, name), 0);
        ApplyEntry(d, e);
        AddAudit(ObjectQuarantined, Steps.NameDigest(hash, name), 0);
      }
    }

    method TickClock(sample: Sample) returns (r: Steps.Result)
      requires Valid()
      modifies this
      ensures Valid() && (Abs(), r) == Steps.Reading(hash, old(Abs()), sample)
    {
      hide Inv, Rebuilt, Append, Ticked;
      if !started {
        clock := Init(sample);
        started := true;
        return Steps.Done;
      }
      var sealed := clock.isSealed;
      clock := TrustedTime.Tick(clock, sample, Steps.CLOCK_TOLERANCE);
      if clock.isSealed && !sealed {
        if !Steps.HasRoom(d, 1) {
          return Steps.LogFull;
        }
        AddAudit(SealEngaged, ZERO_DIGEST, clock.floor);
        SaveAll();
      }
      return Steps.Done;
    }

    method SetLegalHold(name: string, hold: bool) returns (r: Steps.Result)
      requires Valid()
      modifies this
      ensures Valid() && (Abs(), r) == Steps.SetLegalHold(hash, old(Abs()), name, hold)
    {
      hide Inv, Rebuilt, Append, NameDigest;
      if name !in d.index {
        return Steps.NotFound;
      }
      if !Steps.HasRoom(d, 1) {
        return Steps.LogFull;
      }
      var m := d.index[name];
      m := m.(lock := if hold then SetHold(m.lock) else ReleaseHold(m.lock));
      IndexKeepsInv(hash, d, d.index[name := m]);
      d := d.(index := d.index[name := m]);
      AddAudit(if hold then LegalHoldSet else LegalHoldReleased, Steps.NameDigest(hash, name), clock.floor);
      SaveAll();
      return Steps.Done;
    }

    /** A reading of the system clock, with the kernel's boot id. */
    method TickFromSystem(sample: Sample, boot: string) returns (r: Steps.Result)
      requires Valid()
      modifies this
      ensures Inv(hash, d) && WellFormed() && (Abs(), r) == Steps.TickFromSystem(hash, old(Abs()), sample, boot)
      ensures r == Steps.Done ==> Valid()
    {
      hide ValidChain, Rebuilt, Append, Ticked;
      var last := d.lastBoot;
      var rebooted := |last| > 0 && last != boot;
      if last == boot {
        r := TickClock(sample.(bootChanged := rebooted));
        return;
      }
      var s := sample.(bootChanged := rebooted);
      d := d.(lastBoot := boot);
      if !started {
        clock := Init(s);
        started := true;
      } else {
        var sealed := clock.isSealed;
        clock := TrustedTime.Tick(clock, s, Steps.CLOCK_TOLERANCE);
        if clock.isSealed && !sealed {
          if !Steps.HasRoom(d, 1) {
            return Steps.LogFull;
          }
          AddAudit(SealEngaged, ZERO_DIGEST, clock.floor);
          SaveAll();
        }
      }
      SaveAll();
      return Steps.Done;
    }

    /** The operator's read-only seal. */
    method Seal() returns (r: Steps.Result)
      requires Valid()
      modifies this
      ensures Valid() && (Abs(), r) == Steps.Seal(hash, old(Abs()))
    {
      hide Rebuilt, Append, ValidChain;
      if d.opSealed {
        return Steps.Done;
      }
      if !Steps.HasRoom(d, 1) {
        return Steps.LogFull;
      }
      d := d.(opSealed := true);
      AddAudit(SealEngaged, ZERO_DIGEST, clock.floor);
      SaveAll();
      return Steps.Done;
    }

    method SetModes(ingestOnly: bool, syncShut: bool)
      requires Valid()
      modifies this
      ensures Valid() && Abs() == Steps.SetModes(old(Abs()), ingestOnly, syncShut)
    {
      hide ValidChain, Rebuilt;
      d := d.(ingestOnly := ingestOnly, syncShut := syncShut);
      SaveAll();
    }

    /** Closes the vault and opens it again from what is on disk. */
    method Reopen()
      requires Valid()
      modifies this
      ensures Valid() && Abs() == Steps.Reopen(hash, old(Abs()))
      ensures old(snapshot).Some? ==> d == old(d)
      ensures snapshot == old(snapshot) && journal == old(journal)
    {
      hide Inv, Rebuilt, Replay;
      OnDisk();
      pending := [];
      started := false;
      if snapshot == Option.None {
        Steps.FreshInv(hash);
        d := EMPTY.(log := [GenesisEntry(hash, 0)]);
        clock := Init(Sample(0, 0, false));
        count := 0;
      } else {
        d := Load(snapshot.value, journal);
        count := |journal|;
        clock := Guard(snapshot.value[0].floor, 0, 0, Anomaly.None, snapshot.value[0].isSealed);
      }
    }

    // ---- Crashes ----

    /** A save that stops after the snapshot is in place and before the journal is emptied, and the
        next start.  The audit log comes back exactly; all of the state does exactly if the journal
        holds nothing else than the snapshot. */
    method CrashInSave()
      requires Inv(hash, d) && WellFormed() && (snapshot.Some? ==> Numbered(journal, |d.log|))
      modifies this
      ensures d == Replay(old(d), old(journal)) && journal == old(journal) && snapshot.Some? && !started
      ensures old(snapshot).Some? ==> d.log == old(d).log
      ensures old(snapshot).Some? ==>
                (d == old(d) <==> && IndexAgrees(old(d), journal) && AllKnown(old(d), journal)
                                  && CounterAfter(journal, old(d).verSeq) == old(d).verSeq)
      ensures old(snapshot).Some? && d == old(d) ==> Valid()
    {
      hide Inv, Replay, IndexAgrees, AllKnown, CounterAfter;
      var rs := Save(hash, d, clock);
      snapshot := Some(rs);
      pending, started := [], false;
      ghost var before := d;
      d := Load(rs, journal);
      count := |journal|;
      clock := Guard(rs[0].floor, 0, 0, Anomaly.None, rs[0].isSealed);
      ReplayAppend(EMPTY, rs, journal);
      CrashRecovery(before, journal);
      assert rs + journal + [] == rs + journal && journal + [] == journal;
    }

    /** A crash while a hold is set on an object: the hold is there afterwards exactly if the journal
        did not mention the object. */
    method CrashInHold(name: string)
      requires Valid() && snapshot.Some? && name in d.index && Steps.HasRoom(d, 1) && !d.index[name].lock.legalHold
      modifies this
      ensures Steps.SetLegalHold(hash, old(Abs()), name, true).0.d.log == d.log
      ensures name in d.index && (d.index[name].lock.legalHold <==> !MentionedIn(old(journal), name))
    {
      hide Inv, Rebuilt, Append, NameDigest, Replay, MentionedIn, LastLeft, IndexAgrees, AllKnown, CounterAfter,
           WellFormed;
      OnDisk();
      ghost var before := d;
      var m := d.index[name];
      m := m.(lock := SetHold(m.lock));
      IndexKeepsInv(hash, d, d.index[name := m]);
      d := d.(index := d.index[name := m]);
      AddAudit(LegalHoldSet, Steps.NameDigest(hash, name), clock.floor);
      ghost var held := d;
      LastRecordWins(held, journal, name);
      ReplayedLookup(snapshot.value, journal, name);
      CrashInSave();
    }
  }

  /** A name that the journal mentions has what its last record there says. */
  lemma ReplayedLookup(snapshot: seq<Record>, journal: seq<Record>, name: string)
    ensures MentionedIn(journal, name) ==> Lookup(Rebuilt(snapshot + journal), name) == LastLeft(journal, name)
  {
    hide Replay, LastLeft, MentionedIn;
    ReplayAppend(EMPTY, snapshot, journal);
    LastRecordWins(Replay(EMPTY, snapshot), journal, name);
  }

  /** The journal of a session that put `a` and `b`, and of the next that put `c`. */
  lemma DeadSession(now: Durable, a: Entry, b: Entry, c: Entry, m: Meta, m': Meta, m'': Meta)
    requires |now.log| == 2 && a.num == 1 && b.num == 2 && c.num == 1
    ensures var d := Replay(now,
              [Audited(a), Object("a", m), Audited(b), Object("b", m'), Audited(c), Object("c", m'')]);
            d.log == now.log + [b] && "a" in d.index && "b" in d.index
  {
    hide Replay;
    var rs := [Audited(a), Object("a", m), Audited(b), Object("b", m'), Audited(c), Object("c", m'')];
    ReplayStep(now, rs[..0]);
    ReplayPrefix(now, rs, 0);
    ReplayPrefix(now, rs, 1);
    ReplayPrefix(now, rs, 2);
    ReplayPrefix(now, rs, 3);
    ReplayPrefix(now, rs, 4);
    ReplayPrefix(now, rs, 5);
    assert rs[..6] == rs;
  }

  /** A vault in its first session, with only a few puts in it. */
  ghost predicate Young(v: Vault)
    reads v
  {
    && v.Valid() && v.snapshot == Option.None && v.clock.floor == 0 && !v.d.opSealed && !v.d.syncShut
    && 0 < |v.d.log| <= 3 && v.count <= 10
  }

  /** A put that nothing refuses: one entry and one object, in memory and in the journal. */
  method PutEarly(v: Vault, name: string, id: Digest)
    requires Young(v)
    modifies v
    ensures v.Valid() && v.snapshot == Option.None && v.clock.floor == 0 && !v.d.opSealed && !v.d.syncShut
    ensures v.count == old(v.count) + 2 && name in v.d.index && v.d.index == old(v.d).index[name := v.d.index[name]]
    ensures |v.d.log| == |old(v.d).log| + 1 && old(v.d).log < v.d.log
    ensures var e, last := v.d.log[|v.d.log| - 1], old(v.d).log[|old(v.d).log| - 1];
            && e.num == |old(v.d).log| && e.prev == last.hash
            && v.journal == old(v.journal) + [Audited(e), Object(name, v.d.index[name])]
  {
    hide Vault.Valid, NameDigest, Vault.SavedClock, ComputeHash;
    FirstEntries(v);
    var r := v.PutObject(name, id, false, 1, Compliance, 10, "");
  }

  lemma FirstEntries(v: Vault)
    requires Young(v)
    ensures v.d.log[|v.d.log| - 1].num == |v.d.log| - 1 && v.SavedClock() == Option.None
  {
    SequenceCounts(v.hash, v.d.log, |v.d.log| - 1);
  }

  /** Starting without a snapshot keeps the journal of the session before.  If the first save then
      crashes, objects of that session come back, and an entry of its log is added to the new one:
      the log is a chain only if entries of the two sessions have the same hash. */
  method StaleJournal(hash: Hash, id: Digest) returns (v: Vault, ghost before: Durable, ghost dead: Entry)
    ensures fresh(v) && Inv(hash, before) && "a" !in before.index && "b" !in before.index
    ensures "a" in v.d.index && "b" in v.d.index && |v.d.log| == |before.log| + 1 && before.log < v.d.log
    ensures ValidChain(hash, v.d.log) ==> before.log[|before.log| - 1].hash == dead.hash
  {
    hide Inv, Append, Replay, IndexAgrees, AllKnown, CounterAfter, Rebuilt, ComputeHash, Continues;
    v := new Vault(hash);
    PutEarly(v, "a", id);
    dead := v.d.log[1];
    PutEarly(v, "b", id);
    ghost var b, j := v.d.log[2], v.journal;
    v.Reopen();
    PutEarly(v, "c", id);
    before := v.d;
    ghost var c, m := v.d.log[1], v.d.index["c"];
    assert v.journal == [Audited(dead), j[1], Audited(b), j[3], Audited(c), Object("c", m)];
    v.CrashInSave();
    DeadSession(before, dead, b, c, j[1].meta, j[3].meta, m);
    if ValidChain(hash, v.d.log) {
      assert LinksTo(hash, v.d.log[2], v.d.log[1]);
    }
  }

  /** Applies the lines of the snapshot, then those of the journal. */
  method Load(snapshot: seq<Record>, journal: seq<Record>) returns (d: Durable)
    ensures d == Rebuilt(snapshot + journal)
  {
    hide Apply;
    d := EMPTY;
    for i := 0 to |snapshot|
      invariant d == Replay(EMPTY, snapshot[..i])
    {
      ReplayPrefix(EMPTY, snapshot, i);
      d := Apply(d, snapshot[i]);
    }
    assert snapshot[..|snapshot|] == snapshot;
    for i := 0 to |journal|
      invariant d == Replay(Replay(EMPTY, snapshot), journal[..i])
    {
      ReplayPrefix(Replay(EMPTY, snapshot), journal, i);
      d := Apply(d, journal[i]);
    }
    assert journal[..|journal|] == journal;
    ReplayAppend(EMPTY, snapshot, journal);
  }

  method Occupied(index: map<string, Meta>, bucket: string) returns (occupied: bool)
    ensures occupied <==> exists key :: key in index && Steps.InBucket(key, bucket)
  {
    var todo := index.Keys;
    occupied := false;
    while todo != {}
      invariant todo <= index.Keys
      invariant forall key :: key in index && key !in todo ==> !Steps.InBucket(key, bucket)
      decreases |todo|
    {
      var key :| key in todo;
      if Steps.InBucket(key, bucket) {
        return true;
      }
      todo := todo - {key};
    }
  }

  /** The last entry with the given version id. */
  method FindVersion(vs: seq<Version>, vid: nat) returns (i: nat)
    ensures i == Steps.VersionIndex(vs, vid)
  {
    i := |vs|;
    for j := 0 to |vs|
      invariant i == if Steps.VersionIndex(vs[..j], vid) == j then |vs| else Steps.VersionIndex(vs[..j], vid)
    {
      assert vs[..j + 1][..j] == vs[..j];
      if vs[j].vid == vid {
        i := j;
      }
    }
    assert vs[..|vs|] == vs;
  }

  lemma IndexKeepsInv(hash: Hash, d: Durable, index: map<string, Meta>)
    requires Inv(hash, d)
    ensures Inv(hash, d.(index := index))
  {
    hide ValidChain;
  }

  lemma PutReplays(d: Durable, e: Entry, name: string, meta: Meta)
    requires e.num == |d.log|
    ensures Replay(d, [] + [Audited(e)] + [Object(name, meta)])
         == d.(index := d.index[name := meta], log := d.log + [e])
  {
    hide Replay;
    ReplayStep(d, []);
    ReplayOne(d, [], Audited(e));
    ReplayOne(d, [] + [Audited(e)], Object(name, meta));
  }

  lemma DeleteReplays(d: Durable, e: Entry, name: string)
    requires e.num == |d.log|
    ensures Replay(d, [] + [Audited(e)] + [Deleted(name)]) == d.(index := d.index - {name}, log := d.log + [e])
  {
    hide Replay;
    ReplayStep(d, []);
    ReplayOne(d, [], Audited(e));
    ReplayOne(d, [] + [Audited(e)], Deleted(name));
  }

  lemma DenialReplays(d: Durable, e: Entry)
    requires e.num == |d.log|
    ensures Replay(d, [] + [Audited(e)]) == d.(log := d.log + [e])
  {
    hide Replay;
    ReplayStep(d, []);
    ReplayOne(d, [], Audited(e));
  }

  lemma VersionReplays(d: Durable, name: string, v: Version)
    requires !HasVersion(History(d, name), v.vid)
    ensures Replay(d, [] + [Counter(v.vid)] + [Versioned(name, v)]) == Steps.AddVersion(d, name, v)
  {
    hide Replay, HasVersion;
    ReplayStep(d, []);
    ReplayOne(d, [], Counter(v.vid));
    ReplayOne(d, [] + [Counter(v.vid)], Versioned(name, v));
  }

  lemma MarkerReplays(d: Durable, listed: bool, e: Entry, name: string, v: Version)
    requires e.num == |d.log| && listed == (name in d.index) && !HasVersion(History(d, name), v.vid)
    ensures var d' := Steps.AddVersion(d, name, v).(index := d.index - {name}, log := d.log + [e]);
            var start := if listed then [] + [Deleted(name)] else [];
            Replay(d, start + [Audited(e)] + [Counter(v.vid)] + [Versioned(name, v)]) == d'
  {
    hide Replay, HasVersion;
    var start := if listed then [] + [Deleted(name)] else [];
    ReplayStep(d, []);
    ReplayOne(d, [], Deleted(name));
    ReplayOne(d, start, Audited(e));
    ReplayOne(d, start + [Audited(e)], Counter(v.vid));
    ReplayOne(d, start + [Audited(e)] + [Counter(v.vid)], Versioned(name, v));
    assert name !in d.index ==> d.index - {name} == d.index;
  }
}
