/** The durable state of the vault, and the records that rebuild it. */
module VaultState {
  import opened Shards
  import opened TrustedTime
  import opened Audit

  /** The metadata of an object. */
  datatype Meta = Meta(id: Digest, lock: Lock, composite: bool, quarantined: bool, size: nat, userMeta: string)

  /** One version of a name; `vid` is the counter value it was made with. */
  datatype Version = Version(vid: nat, id: Digest, size: nat, meta: string, deleted: bool)

  /** What snapshot and journal keep.  The clock is kept apart: it is only written by snapshots. */
  datatype Durable = Durable(index: map<string, Meta>, buckets: map<string, bool>, versioned: set<string>,
                             versions: map<string, seq<Version>>, verSeq: nat, log: seq<Entry>,
                             ingestOnly: bool, syncShut: bool, opSealed: bool, lastBoot: string)

  const EMPTY := Durable(map[], map[], {}, map[], 0, [], false, false, false, "")

  /** One line of a snapshot or journal. */
  datatype Record =
    | Clock(floor: Time, isSealed: bool, opSealed: bool)
    | Boot(boot: string)
    | Modes(ingestOnly: bool, syncShut: bool)
    | Bucket(bucket: string, objectLock: bool)
    | BucketGone(gone: string)
    | Versioning(on: string, flag: bool)
    | Counter(verSeq: nat)
    | Versioned(key: string, version: Version)
    | Object(name: string, meta: Meta)
    | Deleted(deleted: string)
    | Audited(entry: Entry)

  function History(d: Durable, name: string): seq<Version> {
    if name in d.versions then d.versions[name] else []
  }

  predicate HasVersion(vs: seq<Version>, vid: nat) {
    exists i :: 0 <= i < |vs| && vs[i].vid == vid
  }

  /** The effect of one record.  Versions are told apart by id, audit entries by sequence number. */
  function Apply(d: Durable, r: Record): Durable {
    match r
    case Clock(_, _, opSealed) => d.(opSealed := opSealed)
    case Boot(boot) => d.(lastBoot := boot)
    case Modes(ingestOnly, syncShut) => d.(ingestOnly := ingestOnly, syncShut := syncShut)
    case Bucket(bucket, objectLock) => d.(buckets := d.buckets[bucket := objectLock])
    case BucketGone(gone) => d.(buckets := d.buckets - {gone})
    case Versioning(on, flag) => d.(versioned := if flag then d.versioned + {on} else d.versioned - {on})
    case Counter(verSeq) => d.(verSeq := verSeq)
    case Versioned(key, v) =>
      if HasVersion(History(d, key), v.vid) then d else d.(versions := d.versions[key := History(d, key) + [v]])
    case Object(name, meta) => d.(index := d.index[name := meta])
    case Deleted(name) => d.(index := d.index - {name})
    case Audited(e) => if e.num == |d.log| then d.(log := d.log + [e]) else d
  }

  function Replay(d: Durable, rs: seq<Record>): Durable {
    if |rs| == 0 then d else Apply(Replay(d, rs[..|rs| - 1]), rs[|rs| - 1])
  }

  lemma ReplayOne(d: Durable, rs: seq<Record>, r: Record)
    ensures Replay(d, rs + [r]) == Apply(Replay(d, rs), r)
  {
    assert (rs + [r])[..|rs|] == rs;
  }

  lemma ReplayStep(d: Durable, rs: seq<Record>)
    ensures |rs| == 0 ==> Replay(d, rs) == d
    ensures |rs| > 0 ==> Replay(d, rs) == Apply(Replay(d, rs[..|rs| - 1]), rs[|rs| - 1])
  {
    hide Apply;
  }

  lemma ReplayPrefix(d: Durable, rs: seq<Record>, i: nat)
    requires i < |rs|
    ensures Replay(d, rs[..i + 1]) == Apply(Replay(d, rs[..i]), rs[i])
  {
    hide Apply;
    assert rs[..i + 1][..i] == rs[..i];
  }

  lemma ApplyLog(d: Durable, r: Record)
    ensures Apply(d, r).log == if r.Audited? && r.entry.num == |d.log| then d.log + [r.entry] else d.log
  {}

  lemma ApplyEntry(d: Durable, e: Entry)
    requires e.num == |d.log|
    ensures Apply(d, Audited(e)) == d.(log := d.log + [e])
  {}

  lemma ApplyObject(d: Durable, name: string, m: Meta)
    ensures Apply(d, Object(name, m)) == d.(index := d.index[name := m])
  {}

  lemma ApplyCounter(d: Durable, r: Record)
    ensures Apply(d, r).verSeq == if r.Counter? then r.verSeq else d.verSeq
  {}

  lemma ApplyVersions(d: Durable, r: Record)
    ensures !r.Versioned? || HasVersion(History(d, r.key), r.version.vid) ==> Apply(d, r).versions == d.versions
  {}

  lemma {:induction false} ReplayAppend(d: Durable, a: seq<Record>, b: seq<Record>)
    ensures Replay(d, a + b) == Replay(Replay(d, a), b)
  {
    hide Apply;
    if |b| == 0 {
      assert a + b == a;
    } else {
      var b', r := b[..|b| - 1], b[|b| - 1];
      ReplayAppend(d, a, b');
      assert a + b == (a + b') + [r];
      ReplayOne(d, a + b', r);
    }
  }

  // ---- The invariant ----

  /** The versions of one name: in the order they were made, none newer than the counter. */
  predicate OrderedVersions(vs: seq<Version>, verSeq: nat) {
    && (forall i, j :: 0 <= i < j < |vs| ==> vs[i].vid < vs[j].vid)
    && (forall i :: 0 <= i < |vs| ==> vs[i].vid <= verSeq)
  }

  /** What every operation keeps. */
  ghost predicate Inv(hash: Hash, d: Durable) {
    && ValidChain(hash, d.log)
    && forall name :: name in d.versions ==> |d.versions[name]| > 0 && OrderedVersions(d.versions[name], d.verSeq)
  }

  /** A new version id is not in use. */
  lemma NewVersionIsNew(hash: Hash, d: Durable, name: string)
    requires Inv(hash, d)
    ensures !HasVersion(History(d, name), d.verSeq + 1)
  {}

  // ---- Replaying a journal over a newer snapshot ----

  /** The record is about the object name. */
  predicate Mentions(r: Record, name: string) {
    (r.Object? && r.name == name) || (r.Deleted? && r.deleted == name)
  }

  predicate MentionedIn(rs: seq<Record>, name: string) {
    exists i :: 0 <= i < |rs| && Mentions(rs[i], name)
  }

  /** The object that a record leaves under the name it mentions. */
  function Left(r: Record): Option<Meta> {
    if r.Object? then Some(r.meta) else Option.None
  }

  function Lookup(d: Durable, name: string): Option<Meta> {
    if name in d.index then Some(d.index[name]) else Option.None
  }

  /** What the last record that mentions the name leaves under it. */
  function LastLeft(rs: seq<Record>, name: string): Option<Meta>
    requires MentionedIn(rs, name)
  {
    var r := rs[|rs| - 1];
    if Mentions(r, name) then Left(r) else LastLeft(rs[..|rs| - 1], name)
  }

  /** After a replay each name has what the last record about it left, or what it had before. */
  lemma {:induction false} LastRecordWins(d: Durable, rs: seq<Record>, name: string)
    ensures Lookup(Replay(d, rs), name) == if MentionedIn(rs, name) then LastLeft(rs, name) else Lookup(d, name)
  {
    if |rs| > 0 {
      var rs', r := rs[..|rs| - 1], rs[|rs| - 1];
      LastRecordWins(d, rs', name);
      MentionedStep(rs, name);
      ApplyLookup(Replay(d, rs'), r, name);
    }
  }

  lemma MentionedStep(rs: seq<Record>, name: string)
    requires |rs| > 0
    ensures MentionedIn(rs, name) <==> Mentions(rs[|rs| - 1], name) || MentionedIn(rs[..|rs| - 1], name)
  {
    var rs' := rs[..|rs| - 1];
    if MentionedIn(rs', name) {
      var i :| 0 <= i < |rs'| && Mentions(rs'[i], name);
      assert Mentions(rs[i], name);
    }
    if MentionedIn(rs, name) && !Mentions(rs[|rs| - 1], name) {
      var i :| 0 <= i < |rs| && Mentions(rs[i], name);
      assert Mentions(rs'[i], name);
    }
  }

  lemma ApplyLookup(d: Durable, r: Record, name: string)
    ensures Lookup(Apply(d, r), name) == if Mentions(r, name) then Left(r) else Lookup(d, name)
  {}

  lemma SameIndex(a: Durable, b: Durable)
    ensures a.index == b.index <==> forall name :: Lookup(a, name) == Lookup(b, name)
  {
    if forall name :: Lookup(a, name) == Lookup(b, name) {
      forall name
        ensures name in a.index <==> name in b.index
        ensures name in a.index ==> a.index[name] == b.index[name]
      {
        assert Lookup(a, name) == Lookup(b, name);
      }
    }
  }

  /** Some audit record is numbered `n`. */
  predicate Continues(rs: seq<Record>, n: nat) {
    exists i :: 0 <= i < |rs| && rs[i].Audited? && rs[i].entry.num == n
  }

  lemma ContinuesStep(rs: seq<Record>, n: nat)
    requires |rs| > 0
    ensures var r := rs[|rs| - 1];
            Continues(rs, n) <==> (r.Audited? && r.entry.num == n) || Continues(rs[..|rs| - 1], n)
  {
    var rs' := rs[..|rs| - 1];
    if Continues(rs', n) {
      var i :| 0 <= i < |rs'| && rs'[i].Audited? && rs'[i].entry.num == n;
      assert rs[i].Audited? && rs[i].entry.num == n;
    }
    if i :| 0 <= i < |rs| - 1 && rs[i].Audited? && rs[i].entry.num == n {
      assert rs'[i].Audited? && rs'[i].entry.num == n;
    }
  }

  /** A replay leaves the log alone exactly if no audit record continues it. */
  lemma {:induction false} LogAfterReplay(d: Durable, rs: seq<Record>)
    ensures d.log <= Replay(d, rs).log && (Replay(d, rs).log == d.log <==> !Continues(rs, |d.log|))
  {
    hide Replay, Apply, Continues;
    ReplayStep(d, rs);
    if |rs| == 0 {
      NothingContinues(rs, |d.log|);
    } else {
      LogAfterReplay(d, rs[..|rs| - 1]);
      ContinuesStep(rs, |d.log|);
      ApplyLog(Replay(d, rs[..|rs| - 1]), rs[|rs| - 1]);
    }
  }

  /** All audit records are numbered below `n`. */
  predicate Numbered(rs: seq<Record>, n: nat) {
    forall i :: 0 <= i < |rs| && rs[i].Audited? ==> rs[i].entry.num < n
  }

  lemma NothingContinues(rs: seq<Record>, n: nat)
    requires |rs| == 0
    ensures !Continues(rs, n)
  {}

  /** The records that operations write to the journal; the others are only in snapshots. */
  predicate IsJournalRecord(r: Record) {
    r.Object? || r.Deleted? || r.Versioned? || r.Counter? || r.Audited?
  }

  /** Everything but the index, the versions, the counter and the log. */
  function Rest(d: Durable): Durable {
    d.(index := map[], versions := map[], verSeq := 0, log := [])
  }

  lemma ApplyRest(d: Durable, r: Record)
    requires IsJournalRecord(r)
    ensures Rest(Apply(d, r)) == Rest(d)
  {}

  lemma {:induction false} RestUntouched(d: Durable, rs: seq<Record>)
    requires forall i :: 0 <= i < |rs| ==> IsJournalRecord(rs[i])
    ensures Rest(Replay(d, rs)) == Rest(d)
  {
    hide Replay, Apply, Rest;
    ReplayStep(d, rs);
    if |rs| > 0 {
      RestUntouched(d, rs[..|rs| - 1]);
      ApplyRest(Replay(d, rs[..|rs| - 1]), rs[|rs| - 1]);
    }
  }

  lemma {:induction false} VersionsStay(d: Durable, rs: seq<Record>, i: nat, key: string, vid: nat)
    requires i <= |rs| && HasVersion(History(Replay(d, rs[..i]), key), vid)
    ensures HasVersion(History(Replay(d, rs), key), vid)
    decreases |rs| - i
  {
    if i == |rs| {
      assert rs[..i] == rs;
    } else {
      assert rs[..i + 1][..i] == rs[..i];
      ApplyKeepsVersions(Replay(d, rs[..i]), rs[i], key, vid);
      VersionsStay(d, rs, i + 1, key, vid);
    }
  }

  lemma ApplyKeepsVersions(d: Durable, r: Record, key: string, vid: nat)
    requires HasVersion(History(d, key), vid)
    ensures HasVersion(History(Apply(d, r), key), vid)
  {
    if r.Versioned? && r.key == key && !HasVersion(History(d, key), r.version.vid) {
      var i :| 0 <= i < |History(d, key)| && History(d, key)[i].vid == vid;
      assert History(Apply(d, r), key)[i].vid == vid;
    }
  }

  /** Every version record that was replayed is in the history. */
  lemma ReplayedVersions(d: Durable, rs: seq<Record>, i: nat)
    requires i < |rs| && rs[i].Versioned?
    ensures HasVersion(History(Replay(d, rs), rs[i].key), rs[i].version.vid)
  {
    var b, r := Replay(d, rs[..i]), rs[i];
    assert rs[..i + 1][..i] == rs[..i];
    if !HasVersion(History(b, r.key), r.version.vid) {
      var h := History(Apply(b, r), r.key);
      assert h[|h| - 1].vid == r.version.vid;
    }
    VersionsStay(d, rs, i + 1, r.key, r.version.vid);
  }

  lemma {:induction false} StaleVersions(d: Durable, rs: seq<Record>)
    requires forall i :: 0 <= i < |rs| && rs[i].Versioned? ==> HasVersion(History(d, rs[i].key), rs[i].version.vid)
    ensures Replay(d, rs).versions == d.versions
  {
    hide Replay, Apply, HasVersion;
    ReplayStep(d, rs);
    if |rs| > 0 {
      StaleVersions(d, rs[..|rs| - 1]);
      ApplyVersions(Replay(d, rs[..|rs| - 1]), rs[|rs| - 1]);
    }
  }

  /** All version records of `rs` are in the histories already. */
  ghost predicate AllKnown(d: Durable, rs: seq<Record>) {
    forall i :: 0 <= i < |rs| && rs[i].Versioned? ==> HasVersion(History(d, rs[i].key), rs[i].version.vid)
  }

  /** A replay leaves the versions alone exactly if all of them are known. */
  lemma VersionsAfterReplay(d: Durable, rs: seq<Record>)
    ensures Replay(d, rs).versions == d.versions <==> AllKnown(d, rs)
  {
    hide Replay, Apply, HasVersion;
    if AllKnown(d, rs) {
      StaleVersions(d, rs);
    }
    forall i | 0 <= i < |rs| && rs[i].Versioned?
      ensures HasVersion(History(Replay(d, rs), rs[i].key), rs[i].version.vid)
    {
      ReplayedVersions(d, rs, i);
    }
  }

  /** A history only gets longer, by versions that records add to it. */
  lemma {:induction false} HistoryAfterReplay(d: Durable, rs: seq<Record>, name: string)
    ensures var h, h' := History(d, name), History(Replay(d, rs), name);
            h <= h' && forall j :: |h| <= j < |h'| ==> Versioned(name, h'[j]) in rs
  {
    hide Replay, Apply;
    ReplayStep(d, rs);
    if |rs| > 0 {
      HistoryAfterReplay(d, rs[..|rs| - 1], name);
      ApplyHistory(Replay(d, rs[..|rs| - 1]), rs[|rs| - 1], name);
    }
  }

  lemma ApplyHistory(d: Durable, r: Record, name: string)
    ensures || History(Apply(d, r), name) == History(d, name)
            || (r.Versioned? && r.key == name && History(Apply(d, r), name) == History(d, name) + [r.version])
  {}

  /** The counter after a replay: that of the last counter record. */
  function CounterAfter(rs: seq<Record>, n: nat): nat {
    if |rs| == 0 then n
    else if rs[|rs| - 1].Counter? then rs[|rs| - 1].verSeq
    else CounterAfter(rs[..|rs| - 1], n)
  }

  lemma {:induction false} CounterAfterReplay(d: Durable, rs: seq<Record>)
    ensures Replay(d, rs).verSeq == CounterAfter(rs, d.verSeq)
  {
    hide Replay, Apply;
    ReplayStep(d, rs);
    if |rs| > 0 {
      CounterAfterReplay(d, rs[..|rs| - 1]);
      ApplyCounter(Replay(d, rs[..|rs| - 1]), rs[|rs| - 1]);
    }
  }

  lemma {:induction false} CounterSettles(rs: seq<Record>, n: nat, m: nat)
    requires m == CounterAfter(rs, n)
    ensures CounterAfter(rs, m) == m
  {
    if |rs| > 0 && !rs[|rs| - 1].Counter? {
      CounterSettles(rs[..|rs| - 1], n, m);
    }
  }

  /** The names that the journal mentions stand for what its last record about them says. */
  ghost predicate IndexAgrees(d: Durable, rs: seq<Record>) {
    forall name :: MentionedIn(rs, name) ==> LastLeft(rs, name) == Lookup(d, name)
  }

  lemma IndexAfterReplay(d: Durable, rs: seq<Record>)
    ensures Replay(d, rs).index == d.index <==> IndexAgrees(d, rs)
  {
    hide Replay, LastLeft, MentionedIn;
    forall name
      ensures Lookup(Replay(d, rs), name) == if MentionedIn(rs, name) then LastLeft(rs, name) else Lookup(d, name)
    {
      LastRecordWins(d, rs, name);
    }
    SameIndex(Replay(d, rs), d);
  }

  ghost predicate AllJournal(rs: seq<Record>) {
    forall i :: 0 <= i < |rs| ==> IsJournalRecord(rs[i])
  }

  /** A crash between writing a snapshot and emptying the journal: the next start replays the old
      journal over the new snapshot.  Component by component, the state comes back exactly if the
      journal holds nothing that the snapshot does not. */
  lemma CrashRecovery(now: Durable, journal: seq<Record>)
    requires AllJournal(journal)
    ensures var after := Replay(now, journal);
            && (after.log == now.log <==> !Continues(journal, |now.log|))
            && (after.index == now.index <==> IndexAgrees(now, journal))
            && (after.versions == now.versions <==> AllKnown(now, journal))
            && after.verSeq == CounterAfter(journal, now.verSeq)
            && (after == now <==> && !Continues(journal, |now.log|) && IndexAgrees(now, journal)
                                  && AllKnown(now, journal) && CounterAfter(journal, now.verSeq) == now.verSeq)
  {
    hide Replay, IndexAgrees, AllKnown, Continues, CounterAfter;
    LogAfterReplay(now, journal);
    IndexAfterReplay(now, journal);
    VersionsAfterReplay(now, journal);
    CounterAfterReplay(now, journal);
    RestUntouched(now, journal);
  }

  /** Replaying a journal twice is replaying it once, exactly if no audit record of it continues
      the log that the first replay leads to. */
  lemma ReplayTwice(d: Durable, rs: seq<Record>)
    requires AllJournal(rs)
    ensures var once := Replay(d, rs); Replay(once, rs) == once <==> !Continues(rs, |once.log|)
  {
    hide Replay, LastLeft, MentionedIn, Continues, CounterAfter, HasVersion;
    var once := Replay(d, rs);
    CrashRecovery(once, rs);
    forall i | 0 <= i < |rs| && rs[i].Versioned?
      ensures HasVersion(History(once, rs[i].key), rs[i].version.vid)
    {
      ReplayedVersions(d, rs, i);
    }
    CounterAfterReplay(d, rs);
    CounterSettles(rs, d.verSeq, once.verSeq);
    forall name | MentionedIn(rs, name)
      ensures LastLeft(rs, name) == Lookup(once, name)
    {
      LastRecordWins(d, rs, name);
    }
  }

  lemma ReplayPair(d: Durable, a: Record, b: Record)
    ensures Replay(d, [a, b]) == Apply(Apply(d, a), b)
  {
    hide Apply;
    ReplayOne(d, [a], b);
    ReplayOne(d, [], a);
    assert [a] + [b] == [a, b] && [] + [a] == [a];
  }

  /** Two entries in the wrong order: the first replay leaves one out, the second does not. */
  lemma SecondReplayAdds(d: Durable, e: Entry, e': Entry)
    requires e.num == |d.log| && e'.num == |d.log| + 1
    ensures var rs := [Audited(e'), Audited(e)];
            Replay(d, rs).log == d.log + [e] && Replay(Replay(d, rs), rs).log == d.log + [e, e']
  {
    hide Replay, Apply;
    var a, b := Audited(e'), Audited(e);
    ReplayPair(d, a, b);
    ReplayPair(Replay(d, [a, b]), a, b);
    ApplyLog(d, a);
    ApplyLog(Apply(d, a), b);
    var once := Replay(d, [a, b]);
    ApplyLog(once, a);
    ApplyLog(Apply(once, a), b);
  }
}
