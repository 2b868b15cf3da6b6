/** The versions of a name: how long they stay, and what is read of them. */
module Versions {
  import opened Shards
  import opened TrustedTime
  import opened Audit
  import opened VaultState
  import opened VaultSteps
  import opened Worm

  // ---- What an operation does to a history ----

  /** The versions of a name after an operation. */
  function HistoryAfter(s: State, op: Op, name: string): seq<Version> {
    var vs := History(s.d, name);
    if op.RecordVersionOp? && op.name == name && name in s.d.index then vs + [VersionOf(s.d, s.d.index[name])]
    else if op.DeleteMarkerOp? && op.name == name && HasRoom(s.d, 1) then
      vs + [Version(s.d.verSeq + 1, ZERO_DIGEST, 0, "", true)]
    else if op.DeleteVersionOp? && op.name == name && DropsVersion(s, op) then VersionsLeft(s, op)
    else if op.ReopenOp? && s.saved == Option.None then []
    else vs
  }

  function VersionOf(d: Durable, m: Meta): Version {
    Version(d.verSeq + 1, m.id, m.size, m.userMeta, false)
  }

  lemma AddedHistory(hash: Hash, s: State, op: Op, name: string)
    requires op.RecordVersionOp? || op.DeleteMarkerOp?
    ensures History(Next(hash, s, op).d, name) == HistoryAfter(s, op, name)
  {
    hide Append, NameDigest, Committing, VersionIndex;
  }

  lemma DroppedHistory(hash: Hash, s: State, op: Op, name: string)
    requires op.DeleteVersionOp?
    ensures History(Next(hash, s, op).d, name) == HistoryAfter(s, op, name)
  {
    hide Newest;
  }

  lemma ReadingKeepsVersions(hash: Hash, s: State, sample: Sample)
    ensures Reading(hash, s, sample).0.d.versions == s.d.versions
  {
    hide Append, Ticked;
  }

  lemma {:induction false} ScrubKeepsVersions(hash: Hash, s: State, verdicts: seq<(string, bool)>)
    requires HasRoom(s.d, |verdicts|)
    ensures ScrubAll(hash, s, verdicts).d.versions == s.d.versions
  {
    hide Append, NameDigest;
    if |verdicts| > 0 {
      ScrubKeepsVersions(hash, s, verdicts[..|verdicts| - 1]);
    }
  }

  lemma OtherHistory(hash: Hash, s: State, op: Op, name: string)
    requires !op.RecordVersionOp? && !op.DeleteMarkerOp? && !op.DeleteVersionOp?
    ensures History(Next(hash, s, op).d, name) == HistoryAfter(s, op, name)
  {
    hide Append, NameDigest, CanDelete, ScrubAll, ScrubWrites, Reading, GenesisEntry;
    if op.ScrubOp? && HasRoom(s.d, |op.verdicts|) {
      ScrubKeepsVersions(hash, s, op.verdicts);
    } else if op.TickOp? {
      ReadingKeepsVersions(hash, s, op.sample);
    } else if op.SystemTickOp? {
      ReadingKeepsVersions(hash, s.(d := s.d.(lastBoot := op.boot)), SystemSample(s, op.sample, op.boot));
    }
  }

  /** Exactly what every operation does to the versions of every name. */
  lemma HistoryStep(hash: Hash, s: State, op: Op, name: string)
    ensures History(Next(hash, s, op).d, name) == HistoryAfter(s, op, name)
  {
    hide Next, HistoryAfter, History;
    if op.RecordVersionOp? || op.DeleteMarkerOp? {
      AddedHistory(hash, s, op, name);
    } else if op.DeleteVersionOp? {
      DroppedHistory(hash, s, op, name);
    } else {
      OtherHistory(hash, s, op, name);
    }
  }

  // ---- Versions over whole runs ----

  /** The deletion of that version, and starting over on a disk without a snapshot. */
  predicate Drops(s: State, op: Op, name: string, vid: nat) {
    op == DeleteVersionOp(name, vid) || (op.ReopenOp? && s.saved == Option.None)
  }

  lemma OthersLeft(vs: seq<Version>, verSeq: nat, v: Version, vid: nat)
    requires OrderedVersions(vs, verSeq) && v in vs && HasVersion(vs, vid)
    ensures var i := VersionIndex(vs, vid);
            v in vs[..i] + vs[i + 1..] <==> v.vid != vid
  {
    hide VersionIndex;
    var i, j :| i == VersionIndex(vs, vid) && 0 <= j < |vs| && vs[j] == v;
    var left := vs[..i] + vs[i + 1..];
    if v.vid != vid {
      assert left[if j < i then j else j - 1] == v;
    } else {
      assert i == j;
    }
  }

  /** A version goes exactly if it is deleted itself, or everything is lost. */
  lemma VersionStep(hash: Hash, s: State, op: Op, name: string, v: Version)
    requires Inv(hash, s.d) && v in History(s.d, name)
    ensures v in History(Next(hash, s, op).d, name) <==> !Drops(s, op, name, v.vid)
  {
    hide Next, Marker, ValidChain, VersionIndex;
    HistoryStep(hash, s, op, name);
    var vs := History(s.d, name);
    if op.DeleteVersionOp? && op.name == name && DropsVersion(s, op) {
      OthersLeft(vs, s.d.verSeq, v, op.vid);
    }
    if op == DeleteVersionOp(name, v.vid) {
      assert HasVersion(vs, v.vid);
    }
  }

  lemma {:induction false} VersionRemains(hash: Hash, s: State, ops: seq<Op>, name: string, v: Version)
    requires Inv(hash, s.d) && v in History(s.d, name)
    requires forall i: nat :: i + 1 < |ops| ==> !Drops(Run(hash, s, ops[..i]), ops[i], name, v.vid)
    ensures Inv(hash, Run(hash, s, ops).d)
    ensures v in History(Run(hash, s, ops).d, name)
       <==> |ops| == 0 || !Drops(Run(hash, s, ops[..|ops| - 1]), ops[|ops| - 1], name, v.vid)
  {
    hide Next, Drops, Inv, History;
    if |ops| > 0 {
      var front := ops[..|ops| - 1];
      forall i: nat | i + 1 < |front|
        ensures !Drops(Run(hash, s, front[..i]), front[i], name, v.vid)
      {
        assert front[..i] == ops[..i] && front[i] == ops[i];
      }
      if |front| > 0 {
        assert front[..|front| - 1] == ops[..|ops| - 2] && front[|front| - 1] == ops[|ops| - 2];
      }
      VersionRemains(hash, s, front, name, v);
      VersionStep(hash, Run(hash, s, front), ops[|ops| - 1], name, v);
      NextKeepsInv(hash, Run(hash, s, front), ops[|ops| - 1]);
    }
  }

  // ---- Reading a version ----

  datatype Fetch = Fetched(id: Digest) | EgressDenied | Missing

  function FirstVersion(vs: seq<Version>, vid: nat): Option<Version> {
    if |vs| == 0 then Option.None else if vs[0].vid == vid then Some(vs[0]) else FirstVersion(vs[1..], vid)
  }

  /** The object that is read for a version of a name. */
  function FetchVersion(s: State, name: string, vid: nat): Fetch {
    if s.d.ingestOnly then EgressDenied
    else match FirstVersion(History(s.d, name), vid)
      case None => Missing
      case Some(v) => if v.deleted then Missing else Fetched(v.id)
  }

  lemma {:induction false} FirstIsOnly(vs: seq<Version>, verSeq: nat, v: Version)
    requires OrderedVersions(vs, verSeq)
    ensures FirstVersion(vs, v.vid) == Some(v) <==> v in vs
  {
    if |vs| > 0 {
      FirstIsOnly(vs[1..], verSeq, v);
      assert v in vs <==> v == vs[0] || v in vs[1..];
      assert v in vs[1..] ==> v.vid > vs[0].vid;
    }
  }

  lemma Recorded(hash: Hash, s: State, name: string)
    requires Inv(hash, s.d) && name in s.d.index
    ensures var t := Next(hash, s, RecordVersionOp(name));
            Inv(hash, t.d) && VersionOf(s.d, s.d.index[name]) in History(t.d, name)
  {
    hide Next, Inv;
    HistoryStep(hash, s, RecordVersionOp(name), name);
    NextKeepsInv(hash, s, RecordVersionOp(name));
    var h, v := HistoryAfter(s, RecordVersionOp(name), name), VersionOf(s.d, s.d.index[name]);
    assert h[|h| - 1] == v;
  }

  lemma Fetches(hash: Hash, s: State, name: string, v: Version)
    requires Inv(hash, s.d) && v in History(s.d, name) && !v.deleted
    ensures FetchVersion(s, name, v.vid) == if s.d.ingestOnly then EgressDenied else Fetched(v.id)
  {
    hide FirstVersion, ValidChain;
    FirstIsOnly(History(s.d, name), s.d.verSeq, v);
  }

  /** A version that was recorded is read as the object that the name stood for, after any run in
      which it is not deleted. */
  lemma RecordedIsFetched(hash: Hash, s: State, ops: seq<Op>, name: string)
    requires Inv(hash, s.d) && name in s.d.index
    requires var t := Next(hash, s, RecordVersionOp(name));
             forall i: nat :: i < |ops| ==> !Drops(Run(hash, t, ops[..i]), ops[i], name, s.d.verSeq + 1)
    ensures var u := Run(hash, Next(hash, s, RecordVersionOp(name)), ops);
            FetchVersion(u, name, s.d.verSeq + 1)
              == if u.d.ingestOnly then EgressDenied else Fetched(s.d.index[name].id)
  {
    hide Next, Run, Drops, FetchVersion, Inv, History;
    var t, v := Next(hash, s, RecordVersionOp(name)), VersionOf(s.d, s.d.index[name]);
    Recorded(hash, s, name);
    VersionRemains(hash, t, ops, name, v);
    Fetches(hash, Run(hash, t, ops), name, v);
  }
}
