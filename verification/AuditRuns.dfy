/** What the audit log records: every operation that decides about an object, and nothing else. */
module AuditRuns {
  import BitOps
  import opened Shards
  import opened TrustedTime
  import opened Audit
  import opened VaultState
  import opened VaultSteps
  import opened Worm

  /** What an entry says, without its place in the chain. */
  datatype Note = Note(kind: Event, subject: Digest, detail: Time, time: Time)

  function NoteOf(e: Entry): Note {
    Note(e.kind, e.subject, e.detail, e.time)
  }

  function Notes(log: seq<Entry>): (r: seq<Note>)
    ensures |r| == |log|
  {
    seq(|log|, i requires 0 <= i < |log| => NoteOf(log[i]))
  }

  function NameBytes(name: string): (r: seq<BitOps.Byte>)
    ensures |r| == |name| && forall i :: 0 <= i < |r| ==> r[i] == name[i] as int % 256
  {
    seq(|name|, i requires 0 <= i < |name| => (name[i] as int % 256) as BitOps.Byte)
  }

  predicate SingleBytes(name: string) {
    forall i :: 0 <= i < |name| ==> name[i] < 256 as char
  }

  lemma BytesTell(a: string, b: string)
    requires a != b && SingleBytes(a) && SingleBytes(b)
    ensures NameBytes(a) != NameBytes(b)
  {
    if |a| == |b| {
      var i :| 0 <= i < |a| && a[i] != b[i];
      assert NameBytes(a)[i] == a[i] as int && NameBytes(b)[i] == b[i] as int;
    }
  }

  /** The subject of an entry is the digest of the name: for any two names there is a hash that tells
      their entries apart. */
  lemma SubjectTells(a: string, b: string) returns (hash: Hash)
    requires a != b && SingleBytes(a) && SingleBytes(b)
    ensures NameDigest(hash, a) != NameDigest(hash, b)
  {
    hide SingleBytes;
    BytesTell(a, b);
    var x := NameBytes(a);
    hash := (m: seq<BitOps.Byte>) => if m == x then ZERO_DIGEST else ZERO_DIGEST[0 := 1];
    SubjectIs(hash, a);
    SubjectIs(hash, b);
    assert hash(NameBytes(a))[0] == 0 && hash(NameBytes(b))[0] == 1;
  }

  lemma SubjectIs(hash: Hash, name: string)
    ensures NameDigest(hash, name) == hash(NameBytes(name))
  {}

  /** The object is quarantined after the given repairs. */
  predicate OutOfUse(d: Durable, verdicts: seq<(string, bool)>, name: string)
    requires name in d.index
  {
    match LastVerdict(verdicts, name)
    case None => d.index[name].quarantined
    case Some(ok) => !ok
  }

  /** One entry for every object that a scrub takes out of use. */
  function ScrubNotes(hash: Hash, s: State, verdicts: seq<(string, bool)>): seq<Note> {
    if |verdicts| == 0 then []
    else
      var front, (name, ok) := verdicts[..|verdicts| - 1], verdicts[|verdicts| - 1];
      ScrubNotes(hash, s, front)
        + if name in s.d.index && !ok && !OutOfUse(s.d, front, name)
          then [Note(ObjectQuarantined, NameDigest(hash, name), 0, s.clock.floor)] else []
  }

  /** A reading that seals the clock is recorded, at the floor that it leads to. */
  function ReadingNotes(s: State, sample: Sample): seq<Note> {
    var floor := Saturated(s.clock.floor, MonoDelta(s.clock, sample));
    if s.started && !s.clock.isSealed && HasRoom(s.d, 1)
       && OutOfStep(Sample(s.clock.lastMono, s.clock.lastReal, false), sample, CLOCK_TOLERANCE)
    then [Note(SealEngaged, ZERO_DIGEST, floor, floor)] else []
  }

  /** What an operation adds to the log. */
  function Noted(hash: Hash, s: State, op: Op): seq<Note> {
    var now := s.clock.floor;
    match op
    case PutOp(name, _, _, _, _, retainFor, _) =>
      if Stores(s, op) then [Note(LockCreated, NameDigest(hash, name), now + retainFor, now)] else []
    case DeleteOp(name, bypass) =>
      if s.d.opSealed || name !in s.d.index || !HasRoom(s.d, 1) then []
      else
        var lock := s.d.index[name].lock;
        var allowed := !lock.legalHold && (now >= lock.retainUntil || Weak(lock.mode, bypass));
        [Note(if allowed then DeleteAllowed else DeleteDenied, NameDigest(hash, name), now, now)]
    case DeleteMarkerOp(name) =>
      if HasRoom(s.d, 1) then [Note(DeleteAllowed, NameDigest(hash, name), now, now)] else []
    case HoldOp(name, hold) =>
      if name in s.d.index && HasRoom(s.d, 1)
      then [Note(if hold then LegalHoldSet else LegalHoldReleased, NameDigest(hash, name), now, now)] else []
    case ScrubOp(verdicts) => if HasRoom(s.d, |verdicts|) then ScrubNotes(hash, s, verdicts) else []
    case TickOp(sample) => ReadingNotes(s, sample)
    case SystemTickOp(sample, boot) => ReadingNotes(s, SystemSample(s, sample, boot))
    case SealOp => if !s.d.opSealed && HasRoom(s.d, 1) then [Note(SealEngaged, ZERO_DIGEST, now, now)] else []
    case _ => []
  }

  lemma OneNote(hash: Hash, s: State, kind: Event, subject: Digest, detail: Time)
    requires HasRoom(s.d, 1)
    ensures Notes(Audited1(hash, s, kind, subject, detail).d.log)
         == Notes(s.d.log) + [Note(kind, subject, detail, s.clock.floor)]
  {
    hide ComputeHash;
  }

  lemma NoNote(log: seq<Entry>)
    ensures Notes(log) == Notes(log) + []
  {}

  lemma PutNotes(hash: Hash, s: State, op: Op)
    requires op.PutOp?
    ensures Notes(Next(hash, s, op).d.log) == Notes(s.d.log) + Noted(hash, s, op)
  {
    hide Append, NameDigest, Committing, Notes;
    NoNote(s.d.log);
    if Stores(s, op) {
      OneNote(hash, s, LockCreated, NameDigest(hash, op.name), s.clock.floor + op.retainFor);
    }
  }

  lemma DeleteNotes(hash: Hash, s: State, op: Op)
    requires op.DeleteOp?
    ensures Notes(Next(hash, s, op).d.log) == Notes(s.d.log) + Noted(hash, s, op)
  {
    hide Append, NameDigest, Committing, Notes;
    NoNote(s.d.log);
    if HasRoom(s.d, 1) {
      OneNote(hash, s, DeleteAllowed, NameDigest(hash, op.name), s.clock.floor);
      OneNote(hash, s, DeleteDenied, NameDigest(hash, op.name), s.clock.floor);
    }
  }

  lemma MarkerNotes(hash: Hash, s: State, op: Op)
    requires op.DeleteMarkerOp?
    ensures Notes(Next(hash, s, op).d.log) == Notes(s.d.log) + Noted(hash, s, op)
  {
    hide Append, NameDigest, Committing, Notes;
    NoNote(s.d.log);
    if HasRoom(s.d, 1) {
      OneNote(hash, s, DeleteAllowed, NameDigest(hash, op.name), s.clock.floor);
    }
  }

  lemma HeldLog(hash: Hash, s: State, name: string, hold: bool)
    requires name in s.d.index && HasRoom(s.d, 1)
    ensures Notes(SetLegalHold(hash, s, name, hold).0.d.log)
         == Notes(s.d.log) + [Note(if hold then LegalHoldSet else LegalHoldReleased, NameDigest(hash, name),
                                   s.clock.floor, s.clock.floor)]
  {
    hide NameDigest, Notes, Audited1, SetHold, ReleaseHold;
    var m := s.d.index[name];
    var lock := if hold then SetHold(m.lock) else ReleaseHold(m.lock);
    var s' := s.(d := s.d.(index := s.d.index[name := m.(lock := lock)]));
    OneNote(hash, s', if hold then LegalHoldSet else LegalHoldReleased, NameDigest(hash, name), s.clock.floor);
  }

  lemma HoldNotes(hash: Hash, s: State, op: Op)
    requires op.HoldOp? && op.name in s.d.index && HasRoom(s.d, 1)
    ensures Notes(Next(hash, s, op).d.log) == Notes(s.d.log) + Noted(hash, s, op)
  {
    hide NameDigest, Notes, SetLegalHold;
    HeldLog(hash, s, op.name, op.hold);
  }

  lemma SealNotes(hash: Hash, s: State, op: Op)
    requires op.SealOp?
    ensures Notes(Next(hash, s, op).d.log) == Notes(s.d.log) + Noted(hash, s, op)
  {
    hide Append, Notes;
    NoNote(s.d.log);
    if HasRoom(s.d, 1) {
      OneNote(hash, s.(d := s.d.(opSealed := true)), SealEngaged, ZERO_DIGEST, s.clock.floor);
    }
  }

  lemma TickNotes(hash: Hash, s: State, sample: Sample)
    ensures Notes(Reading(hash, s, sample).0.d.log) == Notes(s.d.log) + ReadingNotes(s, sample)
  {
    hide Append, Notes, AnomalyOf, OutOfStep;
    NoNote(s.d.log);
    var s' := s.(clock := Ticked(s.clock, sample, CLOCK_TOLERANCE));
    TickSeals(s.clock, Sample(s.clock.lastMono, s.clock.lastReal, false), sample, CLOCK_TOLERANCE);
    if HasRoom(s.d, 1) {
      OneNote(hash, s', SealEngaged, ZERO_DIGEST, s'.clock.floor);
    }
  }

  lemma ClockNotes(hash: Hash, s: State, op: Op)
    requires op.TickOp? || op.SystemTickOp?
    ensures Notes(Next(hash, s, op).d.log) == Notes(s.d.log) + Noted(hash, s, op)
  {
    hide Reading, Notes, OutOfStep;
    if op.TickOp? {
      TickNotes(hash, s, op.sample);
    } else {
      TickNotes(hash, s.(d := s.d.(lastBoot := op.boot)), SystemSample(s, op.sample, op.boot));
    }
  }

  lemma {:induction false} AllScrubbed(hash: Hash, s: State, verdicts: seq<(string, bool)>)
    requires HasRoom(s.d, |verdicts|)
    ensures Notes(ScrubAll(hash, s, verdicts).d.log) == Notes(s.d.log) + ScrubNotes(hash, s, verdicts)
  {
    hide NameDigest, Notes, LastVerdict, ScrubAll, ScrubNotes;
    if |verdicts| == 0 {
      NoneScrubbed(hash, s, verdicts);
    } else {
      var front, last := verdicts[..|verdicts| - 1], verdicts[|verdicts| - 1];
      var t := ScrubAll(hash, s, front);
      AllScrubbed(hash, s, front);
      Scrubbed(hash, s, front, last.0);
      ScrubLeavesClock(hash, s, front);
      LastScrubbed(hash, s, verdicts);
      OneScrubbed(hash, t, last.0, last.1);
    }
  }

  lemma NoneScrubbed(hash: Hash, s: State, verdicts: seq<(string, bool)>)
    requires HasRoom(s.d, 0) && |verdicts| == 0
    ensures ScrubAll(hash, s, verdicts) == s && ScrubNotes(hash, s, verdicts) == []
    ensures Notes(s.d.log) == Notes(s.d.log) + []
  {}

  lemma LastScrubbed(hash: Hash, s: State, verdicts: seq<(string, bool)>)
    requires HasRoom(s.d, |verdicts|) && |verdicts| > 0
    ensures var front, (name, ok) := verdicts[..|verdicts| - 1], verdicts[|verdicts| - 1];
            && ScrubAll(hash, s, verdicts) == Scrub1(hash, ScrubAll(hash, s, front), name, ok)
            && ScrubNotes(hash, s, verdicts)
               == ScrubNotes(hash, s, front)
                  + if name in s.d.index && !ok && !OutOfUse(s.d, front, name)
                    then [Note(ObjectQuarantined, NameDigest(hash, name), 0, s.clock.floor)] else []
  {
    hide NameDigest, Scrub1, LastVerdict;
  }

  lemma OneScrubbed(hash: Hash, s: State, name: string, ok: bool)
    requires HasRoom(s.d, 1)
    ensures Notes(Scrub1(hash, s, name, ok).d.log)
         == Notes(s.d.log)
            + if name in s.d.index && !ok && !s.d.index[name].quarantined
              then [Note(ObjectQuarantined, NameDigest(hash, name), 0, s.clock.floor)] else []
  {
    hide Append, NameDigest, Notes;
    NoNote(s.d.log);
    if name in s.d.index {
      var s' := s.(d := s.d.(index := s.d.index[name := s.d.index[name].(quarantined := !ok)]));
      OneNote(hash, s', ObjectQuarantined, NameDigest(hash, name), 0);
    }
  }

  lemma OtherNotes(hash: Hash, s: State, op: Op)
    requires op.CreateBucketOp? || op.DeleteBucketOp? || op.VersioningOp? || op.RecordVersionOp? || op.DeleteVersionOp?
               || op.ModesOp? || (op.ReopenOp? && s.saved.Some?)
               || (op.HoldOp? && !(op.name in s.d.index && HasRoom(s.d, 1)))
    ensures Notes(Next(hash, s, op).d.log) == Notes(s.d.log) + Noted(hash, s, op)
  {
    hide Notes, Newest, Committing, VersionIndex;
    NoNote(s.d.log);
  }

  /** Exactly what every operation adds to the log. */
  lemma AuditStep(hash: Hash, s: State, op: Op)
    requires !(op.ReopenOp? && s.saved == Option.None)
    ensures Notes(Next(hash, s, op).d.log) == Notes(s.d.log) + Noted(hash, s, op)
  {
    hide Next, Noted, Notes;
    match op {
      case PutOp(_, _, _, _, _, _, _) => PutNotes(hash, s, op);
      case DeleteOp(_, _) => DeleteNotes(hash, s, op);
      case DeleteMarkerOp(_) => MarkerNotes(hash, s, op);
      case HoldOp(name, _) =>
        if name in s.d.index && HasRoom(s.d, 1) {
          HoldNotes(hash, s, op);
        } else {
          OtherNotes(hash, s, op);
        }
      case ScrubOp(_) => ScrubbedNotes(hash, s, op);
      case TickOp(_) => ClockNotes(hash, s, op);
      case SystemTickOp(_, _) => ClockNotes(hash, s, op);
      case SealOp => SealNotes(hash, s, op);
      case _ => OtherNotes(hash, s, op);
    }
  }

  lemma ScrubbedNotes(hash: Hash, s: State, op: Op)
    requires op.ScrubOp?
    ensures Notes(Next(hash, s, op).d.log) == Notes(s.d.log) + Noted(hash, s, op)
  {
    hide ScrubAll, ScrubNotes, ScrubWrites, Committing, Notes;
    NoNote(s.d.log);
    if HasRoom(s.d, |op.verdicts|) {
      AllScrubbed(hash, s, op.verdicts);
    }
  }

  // ---- Whole runs ----

  ghost function AllNoted(hash: Hash, s: State, ops: seq<Op>): seq<Note> {
    if |ops| == 0 then []
    else AllNoted(hash, s, ops[..|ops| - 1]) + Noted(hash, Run(hash, s, ops[..|ops| - 1]), ops[|ops| - 1])
  }

  /** After any run the log says exactly what the operations of the run decided, in their order. */
  lemma {:induction false} AuditTrail(hash: Hash, s: State, ops: seq<Op>)
    requires forall i: nat :: i < |ops| ==> !(ops[i].ReopenOp? && Run(hash, s, ops[..i]).saved == Option.None)
    ensures Notes(Run(hash, s, ops).d.log) == Notes(s.d.log) + AllNoted(hash, s, ops)
  {
    hide Next, Noted, Notes;
    if |ops| == 0 {
      NoNote(s.d.log);
    } else {
      var front, op := ops[..|ops| - 1], ops[|ops| - 1];
      var t := Run(hash, s, front);
      assert forall i: nat :: i < |front| ==> front[..i] == ops[..i] && front[i] == ops[i];
      AuditTrail(hash, s, front);
      AuditStep(hash, t, op);
      assert Notes(s.d.log) + AllNoted(hash, s, front) + Noted(hash, t, op)
          == Notes(s.d.log) + (AllNoted(hash, s, front) + Noted(hash, t, op));
    }
  }
}
