/** The independent verifier: it reads the audit lines of a snapshot and checks the chain. */
module Verifier {
  import opened BitOps
  import opened Shards
  import opened TrustedTime
  import opened Audit
  import opened VaultState
  import opened Snapshot
  import opened Records
  import opened StateFile

  // ---- Reading ----

  /** The verifier's own reading of a digest. */
  function ReadDigest(s: string): Digest {
    if |s| < 64 then ZERO_DIGEST else FromHex(s[..64])
  }

  /** The entry of an audit line; none if a number is out of range, which ends the verifier. */
  function ReadEntry(line: string): Option<Entry> {
    var ws := Words(line);
    if NumberOf(WordAt(ws, 2)) > SEQ_LAST || NumberOf(WordAt(ws, 3)) > TIME_LAST || NumberOf(WordAt(ws, 4)) > 9
       || NumberOf(WordAt(ws, 6)) > TIME_LAST then Option.None
    else Some(Entry(NumberOf(WordAt(ws, 2)), NumberOf(WordAt(ws, 3)), EventAt(NumberOf(WordAt(ws, 4))),
                    ReadDigest(WordAt(ws, 5)),
                    NumberOf(WordAt(ws, 6)), ReadDigest(WordAt(ws, 7)), ReadDigest(WordAt(ws, 8))))
  }

  predicate IsAuditLine(line: string) {
    WordAt(Words(line), 1) == "A"
  }

  /** The entries of the audit lines, in order. */
  function EntriesOf(lines: seq<string>): Option<seq<Entry>> {
    if |lines| == 0 then Some([])
    else
      var front, line := EntriesOf(lines[..|lines| - 1]), lines[|lines| - 1];
      if front == Option.None || !IsAuditLine(line) then front
      else if ReadEntry(line) == Option.None then Option.None
      else Some(front.value + [ReadEntry(line).value])
  }

  /** Accepts exactly the files whose audit lines are readable and form a valid chain. */
  method Verify(hash: Hash, lines: seq<string>) returns (ok: bool)
    ensures ok <==> EntriesOf(lines).Some? && ValidChain(hash, EntriesOf(lines).value)
  {
    hide Words, ReadEntry, ValidChain;
    var items: seq<Entry> := [];
    for i := 0 to |lines|
      invariant EntriesOf(lines[..i]) == Some(items)
    {
      assert lines[..i + 1][..i] == lines[..i];
      var tag := Field(lines[i], 1);
      if tag == "A" {
        var e := ReadEntry(lines[i]);
        if e == Option.None {
          UnreadableLine(lines, i + 1);
          return false;
        }
        items := items + [e.value];
      }
    }
    assert lines[..|lines|] == lines;
    ok := VerifyChain(hash, items);
  }

  lemma {:induction false} UnreadableLine(lines: seq<string>, i: nat)
    requires i <= |lines| && EntriesOf(lines[..i]) == Option.None
    ensures EntriesOf(lines) == Option.None
    decreases |lines| - i
  {
    hide IsAuditLine, ReadEntry;
    if i == |lines| {
      assert lines[..i] == lines;
    } else {
      assert lines[..i + 1][..i] == lines[..i];
      UnreadableLine(lines, i + 1);
    }
  }

  // ---- Snapshots are accepted ----

  lemma DigestIsRead(d: Digest)
    ensures ReadDigest(ToHex(d)) == d
  {
    HexRoundTrip(d);
    assert ToHex(d)[..64] == ToHex(d);
  }

  lemma EntryIsRead(e: Entry)
    ensures IsAuditLine(Line(Audited(e))) && ReadEntry(Line(Audited(e))) == Some(e)
  {
    hide Words, Line, Decimal, ToHex, NumberOf, ReadDigest, Position, EventAt;
    EntryLine(e);
    DecimalRoundTrip(e.num);
    DecimalRoundTrip(e.time);
    DecimalRoundTrip(Position(e.kind));
    DecimalRoundTrip(e.detail);
    DigestIsRead(e.subject);
    DigestIsRead(e.prev);
    DigestIsRead(e.hash);
    EventRoundTrip(e.kind);
  }

  /** No other record has a line with the tag of audit lines. */
  lemma OtherLines(r: Record)
    requires Writable(r) && !r.Audited?
    ensures !IsAuditLine(Line(r))
  {
    hide Words, Image, Flag, TextToHex, ToHex, VersionText, LockText, Latin, IsAuditLine;
    assert Line(r)[0] != 'A' && Line(r)[0] != ' ';
    StartsOtherwise(Line(r));
  }

  lemma StartsOtherwise(line: string)
    requires |line| > 0 && line[0] != 'A' && line[0] != ' '
    ensures !IsAuditLine(line)
  {
    assert WordLength(line) > 0;
    assert line[..WordLength(line)][0] == line[0];
  }

  lemma EntriesOne(lines: seq<string>, line: string)
    ensures EntriesOf(lines).Some? && !IsAuditLine(line) ==> EntriesOf(lines + [line]) == EntriesOf(lines)
    ensures EntriesOf(lines).Some? && IsAuditLine(line) && ReadEntry(line).Some? ==>
              EntriesOf(lines + [line]) == Some(EntriesOf(lines).value + [ReadEntry(line).value])
  {
    hide IsAuditLine, ReadEntry;
    assert (lines + [line])[..|lines|] == lines;
  }

  /** The verifier finds exactly the audit entries among the records. */
  lemma {:induction false} LinesGiveTrail(start: seq<string>, rs: seq<Record>)
    requires AllWritable(rs) && EntriesOf(start).Some?
    ensures EntriesOf(start + Lines(rs)) == Some(EntriesOf(start).value + Trail(rs))
  {
    hide EntriesOf, Line, IsAuditLine, ReadEntry, Writable, Trail;
    if |rs| == 0 {
      assert start + Lines(rs) == start && rs == [];
      NoTrail();
      assert EntriesOf(start).value + [] == EntriesOf(start).value;
    } else {
      var front, r := rs[..|rs| - 1], rs[|rs| - 1];
      LinesGiveTrail(start, front);
      assert start + Lines(rs) == (start + Lines(front)) + [Line(r)];
      EntriesOne(start + Lines(front), Line(r));
      assert rs == front + [r];
      TrailOne(front, r);
      if r.Audited? {
        EntryIsRead(r.entry);
        var base := EntriesOf(start).value;
        assert base + (Trail(front) + [r.entry]) == (base + Trail(front)) + [r.entry];
      } else {
        OtherLines(r);
        assert Trail(front) + [] == Trail(front);
      }
    }
  }

  lemma NoTrail()
    ensures Trail([]) == []
  {}

  lemma TitleLines(count: nat)
    ensures !IsAuditLine("DEZHAN_VAULT 1") && !IsAuditLine("AUDIT" + Image(count))
  {
    hide Words, Decimal;
    assert "DEZHAN_VAULT 1" == "DEZHAN_VAULT" + " 1";
    FirstWord("DEZHAN_VAULT", " 1");
    FirstWord("AUDIT", Image(count));
  }

  lemma {:induction false} TrailSplits(rs: seq<Record>, k: nat)
    requires k <= |rs|
    ensures Trail(rs) == Trail(rs[..k]) + Trail(rs[k..])
    decreases |rs|
  {
    if k == |rs| {
      assert rs[..k] == rs && rs[k..] == [];
    } else {
      var front := rs[..|rs| - 1];
      TrailSplits(front, k);
      assert front[..k] == rs[..k] && rs[k..][..|rs| - k - 1] == front[k..];
    }
  }

  /** The verifier accepts every snapshot of a state that satisfies the invariant. */
  lemma SnapshotsAreAccepted(hash: Hash, d: Durable, rs: seq<Record>, k: nat, count: nat)
    requires Inv(hash, d) && Trail(rs) == d.log && AllWritable(rs) && k <= |rs|
    ensures EntriesOf(FileOf(rs, k, count)) == Some(d.log) && ValidChain(hash, d.log)
  {
    hide EntriesOf, Trail, IsAuditLine, Lines, ValidChain, Image;
    var title := ["DEZHAN_VAULT 1"];
    TitleLines(count);
    NoLines();
    EntriesOne([], "DEZHAN_VAULT 1");
    assert [] + title == title;
    LinesGiveTrail(title, rs[..k]);
    var upTo := title + Lines(rs[..k]);
    EntriesOne(upTo, "AUDIT" + Image(count));
    LinesGiveTrail(upTo + ["AUDIT" + Image(count)], rs[k..]);
    TrailSplits(rs, k);
    assert [] + Trail(rs[..k]) == Trail(rs[..k]);
  }

  lemma NoLines()
    ensures EntriesOf([]) == Some([])
  {}

  /** Saving a state and giving the file to the verifier. */
  method SaveThenVerify(hash: Hash, d: Durable, clock: Guard) returns (ok: bool)
    requires Inv(hash, d) && WritableState(d)
    ensures ok
  {
    hide Inv, WritableState, About, Trail, ValidChain, EntriesOf, Rebuilt, Writable, Image, Line;
    var rs := Save(hash, d, clock);
    forall i | 0 <= i < |rs|
      ensures Writable(rs[i])
    {
      AboutIsWritable(d, rs[i]);
    }
    var audits := |d.log|;
    var before := if |rs| < audits then 0 else |rs| - audits;
    var lines := FileOf(rs, before, audits);
    SnapshotsAreAccepted(hash, d, rs, before, audits);
    ok := Verify(hash, lines);
  }
}
