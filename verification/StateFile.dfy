/** Snapshot and journal as text files, and reading them back. */
module StateFile {
  import opened Shards
  import opened TrustedTime
  import opened Audit
  import opened VaultState
  import opened Snapshot
  import opened Records
  import Vault

  ghost predicate AllWritable(rs: seq<Record>) {
    forall i :: 0 <= i < |rs| ==> Writable(rs[i])
  }

  ghost predicate AllPrintable(rs: seq<Record>) {
    AllWritable(rs) && forall i :: 0 <= i < |rs| ==> Printable(rs[i])
  }

  function Lines(rs: seq<Record>): seq<string>
    requires AllWritable(rs)
  {
    seq(|rs|, i requires 0 <= i < |rs| => Line(rs[i]))
  }

  /** A snapshot file: the title, the records, and before some record the count of audit entries. */
  function FileOf(rs: seq<Record>, k: nat, count: nat): seq<string>
    requires AllWritable(rs) && k <= |rs|
  {
    ["DEZHAN_VAULT 1"] + Lines(rs[..k]) + ["AUDIT" + Image(count)] + Lines(rs[k..])
  }

  // ---- Reading a file ----

  /** Applies one line; lines of other kinds change nothing. */
  function ApplyLine(d: Durable, line: string): Durable {
    match Parse(line)
    case None => d
    case Some(r) => Apply(d, r)
  }

  function ApplyLines(d: Durable, lines: seq<string>): Durable {
    if |lines| == 0 then d else ApplyLine(ApplyLines(d, lines[..|lines| - 1]), lines[|lines| - 1])
  }

  lemma {:induction false} ApplyLinesAppend(d: Durable, a: seq<string>, b: seq<string>)
    ensures ApplyLines(d, a + b) == ApplyLines(ApplyLines(d, a), b)
  {
    hide ApplyLine;
    if |b| == 0 {
      assert a + b == a;
    } else {
      var front := b[..|b| - 1];
      ApplyLinesAppend(d, a, front);
      assert (a + b)[..|a + b| - 1] == a + front;
    }
  }

  /** The lines of records do what the records do. */
  lemma {:induction false} LinesReplay(d: Durable, rs: seq<Record>)
    requires AllPrintable(rs)
    ensures ApplyLines(d, Lines(rs)) == Replay(d, rs)
  {
    hide Apply, Parse, Line, Printable;
    if |rs| > 0 {
      var front := rs[..|rs| - 1];
      LinesReplay(d, front);
      assert Lines(rs)[..|rs| - 1] == Lines(front);
      LineRoundTrip(rs[|rs| - 1]);
    }
  }

  lemma TitlesAreSkipped(d: Durable, count: nat)
    ensures ApplyLine(d, "DEZHAN_VAULT 1") == d && ApplyLine(d, "AUDIT" + Image(count)) == d
  {
    hide Words, Decimal;
    assert "DEZHAN_VAULT 1" == "DEZHAN_VAULT" + " 1";
    FirstWord("DEZHAN_VAULT", " 1");
    FirstWord("AUDIT", Image(count));
  }

  lemma OneLine(d: Durable, line: string)
    ensures ApplyLines(d, [line]) == ApplyLine(d, line)
  {
    hide ApplyLine;
    assert [line][..0] == [];
  }

  /** Reading a snapshot file gives the state that its records stand for. */
  lemma FileRebuilds(rs: seq<Record>, k: nat, count: nat)
    requires AllPrintable(rs) && k <= |rs|
    ensures ApplyLines(EMPTY, FileOf(rs, k, count)) == Rebuilt(rs)
  {
    hide ApplyLine, ApplyLines, Replay, Lines, Image;
    var title, audit := ["DEZHAN_VAULT 1"], ["AUDIT" + Image(count)];
    var head, tail := Lines(rs[..k]), Lines(rs[k..]);
    var d := Replay(EMPTY, rs[..k]);
    ApplyLinesAppend(EMPTY, title + head + audit, tail);
    ApplyLinesAppend(EMPTY, title + head, audit);
    ApplyLinesAppend(EMPTY, title, head);
    OneLine(EMPTY, "DEZHAN_VAULT 1");
    OneLine(d, "AUDIT" + Image(count));
    TitlesAreSkipped(EMPTY, count);
    TitlesAreSkipped(d, count);
    LinesReplay(EMPTY, rs[..k]);
    LinesReplay(d, rs[k..]);
    ReplayAppend(EMPTY, rs[..k], rs[k..]);
    assert rs[..k] + rs[k..] == rs;
  }

  // ---- Text ----

  /** A text file: every line ends with a line feed. */
  function TextOf(lines: seq<string>): string {
    if |lines| == 0 then "" else lines[0] + "\n" + TextOf(lines[1..])
  }

  function LineLength(text: string): (n: nat)
    ensures n <= |text| && Feedless(text[..n]) && (n < |text| ==> text[n] == '\n')
  {
    if |text| == 0 || text[0] == '\n' then 0
    else
      var n := 1 + LineLength(text[1..]);
      assert text[..n] == [text[0]] + text[1..][..n - 1];
      n
  }

  /** The lines of a text, as they are read one by one. */
  function LinesOf(text: string): seq<string>
    decreases |text|
  {
    if |text| == 0 then []
    else
      var n := LineLength(text);
      [text[..n]] + if n < |text| then LinesOf(text[n + 1..]) else []
  }

  lemma {:induction false} LineEnds(line: string, rest: string)
    requires Feedless(line)
    ensures LineLength(line + "\n" + rest) == |line|
  {
    var text := line + "\n" + rest;
    if |line| > 0 {
      LineEnds(line[1..], rest);
      assert text[1..] == line[1..] + "\n" + rest;
    }
  }

  ghost predicate AllFeedless(lines: seq<string>) {
    forall i :: 0 <= i < |lines| ==> Feedless(lines[i])
  }

  /** Lines without line feeds are read back. */
  lemma {:induction false} LinesReadBack(lines: seq<string>)
    requires AllFeedless(lines)
    ensures LinesOf(TextOf(lines)) == lines
  {
    if |lines| > 0 {
      var rest := TextOf(lines[1..]);
      var text := lines[0] + "\n" + rest;
      LinesReadBack(lines[1..]);
      LineEnds(lines[0], rest);
      assert text[..|lines[0]|] == lines[0] && text[|lines[0]| + 1..] == rest;
    }
  }

  /** Every record is printable, and a boot id is on one line. */
  ghost predicate AllOneLine(rs: seq<Record>) {
    AllPrintable(rs) && forall i :: 0 <= i < |rs| && rs[i].Boot? ==> Feedless(rs[i].boot)
  }

  lemma LinesFeedless(rs: seq<Record>)
    requires AllOneLine(rs)
    ensures AllFeedless(Lines(rs))
  {
    hide Line, Feedless;
    forall i | 0 <= i < |rs|
      ensures Feedless(Lines(rs)[i])
    {
      LineIsFeedless(rs[i]);
    }
  }

  lemma FileFeedless(rs: seq<Record>, k: nat, count: nat)
    requires AllOneLine(rs) && k <= |rs|
    ensures AllFeedless(FileOf(rs, k, count))
  {
    hide Line, Feedless, Lines, Image, Printable;
    Tags();
    FeedlessParts(count, true);
    Feeds("AUDIT", Image(count));
    LinesFeedless(rs[..k]);
    LinesFeedless(rs[k..]);
  }

  /** Reading the text of a snapshot and then that of a journal gives the state that their records
      stand for. */
  lemma TextRebuilds(rs: seq<Record>, k: nat, count: nat, journal: seq<Record>)
    requires AllOneLine(rs) && k <= |rs| && AllOneLine(journal)
    ensures ApplyLines(EMPTY, LinesOf(TextOf(FileOf(rs, k, count))) + LinesOf(TextOf(Lines(journal))))
              == Rebuilt(rs + journal)
  {
    hide Line, Feedless, Lines, Image, Printable, LinesOf, TextOf, ApplyLines, FileOf, Replay;
    FileFeedless(rs, k, count);
    LinesReadBack(FileOf(rs, k, count));
    LinesFeedless(journal);
    LinesReadBack(Lines(journal));
    ApplyLinesAppend(EMPTY, FileOf(rs, k, count), Lines(journal));
    FileRebuilds(rs, k, count);
    LinesReplay(Rebuilt(rs), journal);
    ReplayAppend(EMPTY, rs, journal);
  }

  /** The text on the disk of a vault with a snapshot gives the state in its memory. */
  lemma VaultFromText(v: Vault.Vault, k: nat, count: nat)
    requires v.Valid() && v.snapshot.Some? && AllOneLine(v.snapshot.value) && AllOneLine(v.journal)
    requires k <= |v.snapshot.value|
    ensures ApplyLines(EMPTY, LinesOf(TextOf(FileOf(v.snapshot.value, k, count))) + LinesOf(TextOf(Lines(v.journal))))
              == v.d
  {
    hide Line, Feedless, Lines, Image, Printable, LinesOf, TextOf, ApplyLines, FileOf, Rebuilt;
    v.OnDisk();
    TextRebuilds(v.snapshot.value, k, count, v.journal);
  }

  // ---- States that can be printed ----

  /** The names and texts of the state are of single-byte characters. */
  ghost predicate WritableState(d: Durable) {
    && (forall n :: n in d.buckets ==> Latin(n))
    && (forall n :: n in d.versioned ==> Latin(n))
    && (forall n :: n in d.versions ==> Latin(n) && forall v :: v in d.versions[n] ==> Latin(v.meta))
    && (forall n :: n in d.index ==> Latin(n) && Latin(d.index[n].userMeta))
  }

  /** And no name is empty, and the boot id has no blanks. */
  ghost predicate PrintableState(d: Durable) {
    WritableState(d) && Spaceless(d.lastBoot) && "" !in d.buckets && "" !in d.versioned && "" !in d.versions
      && "" !in d.index
  }

  lemma AboutIsWritable(d: Durable, r: Record)
    requires WritableState(d) && About(d, r)
    ensures Writable(r)
  {
    hide Latin;
  }

  lemma AboutIsPrintable(d: Durable, r: Record)
    requires PrintableState(d) && About(d, r)
    ensures Writable(r) && Printable(r)
  {
    hide Latin, Spaceless;
  }

  /** Saving a state as text and loading the text gives the state back. */
  method SaveAndLoad(hash: Hash, d: Durable, clock: Guard) returns (lines: seq<string>)
    requires Inv(hash, d) && PrintableState(d)
    ensures ApplyLines(EMPTY, lines) == d
  {
    hide Inv, PrintableState, About, Trail, ApplyLines, Rebuilt, Writable, Printable, Image, Line;
    var rs := Save(hash, d, clock);
    forall i | 0 <= i < |rs|
      ensures Writable(rs[i]) && Printable(rs[i])
    {
      AboutIsPrintable(d, rs[i]);
    }
    var k := if |rs| < |d.log| then 0 else |rs| - |d.log|;
    lines := FileOf(rs, k, |d.log|);
    FileRebuilds(rs, k, |d.log|);
  }
}
