/** The text of snapshot and journal: one line per record, fields separated by blanks. */
module Records {
  import opened BitOps
  import opened Shards
  import opened TrustedTime
  import opened Audit
  import opened VaultState

  // ---- Words ----

  predicate Spaceless(w: string) {
    forall i :: 0 <= i < |w| ==> w[i] != ' '
  }

  /** On one line. */
  predicate Feedless(w: string) {
    forall i :: 0 <= i < |w| ==> w[i] != '\n'
  }

  predicate IsWord(w: string) {
    |w| > 0 && Spaceless(w)
  }

  /** The length of the leading run of characters that are not blanks. */
  function WordLength(s: string): (n: nat)
    ensures n <= |s| && Spaceless(s[..n]) && (n < |s| ==> s[n] == ' ')
  {
    if |s| == 0 || s[0] == ' ' then 0
    else
      var n := 1 + WordLength(s[1..]);
      assert s[..n] == [s[0]] + s[1..][..n - 1];
      n
  }

  /** The fields of a line. */
  function Words(s: string): seq<string>
    decreases |s|
  {
    if |s| == 0 then []
    else if s[0] == ' ' then Words(s[1..])
    else [s[..WordLength(s)]] + Words(s[WordLength(s)..])
  }

  lemma {:induction false} WordLengthIs(w: string, rest: string)
    requires Spaceless(w) && (|rest| > 0 ==> rest[0] == ' ')
    ensures WordLength(w + rest) == |w|
  {
    if |w| > 0 {
      assert (w + rest)[1..] == w[1..] + rest;
      WordLengthIs(w[1..], rest);
    } else {
      assert w + rest == rest;
    }
  }

  /** A word at the start of a line is its first field. */
  lemma FirstWord(w: string, rest: string)
    requires IsWord(w) && (|rest| > 0 ==> rest[0] == ' ')
    ensures Words(w + rest) == [w] + Words(rest)
  {
    WordLengthIs(w, rest);
    assert (w + rest)[..|w|] == w && (w + rest)[|w|..] == rest;
  }

  lemma SkipBlank(rest: string)
    ensures Words(" " + rest) == Words(rest)
  {
    assert (" " + rest)[1..] == rest;
  }

  /** The `n`-th field, counting from 1, or nothing. */
  function FieldOf(line: string, n: nat): string
    requires n >= 1
  {
    if n <= |Words(line)| then Words(line)[n - 1] else ""
  }

  /** A scan inside a word that stops has come to its end. */
  lemma {:induction false} StopsAtEnd(s: string, k: nat)
    requires k <= WordLength(s) && (k < |s| ==> s[k] == ' ')
    ensures k == WordLength(s)
  {
    if k > 0 {
      StopsAtEnd(s[1..], k - 1);
    }
  }

  lemma BlankStep(line: string, i: nat)
    requires i < |line| && line[i] == ' '
    ensures Words(line[i..]) == Words(line[i + 1..])
  {
    assert line[i..][1..] == line[i + 1..];
  }

  lemma WordStep(line: string, start: nat, i: nat)
    requires start < |line| && line[start] != ' ' && i == start + WordLength(line[start..])
    ensures i <= |line| && Words(line[start..]) == [line[start..i]] + Words(line[i..])
  {
    hide WordLength;
    assert line[start..][..i - start] == line[start..i] && line[start..][i - start..] == line[i..];
  }

  lemma NoWords()
    ensures Words("") == []
  {}

  /** The `n`-th field, by two nested scans. */
  method Field(line: string, n: nat) returns (f: string)
    requires n >= 1
    ensures f == FieldOf(line, n)
  {
    hide Words, WordLength;
    NoWords();
    assert line[..] == line[0..];
    var i, count := 0, 0;
    while i < |line|
      invariant i <= |line| && count <= |Words(line)| && Words(line)[count..] == Words(line[i..]) && count < n
      decreases |line| - i
    {
      while i < |line| && line[i] == ' '
        invariant i <= |line| && Words(line)[count..] == Words(line[i..])
        decreases |line| - i
      {
        BlankStep(line, i);
        i := i + 1;
      }
      if i >= |line| {
        break;
      }
      var start := i;
      ghost var length := WordLength(line[start..]);
      while i < |line| && line[i] != ' '
        invariant start <= i <= start + length && start + length <= |line|
        decreases |line| - i
      {
        assert line[start..][i - start] == line[i];
        i := i + 1;
      }
      StopsAtEnd(line[start..], i - start);
      WordStep(line, start, i);
      count := count + 1;
      assert Words(line)[count..] == Words(line)[count - 1..][1..];
      if count == n {
        return line[start..i];
      }
    }
    assert line[|line|..] == "";
    return "";
  }

  // ---- Numbers ----

  function DigitChar(d: nat): char
    requires d < 10
  {
    ['0', '1', '2', '3', '4', '5', '6', '7', '8', '9'][d]
  }

  function Decimal(n: nat): (s: string)
    ensures IsWord(s) && Feedless(s)
  {
    if n < 10 then [DigitChar(n)] else Decimal(n / 10) + [DigitChar(n % 10)]
  }

  function DigitValue(c: char): nat {
    if '0' <= c <= '9' then c as int - '0' as int else 0
  }

  function NumberOf(s: string): nat {
    if |s| == 0 then 0 else NumberOf(s[..|s| - 1]) * 10 + DigitValue(s[|s| - 1])
  }

  lemma {:induction false} DecimalRoundTrip(n: nat)
    ensures NumberOf(Decimal(n)) == n
  {
    if n < 10 {
      assert Decimal(n)[..0] == "";
    } else {
      DecimalRoundTrip(n / 10);
      assert Decimal(n)[..|Decimal(n)| - 1] == Decimal(n / 10);
    }
  }

  // ---- Hexadecimal ----

  function HexChar(n: nat): char
    requires n < 16
  {
    ['0', '1', '2', '3', '4', '5', '6', '7', '8', '9', 'a', 'b', 'c', 'd', 'e', 'f'][n]
  }

  function Nibble(c: char): nat {
    if '0' <= c <= '9' then c as int - '0' as int
    else if 'a' <= c <= 'f' then c as int - 'a' as int + 10
    else if 'A' <= c <= 'F' then c as int - 'A' as int + 10
    else 0
  }

  function ToHex(b: seq<Byte>): (s: string)
    ensures |s| == 2 * |b| && Spaceless(s) && Feedless(s)
  {
    if |b| == 0 then "" else ToHex(b[..|b| - 1]) + [HexChar(b[|b| - 1] / 16), HexChar(b[|b| - 1] % 16)]
  }

  function Octet(c: char, d: char): (b: Byte)
  {
    (Nibble(c) * 16 + Nibble(d)) % 256
  }

  function FromHex(s: string): (b: seq<Byte>)
    ensures |b| == |s| / 2
  {
    if |s| < 2 then [] else [Octet(s[0], s[1])] + FromHex(s[2..])
  }

  lemma NibbleOfHex(n: nat)
    requires n < 16
    ensures Nibble(HexChar(n)) == n
  {}

  lemma OctetOfHex(b: Byte)
    ensures Octet(HexChar(b / 16), HexChar(b % 16)) == b
  {
    NibbleOfHex(b / 16);
    NibbleOfHex(b % 16);
  }

  lemma {:induction false} FromHexAppend(s: string, c: char, d: char)
    requires |s| % 2 == 0
    ensures FromHex(s + [c, d]) == FromHex(s) + [Octet(c, d)]
  {
    if |s| == 0 {
      assert s + [c, d] == [c, d];
      assert [c, d][2..] == [];
    } else {
      assert (s + [c, d])[2..] == s[2..] + [c, d];
      FromHexAppend(s[2..], c, d);
    }
  }

  lemma {:induction false} HexRoundTrip(b: seq<Byte>)
    ensures FromHex(ToHex(b)) == b
  {
    if |b| > 0 {
      var front, x := b[..|b| - 1], b[|b| - 1];
      HexRoundTrip(front);
      FromHexAppend(ToHex(front), HexChar(x / 16), HexChar(x % 16));
      OctetOfHex(x);
    }
  }

  /** Strings of one-byte characters. */
  predicate Latin(s: string) {
    forall i :: 0 <= i < |s| ==> s[i] as int < 256
  }

  function Codes(s: string): (b: seq<Byte>)
    requires Latin(s)
    ensures |b| == |s|
  {
    seq(|s|, i requires 0 <= i < |s| => s[i] as int)
  }

  function Chars(b: seq<Byte>): (s: string)
    ensures |s| == |b| && Latin(s)
  {
    seq(|b|, i requires 0 <= i < |b| => b[i] as char)
  }

  lemma CodesRoundTrip(s: string)
    requires Latin(s)
    ensures Chars(Codes(s)) == s
  {}

  function TextToHex(s: string): (h: string)
    requires Latin(s)
    ensures Spaceless(h) && Feedless(h) && |h| == 2 * |s|
  {
    ToHex(Codes(s))
  }

  function HexToText(h: string): string {
    Chars(FromHex(h))
  }

  lemma TextRoundTrip(s: string)
    requires Latin(s)
    ensures HexToText(TextToHex(s)) == s
  {
    HexRoundTrip(Codes(s));
    CodesRoundTrip(s);
  }

  function DigestOf(h: string): Digest {
    if |FromHex(h)| == 32 then FromHex(h) else ZERO_DIGEST
  }

  lemma DigestRoundTrip(d: Digest)
    ensures DigestOf(ToHex(d)) == d && IsWord(ToHex(d))
  {
    HexRoundTrip(d);
  }

  // ---- Lines ----

  function Image(n: nat): string {
    " " + Decimal(n)
  }

  function Flag(b: bool): string {
    if b then " 1" else " 0"
  }

  function ModePosition(m: Mode): nat {
    match m
    case Unlocked => 0
    case Governance => 1
    case Compliance => 2
  }

  function ModeAt(p: nat): Mode {
    if p == 0 then Unlocked else if p == 1 then Governance else Compliance
  }

  function EventAt(p: nat): Event {
    match p
    case 0 => Genesis
    case 1 => LockCreated
    case 2 => RetentionExtended
    case 3 => DeleteDenied
    case 4 => DeleteAllowed
    case 5 => ClockAnomaly
    case 6 => SealEngaged
    case 7 => LegalHoldSet
    case 8 => LegalHoldReleased
    case _ => ObjectQuarantined
  }

  lemma EventRoundTrip(e: Event)
    ensures EventAt(Position(e)) == e
  {}

  /** A record that has a line: its texts are of one-byte characters.  Nothing writes that a bucket
      is gone. */
  predicate Writable(r: Record) {
    match r
    case Bucket(name, _) => Latin(name)
    case BucketGone(_) => false
    case Versioning(name, _) => Latin(name)
    case Versioned(name, v) => Latin(name) && Latin(v.meta)
    case Object(name, m) => Latin(name) && Latin(m.userMeta)
    case Deleted(name) => Latin(name)
    case _ => true
  }

  /** Names are not empty, and a boot id has no blanks. */
  predicate Printable(r: Record) {
    && Writable(r)
    && match r
       case Boot(boot) => Spaceless(boot)
       case Bucket(name, _) => |name| > 0
       case Versioning(name, _) => |name| > 0
       case Versioned(name, _) => |name| > 0
       case Object(name, _) => |name| > 0
       case Deleted(name) => |name| > 0
       case _ => true
  }

  /** The second half of an object line. */
  function FlagsText(m: Meta): (s: string)
    requires Latin(m.userMeta)
    ensures |s| > 0 && s[0] == ' '
  {
    Flag(m.composite)
        + (Flag(m.lock.legalHold) + (Flag(m.quarantined) + (Image(m.size) + (" " + TextToHex(m.userMeta)))))
  }

  function LockText(m: Meta): string
    requires Latin(m.userMeta)
  {
    Image(ModePosition(m.lock.mode)) + (Image(m.lock.retainUntil) + (Image(m.lock.createdAt) + FlagsText(m)))
  }

  /** What follows the name on a version line. */
  function VersionText(v: Version): string
    requires Latin(v.meta)
  {
    Image(v.vid) + (" " + (ToHex(v.id) + (Image(v.size) + (Flag(v.deleted) + (" " + TextToHex(v.meta))))))
  }

  /** The second half of an audit line. */
  function LinkText(e: Entry): (s: string)
    ensures |s| > 0 && s[0] == ' '
  {
    Image(e.detail) + (" " + (ToHex(e.prev) + (" " + ToHex(e.hash))))
  }

  function Line(r: Record): string
    requires Writable(r)
  {
    match r
    case Clock(floor, isSealed, opSealed) => "CLOCK " + (Image(floor) + (Flag(isSealed) + Flag(opSealed)))
    case Boot(boot) => "BOOT " + boot
    case Modes(ingestOnly, syncShut) => "MODES" + (Flag(ingestOnly) + Flag(syncShut))
    case Bucket(name, objectLock) => "BKT " + (TextToHex(name) + Flag(objectLock))
    case Versioning(name, flag) => "VSN " + (TextToHex(name) + Flag(flag))
    case Counter(n) => "VSEQ" + Image(n)
    case Versioned(name, v) =>
      "VER " + (TextToHex(name) + VersionText(v))
    case Object(name, m) =>
      "OBJ " + (TextToHex(name) + (" " + (ToHex(m.id) + LockText(m))))
    case Deleted(name) => "DEL " + TextToHex(name)
    case Audited(e) =>
      "A" + (Image(e.num) + (Image(e.time) + (Image(Position(e.kind)) + (" " + (ToHex(e.subject) + LinkText(e))))))
  }

  /** The record of a line; none if it is a line of another kind. */
  function Parse(line: string): Option<Record> {
    ParseWords(Words(line))
  }

  function WordAt(ws: seq<string>, n: nat): string
    requires n >= 1
  {
    if n <= |ws| then ws[n - 1] else ""
  }

  function TimeOf(s: string): Time {
    if NumberOf(s) <= TIME_LAST then NumberOf(s) else TIME_LAST
  }

  function ParseWords(ws: seq<string>): Option<Record> {
    var tag := WordAt(ws, 1);
    if tag == "CLOCK" then Some(Clock(TimeOf(WordAt(ws, 2)), WordAt(ws, 3) == "1", WordAt(ws, 4) == "1"))
    else if tag == "BOOT" then Some(Boot(WordAt(ws, 2)))
    else if tag == "MODES" then Some(Modes(WordAt(ws, 2) == "1", WordAt(ws, 3) == "1"))
    else if tag == "BKT" then Some(Bucket(HexToText(WordAt(ws, 2)), WordAt(ws, 3) == "1"))
    else if tag == "BKD" then Some(BucketGone(HexToText(WordAt(ws, 2))))
    else if tag == "VSN" then Some(Versioning(HexToText(WordAt(ws, 2)), WordAt(ws, 3) != "0"))
    else if tag == "VSEQ" then Some(Counter(NumberOf(WordAt(ws, 2))))
    else if tag == "VER" then
      Some(Versioned(HexToText(WordAt(ws, 2)),
                     Version(NumberOf(WordAt(ws, 3)), DigestOf(WordAt(ws, 4)), NumberOf(WordAt(ws, 5)),
                             HexToText(WordAt(ws, 7)),
                             WordAt(ws, 6) == "1")))
    else if tag == "OBJ" then
      Some(Object(HexToText(WordAt(ws, 2)),
                  Meta(DigestOf(WordAt(ws, 3)),
                       Lock(ModeAt(NumberOf(WordAt(ws, 4))), TimeOf(WordAt(ws, 5)), TimeOf(WordAt(ws, 6)),
                            WordAt(ws, 8) == "1"),
                       WordAt(ws, 7) == "1", WordAt(ws, 9) == "1", NumberOf(WordAt(ws, 10)),
                       HexToText(WordAt(ws, 11)))))
    else if tag == "DEL" then Some(Deleted(HexToText(WordAt(ws, 2))))
    else if tag == "A" then ParseEntry(ws)
    else Option.None
  }

  /** An audit line: its sequence number must be in range. */
  function ParseEntry(ws: seq<string>): Option<Record> {
    if NumberOf(WordAt(ws, 2)) > SEQ_LAST then Option.None
    else
      Some(Audited(Entry(NumberOf(WordAt(ws, 2)), TimeOf(WordAt(ws, 3)), EventAt(NumberOf(WordAt(ws, 4))),
                         DigestOf(WordAt(ws, 5)),
                         TimeOf(WordAt(ws, 6)), DigestOf(WordAt(ws, 7)), DigestOf(WordAt(ws, 8)))))
  }

  // ---- Lines are on one line ----

  lemma Feeds(a: string, b: string)
    requires Feedless(a) && Feedless(b)
    ensures Feedless(a + b)
  {}

  lemma FeedlessParts(n: nat, b: bool)
    ensures Feedless(Image(n)) && Feedless(Flag(b)) && Feedless(" ")
  {
    hide Decimal;
    Feeds(" ", Decimal(n));
  }

  lemma LockFeedless(m: Meta)
    requires Latin(m.userMeta)
    ensures Feedless(LockText(m))
  {
    hide Feedless, Image, Flag, TextToHex, ModePosition;
    FeedlessParts(m.size, m.quarantined);
    FeedlessParts(ModePosition(m.lock.mode), m.lock.legalHold);
    FeedlessParts(m.lock.retainUntil, m.composite);
    FeedlessParts(m.lock.createdAt, true);
    var t := " " + TextToHex(m.userMeta);
    Feeds(" ", TextToHex(m.userMeta));
    Feeds(Image(m.size), t);
    Feeds(Flag(m.quarantined), Image(m.size) + t);
    Feeds(Flag(m.lock.legalHold), Flag(m.quarantined) + (Image(m.size) + t));
    Feeds(Flag(m.composite), Flag(m.lock.legalHold) + (Flag(m.quarantined) + (Image(m.size) + t)));
    Feeds(Image(m.lock.createdAt), FlagsText(m));
    Feeds(Image(m.lock.retainUntil), Image(m.lock.createdAt) + FlagsText(m));
    Feeds(Image(ModePosition(m.lock.mode)), Image(m.lock.retainUntil) + (Image(m.lock.createdAt) + FlagsText(m)));
  }

  lemma VersionFeedless(v: Version)
    requires Latin(v.meta)
    ensures Feedless(VersionText(v))
  {
    hide Feedless, Image, Flag, TextToHex, ToHex;
    FeedlessParts(v.vid, v.deleted);
    FeedlessParts(v.size, true);
    var t := Flag(v.deleted) + (" " + TextToHex(v.meta));
    Feeds(" ", TextToHex(v.meta));
    Feeds(Flag(v.deleted), " " + TextToHex(v.meta));
    Feeds(Image(v.size), t);
    Feeds(ToHex(v.id), Image(v.size) + t);
    Feeds(" ", ToHex(v.id) + (Image(v.size) + t));
    Feeds(Image(v.vid), " " + (ToHex(v.id) + (Image(v.size) + t)));
  }

  lemma EntryFeedless(e: Entry)
    ensures Feedless(Line(Audited(e)))
  {
    hide Feedless, Image, ToHex, Position;
    FeedlessParts(e.num, true);
    FeedlessParts(e.time, true);
    FeedlessParts(Position(e.kind), true);
    FeedlessParts(e.detail, true);
    Feeds(" ", ToHex(e.hash));
    Feeds(ToHex(e.prev), " " + ToHex(e.hash));
    Feeds(" ", ToHex(e.prev) + (" " + ToHex(e.hash)));
    Feeds(Image(e.detail), " " + (ToHex(e.prev) + (" " + ToHex(e.hash))));
    var t := ToHex(e.subject) + LinkText(e);
    Feeds(ToHex(e.subject), LinkText(e));
    Feeds(" ", t);
    Feeds(Image(Position(e.kind)), " " + t);
    Feeds(Image(e.time), Image(Position(e.kind)) + (" " + t));
    Feeds(Image(e.num), Image(e.time) + (Image(Position(e.kind)) + (" " + t)));
    assert Feedless("A") by {
      Tags();
    }
    Feeds("A", Image(e.num) + (Image(e.time) + (Image(Position(e.kind)) + (" " + t))));
  }

  lemma Tags()
    ensures Feedless("A") && Feedless("OBJ ") && Feedless("DEL ") && Feedless("VER ") && Feedless("VSEQ")
              && Feedless("VSN ")
    ensures Feedless("BKT ") && Feedless("MODES") && Feedless("BOOT ") && Feedless("CLOCK ")
    ensures Feedless("DEZHAN_VAULT 1") && Feedless("AUDIT")
  {}

  /** Every line is on one line, if the boot id is. */
  lemma LineIsFeedless(r: Record)
    requires Writable(r) && (r.Boot? ==> Feedless(r.boot))
    ensures Feedless(Line(r))
  {
    hide Feedless, Image, Flag, TextToHex, ToHex, LockText, VersionText;
    Tags();
    match r {
      case Clock(floor, a, b) =>
        FeedlessParts(floor, a);
        FeedlessParts(floor, b);
        Feeds(Flag(a), Flag(b));
        Feeds(Image(floor), Flag(a) + Flag(b));
        Feeds("CLOCK ", Image(floor) + (Flag(a) + Flag(b)));
      case Boot(boot) => Feeds("BOOT ", boot);
      case Modes(a, b) =>
        FeedlessParts(0, a);
        FeedlessParts(0, b);
        Feeds(Flag(a), Flag(b));
        Feeds("MODES", Flag(a) + Flag(b));
      case Bucket(name, b) =>
        FeedlessParts(0, b);
        Feeds(TextToHex(name), Flag(b));
        Feeds("BKT ", TextToHex(name) + Flag(b));
      case Versioning(name, b) =>
        FeedlessParts(0, b);
        Feeds(TextToHex(name), Flag(b));
        Feeds("VSN ", TextToHex(name) + Flag(b));
      case Counter(n) =>
        FeedlessParts(n, true);
        Feeds("VSEQ", Image(n));
      case Versioned(name, v) =>
        VersionFeedless(v);
        Feeds(TextToHex(name), VersionText(v));
        Feeds("VER ", TextToHex(name) + VersionText(v));
      case Object(name, m) =>
        LockFeedless(m);
        FeedlessParts(0, true);
        Feeds(ToHex(m.id), LockText(m));
        Feeds(" ", ToHex(m.id) + LockText(m));
        Feeds(TextToHex(name), " " + (ToHex(m.id) + LockText(m)));
        Feeds("OBJ ", TextToHex(name) + (" " + (ToHex(m.id) + LockText(m))));
      case Deleted(name) => Feeds("DEL ", TextToHex(name));
      case Audited(e) => EntryFeedless(e);
    }
  }

  // ---- Lines read back ----

  lemma ImageWord(n: nat, rest: string)
    requires |rest| > 0 ==> rest[0] == ' '
    ensures Words(Image(n) + rest) == [Decimal(n)] + Words(rest)
  {
    hide Words, Decimal;
    assert Image(n) + rest == " " + (Decimal(n) + rest);
    SkipBlank(Decimal(n) + rest);
    FirstWord(Decimal(n), rest);
  }

  function FlagWord(b: bool): string {
    if b then "1" else "0"
  }

  lemma FlagWords(b: bool, rest: string)
    requires |rest| > 0 ==> rest[0] == ' '
    ensures Words(Flag(b) + rest) == [FlagWord(b)] + Words(rest)
  {
    hide Words;
    assert Flag(b) + rest == " " + (FlagWord(b) + rest);
    SkipBlank(FlagWord(b) + rest);
    FirstWord(FlagWord(b), rest);
  }

  lemma SpacedWord(w: string, rest: string)
    requires IsWord(w) && (|rest| > 0 ==> rest[0] == ' ')
    ensures Words(" " + (w + rest)) == [w] + Words(rest)
  {
    hide Words;
    SkipBlank(w + rest);
    FirstWord(w, rest);
  }

  /** A last word, or nothing, after a blank. */
  lemma LastWord(w: string)
    requires Spaceless(w)
    ensures Words(" " + w) == if |w| == 0 then [] else [w]
  {
    hide WordLength;
    SkipBlank(w);
    if |w| > 0 {
      FirstWord(w, "");
      assert w + "" == w;
    }
  }

  lemma TagWord(tag: string, rest: string)
    requires IsWord(tag)
    ensures Words((tag + " ") + rest) == [tag] + Words(rest)
  {
    hide Words;
    assert (tag + " ") + rest == tag + (" " + rest);
    FirstWord(tag, " " + rest);
    SkipBlank(rest);
  }

  /** The last field, which is not there when it is empty. */
  function Optional(w: string): seq<string> {
    if |w| == 0 then [] else [w]
  }

  function ObjectWords(name: string, m: Meta): seq<string>
    requires Latin(name) && Latin(m.userMeta)
  {
    ["OBJ", TextToHex(name), ToHex(m.id), Decimal(ModePosition(m.lock.mode)), Decimal(m.lock.retainUntil),
     Decimal(m.lock.createdAt), FlagWord(m.composite), FlagWord(m.lock.legalHold), FlagWord(m.quarantined),
     Decimal(m.size)]
    + Optional(TextToHex(m.userMeta))
  }

  lemma FlagsLine(m: Meta)
    requires Latin(m.userMeta)
    ensures Words(FlagsText(m))
              == [FlagWord(m.composite), FlagWord(m.lock.legalHold), FlagWord(m.quarantined), Decimal(m.size)]
                                 + Optional(TextToHex(m.userMeta))
  {
    hide Words, Decimal, TextToHex, Image, Flag, FlagWord;
    LastWord(TextToHex(m.userMeta));
    var t0 := " " + TextToHex(m.userMeta);
    Starts(m.size, m.quarantined);
    ImageWord(m.size, t0);
    var t1 := Image(m.size) + t0;
    FlagWords(m.quarantined, t1);
    var t2 := Flag(m.quarantined) + t1;
    Starts(0, m.lock.legalHold);
    FlagWords(m.lock.legalHold, t2);
    var t3 := Flag(m.lock.legalHold) + t2;
    FlagWords(m.composite, t3);
  }

  lemma LockLine(m: Meta)
    requires Latin(m.userMeta)
    ensures Words(LockText(m))
              == [Decimal(ModePosition(m.lock.mode)), Decimal(m.lock.retainUntil), Decimal(m.lock.createdAt),
                  FlagWord(m.composite), FlagWord(m.lock.legalHold), FlagWord(m.quarantined), Decimal(m.size)]
                                + Optional(TextToHex(m.userMeta))
    ensures |LockText(m)| > 0 && LockText(m)[0] == ' '
  {
    hide Words, Decimal, TextToHex, Image, FlagWord, ModePosition, FlagsText, Optional;
    FlagsLine(m);
    ImageWord(m.lock.createdAt, FlagsText(m));
    Starts(m.lock.createdAt, true);
    var t5 := Image(m.lock.createdAt) + FlagsText(m);
    ImageWord(m.lock.retainUntil, t5);
    Starts(m.lock.retainUntil, true);
    ImageWord(ModePosition(m.lock.mode), Image(m.lock.retainUntil) + t5);
    Starts(ModePosition(m.lock.mode), true);
  }

  lemma ObjectLineIs(name: string, m: Meta)
    requires Writable(Object(name, m))
    ensures Line(Object(name, m)) == ("OBJ" + " ") + (TextToHex(name) + (" " + (ToHex(m.id) + LockText(m))))
  {
    hide ToHex, TextToHex, LockText;
    assert "OBJ" + " " == "OBJ ";
  }

  lemma ObjectLine(name: string, m: Meta)
    requires Writable(Object(name, m))
    ensures var ws := ["OBJ"] + Optional(TextToHex(name)) + [ToHex(m.id)] + Words(LockText(m));
            Words(Line(Object(name, m))) == ws
  {
    hide Words, Line, ToHex, TextToHex, LockText;
    LockLine(m);
    DigestRoundTrip(m.id);
    SpacedWord(ToHex(m.id), LockText(m));
    var t := " " + (ToHex(m.id) + LockText(m));
    if |name| > 0 {
      FirstWord(TextToHex(name), t);
    } else {
      assert TextToHex(name) + t == t;
    }
    TagWord("OBJ", TextToHex(name) + t);
    ObjectLineIs(name, m);
  }

  lemma Starts(n: nat, b: bool)
    ensures |Image(n)| > 0 && Image(n)[0] == ' ' && |Flag(b)| > 0 && Flag(b)[0] == ' '
  {}

  lemma ObjectLineWords(name: string, m: Meta)
    requires Printable(Object(name, m))
    ensures Words(Line(Object(name, m))) == ObjectWords(name, m)
  {
    hide Words, Line, Decimal, ToHex, TextToHex, LockText, FlagWord, ModePosition;
    ObjectLine(name, m);
    LockLine(m);
  }

  lemma ObjectRoundTrip(name: string, m: Meta)
    requires Printable(Object(name, m))
    ensures Parse(Line(Object(name, m))) == Some(Object(name, m))
  {
    hide Words, Line, Decimal, ToHex, TextToHex, FromHex, HexToText, NumberOf, DigestOf;
    ObjectLineWords(name, m);
    TextRoundTrip(name);
    TextRoundTrip(m.userMeta);
    DigestRoundTrip(m.id);
    DecimalRoundTrip(ModePosition(m.lock.mode));
    DecimalRoundTrip(m.lock.retainUntil);
    DecimalRoundTrip(m.lock.createdAt);
    DecimalRoundTrip(m.size);
    EmptyText();
    var ws := ObjectWords(name, m);
    assert WordAt(ws, 11) == TextToHex(m.userMeta);
  }

  lemma EmptyText()
    ensures HexToText("") == ""
  {}

  function EntryWords(e: Entry): seq<string> {
    ["A", Decimal(e.num), Decimal(e.time), Decimal(Position(e.kind)), ToHex(e.subject), Decimal(e.detail),
     ToHex(e.prev), ToHex(e.hash)]
  }

  lemma LinkLine(e: Entry)
    ensures Words(LinkText(e)) == [Decimal(e.detail), ToHex(e.prev), ToHex(e.hash)]
  {
    hide Words, Decimal, ToHex, Image;
    DigestRoundTrip(e.prev);
    DigestRoundTrip(e.hash);
    LastWord(ToHex(e.hash));
    var t0 := " " + ToHex(e.hash);
    SpacedWord(ToHex(e.prev), t0);
    ImageWord(e.detail, " " + (ToHex(e.prev) + t0));
  }

  lemma EntryLine(e: Entry)
    ensures Words(Line(Audited(e))) == EntryWords(e)
  {
    hide Words, Decimal, ToHex, Image, LinkText, Position;
    LinkLine(e);
    DigestRoundTrip(e.subject);
    SpacedWord(ToHex(e.subject), LinkText(e));
    var t1 := " " + (ToHex(e.subject) + LinkText(e));
    ImageWord(Position(e.kind), t1);
    Starts(Position(e.kind), true);
    var t2 := Image(Position(e.kind)) + t1;
    ImageWord(e.time, t2);
    Starts(e.time, true);
    var t3 := Image(e.time) + t2;
    ImageWord(e.num, t3);
    Starts(e.num, true);
    FirstWord("A", Image(e.num) + t3);
  }

  lemma EntryParses(e: Entry)
    ensures ParseEntry(EntryWords(e)) == Some(Audited(e))
  {
    hide Decimal, ToHex, NumberOf, DigestOf, Position, EventAt;
    DecimalRoundTrip(e.num);
    DecimalRoundTrip(e.time);
    DecimalRoundTrip(Position(e.kind));
    DecimalRoundTrip(e.detail);
    DigestRoundTrip(e.subject);
    DigestRoundTrip(e.prev);
    DigestRoundTrip(e.hash);
    EventRoundTrip(e.kind);
  }

  lemma EntryRoundTrip(e: Entry)
    ensures Parse(Line(Audited(e))) == Some(Audited(e))
  {
    hide Words, Line, ParseEntry, Decimal, ToHex;
    EntryLine(e);
    EntryParses(e);
  }

  function VersionWords(name: string, v: Version): seq<string>
    requires Latin(name) && Latin(v.meta)
  {
    ["VER", TextToHex(name), Decimal(v.vid), ToHex(v.id), Decimal(v.size), FlagWord(v.deleted)]
        + Optional(TextToHex(v.meta))
  }

  lemma VersionTail(v: Version)
    requires Latin(v.meta)
    ensures Words(VersionText(v)) == [Decimal(v.vid), ToHex(v.id), Decimal(v.size), FlagWord(v.deleted)]
              + Optional(TextToHex(v.meta))
    ensures |VersionText(v)| > 0 && VersionText(v)[0] == ' '
  {
    hide Words, Decimal, ToHex, TextToHex, Image, Flag, FlagWord;
    LastWord(TextToHex(v.meta));
    var t0 := " " + TextToHex(v.meta);
    FlagWords(v.deleted, t0);
    Starts(v.size, v.deleted);
    var t1 := Flag(v.deleted) + t0;
    ImageWord(v.size, t1);
    var t2 := Image(v.size) + t1;
    DigestRoundTrip(v.id);
    SpacedWord(ToHex(v.id), t2);
    ImageWord(v.vid, " " + (ToHex(v.id) + t2));
    Starts(v.vid, true);
  }

  lemma VersionLineIs(name: string, v: Version)
    requires Writable(Versioned(name, v))
    ensures Line(Versioned(name, v)) == ("VER" + " ") + (TextToHex(name) + VersionText(v))
  {
    hide TextToHex, VersionText;
    assert "VER" + " " == "VER ";
  }

  lemma VersionLine(name: string, v: Version)
    requires Writable(Versioned(name, v))
    ensures Words(Line(Versioned(name, v))) == ["VER"] + Optional(TextToHex(name)) + Words(VersionText(v))
  {
    hide Words, Line, TextToHex, VersionText;
    VersionTail(v);
    var t := VersionText(v);
    if |name| > 0 {
      FirstWord(TextToHex(name), t);
    } else {
      assert TextToHex(name) + t == t;
    }
    TagWord("VER", TextToHex(name) + t);
    VersionLineIs(name, v);
  }

  lemma VersionLineWords(name: string, v: Version)
    requires Printable(Versioned(name, v))
    ensures Words(Line(Versioned(name, v))) == VersionWords(name, v)
  {
    hide Words, Line, Decimal, ToHex, TextToHex, VersionText, FlagWord;
    VersionLine(name, v);
    VersionTail(v);
  }

  lemma VersionRoundTrip(name: string, v: Version)
    requires Printable(Versioned(name, v))
    ensures Parse(Line(Versioned(name, v))) == Some(Versioned(name, v))
  {
    hide Words, Line, Decimal, ToHex, TextToHex, FromHex, HexToText, NumberOf, DigestOf;
    VersionLineWords(name, v);
    TextRoundTrip(name);
    TextRoundTrip(v.meta);
    DigestRoundTrip(v.id);
    DecimalRoundTrip(v.vid);
    DecimalRoundTrip(v.size);
    EmptyText();
    assert WordAt(VersionWords(name, v), 7) == TextToHex(v.meta);
  }

  lemma ClockRoundTrip(floor: Time, isSealed: bool, opSealed: bool)
    ensures Parse(Line(Clock(floor, isSealed, opSealed))) == Some(Clock(floor, isSealed, opSealed))
  {
    hide Words, Decimal, Image, Flag, NumberOf;
    FlagWords(opSealed, "");
    assert Flag(opSealed) + "" == Flag(opSealed);
    NoWords();
    Starts(floor, opSealed);
    FlagWords(isSealed, Flag(opSealed));
    Starts(floor, isSealed);
    var t := Flag(isSealed) + Flag(opSealed);
    ImageWord(floor, t);
    TagWord("CLOCK", Image(floor) + t);
    assert "CLOCK" + " " == "CLOCK ";
    DecimalRoundTrip(floor);
    assert Words(Line(Clock(floor, isSealed, opSealed)))
        == ["CLOCK", Decimal(floor), FlagWord(isSealed), FlagWord(opSealed)];
  }

  lemma ModesRoundTrip(a: bool, b: bool)
    ensures Parse(Line(Modes(a, b))) == Some(Modes(a, b))
  {
    hide Words, Flag;
    NoWords();
    FlagWords(b, "");
    assert Flag(b) + "" == Flag(b);
    Starts(0, b);
    FlagWords(a, Flag(b));
    Starts(0, a);
    FirstWord("MODES", Flag(a) + Flag(b));
    assert Words(Line(Modes(a, b))) == ["MODES", FlagWord(a), FlagWord(b)];
  }

  lemma BootRoundTrip(boot: string)
    requires Spaceless(boot)
    ensures Parse(Line(Boot(boot))) == Some(Boot(boot))
  {
    hide Words;
    LastWord(boot);
    assert "BOOT " + boot == "BOOT" + (" " + boot);
    FirstWord("BOOT", " " + boot);
  }

  /** A tag, a name and a flag. */
  lemma NameFlagWords(tag: string, name: string, b: bool)
    requires IsWord(tag) && |name| > 0 && Latin(name)
    ensures Words((tag + " ") + (TextToHex(name) + Flag(b))) == [tag, TextToHex(name), FlagWord(b)]
    ensures HexToText(TextToHex(name)) == name
  {
    hide Words, TextToHex, HexToText, Flag;
    TextRoundTrip(name);
    NoWords();
    FlagWords(b, "");
    assert Flag(b) + "" == Flag(b);
    Starts(0, b);
    FirstWord(TextToHex(name), Flag(b));
    TagWord(tag, TextToHex(name) + Flag(b));
  }

  lemma DeletedRoundTrip(name: string)
    requires |name| > 0 && Latin(name)
    ensures Parse(Line(Deleted(name))) == Some(Deleted(name))
  {
    hide Words, TextToHex, HexToText;
    TextRoundTrip(name);
    LastWord(TextToHex(name));
    assert "DEL " + TextToHex(name) == "DEL" + (" " + TextToHex(name));
    FirstWord("DEL", " " + TextToHex(name));
  }

  lemma CounterRoundTrip(n: nat)
    ensures Parse(Line(Counter(n))) == Some(Counter(n))
  {
    hide Words, Decimal, NumberOf;
    NoWords();
    ImageWord(n, "");
    assert Image(n) + "" == Image(n);
    FirstWord("VSEQ", Image(n));
    DecimalRoundTrip(n);
  }

  lemma BucketRoundTrip(name: string, b: bool)
    requires |name| > 0 && Latin(name)
    ensures Parse(Line(Bucket(name, b))) == Some(Bucket(name, b))
    ensures Parse(Line(Versioning(name, b))) == Some(Versioning(name, b))
  {
    hide Words, TextToHex, HexToText, Flag;
    NameFlagWords("BKT", name, b);
    NameFlagWords("VSN", name, b);
    assert "BKT" + " " == "BKT " && "VSN" + " " == "VSN ";
  }

  /** Every record that can be printed is read back from its line. */
  lemma LineRoundTrip(r: Record)
    requires Printable(r)
    ensures Parse(Line(r)) == Some(r)
  {
    hide Parse, Line;
    match r {
      case Clock(floor, isSealed, opSealed) => ClockRoundTrip(floor, isSealed, opSealed);
      case Boot(boot) => BootRoundTrip(boot);
      case Modes(a, b) => ModesRoundTrip(a, b);
      case Bucket(name, b) => BucketRoundTrip(name, b);
      case Versioning(name, b) => BucketRoundTrip(name, b);
      case Counter(n) => CounterRoundTrip(n);
      case Versioned(name, v) => VersionRoundTrip(name, v);
      case Object(name, m) => ObjectRoundTrip(name, m);
      case Deleted(name) => DeletedRoundTrip(name);
      case Audited(e) => EntryRoundTrip(e);
    }
  }

  // ---- Lines that do not read back ----

  lemma NoText()
    ensures TextToHex("") == ""
  {}

  /** A tag and a flag, with no name between them. */
  lemma NamelessFlag(tag: string, b: bool)
    requires IsWord(tag)
    ensures Words((tag + " ") + (TextToHex("") + Flag(b))) == [tag, FlagWord(b)] && HexToText(FlagWord(b)) == ""
  {
    hide Words;
    NoText();
    NoWords();
    FlagWords(b, "");
    assert Flag(b) + "" == Flag(b) && "" + Flag(b) == Flag(b);
    TagWord(tag, Flag(b));
  }

  lemma NamelessBucket(b: bool)
    ensures Parse(Line(Bucket("", b))) == Some(Bucket("", false))
    ensures Parse(Line(Versioning("", b))) == Some(Versioning("", true))
    ensures Parse(Line(Deleted(""))) == Some(Deleted(""))
  {
    hide Words, TextToHex, HexToText, Flag;
    NamelessFlag("BKT", b);
    NamelessFlag("VSN", b);
    assert "BKT" + " " == "BKT " && "VSN" + " " == "VSN " && "DEL" + " " == "DEL ";
    NoText();
    NoWords();
    EmptyText();
    TagWord("DEL", "");
  }

  /** The id of the object is read as its name. */
  lemma NamelessObject(m: Meta)
    requires Latin(m.userMeta)
    ensures Parse(Line(Object("", m))) != Some(Object("", m))
  {
    hide Words, Line, Decimal, ToHex, TextToHex, LockText, NumberOf, FromHex, DigestOf;
    ObjectLine("", m);
    assert WordAt(Words(Line(Object("", m))), 2) == ToHex(m.id);
  }

  /** The digest is read as the version id, and the size as the digest. */
  lemma NamelessVersion(v: Version)
    requires Latin(v.meta) && v.vid > 0 && v.size <= 0x7fff_ffff
    ensures Parse(Line(Versioned("", v))) != Some(Versioned("", v))
  {
    hide Words, Line, Decimal, ToHex, TextToHex, VersionText, NumberOf, FromHex, HexToText, FlagWord;
    VersionLine("", v);
    VersionTail(v);
    var ws := Words(Line(Versioned("", v)));
    assert WordAt(ws, 3) == ToHex(v.id) && WordAt(ws, 4) == Decimal(v.size);
    DecimalShort(v.size, 10);
    ZeroHex(ZERO_DIGEST);
  }

  function TenTo(k: nat): nat {
    if k == 0 then 1 else 10 * TenTo(k - 1)
  }

  lemma {:induction false} DecimalShort(n: nat, k: nat)
    requires 0 < k && n < TenTo(k)
    ensures |Decimal(n)| <= k
  {
    if n >= 10 {
      DecimalShort(n / 10, k - 1);
    }
  }

  lemma {:induction false} ZeroHex(b: seq<Byte>)
    requires forall i :: 0 <= i < |b| ==> b[i] == 0
    ensures NumberOf(ToHex(b)) == 0
  {
    if |b| > 0 {
      var front := ToHex(b[..|b| - 1]);
      ZeroHex(b[..|b| - 1]);
      assert ToHex(b) == (front + ['0']) + ['0'];
      LastDigit(front + ['0'], '0');
      LastDigit(front, '0');
    }
  }

  lemma LastDigit(s: string, c: char)
    ensures NumberOf(s + [c]) == NumberOf(s) * 10 + DigitValue(c)
  {
    assert (s + [c])[..|s|] == s;
  }

  lemma {:induction false} WordsAreSpaceless(s: string, i: nat)
    requires i < |Words(s)|
    ensures Spaceless(Words(s)[i])
    decreases |s|
  {
    if s[0] == ' ' {
      WordsAreSpaceless(s[1..], i);
    } else if i > 0 {
      WordsAreSpaceless(s[WordLength(s)..], i - 1);
    }
  }

  /** A bucket without a name reads as one without object lock, and a versioning flag without a name
      as set. */
  predicate ReadsBack(r: Record) {
    Printable(r) || r == Bucket("", false) || r == Versioning("", true) || r == Deleted("")
  }

  /** Exactly which records are read back from their lines: all but those with a blank in the boot
      id, and those without a name where the fields move up. */
  lemma ReadsBackExactly(r: Record)
    requires Writable(r) && (r.Versioned? ==> r.version.vid > 0 && r.version.size <= 0x7fff_ffff)
    ensures Parse(Line(r)) == Some(r) <==> ReadsBack(r)
  {
    hide Parse, Line;
    if Printable(r) {
      LineRoundTrip(r);
    } else {
      match r {
        case Boot(boot) => BlankIsLost(boot);
        case Object(_, m) => NamelessObject(m);
        case Versioned(_, v) => NamelessVersion(v);
        case Bucket(_, b) => NamelessBucket(b);
        case Versioning(_, b) => NamelessBucket(b);
        case Deleted(_) => NamelessBucket(true);
      }
    }
  }

  lemma BlankIsLost(boot: string)
    requires !Spaceless(boot)
    ensures Parse(Line(Boot(boot))) != Some(Boot(boot))
  {
    hide Words;
    var line := Line(Boot(boot));
    assert line == "BOOT" + (" " + boot);
    FirstWord("BOOT", " " + boot);
    if |Words(line)| > 1 {
      WordsAreSpaceless(line, 1);
    }
  }
}
