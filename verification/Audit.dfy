/** The audit chain: entries that carry the hash of their predecessor. */
module Audit {
  import opened BitOps
  import ModArith
  import opened Shards
  import opened ObjectFormat
  import opened TrustedTime

  datatype Event = Genesis | LockCreated | RetentionExtended | DeleteDenied | DeleteAllowed | ClockAnomaly
                 | SealEngaged | LegalHoldSet | LegalHoldReleased | ObjectQuarantined

  const SEQ_LAST := 0x7fff_ffff

  type SeqNumber = n: int | 0 <= n <= SEQ_LAST

  const ZERO_DIGEST: Digest :=
    [0, 0, 0, 0, 0, 0, 0, 0, 0, 0, 0, 0, 0, 0, 0, 0, 0, 0, 0, 0, 0, 0, 0, 0, 0, 0, 0, 0, 0, 0, 0, 0]

  datatype Entry = Entry(num: SeqNumber, time: Time, kind: Event, subject: Digest, detail: Time, prev: Digest,
                         hash: Digest)

  function Position(kind: Event): (p: Byte)
    ensures p < 10
  {
    match kind
    case Genesis => 0
    case LockCreated => 1
    case RetentionExtended => 2
    case DeleteDenied => 3
    case DeleteAllowed => 4
    case ClockAnomaly => 5
    case SealEngaged => 6
    case LegalHoldSet => 7
    case LegalHoldReleased => 8
    case ObjectQuarantined => 9
  }

  // ---- Serialization ----

  /** The 89 bytes that are hashed: everything but the hash itself. */
  function Serial(e: Entry): (s: seq<Byte>)
    ensures |s| == 89
  {
    ToBigEndian(e.num, 8) + ToBigEndian(e.time, 8) + [Position(e.kind)] + e.subject + ToBigEndian(e.detail, 8) + e.prev
  }

  function ComputeHash(hash: Hash, e: Entry): Digest {
    hash(Serial(e))
  }

  /** The hashed fields can be read back from the 89 bytes. */
  lemma SerialInjective(a: Entry, b: Entry)
    requires Serial(a) == Serial(b)
    ensures a.num == b.num && a.time == b.time && a.kind == b.kind && a.subject == b.subject
    ensures a.detail == b.detail && a.prev == b.prev
  {
    SerialParts(a);
    SerialParts(b);
  }

  lemma SerialParts(e: Entry)
    ensures var s := Serial(e);
            && FromBigEndian(s[..8]) == e.num && FromBigEndian(s[8..16]) == e.time && s[16] == Position(e.kind)
            && s[17..49] == e.subject && FromBigEndian(s[49..57]) == e.detail && s[57..] == e.prev
  {
    hide ToBigEndian, FromBigEndian, Position;
    EightBytes();
    BigEndianRoundTrip(e.num, 8);
    BigEndianRoundTrip(e.time, 8);
    BigEndianRoundTrip(e.detail, 8);
    var s := Serial(e);
    assert s[..8] == ToBigEndian(e.num, 8) && s[8..16] == ToBigEndian(e.time, 8)
        && s[49..57] == ToBigEndian(e.detail, 8);
  }

  /** Byte `i` of a big-endian number. */
  lemma {:induction false} BigEndianByte(v: nat, n: nat, i: nat)
    requires i < n
    ensures ToBigEndian(v, n)[i] == v / Range(n - 1 - i) % 256
  {
    if i < n - 1 {
      BigEndianByte(v / 256, n - 1, i);
      DivideTwice(v, Range(n - 2 - i));
    }
  }

  lemma DivideTwice(v: nat, r: nat)
    requires r >= 1
    ensures v / 256 / r == v / (256 * r)
  {
    var q, m := v / 256, v % 256;
    var p, n := q / r, q % r;
    assert v == 256 * (r * p + n) + m;
    assert 256 * (r * p) == (256 * r) * p;
    ModArith.DivUnique(v, 256 * r, p, 256 * n + m);
  }

  method Put64(s: array<Byte>, v: nat, off: nat)
    requires off + 8 <= s.Length
    modifies s
    ensures s[off..off + 8] == ToBigEndian(v, 8)
    ensures forall j :: 0 <= j < s.Length && (j < off || off + 8 <= j) ==> s[j] == old(s[j])
  {
    for i := 0 to 8
      invariant forall k :: off <= k < off + i ==> s[k] == v / Range(7 - (k - off)) % 256
      invariant forall j :: 0 <= j < s.Length && (j < off || off + i <= j) ==> s[j] == old(s[j])
    {
      s[off + i] := v / Range(7 - i) % 256;
    }
    forall j | 0 <= j < 8
      ensures s[off..off + 8][j] == ToBigEndian(v, 8)[j]
    {
      BigEndianByte(v, 8, j);
    }
  }

  method PutBytes(s: array<Byte>, d: Digest, off: nat)
    requires off + 32 <= s.Length
    modifies s
    ensures s[off..off + 32] == d
    ensures forall j :: 0 <= j < s.Length && (j < off || off + 32 <= j) ==> s[j] == old(s[j])
  {
    for i := 0 to 32
      invariant forall k :: off <= k < off + i ==> s[k] == d[k - off]
      invariant forall j :: 0 <= j < s.Length && (j < off || off + i <= j) ==> s[j] == old(s[j])
    {
      s[off + i] := d[i];
    }
  }

  /** The hash of an entry, over a buffer filled field by field. */
  method HashOf(hash: Hash, e: Entry) returns (r: Digest)
    ensures r == ComputeHash(hash, e)
  {
    hide ToBigEndian, Position;
    var s := new Byte[89](_ => 0);
    Put64(s, e.num, 0);
    Put64(s, e.time, 8);
    s[16] := Position(e.kind);
    PutBytes(s, e.subject, 17);
    Put64(s, e.detail, 49);
    PutBytes(s, e.prev, 57);
    assert s[0..8] == ToBigEndian(e.num, 8);
    assert s[8..16] == ToBigEndian(e.time, 8);
    assert s[17..49] == e.subject;
    assert s[49..57] == ToBigEndian(e.detail, 8);
    assert s[57..89] == e.prev;
    assert s[..] == s[0..8] + s[8..16] + [s[16]] + s[17..49] + s[49..57] + s[57..89];
    r := hash(s[..]);
  }

  // ---- Chains ----

  predicate IsGenesis(hash: Hash, e: Entry) {
    e.num == 0 && e.kind == Genesis && e.prev == ZERO_DIGEST && e.hash == ComputeHash(hash, e)
  }

  predicate LinksTo(hash: Hash, e: Entry, p: Entry) {
    e.num == p.num + 1 && e.prev == p.hash && e.hash == ComputeHash(hash, e)
  }

  ghost predicate ValidChain(hash: Hash, c: seq<Entry>) {
    && |c| > 0 && IsGenesis(hash, c[0])
    && forall i :: 0 < i < |c| ==> LinksTo(hash, c[i], c[i - 1])
  }

  method VerifyChain(hash: Hash, c: seq<Entry>) returns (ok: bool)
    ensures ok <==> ValidChain(hash, c)
  {
    hide ComputeHash;
    if |c| == 0 || !IsGenesis(hash, c[0]) {
      return false;
    }
    for i := 1 to |c|
      invariant forall j :: 0 < j < i ==> LinksTo(hash, c[j], c[j - 1])
    {
      if c[i - 1].num == SEQ_LAST {
        assert !LinksTo(hash, c[i], c[i - 1]);
        return false;
      }
      if !LinksTo(hash, c[i], c[i - 1]) {
        return false;
      }
    }
    ok := true;
  }

  function GenesisEntry(hash: Hash, time: Time): (e: Entry)
    ensures IsGenesis(hash, e) && e.time == time
  {
    var e := Entry(0, time, Genesis, ZERO_DIGEST, 0, ZERO_DIGEST, ZERO_DIGEST);
    e.(hash := ComputeHash(hash, e))
  }

  function Append(hash: Hash, prev: Entry, time: Time, kind: Event, subject: Digest, detail: Time): (e: Entry)
    requires prev.num < SEQ_LAST
    ensures LinksTo(hash, e, prev) && e.time == time && e.kind == kind && e.subject == subject && e.detail == detail
  {
    var e := Entry(prev.num + 1, time, kind, subject, detail, prev.hash, ZERO_DIGEST);
    e.(hash := ComputeHash(hash, e))
  }

  /** Appending keeps the chain valid, and the sequence numbers count. */
  lemma AppendKeepsChain(hash: Hash, c: seq<Entry>, e: Entry)
    requires ValidChain(hash, c) && LinksTo(hash, e, c[|c| - 1])
    ensures ValidChain(hash, c + [e])
  {
    hide ComputeHash;
    forall i | 0 < i < |c + [e]|
      ensures LinksTo(hash, (c + [e])[i], (c + [e])[i - 1])
    {
      if i < |c| {
        assert LinksTo(hash, c[i], c[i - 1]);
      }
    }
  }

  lemma {:induction false} SequenceCounts(hash: Hash, c: seq<Entry>, i: nat)
    requires ValidChain(hash, c) && i < |c|
    ensures c[i].num == i
  {
    hide ComputeHash;
    if i > 0 {
      SequenceCounts(hash, c, i - 1);
      assert LinksTo(hash, c[i], c[i - 1]);
    }
  }

  /** The strings that were hashed for a chain. */
  ghost function Serials(c: seq<Entry>): set<seq<Byte>> {
    set i | 0 <= i < |c| :: Serial(c[i])
  }

  /** Two valid chains that end in the same hash are the same chain, in length and in every
      entry, unless the hash has a collision among the strings that were hashed for them. */
  lemma {:induction false} HeadBindsHistory(hash: Hash, c: seq<Entry>, d: seq<Entry>)
    requires ValidChain(hash, c) && ValidChain(hash, d) && c[|c| - 1].hash == d[|d| - 1].hash
    requires CollisionFree(hash, Serials(c) + Serials(d))
    ensures c == d
  {
    hide Serial, Serials, CollisionFree, ValidChain;
    NotEmpty(hash, c);
    NotEmpty(hash, d);
    var m, n := |c| - 1, |d| - 1;
    ChainHash(hash, c, m);
    ChainHash(hash, d, n);
    SerialIsHashed(c, m);
    SerialIsHashed(d, n);
    NoCollision(hash, Serials(c) + Serials(d), Serial(c[m]), Serial(d[n]));
    SerialInjective(c[m], d[n]);
    SequenceCounts(hash, c, m);
    SequenceCounts(hash, d, n);
    if m > 0 {
      LastLink(hash, c);
      LastLink(hash, d);
      PrefixChain(hash, c);
      PrefixChain(hash, d);
      PrefixSerials(c);
      PrefixSerials(d);
      FewerStrings(hash, Serials(c[..m]) + Serials(d[..n]), Serials(c) + Serials(d));
      HeadBindsHistory(hash, c[..m], d[..n]);
    }
    assert c == c[..m] + [c[m]] && d == d[..n] + [d[n]];
  }

  lemma NotEmpty(hash: Hash, c: seq<Entry>)
    requires ValidChain(hash, c)
    ensures |c| > 0
  {}

  lemma SerialIsHashed(c: seq<Entry>, i: nat)
    requires i < |c|
    ensures Serial(c[i]) in Serials(c)
  {
    hide Serial;
  }

  lemma NoCollision(hash: Hash, known: set<seq<Byte>>, a: seq<Byte>, b: seq<Byte>)
    requires CollisionFree(hash, known) && a in known && b in known && hash(a) == hash(b)
    ensures a == b
  {}

  lemma FewerStrings(hash: Hash, few: set<seq<Byte>>, known: set<seq<Byte>>)
    requires CollisionFree(hash, known) && few <= known
    ensures CollisionFree(hash, few)
  {}

  lemma PrefixSerials(c: seq<Entry>)
    requires |c| > 0
    ensures Serials(c[..|c| - 1]) <= Serials(c)
  {
    hide Serial;
  }

  lemma LastLink(hash: Hash, c: seq<Entry>)
    requires ValidChain(hash, c) && |c| > 1
    ensures LinksTo(hash, c[|c| - 1], c[|c| - 2])
  {}

  lemma ChainHash(hash: Hash, c: seq<Entry>, i: nat)
    requires ValidChain(hash, c) && i < |c|
    ensures c[i].hash == hash(Serial(c[i]))
  {
    hide Serial;
    if i > 0 {
      assert LinksTo(hash, c[i], c[i - 1]);
    }
  }

  lemma PrefixChain(hash: Hash, c: seq<Entry>)
    requires ValidChain(hash, c) && |c| > 1
    ensures ValidChain(hash, c[..|c| - 1])
  {
    hide ComputeHash;
    var p := c[..|c| - 1];
    forall i | 0 < i < |p|
      ensures LinksTo(hash, p[i], p[i - 1])
    {
      assert LinksTo(hash, c[i], c[i - 1]);
    }
  }

  /** Changing any field of any past entry, and fixing up its own hash, breaks the chain. */
  lemma TamperingShows(hash: Hash, c: seq<Entry>, i: nat, e: Entry)
    requires ValidChain(hash, c) && i < |c| - 1 && e != c[i]
    requires CollisionFree(hash, Serials(c) + {Serial(e)})
    ensures !ValidChain(hash, c[i := e])
  {
    hide Serial;
    var d := c[i := e];
    if ValidChain(hash, d) {
      assert Serials(d) <= Serials(c) + {Serial(e)};
      HeadBindsHistory(hash, c, d);
    }
  }
}
