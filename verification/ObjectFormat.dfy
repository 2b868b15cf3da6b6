/** How an object is laid out: its payload in chunks, and the manifest that lists them. */
module ObjectFormat {
  import opened BitOps
  import opened Cipher
  import opened Shards

  const HEADER := 29
  const MAX_MESSAGE := 8192

  // ---- Numbers ----

  /** The `n` big-endian bytes of a number. */
  function ToBigEndian(v: nat, n: nat): (b: seq<Byte>)
    ensures |b| == n
    decreases n, v
  {
    if n == 0 then [] else ToBigEndian(v / 256, n - 1) + [v % 256]
  }

  function FromBigEndian(b: seq<Byte>): nat {
    if |b| == 0 then 0 else FromBigEndian(b[..|b| - 1]) * 256 + AsNat(b[|b| - 1])
  }

  function AsNat(b: Byte): nat {
    b
  }

  function Range(n: nat): (r: nat)
    ensures r >= 1
  {
    if n == 0 then 1 else 256 * Range(n - 1)
  }

  lemma {:induction false} BigEndianRoundTrip(v: nat, n: nat)
    requires v < Range(n)
    ensures FromBigEndian(ToBigEndian(v, n)) == v
  {
    if n > 0 {
      BigEndianRoundTrip(v / 256, n - 1);
      var b := ToBigEndian(v, n);
      assert b[..n - 1] == ToBigEndian(v / 256, n - 1);
    }
  }

  lemma EightBytes()
    ensures Range(8) == 0x1_0000_0000_0000_0000
  {
    assert Range(4) == 0x1_0000_0000;
  }

  // ---- Chunks ----

  function ChunkCount(length: nat): nat {
    (length + CHUNK_SIZE - 1) / CHUNK_SIZE
  }

  /** Where chunk `c` starts. */
  function ChunkStart(length: nat, c: nat): (s: nat)
    ensures s <= length
  {
    if c * CHUNK_SIZE < length then c * CHUNK_SIZE else length
  }

  function ChunkOf(payload: seq<Byte>, c: nat): (r: seq<Byte>)
    requires c < ChunkCount(|payload|)
    ensures 1 <= |r| <= CHUNK_SIZE
  {
    payload[ChunkStart(|payload|, c)..ChunkStart(|payload|, c + 1)]
  }

  /** The chunks, in order, make up the payload. */
  lemma ChunksJoin(payload: seq<Byte>, c: nat)
    requires c < ChunkCount(|payload|)
    ensures payload[..ChunkStart(|payload|, c)] + ChunkOf(payload, c) == payload[..ChunkStart(|payload|, c + 1)]
    ensures ChunkStart(|payload|, 0) == 0 && ChunkStart(|payload|, ChunkCount(|payload|)) == |payload|
  {}

  /** A chunk as it is stored. */
  function CipherChunk(block: BlockFunction, key: Key, nonce: Nonce, payload: seq<Byte>, c: nat): (r: seq<Byte>)
    requires c < ChunkCount(|payload|)
    ensures |r| == |ChunkOf(payload, c)| <= MAX_BLOB
  {
    Crypted(block, key, nonce, CounterFor(c), ChunkOf(payload, c))
  }

  // ---- Manifests ----

  function Flatten(digests: seq<Digest>): (r: seq<Byte>)
    ensures |r| == 32 * |digests|
  {
    if |digests| == 0 then [] else Flatten(digests[..|digests| - 1]) + digests[|digests| - 1]
  }

  lemma {:induction false} FlattenSlot(digests: seq<Digest>, c: nat)
    requires c < |digests|
    ensures Flatten(digests)[32 * c..32 * c + 32] == digests[c]
  {
    var front := digests[..|digests| - 1];
    if c < |front| {
      FlattenSlot(front, c);
      assert Flatten(digests)[32 * c..32 * c + 32] == Flatten(front)[32 * c..32 * c + 32];
    }
  }

  lemma FlattenAppend(digests: seq<Digest>, d: Digest)
    ensures Flatten(digests + [d]) == Flatten(digests) + d
  {
    assert (digests + [d])[..|digests|] == digests;
  }

  function ManifestHeader(payloadLength: nat, length: nat, compressed: bool, nonce: Nonce): (h: seq<Byte>)
    ensures |h| == HEADER
  {
    ToBigEndian(payloadLength, 8) + ToBigEndian(length, 8) + [if compressed then 1 else 0] + nonce
  }

  function ManifestOf(payloadLength: nat, length: nat, compressed: bool, nonce: Nonce,
                      digests: seq<Digest>): (m: seq<Byte>)
    ensures |m| == HEADER + 32 * |digests|
  {
    ManifestHeader(payloadLength, length, compressed, nonce) + Flatten(digests)
  }

  function PayloadLength(manifest: seq<Byte>): nat
    requires |manifest| >= HEADER
  {
    FromBigEndian(manifest[..8])
  }

  function NonceAt(manifest: seq<Byte>): Nonce
    requires |manifest| >= HEADER
  {
    manifest[17..29]
  }

  function DigestSlot(manifest: seq<Byte>, c: nat): Digest
    requires |manifest| >= HEADER + 32 * (c + 1)
  {
    manifest[HEADER + 32 * c..HEADER + 32 * c + 32]
  }

  /** A manifest reads back: lengths, flag, nonce and every digest. */
  lemma ManifestRoundTrip(payloadLength: nat, length: nat, compressed: bool, nonce: Nonce, digests: seq<Digest>)
    requires payloadLength < 0x1_0000_0000_0000_0000 && length < 0x1_0000_0000_0000_0000
    ensures var m := ManifestOf(payloadLength, length, compressed, nonce, digests);
            && PayloadLength(m) == payloadLength && FromBigEndian(m[8..16]) == length && NonceAt(m) == nonce
            && (m[16] == 1 <==> compressed) && forall c :: 0 <= c < |digests| ==> DigestSlot(m, c) == digests[c]
  {
    hide FromBigEndian, ToBigEndian, Flatten;
    EightBytes();
    BigEndianRoundTrip(payloadLength, 8);
    BigEndianRoundTrip(length, 8);
    var m := ManifestOf(payloadLength, length, compressed, nonce, digests);
    assert m[..8] == ToBigEndian(payloadLength, 8) && m[8..16] == ToBigEndian(length, 8) && m[17..29] == nonce;
    forall c | 0 <= c < |digests|
      ensures DigestSlot(m, c) == digests[c]
    {
      FlattenSlot(digests, c);
      assert m[HEADER + 32 * c..HEADER + 32 * c + 32] == Flatten(digests)[32 * c..32 * c + 32];
    }
  }

  /** Objects of up to two million bytes always fit in one manifest. */
  lemma ManifestFits(length: nat)
    ensures HEADER + 32 * ChunkCount(length) <= MAX_MESSAGE <==> length <= 255 * CHUNK_SIZE
    ensures length <= 255 * CHUNK_SIZE ==> ChunkCount(length) <= 255
    ensures length <= 2000000 ==> HEADER + 32 * ChunkCount(length) <= MAX_MESSAGE
  {}

  // ---- Keys ----

  type Mac = (seq<Byte>, seq<Byte>) -> Digest

  function Label(s: string): seq<Byte>
    requires forall i :: 0 <= i < |s| ==> s[i] < 256 as char
  {
    seq(|s|, i requires 0 <= i < |s| => s[i] as int)
  }

  function EncryptionKey(mac: Mac, key: Key): Key {
    mac(key, Label("dezhan/enc/chacha20"))
  }

  function MacKey(mac: Mac, key: Key): Key {
    mac(key, Label("dezhan/mac/hmac-sha256"))
  }

  function TagOf(mac: Mac, key: Key, id: Digest): Digest {
    mac(MacKey(mac, key), id)
  }

  const ZERO_ACC: Digest := seq(32, _ => 0)

  /** The payload folded through the hash, one shard-sized block at a time. */
  function RollingDigest(hash: Hash, acc: Digest, payload: seq<Byte>): Digest
    decreases |payload|
  {
    if |payload| <= SHARD_SIZE then hash(acc + payload)
    else RollingDigest(hash, hash(acc + payload[..SHARD_SIZE]), payload[SHARD_SIZE..])
  }

  /** The nonce of an object, from its payload and the encryption key. */
  function NonceOf(hash: Hash, mac: Mac, key: Key, payload: seq<Byte>): Nonce {
    mac(key, RollingDigest(hash, ZERO_ACC, payload))[..12]
  }

  method DeriveNonce(hash: Hash, mac: Mac, key: Key, payload: seq<Byte>) returns (n: Nonce)
    ensures n == NonceOf(hash, mac, key, payload)
  {
    var acc := ZERO_ACC;
    var pos := 0;
    while true
      invariant pos == 0 || pos < |payload|
      invariant 0 <= pos <= |payload|
      invariant RollingDigest(hash, acc, payload[pos..]) == RollingDigest(hash, ZERO_ACC, payload)
      decreases |payload| - pos
    {
      var rest := payload[pos..];
      var take := if |rest| < SHARD_SIZE then |rest| else SHARD_SIZE;
      assert |rest| <= SHARD_SIZE ==> rest[..take] == rest;
      acc := hash(acc + rest[..take]);
      pos := pos + take;
      if pos >= |payload| {
        break;
      }
      assert payload[pos..] == rest[SHARD_SIZE..];
    }
    var tag := mac(key, acc);
    n := tag[..12];
  }

  // ---- Distinct payloads, distinct nonces ----

  /** The blocks that are hashed: at least one, even for an empty payload. */
  function BlockCount(length: nat): nat {
    if length == 0 then 1 else (length + SHARD_SIZE - 1) / SHARD_SIZE
  }

  function BlockStart(length: nat, i: nat): (b: nat)
    ensures b <= length
  {
    if i * SHARD_SIZE < length then i * SHARD_SIZE else length
  }

  /** What is hashed in step `i`. */
  function HashedBlock(acc: Digest, payload: seq<Byte>, i: nat): seq<Byte> {
    var a, b := BlockStart(|payload|, i), BlockStart(|payload|, i + 1);
    acc + payload[a..b]
  }

  /** The accumulator after `n` steps. */
  function Rolled(hash: Hash, payload: seq<Byte>, n: nat): Digest {
    if n == 0 then ZERO_ACC else hash(HashedBlock(Rolled(hash, payload, n - 1), payload, n - 1))
  }

  /** All that is hashed in `n` steps. */
  ghost function Inputs(hash: Hash, payload: seq<Byte>, n: nat): set<seq<Byte>> {
    if n == 0 then {} else Inputs(hash, payload, n - 1) + {HashedBlock(Rolled(hash, payload, n - 1), payload, n - 1)}
  }

  lemma {:induction false} RollingIsRolled(hash: Hash, payload: seq<Byte>, i: nat)
    requires i < BlockCount(|payload|)
    ensures RollingDigest(hash, Rolled(hash, payload, i), payload[BlockStart(|payload|, i)..])
         == Rolled(hash, payload, BlockCount(|payload|))
    decreases BlockCount(|payload|) - i
  {
    var rest := payload[BlockStart(|payload|, i)..];
    var acc := Rolled(hash, payload, i);
    if i + 1 == BlockCount(|payload|) {
      assert HashedBlock(acc, payload, i) == acc + rest;
    } else {
      assert HashedBlock(acc, payload, i) == acc + rest[..SHARD_SIZE];
      assert rest[SHARD_SIZE..] == payload[BlockStart(|payload|, i + 1)..];
      RollingIsRolled(hash, payload, i + 1);
    }
  }

  lemma DigestIsRolled(hash: Hash, payload: seq<Byte>)
    ensures RollingDigest(hash, ZERO_ACC, payload) == Rolled(hash, payload, BlockCount(|payload|))
  {
    assert payload[BlockStart(|payload|, 0)..] == payload;
    RollingIsRolled(hash, payload, 0);
  }

  /** No two of the strings collide, and none hashes to the initial accumulator. */
  ghost predicate Sound(hash: Hash, known: set<seq<Byte>>) {
    CollisionFree(hash, known) && forall b :: b in known ==> hash(b) != ZERO_ACC
  }

  lemma LastInput(hash: Hash, p: seq<Byte>, n: nat, known: set<seq<Byte>>)
    requires n > 0 && Inputs(hash, p, n) <= known && Sound(hash, known)
    ensures var a := HashedBlock(Rolled(hash, p, n - 1), p, n - 1);
            Rolled(hash, p, n) == hash(a) && a in known && hash(a) != ZERO_ACC && Inputs(hash, p, n - 1) <= known
  {
    hide HashedBlock;
  }

  lemma SameParts(acc: Digest, p: seq<Byte>, i: nat, acc': Digest, q: seq<Byte>, j: nat)
    requires HashedBlock(acc, p, i) == HashedBlock(acc', q, j)
    ensures acc == acc'
    ensures p[BlockStart(|p|, i)..BlockStart(|p|, i + 1)] == q[BlockStart(|q|, j)..BlockStart(|q|, j + 1)]
  {
    var a, b := HashedBlock(acc, p, i), HashedBlock(acc', q, j);
    assert a[..32] == acc && b[..32] == acc';
    assert a[32..] == p[BlockStart(|p|, i)..BlockStart(|p|, i + 1)]
        && b[32..] == q[BlockStart(|q|, j)..BlockStart(|q|, j + 1)];
  }

  /** Equal accumulators come from equally many steps over equal blocks. */
  lemma {:induction false} RolledInjective(hash: Hash, p: seq<Byte>, n: nat, q: seq<Byte>, m: nat,
                                           known: set<seq<Byte>>)
    requires Sound(hash, known) && Inputs(hash, p, n) <= known && Inputs(hash, q, m) <= known
    ensures Rolled(hash, p, n) == Rolled(hash, q, m) ==> n == m && p[..BlockStart(|p|, n)] == q[..BlockStart(|q|, m)]
    decreases n
  {
    hide HashedBlock, Inputs;
    if n > 0 {
      LastInput(hash, p, n, known);
    }
    if m > 0 {
      LastInput(hash, q, m, known);
    }
    if n > 0 && m > 0 && Rolled(hash, p, n) == Rolled(hash, q, m) {
      SameParts(Rolled(hash, p, n - 1), p, n - 1, Rolled(hash, q, m - 1), q, m - 1);
      RolledInjective(hash, p, n - 1, q, m - 1, known);
      Extended(p, n - 1);
      Extended(q, m - 1);
    }
  }

  lemma Extended(p: seq<Byte>, i: nat)
    ensures BlockStart(|p|, i) <= BlockStart(|p|, i + 1)
    ensures p[..BlockStart(|p|, i + 1)] == p[..BlockStart(|p|, i)] + p[BlockStart(|p|, i)..BlockStart(|p|, i + 1)]
  {}

  ghost function AllInputs(hash: Hash, payload: seq<Byte>): set<seq<Byte>> {
    Inputs(hash, payload, BlockCount(|payload|))
  }

  /** Payloads with the same rolling digest are the same, unless strings hashed for them collide or
      one of those hashes to zero. */
  lemma RollingInjective(hash: Hash, p: seq<Byte>, q: seq<Byte>)
    requires Sound(hash, AllInputs(hash, p) + AllInputs(hash, q))
    ensures RollingDigest(hash, ZERO_ACC, p) == RollingDigest(hash, ZERO_ACC, q) <==> p == q
  {
    hide Rolled, Inputs, Sound, RollingDigest;
    DigestIsRolled(hash, p);
    DigestIsRolled(hash, q);
    if Rolled(hash, p, BlockCount(|p|)) == Rolled(hash, q, BlockCount(|q|)) {
      RolledInjective(hash, p, BlockCount(|p|), q, BlockCount(|q|), AllInputs(hash, p) + AllInputs(hash, q));
      assert BlockStart(|p|, BlockCount(|p|)) == |p| && BlockStart(|q|, BlockCount(|q|)) == |q|;
      assert p[..|p|] == p && q[..|q|] == q;
    }
  }

  /** Distinct payloads get distinct nonces exactly if their authentication codes differ in the
      first 96 bits. */
  lemma NoncesDistinct(hash: Hash, mac: Mac, key: Key, p: seq<Byte>, q: seq<Byte>)
    requires Sound(hash, AllInputs(hash, p) + AllInputs(hash, q)) && p != q
    ensures var a, b := RollingDigest(hash, ZERO_ACC, p), RollingDigest(hash, ZERO_ACC, q);
            a != b && (NonceOf(hash, mac, key, p) != NonceOf(hash, mac, key, q)
                       <==> mac(key, a)[..12] != mac(key, b)[..12])
  {
    hide RollingDigest, Sound;
    RollingInjective(hash, p, q);
  }

  /** A code that tells two payloads apart, but only after the cut. */
  lemma CutLosesNonces(hash: Hash, key: Key, p: seq<Byte>, q: seq<Byte>) returns (mac: Mac)
    requires RollingDigest(hash, ZERO_ACC, p) != RollingDigest(hash, ZERO_ACC, q)
    ensures mac(key, RollingDigest(hash, ZERO_ACC, p)) != mac(key, RollingDigest(hash, ZERO_ACC, q))
    ensures NonceOf(hash, mac, key, p) == NonceOf(hash, mac, key, q)
  {
    var a, b := RollingDigest(hash, ZERO_ACC, p), RollingDigest(hash, ZERO_ACC, q);
    mac := (k: seq<Byte>, m: seq<Byte>) => if m == a then ZERO_ACC else ZERO_ACC[31 := 1];
    assert mac(key, a)[31] == 0 && mac(key, b)[31] == 1;
  }

  /** The keys for encryption and for tags are codes over different labels: some code tells them apart. */
  lemma KeysApart(key: Key) returns (mac: Mac)
    ensures EncryptionKey(mac, key) != MacKey(mac, key)
  {
    var a, b := Label("dezhan/enc/chacha20"), Label("dezhan/mac/hmac-sha256");
    mac := (k: seq<Byte>, m: seq<Byte>) => if m == a then ZERO_ACC else ZERO_ACC[31 := 1];
    assert |a| != |b| && mac(key, a)[31] == 0 && mac(key, b)[31] == 1;
  }
}
