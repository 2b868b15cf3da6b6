/** One blob on disk: a directory of erasure-coded shard files with an index of their digests.

    A blob of up to 8192 bytes is cut into K data shards of 1024 bytes, with two parity shards.
    The index holds the length, K, M and the digest of every shard, so that a shard that is
    missing or does not match is known to be bad. */
module Shards {
  import opened BitOps
  import opened GaloisField
  import opened LinearAlgebra
  import opened GaussJordan
  import opened Erasure
  import opened Octets

  type Digest = d: seq<Byte> | |d| == 32 witness seq(32, _ => 0)
  type Hash = seq<Byte> -> Digest

  /** No two byte strings of the set have the same digest. */
  ghost predicate CollisionFree(hash: Hash, known: set<seq<Byte>>) {
    forall a, b :: a in known && b in known && hash(a) == hash(b) ==> a == b
  }

  const SHARD_SIZE := 1024
  const PARITY_SHARDS := 2
  const MAX_BLOB := 8192

  datatype Option<+T> = None | Some(value: T)

  /** A shard directory.  Shard files are numbered from 0; only manifests have a tag file. */
  datatype Directory = Directory(idx: Option<seq<Byte>>, files: map<nat, seq<Byte>>, tag: Option<seq<Byte>>)

  // ---- What is stored ----

  /** The number of data shards of a blob. */
  function DataShards(length: nat): (k: nat)
    requires length <= MAX_BLOB
    ensures 1 <= k <= 8 && length <= k * SHARD_SIZE
  {
    if length == 0 then 1 else (length + SHARD_SIZE - 1) / SHARD_SIZE
  }

  function AllShards(length: nat): nat
    requires length <= MAX_BLOB
  {
    DataShards(length) + PARITY_SHARDS
  }

  /** Byte `i` of a blob, padded with zeros. */
  function PaddedSymbol(data: seq<Byte>, i: nat): Symbol {
    if i < |data| then ToSymbol(data[i]) else 0
  }

  /** The bytes at offset `c` of the data shards. */
  function BlobColumn(data: seq<Byte>, k: nat, c: nat): (v: Vector)
    ensures |v| == k
  {
    seq(k, j requires 0 <= j < k => PaddedSymbol(data, j * SHARD_SIZE + c))
  }

  /** Shard file `s` of a blob. */
  function ShardFile(data: seq<Byte>, s: nat): (f: seq<Byte>)
    requires |data| <= MAX_BLOB && s < AllShards(|data|)
    ensures |f| == SHARD_SIZE
  {
    var k := DataShards(|data|);
    seq(SHARD_SIZE, c requires 0 <= c < SHARD_SIZE => ToByte(ShardSymbol(k, s, BlobColumn(data, k, c))))
  }

  /** The fixed part of the index. */
  function IndexHeader(length: nat): (h: seq<Byte>)
    requires length <= MAX_BLOB
    ensures |h| == 6
  {
    [0, 0, length / 256, length % 256, DataShards(length), PARITY_SHARDS]
  }

  /** The digests of the first `n` shards. */
  function ShardDigests(hash: Hash, data: seq<Byte>, n: nat): (r: seq<Byte>)
    requires |data| <= MAX_BLOB && n <= AllShards(|data|)
    ensures |r| == 32 * n
  {
    if n == 0 then [] else ShardDigests(hash, data, n - 1) + hash(ShardFile(data, n - 1))
  }

  function IndexOf(hash: Hash, data: seq<Byte>): seq<Byte>
    requires |data| <= MAX_BLOB
  {
    IndexHeader(|data|) + ShardDigests(hash, data, AllShards(|data|))
  }

  /** All the shard files of a blob. */
  function FilesOf(data: seq<Byte>): map<nat, seq<Byte>>
    requires |data| <= MAX_BLOB
  {
    map s: nat | 0 <= s < AllShards(|data|) :: ShardFile(data, s)
  }

  /** The directory that a blob is stored as. */
  function StoredAs(hash: Hash, data: seq<Byte>): Directory
    requires |data| <= MAX_BLOB
  {
    Directory(Some(IndexOf(hash, data)), FilesOf(data), None)
  }

  // ---- What is read ----

  /** The part of an index that describes the shards; none if it is malformed. */
  datatype Index = Index(length: nat, k: nat, m: nat)

  function BigEndian(a: nat, b: nat, c: nat, d: nat): nat {
    ((a * 256 + b) * 256 + c) * 256 + d
  }

  function ParseIndex(idx: seq<Byte>): (r: Option<Index>)
    ensures r.Some? ==> 1 <= r.value.k <= MAX_DATA && 1 <= r.value.m <= MAX_PARITY
    ensures r.Some? ==> |idx| >= 6 + 32 * (r.value.k + r.value.m)
  {
    if |idx| < 6 then None
    else
      var length := BigEndian(idx[0], idx[1], idx[2], idx[3]);
      var k, m := idx[4], idx[5];
      if 1 <= k <= MAX_DATA && 1 <= m <= MAX_PARITY && |idx| >= 6 + 32 * (k + m)
      then Some(Index(length, k, m)) else None
  }

  function DigestAt(idx: seq<Byte>, s: nat): seq<Byte>
    requires 6 + 32 * (s + 1) <= |idx|
  {
    idx[6 + 32 * s..38 + 32 * s]
  }

  lemma {:induction false} DigestsStored(hash: Hash, data: seq<Byte>, n: nat, s: nat)
    requires |data| <= MAX_BLOB && s < n <= AllShards(|data|)
    ensures ShardDigests(hash, data, n)[32 * s..32 * s + 32] == hash(ShardFile(data, s))
  {
    hide ShardFile;
    if s < n - 1 {
      DigestsStored(hash, data, n - 1, s);
      assert ShardDigests(hash, data, n)[32 * s..32 * s + 32] == ShardDigests(hash, data, n - 1)[32 * s..32 * s + 32];
    }
  }

  /** The index of a blob reads back: its length, its shard counts and each digest. */
  lemma IndexRoundTrip(hash: Hash, data: seq<Byte>)
    requires |data| <= MAX_BLOB
    ensures var idx, n := IndexOf(hash, data), AllShards(|data|);
            && ParseIndex(idx) == Some(Index(|data|, DataShards(|data|), PARITY_SHARDS)) && |idx| == 6 + 32 * n
            && forall s :: 0 <= s < n ==> DigestAt(idx, s) == hash(ShardFile(data, s))
  {
    hide ShardFile, ShardDigests;
    var idx, n := IndexOf(hash, data), AllShards(|data|);
    assert idx[..6] == IndexHeader(|data|);
    assert forall i :: 0 <= i < 6 ==> idx[i] == IndexHeader(|data|)[i];
    forall s | 0 <= s < n
      ensures DigestAt(idx, s) == hash(ShardFile(data, s))
    {
      DigestsStored(hash, data, n, s);
      assert DigestAt(idx, s) == ShardDigests(hash, data, n)[32 * s..32 * s + 32];
    }
  }

  /** Shard `s` is there and matches its digest. */
  predicate Intact(hash: Hash, dir: Directory, idx: seq<Byte>, s: nat)
    requires 6 + 32 * (s + 1) <= |idx|
  {
    s in dir.files && |dir.files[s]| == SHARD_SIZE && hash(dir.files[s]) == DigestAt(idx, s)
  }

  /** Shard `s` is as it was stored. */
  ghost predicate Good(dir: Directory, data: seq<Byte>, s: nat)
    requires |data| <= MAX_BLOB && s < AllShards(|data|)
  {
    s in dir.files && dir.files[s] == ShardFile(data, s)
  }

  /** Shard `s` passes for the one that was stored. */
  ghost predicate Passes(hash: Hash, dir: Directory, data: seq<Byte>, s: nat)
    requires |data| <= MAX_BLOB && s < AllShards(|data|)
  {
    s in dir.files && |dir.files[s]| == SHARD_SIZE && hash(dir.files[s]) == hash(ShardFile(data, s))
  }

  /** The directory holds `data`: its index is the one of `data`, and no bad shard passes for a
      good one.  Shards may be missing or damaged. */
  ghost predicate Holds(hash: Hash, dir: Directory, data: seq<Byte>) {
    && |data| <= MAX_BLOB && dir.idx == Some(IndexOf(hash, data))
    && forall s: nat :: s < AllShards(|data|) && Passes(hash, dir, data, s) ==> Good(dir, data, s)
  }

  ghost function GoodMap(dir: Directory, data: seq<Byte>): (p: seq<bool>)
    requires |data| <= MAX_BLOB
    ensures |p| == MAX_SHARDS
  {
    seq(MAX_SHARDS, s requires 0 <= s < MAX_SHARDS => s < AllShards(|data|) && Good(dir, data, s))
  }

  /** How many shards are as they were stored. */
  ghost function Survivors(dir: Directory, data: seq<Byte>): nat
    requires |data| <= MAX_BLOB
  {
    PresentCount(GoodMap(dir, data), AllShards(|data|))
  }

  ghost predicate Recoverable(dir: Directory, data: seq<Byte>)
    requires |data| <= MAX_BLOB
  {
    Survivors(dir, data) >= DataShards(|data|)
  }

  lemma IntactIsGood(hash: Hash, dir: Directory, data: seq<Byte>, s: nat)
    requires Holds(hash, dir, data) && s < AllShards(|data|)
    ensures |dir.idx.value| == 6 + 32 * AllShards(|data|)
    ensures Intact(hash, dir, dir.idx.value, s) <==> Good(dir, data, s)
  {
    hide ShardFile, IndexOf;
    IndexRoundTrip(hash, data);
  }

  // ---- Writing ----

  /** The block holds the bytes of `data`, row by row. */
  ghost predicate BlockHolds(block: array2<Symbol>, data: seq<Byte>)
    reads block
  {
    && block.Length0 == MAX_DATA && block.Length1 == MAX_SHARD_LENGTH
    && forall j, c :: 0 <= j < MAX_DATA && 0 <= c < MAX_SHARD_LENGTH ==>
         block[j, c] == PaddedSymbol(data, j * SHARD_SIZE + c)
  }

  lemma ColumnOfBlock(block: array2<Symbol>, data: seq<Byte>, k: nat, c: nat)
    requires BlockHolds(block, data) && k <= MAX_DATA && c < MAX_SHARD_LENGTH
    ensures BlockColumn(block, k, c) == BlobColumn(data, k, c)
  {
    hide PaddedSymbol;
    var u, v := BlockColumn(block, k, c), BlobColumn(data, k, c);
    forall j | 0 <= j < k
      ensures u[j] == v[j]
    {}
  }

  method FillBlock(data: seq<Byte>) returns (block: array2<Symbol>)
    requires |data| <= MAX_BLOB
    ensures fresh(block) && BlockHolds(block, data)
  {
    hide ToSymbol;
    block := new Symbol[MAX_DATA, MAX_SHARD_LENGTH]((i, b) => 0);
    for i := 0 to |data|
      invariant forall j, c :: 0 <= j < MAX_DATA && 0 <= c < MAX_SHARD_LENGTH ==>
                  block[j, c] == PaddedSymbol(data[..i], j * SHARD_SIZE + c)
    {
      block[i / SHARD_SIZE, i % SHARD_SIZE] := ToSymbol(data[i]);
      forall j, c | 0 <= j < MAX_DATA && 0 <= c < MAX_SHARD_LENGTH
        ensures block[j, c] == PaddedSymbol(data[..i + 1], j * SHARD_SIZE + c)
      {
        BlockPosition(j, c, i);
      }
    }
    assert data[..|data|] == data;
  }

  lemma BlockPosition(j: int, c: int, i: int)
    requires 0 <= c < SHARD_SIZE && 0 <= i
    ensures j * SHARD_SIZE + c == i <==> j == i / SHARD_SIZE && c == i % SHARD_SIZE
  {}

  /** The parity block goes with a data block. */
  ghost predicate ParityHolds(parity: array2<Symbol>, data: seq<Byte>, k: nat, m: nat)
    requires k <= MAX_DATA && m <= MAX_PARITY
    reads parity
  {
    && parity.Length0 == MAX_DATA && parity.Length1 == MAX_SHARD_LENGTH
    && forall i, c :: 0 <= i < m && 0 <= c < SHARD_SIZE ==>
         parity[i, c] == ShardSymbol(k, k + i, BlobColumn(data, k, c))
  }

  method EncodeBlock(block: array2<Symbol>, k: nat, m: nat, ghost data: seq<Byte>) returns (parity: array2<Symbol>)
    requires 1 <= k <= MAX_DATA && 1 <= m <= MAX_PARITY
    requires block.Length0 == MAX_DATA && block.Length1 == MAX_SHARD_LENGTH
    ensures fresh(parity) && parity.Length0 == MAX_DATA && parity.Length1 == MAX_SHARD_LENGTH
    ensures BlockHolds(block, data) ==> ParityHolds(parity, data, k, m)
  {
    hide ShardSymbol, PaddedSymbol, BlobColumn;
    parity := Encode(k, m, SHARD_SIZE, block);
    if BlockHolds(block, data) {
      forall c | 0 <= c < SHARD_SIZE
        ensures BlockColumn(block, k, c) == BlobColumn(data, k, c)
      {
        ColumnOfBlock(block, data, k, c);
      }
    }
  }

  /** The two blocks are those of `data`. */
  ghost predicate Coded(block: array2<Symbol>, parity: array2<Symbol>, k: nat, data: seq<Byte>)
    reads block, parity
  {
    && |data| <= MAX_BLOB && k == DataShards(|data|)
    && BlockHolds(block, data) && ParityHolds(parity, data, k, PARITY_SHARDS)
  }

  /** Shard file `s`, from the data block or the parity block. */
  method WriteShard(block: array2<Symbol>, parity: array2<Symbol>, k: nat, s: nat, ghost data: seq<Byte>)
    returns (f: seq<Byte>)
    requires 1 <= k <= MAX_DATA && s < k + MAX_PARITY
    requires block.Length0 == MAX_DATA && block.Length1 == MAX_SHARD_LENGTH
    requires parity.Length0 == MAX_DATA && parity.Length1 == MAX_SHARD_LENGTH
    ensures |f| == SHARD_SIZE
    ensures Coded(block, parity, k, data) && s < AllShards(|data|) ==> f == ShardFile(data, s)
  {
    hide ShardSymbol, ToByte, PaddedSymbol;
    var shard := new Byte[SHARD_SIZE](_ => 0);
    for c := 0 to SHARD_SIZE
      invariant forall b :: 0 <= b < c ==> shard[b] == ToByte(if s < k then block[s, b] else parity[s - k, b])
    {
      shard[c] := ToByte(if s < k then block[s, c] else parity[s - k, c]);
    }
    f := shard[..];
    if Coded(block, parity, k, data) && s < AllShards(|data|) {
      forall b | 0 <= b < SHARD_SIZE
        ensures f[b] == ShardFile(data, s)[b]
      {
        if s < k {
          DataShardIsVerbatim(k, s, BlobColumn(data, k, b));
        }
      }
    }
  }

  /** Stores a blob in a new directory. */
  method StoreShards(hash: Hash, data: seq<Byte>) returns (dir: Directory)
    requires |data| <= MAX_BLOB
    ensures dir == StoredAs(hash, data)
  {
    hide ShardFile, BlockHolds, ParityHolds, ShardDigests, IndexHeader;
    var k := DataShards(|data|);
    var block := FillBlock(data);
    BlockShape(block, data);
    var parity := EncodeBlock(block, k, PARITY_SHARDS, data);
    var idx := IndexHeader(|data|);
    var files: map<nat, seq<Byte>> := map[];
    for s := 0 to k + PARITY_SHARDS
      invariant Coded(block, parity, k, data)
      invariant idx == IndexHeader(|data|) + ShardDigests(hash, data, s)
      invariant files == map t: nat | 0 <= t < s :: ShardFile(data, t)
    {
      var shard := WriteShard(block, parity, k, s, data);
      assert shard == ShardFile(data, s);
      files := files[s := shard];
      ShardDigestsStep(hash, data, s);
      idx := idx + hash(shard);
    }
    dir := Directory(Some(idx), files, None);
  }

  lemma ShardDigestsStep(hash: Hash, data: seq<Byte>, n: nat)
    requires |data| <= MAX_BLOB && n < AllShards(|data|)
    ensures ShardDigests(hash, data, n + 1) == ShardDigests(hash, data, n) + hash(ShardFile(data, n))
  {}

  lemma BlockShape(block: array2<Symbol>, data: seq<Byte>)
    requires BlockHolds(block, data)
    ensures block.Length0 == MAX_DATA && block.Length1 == MAX_SHARD_LENGTH
  {}

  // ---- Reading ----

  /** What a scan of the directory found: which shards are intact, and their bytes. */
  ghost predicate Scanned(hash: Hash, dir: Directory, idx: seq<Byte>, n: nat, present: seq<bool>,
                          shards: array2<Symbol>)
    requires 6 + 32 * n <= |idx| && n <= MAX_SHARDS
    reads shards
  {
    && |present| == MAX_SHARDS && shards.Length0 == MAX_SHARDS && shards.Length1 == MAX_SHARD_LENGTH
    && (forall s :: 0 <= s < n ==> (present[s] <==> Intact(hash, dir, idx, s)))
    && (forall s :: n <= s < MAX_SHARDS ==> !present[s])
    && (forall s, c :: 0 <= s < n && present[s] && 0 <= c < SHARD_SIZE ==> shards[s, c] == ToSymbol(dir.files[s][c]))
  }

  method Scan(hash: Hash, dir: Directory, idx: seq<Byte>, n: nat) returns (present: seq<bool>, shards: array2<Symbol>)
    requires n <= MAX_SHARDS && 6 + 32 * n <= |idx|
    ensures fresh(shards) && Scanned(hash, dir, idx, n, present, shards)
  {
    hide ToSymbol, DigestAt;
    present := seq(MAX_SHARDS, _ => false);
    shards := new Symbol[MAX_SHARDS, MAX_SHARD_LENGTH]((i, b) => 0);
    for s := 0 to n
      invariant |present| == MAX_SHARDS
      invariant forall t :: 0 <= t < s ==> (present[t] <==> Intact(hash, dir, idx, t))
      invariant forall t :: s <= t < MAX_SHARDS ==> !present[t]
      invariant forall t, c :: 0 <= t < s && present[t] && 0 <= c < SHARD_SIZE ==>
                  shards[t, c] == ToSymbol(dir.files[t][c])
    {
      if Intact(hash, dir, idx, s) {
        present := present[s := true];
        CopyShard(shards, s, dir.files[s]);
      }
    }
  }

  method CopyShard(shards: array2<Symbol>, s: nat, file: seq<Byte>)
    requires shards.Length0 == MAX_SHARDS && shards.Length1 == MAX_SHARD_LENGTH && s < MAX_SHARDS
               && |file| == SHARD_SIZE
    modifies shards
    ensures forall c :: 0 <= c < SHARD_SIZE ==> shards[s, c] == ToSymbol(file[c])
    ensures forall t, c :: 0 <= t < MAX_SHARDS && t != s && 0 <= c < MAX_SHARD_LENGTH ==>
              shards[t, c] == old(shards[t, c])
  {
    hide ToSymbol;
    for c := 0 to SHARD_SIZE
      invariant forall b :: 0 <= b < c ==> shards[s, b] == ToSymbol(file[b])
      invariant forall t, b :: 0 <= t < MAX_SHARDS && t != s && 0 <= b < MAX_SHARD_LENGTH ==>
                  shards[t, b] == old(shards[t, b])
    {
      shards[s, c] := ToSymbol(file[c]);
    }
  }

  ghost function Columns(data: seq<Byte>, k: nat): (columns: seq<Vector>)
    ensures |columns| == SHARD_SIZE
  {
    seq(SHARD_SIZE, c requires 0 <= c < SHARD_SIZE => BlobColumn(data, k, c))
  }

  /** The intact shards of a directory that holds `data` agree with `data`. */
  lemma ScanAgrees(hash: Hash, dir: Directory, data: seq<Byte>, present: seq<bool>, shards: array2<Symbol>)
    requires Holds(hash, dir, data) && 6 + 32 * AllShards(|data|) <= |dir.idx.value|
    requires Scanned(hash, dir, dir.idx.value, AllShards(|data|), present, shards)
    ensures var k := DataShards(|data|);
            && Agrees(k, PARITY_SHARDS, SHARD_SIZE, present, shards, Columns(data, k))
            && present == GoodMap(dir, data)
  {
    hide ShardSymbol, IndexOf, ToSymbol, ToByte, Holds;
    var k, n := DataShards(|data|), AllShards(|data|);
    forall s | 0 <= s < n
      ensures present[s] <==> Good(dir, data, s)
    {
      IntactIsGood(hash, dir, data, s);
    }
    forall s, b | 0 <= s < n && present[s] && 0 <= b < SHARD_SIZE
      ensures shards[s, b] == ShardSymbol(k, s, Columns(data, k)[b])
    {
      SymbolRoundTrip(ShardSymbol(k, s, BlobColumn(data, k, b)));
    }
  }

  /** The bytes of the first `k` rows of a block. */
  method BlockBytes(block: array2<Symbol>, length: nat) returns (r: seq<Byte>)
    requires block.Length0 == MAX_DATA && block.Length1 == MAX_SHARD_LENGTH && length <= MAX_BLOB
    ensures |r| == length
    ensures forall i :: 0 <= i < length ==> r[i] == ToByte(block[i / SHARD_SIZE, i % SHARD_SIZE])
  {
    hide ToByte;
    var out := new Byte[length](_ => 0);
    for i := 0 to length
      invariant forall j :: 0 <= j < i ==> out[j] == ToByte(block[j / SHARD_SIZE, j % SHARD_SIZE])
    {
      out[i] := ToByte(block[i / SHARD_SIZE, i % SHARD_SIZE]);
    }
    r := out[..];
  }

  /** Reconstruction fills the block of `data`. */
  lemma ReconstructedBlock(block: array2<Symbol>, data: seq<Byte>)
    requires |data| <= MAX_BLOB && block.Length0 == MAX_DATA && block.Length1 == MAX_SHARD_LENGTH
    requires forall j, b :: 0 <= j < DataShards(|data|) && 0 <= b < SHARD_SIZE ==>
               block[j, b] == Columns(data, DataShards(|data|))[b][j]
    requires forall j, b :: DataShards(|data|) <= j < MAX_DATA && 0 <= b < SHARD_SIZE ==> block[j, b] == 0
    ensures BlockHolds(block, data)
  {
    hide ToSymbol;
    var k := DataShards(|data|);
    forall j, c | 0 <= j < MAX_DATA && 0 <= c < MAX_SHARD_LENGTH
      ensures block[j, c] == PaddedSymbol(data, j * SHARD_SIZE + c)
    {
      if j < k {
        assert Columns(data, k)[c][j] == PaddedSymbol(data, j * SHARD_SIZE + c);
      }
    }
  }

  /** Reads a blob back, reconstructing what is missing. */
  method ReadShards(hash: Hash, dir: Directory, ghost data: seq<Byte>) returns (r: Option<seq<Byte>>)
    ensures Holds(hash, dir, data) ==> r == if Recoverable(dir, data) then Some(data) else None
  {
    hide ShardFile, IndexOf, ToByte, ToSymbol, Intact, ShardSymbol, Good;
    r := None;
    if dir.idx == None {
      return;
    }
    var idx := dir.idx.value;
    if Holds(hash, dir, data) {
      IndexRoundTrip(hash, data);
    }
    var parsed := ParseIndex(idx);
    if parsed == None {
      return;
    }
    var length, k, m := parsed.value.length, parsed.value.k, parsed.value.m;
    var present, shards := Scan(hash, dir, idx, k + m);
    if Holds(hash, dir, data) {
      ScanAgrees(hash, dir, data, present, shards);
    }
    var block, ok := Reconstruct(k, m, SHARD_SIZE, present, shards);
    if !ok || length > MAX_BLOB {
      return;
    }
    var bytes := BlockBytes(block, length);
    if Holds(hash, dir, data) {
      assert Agrees(k, m, SHARD_SIZE, present, shards, Columns(data, k));
      ReconstructedBlock(block, data);
      BytesOfBlock(block, data, bytes);
    }
    r := Some(bytes);
  }

  lemma BytesOfBlock(block: array2<Symbol>, data: seq<Byte>, r: seq<Byte>)
    requires |data| <= MAX_BLOB && BlockHolds(block, data) && |r| == |data|
    requires forall i :: 0 <= i < |data| ==> r[i] == ToByte(block[i / SHARD_SIZE, i % SHARD_SIZE])
    ensures r == data
  {
    hide ToSymbol, ToByte;
    forall i | 0 <= i < |data|
      ensures r[i] == data[i]
    {
      ByteRoundTrip(data[i]);
      assert (i / SHARD_SIZE) * SHARD_SIZE + i % SHARD_SIZE == i;
    }
  }

  // ---- Repair ----

  /** The directory with every shard as it was stored. */
  ghost function Restored(dir: Directory, data: seq<Byte>): Directory
    requires |data| <= MAX_BLOB
  {
    dir.(files := dir.files + FilesOf(data))
  }

  /** Rewrites every shard that is missing or damaged, if enough of them are left. */
  method RepairShards(hash: Hash, dir: Directory, ghost data: seq<Byte>)
    returns (dir': Directory, repaired: nat, recoverable: bool)
    ensures !recoverable ==> dir' == dir && repaired == 0
    ensures Holds(hash, dir, data) ==> (recoverable <==> Recoverable(dir, data))
    ensures Holds(hash, dir, data) && recoverable ==>
              dir' == Restored(dir, data) && repaired == AllShards(|data|) - Survivors(dir, data)
  {
    hide ShardFile, IndexOf, ToByte, ToSymbol, Intact, ShardSymbol, Good, BlockHolds, ParityHolds;
    dir', repaired, recoverable := dir, 0, false;
    if dir.idx == None {
      return;
    }
    var idx := dir.idx.value;
    ghost var holds := Holds(hash, dir, data);
    if holds {
      IndexRoundTrip(hash, data);
    }
    var parsed := ParseIndex(idx);
    if parsed == None {
      return;
    }
    var k, m := parsed.value.k, parsed.value.m;
    var present, shards := Scan(hash, dir, idx, k + m);
    if holds {
      ScanAgrees(hash, dir, data, present, shards);
    }
    var block, ok := Reconstruct(k, m, SHARD_SIZE, present, shards);
    recoverable := ok;
    if !ok {
      return;
    }
    if holds {
      assert Agrees(k, m, SHARD_SIZE, present, shards, Columns(data, k));
      ReconstructedBlock(block, data);
    }
    var parity := EncodeBlock(block, k, m, data);
    dir', repaired := Rewrite(dir, present, block, parity, k, m, data);
    if holds {
      RewrittenIsRestored(dir, data);
    }
  }

  /** `dir` with the first `n` shards that are not good replaced. */
  ghost function RestoredUpTo(dir: Directory, data: seq<Byte>, n: nat): Directory
    requires |data| <= MAX_BLOB && n <= AllShards(|data|)
  {
    dir.(files := dir.files + map s: nat | 0 <= s < n :: ShardFile(data, s))
  }

  lemma RewrittenIsRestored(dir: Directory, data: seq<Byte>)
    requires |data| <= MAX_BLOB
    ensures RestoredUpTo(dir, data, AllShards(|data|)) == Restored(dir, data)
  {
    hide ShardFile;
  }

  method Rewrite(dir: Directory, present: seq<bool>, block: array2<Symbol>, parity: array2<Symbol>, k: nat, m: nat,
                 ghost data: seq<Byte>)
    returns (dir': Directory, repaired: nat)
    requires 1 <= k <= MAX_DATA && 1 <= m <= MAX_PARITY && |present| == MAX_SHARDS
    requires block.Length0 == MAX_DATA && block.Length1 == MAX_SHARD_LENGTH
    requires parity.Length0 == MAX_DATA && parity.Length1 == MAX_SHARD_LENGTH
    ensures Coded(block, parity, k, data) && m == PARITY_SHARDS && present == GoodMap(dir, data) ==>
              dir' == RestoredUpTo(dir, data, k + m) && repaired == k + m - PresentCount(present, k + m)
  {
    hide ShardFile, BlockHolds, ParityHolds;
    ghost var coded := Coded(block, parity, k, data) && m == PARITY_SHARDS && present == GoodMap(dir, data);
    dir', repaired := dir, 0;
    for s := 0 to k + m
      invariant coded ==> Coded(block, parity, k, data)
      invariant repaired == s - PresentCount(present, s)
      invariant coded ==> dir' == RestoredUpTo(dir, data, s)
    {
      if !present[s] {
        var shard := WriteShard(block, parity, k, s, data);
        dir' := dir'.(files := dir'.files[s := shard]);
        repaired := repaired + 1;
      }
      if coded {
        RestoredStep(dir, data, s);
      }
    }
  }

  lemma RestoredStep(dir: Directory, data: seq<Byte>, s: nat)
    requires |data| <= MAX_BLOB && s < AllShards(|data|)
    ensures var d, d' := RestoredUpTo(dir, data, s), RestoredUpTo(dir, data, s + 1);
            && d' == d.(files := d.files[s := ShardFile(data, s)])
            && (Good(dir, data, s) ==> d' == d)
  {
    hide ShardFile;
  }

  // ---- What repair promises ----

  lemma {:induction false} CountBound(present: seq<bool>, n: nat)
    requires n <= |present|
    ensures PresentCount(present, n) <= n
    ensures (forall s :: 0 <= s < n ==> present[s]) ==> PresentCount(present, n) == n
  {
    if n > 0 {
      CountBound(present, n - 1);
    }
  }

  /** Restoring keeps what the directory holds and leaves all shards good, so that a second repair
      has nothing to do. */
  lemma RestoredIsWhole(hash: Hash, dir: Directory, data: seq<Byte>)
    requires Holds(hash, dir, data)
    ensures var r := Restored(dir, data);
            && Holds(hash, r, data) && Recoverable(r, data) && Survivors(r, data) == AllShards(|data|)
            && Restored(r, data) == r && r.tag == dir.tag
  {
    hide ShardFile, IndexOf;
    var r, n := Restored(dir, data), AllShards(|data|);
    forall s: nat | s < n
      ensures Good(r, data, s)
    {
      assert s in FilesOf(data);
    }
    CountBound(GoodMap(r, data), n);
  }

  /** A new directory holds its blob, all shards good. */
  lemma StoredIsWhole(hash: Hash, data: seq<Byte>, tag: Option<seq<Byte>>)
    requires |data| <= MAX_BLOB
    ensures var d := StoredAs(hash, data).(tag := tag); Holds(hash, d, data) && Restored(d, data) == d
    ensures var d := StoredAs(hash, data).(tag := tag); Survivors(d, data) == AllShards(|data|) && Recoverable(d, data)
  {
    hide ShardFile, IndexOf;
    var d, n := StoredAs(hash, data).(tag := tag), AllShards(|data|);
    forall s: nat | s < n
      ensures Good(d, data, s)
    {}
    CountBound(GoodMap(d, data), n);
  }

  /** With at most two bad shards the blob can be recovered. */
  lemma TwoLossesAreRecoverable(dir: Directory, data: seq<Byte>, bad: set<nat>)
    requires |data| <= MAX_BLOB && |bad| <= PARITY_SHARDS
    requires forall s: nat :: s < AllShards(|data|) && s !in bad ==> Good(dir, data, s)
    ensures Recoverable(dir, data)
  {
    hide ShardFile, Good;
    CountWithout(GoodMap(dir, data), AllShards(|data|), bad);
  }

  lemma {:induction false} CountWithout(present: seq<bool>, n: nat, bad: set<nat>)
    requires n <= |present| && forall s: nat :: s < n && s !in bad ==> present[s]
    ensures PresentCount(present, n) + |bad| >= n
    decreases n
  {
    if n > 0 {
      if n - 1 in bad {
        CountWithout(present, n - 1, bad - {n - 1});
      } else {
        CountWithout(present, n - 1, bad);
      }
    }
  }
}
