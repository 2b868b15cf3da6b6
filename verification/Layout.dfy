/** The bytes on disk: what the files of a stored object hold, byte by byte. */
module Layout {
  import opened BitOps
  import opened GaloisField
  import opened LinearAlgebra
  import opened Erasure
  import opened Cipher
  import opened Octets
  import opened Shards
  import opened ObjectFormat
  import opened ContentStore
  import opened Audit

  // ---- Chunks ----

  /** Byte `i` of the blob of chunk `c` is that byte of the payload under the keystream: the block at
      128c + i / 64 of the encryption key and the nonce of the object. */
  lemma StoredByte(e: Primitives, disk: Disk, id: Digest, o: Object, c: nat, i: nat)
    requires Present(e, disk, id, o) && 8192 * c + i < |o.payload| && i < 8192
    ensures c < ChunkCount(|o.payload|) && ChunkName(e, o, c) in disk.chunks.bytes
    ensures var blob := disk.chunks.bytes[ChunkName(e, o, c)];
            && i < |blob|
            && blob[i] == Xor(o.payload[8192 * c + i],
                              e.block(EncryptionKey(e.mac, o.key), o.nonce, 128 * c + i / 64)[i % 64])
  {
    hide Consistent, ManifestBytes, TagOf, Xor, NonceOf, EncryptionKey;
    ManifestListsIt(o, c, i);
    InChunk(|o.payload|, c, i);
    assert HasChunk(e, disk.chunks, o, c);
    ChunkCounter(c, i);
  }

  lemma ManifestListsIt(o: Object, c: nat, i: nat)
    requires Consistent(o) && 8192 * c + i < |o.payload|
    ensures c < 255
  {}

  lemma InChunk(length: nat, c: nat, i: nat)
    requires 8192 * c + i < length && i < 8192
    ensures c < ChunkCount(length) && ChunkStart(length, c) == 8192 * c && 8192 * c + i < ChunkStart(length, c + 1)
  {}

  /** No two bytes of an object are under the same byte of the keystream. */
  lemma KeystreamUsedOnce(c: nat, i: nat, c': nat, i': nat)
    requires i < 8192 && i' < 8192 && (c != c' || i != i')
    ensures 128 * c + i / 64 != 128 * c' + i' / 64 || i % 64 != i' % 64
  {}

  // ---- Shards ----

  /** Byte `i` of the blob, or zero after its end. */
  function ByteAt(data: seq<Byte>, i: nat): Byte {
    if i < |data| then data[i] else 0
  }

  lemma ColumnIs(data: seq<Byte>, k: nat, s: nat, i: nat)
    requires s < k
    ensures BlobColumn(data, k, i)[s] == ToSymbol(ByteAt(data, 1024 * s + i))
  {}

  /** A data shard holds its 1024 bytes of the blob, padded with zeros. */
  lemma DataFile(data: seq<Byte>, s: nat, i: nat)
    requires |data| <= MAX_BLOB && s < DataShards(|data|) && i < 1024
    ensures ShardFile(data, s)[i] == ByteAt(data, 1024 * s + i)
  {
    hide ShardSymbol, CodingRow, BlobColumn, ToSymbol, ToByte, ByteAt;
    var k := DataShards(|data|);
    DataShardIsVerbatim(k, s, BlobColumn(data, k, i));
    ColumnIs(data, k, s, i);
    ByteRoundTrip(ByteAt(data, 1024 * s + i));
  }

  /** So the data shards of a chunk, as they are written, hold the payload under the keystream. */
  lemma CipherOnDisk(e: Primitives, disk: Disk, id: Digest, o: Object, c: nat, s: nat, i: nat)
    requires Present(e, disk, id, o) && i < 1024 && 1024 * s + i < 8192 && 8192 * c + 1024 * s + i < |o.payload|
    requires c < ChunkCount(|o.payload|) && Unharmed(e.hash, disk.chunks, ChunkName(e, o, c))
    ensures var dir := disk.chunks.dirs[ChunkName(e, o, c)];
            && s in dir.files && i < |dir.files[s]|
            && dir.files[s][i] == Xor(o.payload[8192 * c + 1024 * s + i],
                                      e.block(EncryptionKey(e.mac, o.key), o.nonce, 128 * c + 16 * s + i / 64)[i % 64])
  {
    hide Present, ShardFile, ByteAt, Xor, EncryptionKey, IndexOf, ChunkName;
    var j := 1024 * s + i;
    var blob := disk.chunks.bytes[ChunkName(e, o, c)];
    StoredByte(e, disk, id, o, c, j);
    FileOfByte(|blob|, s, i);
    DataFile(blob, s, i);
    ByteIs(blob, j);
    BlockOfByte(s, i);
  }

  lemma FileOfByte(length: nat, s: nat, i: nat)
    requires length <= MAX_BLOB && 1024 * s + i < length
    ensures s < DataShards(length) && s < AllShards(length)
  {}

  lemma ByteIs(data: seq<Byte>, i: nat)
    requires i < |data|
    ensures ByteAt(data, i) == data[i]
  {}

  lemma BlockOfByte(s: nat, i: nat)
    ensures (1024 * s + i) / 64 == 16 * s + i / 64 && (1024 * s + i) % 64 == i % 64
  {}

  /** Entry `j` of the row of parity shard `p`, and of the column of bytes it is multiplied with. */
  ghost predicate IsTerm(row: Vector, column: Vector, data: seq<Byte>, p: nat, i: nat, j: nat)
    requires j < |row| == |column| && j < 8 && p < 2
  {
    && Product(row[j], Sum((8 + p) as bv8, j as bv8)) == 1
    && column[j] == ToSymbol(ByteAt(data, 1024 * j + i))
  }

  /** A parity shard holds the sums of the data bytes, each over 8 + p + j in the field. */
  lemma ParityFile(data: seq<Byte>, p: nat, i: nat) returns (row: Vector, column: Vector)
    requires |data| <= MAX_BLOB && p < 2 && i < 1024
    ensures var k := DataShards(|data|);
            && |row| == |column| == k && ShardFile(data, k + p)[i] == ToByte(Dot(row, column, k))
            && forall j :: 0 <= j < k ==> IsTerm(row, column, data, p, i, j)
  {
    hide CodingRow, BlobColumn, ToSymbol, ByteAt, Product, Dot, Sum;
    var k := DataShards(|data|);
    row, column := CodingRow(k, k + p), BlobColumn(data, k, i);
    forall j | 0 <= j < k
      ensures IsTerm(row, column, data, p, i, j)
    {
      CoefficientIs(k, p, j);
      ColumnIs(data, k, j, i);
    }
  }

  /** The index file: the length in four bytes, the numbers of shards, and the digest of every shard. */
  lemma IndexFile(hash: Hash, data: seq<Byte>, s: nat)
    requires |data| <= MAX_BLOB && s < AllShards(|data|)
    ensures var idx, k := IndexOf(hash, data), if |data| == 0 then 1 else (|data| + 1023) / 1024;
            && |idx| == 6 + 32 * (k + 2) && idx[0] == idx[1] == 0 && 256 * AsNat(idx[2]) + AsNat(idx[3]) == |data|
            && idx[4] == k && idx[5] == 2 && idx[6 + 32 * s..6 + 32 * s + 32] == hash(ShardFile(data, s))
  {
    hide ShardFile, ShardDigests;
    IndexRoundTrip(hash, data);
    assert forall i :: 0 <= i < 6 ==> IndexOf(hash, data)[i] == IndexHeader(|data|)[i];
  }

  // ---- Manifests ----

  lemma HeaderFile(payloadLength: nat, length: nat, compressed: bool, nonce: Nonce, i: nat)
    requires i < 8
    ensures var h := ManifestHeader(payloadLength, length, compressed, nonce);
            && h[i] == payloadLength / Range(7 - i) % 256 && h[8 + i] == length / Range(7 - i) % 256
            && h[16] == (if compressed then 1 else 0) && h[17..29] == nonce
  {
    hide ToBigEndian, Range;
    BigEndianByte(payloadLength, 8, i);
    BigEndianByte(length, 8, i);
  }

  /** The manifest of an object: the lengths of payload and data in eight bytes each, the flag and
      the nonce. */
  lemma ManifestFile(e: Primitives, o: Object, i: nat)
    requires i < 8
    ensures var m := ManifestBytes(e, o);
            && |m| == 29 + 32 * ChunkCount(|o.payload|)
            && m[i] == |o.payload| / Range(7 - i) % 256 && m[8 + i] == |o.data| / Range(7 - i) % 256
            && m[16] == (if o.compressed then 1 else 0) && m[17..29] == o.nonce
  {
    hide ManifestHeader, Flatten, Range, ChunkNames;
    HeaderFile(|o.payload|, |o.data|, o.compressed, o.nonce, i);
    var m, h := ManifestBytes(e, o), ManifestHeader(|o.payload|, |o.data|, o.compressed, o.nonce);
    assert m[..29] == h;
    assert m[17..29] == h[17..29] && m[i] == h[i] && m[8 + i] == h[8 + i] && m[16] == h[16];
  }

  /** After the header, the digest of the blob of every chunk. */
  lemma ManifestSlot(e: Primitives, disk: Disk, id: Digest, o: Object, c: nat)
    requires Present(e, disk, id, o) && c < ChunkCount(|o.payload|)
    ensures ChunkName(e, o, c) in disk.chunks.bytes
    ensures ManifestBytes(e, o)[29 + 32 * c..29 + 32 * c + 32]
         == ChunkName(e, o, c) == e.hash(disk.chunks.bytes[ChunkName(e, o, c)])
  {
    hide Consistent, TagOf, ManifestHeader, Flatten, ChunkBytes;
    assert HasChunk(e, disk.chunks, o, c);
    var names := ChunkNames(e, o, ChunkCount(|o.payload|));
    FlattenSlot(names, c);
    assert names[c] == ChunkName(e, o, c);
    assert ManifestBytes(e, o)[29..] == Flatten(names);
    assert ManifestBytes(e, o)[29 + 32 * c..29 + 32 * c + 32] == Flatten(names)[32 * c..32 * c + 32];
  }

  /** The name of the object is the digest of its manifest, and the tag is a code over the name. */
  lemma ManifestNamed(e: Primitives, disk: Disk, id: Digest, o: Object, seen: set<seq<Byte>>)
    requires Present(e, disk, id, o) && AllHold(e.hash, disk.manifests, seen)
    ensures id == e.hash(ManifestBytes(e, o)) && id in disk.manifests.dirs
    ensures disk.manifests.dirs[id].tag == Some(e.mac(MacKey(e.mac, o.key), id))
  {
    hide Consistent, Holds, ManifestBytes, HasChunk, MacKey;
  }
}
