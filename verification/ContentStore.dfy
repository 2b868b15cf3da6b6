/** The content-addressed store: objects as encrypted, erasure-coded chunks named by digest.

    The disk is a map from names to shard directories.  SHA-256, HMAC and the ChaCha20 block
    function are parameters.  Ghost fields remember which bytes each directory was written for;
    shard files may be lost or damaged at any time, as long as `Valid` holds. */
module ContentStore {
  import opened BitOps
  import opened Cipher
  import opened Shards
  import opened ObjectFormat
  import opened Totals
  import DeflateFormat
  import Deflate
  import Inflate

  /** SHA-256, HMAC-SHA256 and the ChaCha20 block function. */
  datatype Primitives = Primitives(hash: Hash, mac: Mac, block: BlockFunction)

  /** What was stored under an object id. */
  datatype Object = Object(key: Key, nonce: Nonce, payload: seq<Byte>, compressed: bool, data: seq<Byte>)

  datatype PutResult = Stored(id: Digest) | TooLarge
  datatype LoadResult = Got(data: seq<Byte>) | Corrupt | Unauthenticated

  /** The payload stands for the data. */
  ghost predicate Consistent(o: Object) {
    && |o.payload| <= 255 * CHUNK_SIZE && |o.data| < 0x1_0000_0000_0000_0000
    && if o.compressed
       then DeflateFormat.Inflated(o.payload).Parsed? && DeflateFormat.Inflated(o.payload).value == o.data
       else o.payload == o.data
  }

  /** Directories by name, with the bytes that each was written for. */
  datatype Shelf = Shelf(dirs: map<Digest, Directory>, bytes: map<Digest, seq<Byte>>)

  datatype Disk = Disk(chunks: Shelf, manifests: Shelf)

  /** Every directory holds the bytes it was written for. */
  ghost predicate AllHold(hash: Hash, shelf: Shelf, seen: set<seq<Byte>>) {
    && shelf.dirs.Keys == shelf.bytes.Keys
    && forall d :: d in shelf.dirs ==>
         hash(shelf.bytes[d]) == d && shelf.bytes[d] in seen && Holds(hash, shelf.dirs[d], shelf.bytes[d])
  }

  /** The directories are the same but for their tags. */
  predicate SameShards(a: Directory, b: Directory) {
    a.idx == b.idx && a.files == b.files
  }

  /** Blob `d` is as it is written. */
  ghost predicate Unharmed(hash: Hash, shelf: Shelf, d: Digest) {
    && d in shelf.dirs && d in shelf.bytes && |shelf.bytes[d]| <= MAX_BLOB
    && SameShards(shelf.dirs[d], StoredAs(hash, shelf.bytes[d]))
  }

  /** Nothing is lost or rewritten: what was there keeps its bytes and its shards, damaged or not,
      and what is new has all the shards of its bytes. */
  ghost predicate Extends(hash: Hash, s: Shelf, s': Shelf) {
    && s.dirs.Keys <= s'.dirs.Keys && s.bytes.Keys <= s'.bytes.Keys
    && (forall d :: d in s.bytes ==> s'.bytes[d] == s.bytes[d])
    && (forall d :: d in s.dirs ==> SameShards(s.dirs[d], s'.dirs[d]))
    && forall d :: d in s'.dirs && d !in s.dirs ==> Unharmed(hash, s', d)
  }

  /** The directories after a blob was stored: one that is there is not written again. */
  ghost function WithBlob(hash: Hash, dirs: map<Digest, Directory>, bytes: seq<Byte>): map<Digest, Directory>
    requires |bytes| <= MAX_BLOB
  {
    if hash(bytes) in dirs then dirs else dirs[hash(bytes) := StoredAs(hash, bytes)]
  }

  // ---- Objects on disk ----

  /** The stored bytes of chunk `c` of an object. */
  ghost function ChunkBytes(e: Primitives, o: Object, c: nat): (r: seq<Byte>)
    requires c < ChunkCount(|o.payload|)
    ensures |r| <= MAX_BLOB
  {
    CipherChunk(e.block, EncryptionKey(e.mac, o.key), o.nonce, o.payload, c)
  }

  ghost function ChunkName(e: Primitives, o: Object, c: nat): Digest
    requires c < ChunkCount(|o.payload|)
  {
    e.hash(ChunkBytes(e, o, c))
  }

  ghost function ChunkNames(e: Primitives, o: Object, n: nat): (ds: seq<Digest>)
    requires n <= ChunkCount(|o.payload|)
    ensures |ds| == n
  {
    seq<Digest>(n, c requires 0 <= c < n => ChunkName(e, o, c))
  }

  ghost function ManifestBytes(e: Primitives, o: Object): (m: seq<Byte>)
    ensures |m| == HEADER + 32 * ChunkCount(|o.payload|)
  {
    ManifestOf(|o.payload|, |o.data|, o.compressed, o.nonce, ChunkNames(e, o, ChunkCount(|o.payload|)))
  }

  /** Blob `d` is on the shelf, written for `bytes`. */
  ghost predicate Has(shelf: Shelf, d: Digest, bytes: seq<Byte>) {
    d in shelf.dirs && d in shelf.bytes && shelf.bytes[d] == bytes
  }

  ghost predicate HasChunk(e: Primitives, chunks: Shelf, o: Object, c: nat)
    requires c < ChunkCount(|o.payload|)
  {
    Has(chunks, ChunkName(e, o, c), ChunkBytes(e, o, c))
  }

  /** `m` is the manifest of `o`, and the chunks of `o` are on the shelf. */
  ghost predicate Lists(e: Primitives, chunks: Shelf, m: seq<Byte>, o: Object) {
    && Consistent(o) && m == ManifestBytes(e, o)
    && forall c: nat :: c < ChunkCount(|o.payload|) ==> HasChunk(e, chunks, o, c)
  }

  /** The object is on disk under `id`: its manifest with its tag, and all its chunks. */
  ghost predicate Present(e: Primitives, disk: Disk, id: Digest, o: Object) {
    && Consistent(o) && Has(disk.manifests, id, ManifestBytes(e, o))
    && disk.manifests.dirs[id].tag == Some(TagOf(e.mac, o.key, id))
    && forall c: nat :: c < ChunkCount(|o.payload|) ==> HasChunk(e, disk.chunks, o, c)
  }

  /** The disk after some manifests were stored under `ids`, and chunks for them.  What is new is as
      it is written; what was there is not written again, except for the tags of these manifests. */
  ghost predicate Grows(e: Primitives, key: Key, ids: set<Digest>, disk: Disk, disk': Disk) {
    && Extends(e.hash, disk.chunks, disk'.chunks) && Extends(e.hash, disk.manifests, disk'.manifests)
    && disk'.manifests.dirs.Keys == disk.manifests.dirs.Keys + ids
    && (forall i :: i in ids ==> disk'.manifests.dirs[i].tag == Some(TagOf(e.mac, key, i)))
    && forall i :: i in disk.manifests.dirs && i !in ids ==> disk'.manifests.dirs[i] == disk.manifests.dirs[i]
  }

  /** The disk after a put of `o` under `id`: its manifest and its chunks are there, and nothing else
      is new. */
  ghost predicate Written(e: Primitives, disk: Disk, disk': Disk, id: Digest, o: Object) {
    && id == e.hash(ManifestBytes(e, o)) && Grows(e, o.key, {id}, disk, disk')
    && disk'.chunks.dirs.Keys == disk.chunks.dirs.Keys + NameSet(e, o, ChunkCount(|o.payload|))
  }

  /** Blob `d` can be read back. */
  ghost predicate Readable(shelf: Shelf, d: Digest) {
    d in shelf.dirs && d in shelf.bytes && |shelf.bytes[d]| <= MAX_BLOB && Recoverable(shelf.dirs[d], shelf.bytes[d])
  }

  /** Enough shards of the manifest and of every chunk are left. */
  ghost predicate AllReadable(e: Primitives, disk: Disk, id: Digest, o: Object) {
    Readable(disk.manifests, id) && ChunksReadable(e, disk.chunks, o)
  }

  ghost predicate ChunksReadable(e: Primitives, chunks: Shelf, o: Object) {
    forall c: nat :: c < ChunkCount(|o.payload|) ==> Readable(chunks, ChunkName(e, o, c))
  }

  /** Blob `d` is not there, or can be read back. */
  ghost predicate Usable(shelf: Shelf, d: Digest) {
    d in shelf.dirs ==> Readable(shelf, d)
  }

  /** The blobs of the object that are there can be read. */
  ghost predicate AllUsable(e: Primitives, disk: Disk, id: Digest, o: Object) {
    && Usable(disk.manifests, id)
    && forall c: nat :: c < ChunkCount(|o.payload|) ==> Usable(disk.chunks, ChunkName(e, o, c))
  }

  lemma SameSurvivors(a: Directory, b: Directory, data: seq<Byte>)
    requires |data| <= MAX_BLOB && SameShards(a, b)
    ensures Survivors(a, data) == Survivors(b, data)
  {
    hide ShardFile;
    assert GoodMap(a, data) == GoodMap(b, data);
  }

  /** After blobs were stored, one can be read exactly if it was not there before or could be read. */
  lemma ReadableAfter(hash: Hash, s: Shelf, s': Shelf, d: Digest)
    requires Extends(hash, s, s') && s.dirs.Keys == s.bytes.Keys && d in s'.dirs
    ensures Readable(s', d) <==> Usable(s, d)
  {
    hide StoredAs, Survivors;
    if d in s.dirs {
      if |s.bytes[d]| <= MAX_BLOB {
        SameSurvivors(s.dirs[d], s'.dirs[d], s.bytes[d]);
      }
    } else {
      assert Unharmed(hash, s', d);
      StoredIsWhole(hash, s'.bytes[d], None);
      SameSurvivors(s'.dirs[d], StoredAs(hash, s'.bytes[d]).(tag := None), s'.bytes[d]);
    }
  }

  lemma AllReadableAfter(e: Primitives, disk: Disk, disk': Disk, id: Digest, o: Object)
    requires Extends(e.hash, disk.chunks, disk'.chunks) && Extends(e.hash, disk.manifests, disk'.manifests)
    requires disk.chunks.dirs.Keys == disk.chunks.bytes.Keys && disk.manifests.dirs.Keys == disk.manifests.bytes.Keys
    requires Present(e, disk', id, o)
    ensures AllReadable(e, disk', id, o) <==> AllUsable(e, disk, id, o)
  {
    hide Readable, Usable, Extends, Consistent, ManifestBytes, ChunkBytes, TagOf;
    ReadableAfter(e.hash, disk.manifests, disk'.manifests, id);
    forall c: nat | c < ChunkCount(|o.payload|)
      ensures Readable(disk'.chunks, ChunkName(e, o, c)) <==> Usable(disk.chunks, ChunkName(e, o, c))
    {
      assert HasChunk(e, disk'.chunks, o, c);
      ReadableAfter(e.hash, disk.chunks, disk'.chunks, ChunkName(e, o, c));
    }
  }

  /** Adding directories, and rewriting tags with the same key, keeps every object. */
  lemma PresentPersists(e: Primitives, disk: Disk, disk': Disk, id: Digest, o: Object)
    requires Present(e, disk, id, o)
    requires Extends(e.hash, disk.chunks, disk'.chunks) && Extends(e.hash, disk.manifests, disk'.manifests)
    requires disk'.manifests.dirs[id].tag == Some(TagOf(e.mac, o.key, id))
    ensures Present(e, disk', id, o)
  {
    hide Consistent, ChunkBytes, ManifestBytes, TagOf;
    forall c: nat | c < ChunkCount(|o.payload|)
      ensures HasChunk(e, disk'.chunks, o, c)
    {
      assert HasChunk(e, disk.chunks, o, c);
    }
  }

  lemma GrowsKeeps(e: Primitives, key: Key, ids: set<Digest>, disk: Disk, disk': Disk, id: Digest, o: Object)
    requires Grows(e, key, ids, disk, disk') && Present(e, disk, id, o) && o.key == key
    ensures Present(e, disk', id, o)
  {
    hide Extends, TagOf, Consistent, ManifestBytes, HasChunk;
    PresentPersists(e, disk, disk', id, o);
  }

  lemma GrowsFurther(e: Primitives, key: Key, more: set<Digest>, ids: set<Digest>, a: Disk, b: Disk, c: Disk)
    requires Grows(e, key, more, a, b) && Grows(e, key, ids, b, c)
    ensures Grows(e, key, more + ids, a, c)
  {
    hide Extends, TagOf;
    ExtendsFurther(e.hash, a.chunks, b.chunks, c.chunks);
    ExtendsFurther(e.hash, a.manifests, b.manifests, c.manifests);
  }

  lemma NothingGrows(e: Primitives, key: Key, disk: Disk)
    ensures Grows(e, key, {}, disk, disk)
  {}

  /** Without collisions, a name that is taken is taken by the same bytes. */
  lemma NameDetermines(hash: Hash, shelf: Shelf, seen: set<seq<Byte>>, bytes: seq<Byte>)
    requires AllHold(hash, shelf, seen) && CollisionFree(hash, seen) && bytes in seen && hash(bytes) in shelf.dirs
    ensures Has(shelf, hash(bytes), bytes)
  {
    hide Holds;
  }

  lemma TagKeepsContent(hash: Hash, dir: Directory, data: seq<Byte>, tag: Option<seq<Byte>>)
    requires Holds(hash, dir, data)
    ensures Holds(hash, dir.(tag := tag), data)
  {
    hide IndexOf, ShardFile;
    var dir' := dir.(tag := tag);
    forall s: nat | s < AllShards(|data|) && Passes(hash, dir', data, s)
      ensures Good(dir', data, s)
    {
      assert Passes(hash, dir, data, s);
    }
  }

  lemma NewDirectoryHolds(hash: Hash, data: seq<Byte>)
    requires |data| <= MAX_BLOB
    ensures Holds(hash, StoredAs(hash, data), data)
  {
    StoredIsWhole(hash, data, None);
  }

  lemma ShelfGrows(hash: Hash, shelf: Shelf, seen: set<seq<Byte>>, data: seq<Byte>, dir: Directory)
    requires AllHold(hash, shelf, seen) && Holds(hash, dir, data)
    requires hash(data) in shelf.dirs ==> shelf.bytes[hash(data)] == data
    ensures AllHold(hash, Shelf(shelf.dirs[hash(data) := dir], shelf.bytes[hash(data) := data]), seen + {data})
  {
    hide Holds;
  }

  lemma MoreSeen(hash: Hash, shelf: Shelf, seen: set<seq<Byte>>, more: set<seq<Byte>>)
    requires AllHold(hash, shelf, seen) && seen <= more
    ensures AllHold(hash, shelf, more)
  {
    hide Holds;
  }

  /** Copies bytes into an array. */
  method Blit(a: array<Byte>, offset: nat, bytes: seq<Byte>)
    requires offset + |bytes| <= a.Length
    modifies a
    ensures a[..] == old(a[..offset]) + bytes + old(a[offset + |bytes|..])
  {
    for i := 0 to |bytes|
      invariant a[..offset] == old(a[..offset]) && a[offset..offset + i] == bytes[..i]
      invariant a[offset + i..] == old(a[offset + i..])
    {
      a[offset + i] := bytes[i];
    }
    assert bytes[..|bytes|] == bytes;
    assert a[..] == a[..offset] + a[offset..offset + |bytes|] + a[offset + |bytes|..];
  }

  const PROBE_SIZE := 131072

  ghost predicate Compresses(stream: seq<Byte>, data: seq<Byte>) {
    DeflateFormat.Inflated(stream).Parsed? && DeflateFormat.Inflated(stream).value == data
  }

  /** What is stored for `data`: its compressed form exactly when a prefix shrinks and the whole does. */
  method ChoosePayload(data: seq<Byte>)
    returns (payload: seq<Byte>, compressed: bool, ghost probe: seq<Byte>, ghost whole: seq<Byte>)
    ensures var n := if |data| < 131072 then |data| else 131072;
            && Compresses(probe, data[..n])
            && (compressed <==> |probe| < n && |whole| < |data|) && (|probe| < n ==> Compresses(whole, data))
    ensures payload == if compressed then whole else data
  {
    hide DeflateFormat.Inflated;
    var probeLength := if |data| < PROBE_SIZE then |data| else PROBE_SIZE;
    var start := Deflate.Compress(data[..probeLength]);
    var worth := probeLength > 0 && |start| < probeLength;
    var comp := start;
    if worth && probeLength < |data| {
      comp := Deflate.Compress(data);
    }
    assert probeLength == |data| ==> data[..probeLength] == data;
    compressed := worth && |comp| < |data|;
    payload := if compressed then comp else data;
    probe, whole := start, comp;
  }

  /** The payload is the data, or shorter, and the nonce is derived from it. */
  ghost predicate Chosen(e: Primitives, o: Object) {
    && (if o.compressed then |o.payload| < |o.data| else o.payload == o.data)
    && o.nonce == NonceOf(e.hash, e.mac, EncryptionKey(e.mac, o.key), o.payload)
  }

  class Store {
    const primitives: Primitives
    var chunks: map<Digest, Directory>
    var manifests: map<Digest, Directory>
    ghost var chunkBytes: map<Digest, seq<Byte>>
    ghost var manifestBytes: map<Digest, seq<Byte>>
    ghost var seen: set<seq<Byte>>

    ghost function Contents(): Disk
      reads this
    {
      Disk(Shelf(chunks, chunkBytes), Shelf(manifests, manifestBytes))
    }

    ghost predicate Valid()
      reads this
    {
      AllHold(primitives.hash, Contents().chunks, seen) && AllHold(primitives.hash, Contents().manifests, seen)
    }

    constructor (primitives: Primitives)
      ensures Valid() && chunks == map[] && manifests == map[] && this.primitives == primitives
    {
      this.primitives := primitives;
      chunks, manifests := map[], map[];
      chunkBytes, manifestBytes, seen := map[], map[], {};
    }

    // ---- Writing ----

    /** Stores a blob under its digest, unless there is a directory of that name already. */
    method StoreChunk(bytes: seq<Byte>) returns (d: Digest)
      requires Valid() && |bytes| <= MAX_BLOB
      modifies `chunks, `chunkBytes, `seen
      ensures Valid() && d == primitives.hash(bytes) && seen == old(seen) + {bytes}
      ensures chunks == WithBlob(primitives.hash, old(chunks), bytes)
      ensures Extends(primitives.hash, old(Contents().chunks), Contents().chunks)
    {
      hide AllHold, Holds, StoredAs;
      d := primitives.hash(bytes);
      MoreSeen(primitives.hash, Contents().chunks, seen, seen + {bytes});
      MoreSeen(primitives.hash, Contents().manifests, seen, seen + {bytes});
      if d !in chunks {
        var dir := StoreShards(primitives.hash, bytes);
        NewDirectoryHolds(primitives.hash, bytes);
        ShelfGrows(primitives.hash, Contents().chunks, seen, bytes, dir);
        NoOrphans(primitives.hash, Contents().chunks, seen);
        chunks := chunks[d := dir];
        chunkBytes := chunkBytes[d := bytes];
      }
      seen := seen + {bytes};
    }

    /** Encrypts and stores chunk `c`, and records its digest in its slot of the manifest. */
    method DoChunk(o: Object, c: nat, manifest: array<Byte>)
      requires Valid() && c < ChunkCount(|o.payload|) && c < 0x200_0000
      requires manifest.Length == HEADER + 32 * ChunkCount(|o.payload|)
      modifies `chunks, `chunkBytes, `seen, manifest
      ensures Valid() && seen == old(seen) + {ChunkBytes(primitives, o, c)}
      ensures chunks == WithBlob(primitives.hash, old(chunks), ChunkBytes(primitives, o, c))
      ensures Extends(primitives.hash, old(Contents().chunks), Contents().chunks)
      ensures manifest[..] == old(manifest[..HEADER + 32 * c]) + ChunkName(primitives, o, c)
                + old(manifest[HEADER + 32 * c + 32..])
    {
      hide Valid, Crypted, EncryptionKey, Extends;
      var chunk := ChunkOf(o.payload, c);
      var bytes := new Byte[|chunk|](i requires 0 <= i < |chunk| => chunk[i]);
      assert bytes[..] == chunk;
      XCrypt(primitives.block, EncryptionKey(primitives.mac, o.key), o.nonce, CounterFor(c), bytes);
      var d := StoreChunk(bytes[..]);
      Blit(manifest, HEADER + 32 * c, d);
    }

    /** The chunks below `n` have been hashed and have directories, besides those of `before`. */
    ghost predicate ChunksDone(o: Object, n: nat, before: set<Digest>)
      requires n <= ChunkCount(|o.payload|)
      reads this
    {
      AllDone(primitives, o, n, before, Contents().chunks, seen)
    }

    /** Stores all the chunks and fills the manifest. */
    method StoreChunks(o: Object) returns (manifest: seq<Byte>)
      requires Valid() && |o.payload| <= 255 * CHUNK_SIZE
      modifies `chunks, `chunkBytes, `seen
      ensures Valid() && old(seen) <= seen && Extends(primitives.hash, old(Contents().chunks), Contents().chunks)
      ensures manifest == ManifestBytes(primitives, o) && ChunksDone(o, ChunkCount(|o.payload|), old(chunks.Keys))
    {
      hide Valid, ChunkName, ChunkBytes, Flatten, ManifestHeader, ManifestBytes, AllDone, Extends, ChunkCount,
           ChunkNames;
      var n := ChunkCount(|o.payload|);
      assert n <= 255 by {
        ManifestFits(|o.payload|);
      }
      var header := ManifestHeader(|o.payload|, |o.data|, o.compressed, o.nonce);
      var a := new Byte[HEADER + 32 * n](_ => 0);
      Blit(a, 0, header);
      StartManifest(primitives, o, a[..], header);
      NoChunksDone(o);
      for c := 0 to n
        invariant Valid() && old(seen) <= seen && fresh(a) && ChunksDone(o, c, old(chunks.Keys))
        invariant Extends(primitives.hash, old(Contents().chunks), Contents().chunks)
        invariant a[..HEADER + 32 * c] == header + Flatten(ChunkNames(primitives, o, c))
      {
        ghost var before, disk, names := a[..], Contents(), seen;
        DoChunk(o, c, a);
        MoreChunksDone(primitives, o, c, old(chunks.Keys), disk.chunks, names, Contents().chunks, seen);
        ExtendsFurther(primitives.hash, old(Contents().chunks), disk.chunks, Contents().chunks);
        SlotWritten(primitives, o, before, a[..], header, c);
      }
      manifest := a[..];
      assert a[..] == a[..HEADER + 32 * n];
      ManifestIs(primitives, o, header);
    }

    lemma NoChunksDone(o: Object)
      ensures ChunksDone(o, 0, chunks.Keys) && Extends(primitives.hash, Contents().chunks, Contents().chunks)
    {}

    /** Writes the manifest under its digest, and its tag. */
    method StoreManifest(key: Key, manifest: seq<Byte>) returns (id: Digest)
      requires Valid() && |manifest| <= MAX_BLOB
      modifies `manifests, `manifestBytes, `seen
      ensures Valid() && id == primitives.hash(manifest) && seen == old(seen) + {manifest}
      ensures var dirs := WithBlob(primitives.hash, old(manifests), manifest);
              manifests == dirs[id := dirs[id].(tag := Some(TagOf(primitives.mac, key, id)))]
      ensures Extends(primitives.hash, old(Contents().manifests), Contents().manifests)
    {
      hide AllHold, Holds, StoredAs, TagOf;
      id := primitives.hash(manifest);
      MoreSeen(primitives.hash, Contents().chunks, seen, seen + {manifest});
      MoreSeen(primitives.hash, Contents().manifests, seen, seen + {manifest});
      NoOrphans(primitives.hash, Contents().manifests, seen);
      var dir;
      ghost var bytes := manifest;
      if id in manifests {
        dir := manifests[id];
        bytes := manifestBytes[id];
        SeenBytes(primitives.hash, Contents().manifests, seen, id);
      } else {
        dir := StoreShards(primitives.hash, manifest);
        NewDirectoryHolds(primitives.hash, manifest);
      }
      var tag := Some(TagOf(primitives.mac, key, id));
      TagKeepsContent(primitives.hash, dir, bytes, tag);
      ShelfGrows(primitives.hash, Contents().manifests, seen + {manifest}, bytes, dir.(tag := tag));
      manifests := manifests[id := dir.(tag := tag)];
      manifestBytes := manifestBytes[id := bytes];
      assert seen + {manifest} + {bytes} == seen + {manifest};
      seen := seen + {manifest};
    }

    /** Stores an object, unless its payload needs more chunks than a manifest can list; then nothing
        changes.  Blobs that are there are not written again.  Unless two of the byte strings hashed so
        far collide, the object is then on disk.  Objects stored before stay, except that the tag of the
        same object under another key is replaced. */
    method Put(key: Key, data: seq<Byte>) returns (r: PutResult, ghost o: Object)
      requires Valid() && |data| < 0x1_0000_0000_0000_0000
      modifies this
      ensures Valid() && old(seen) <= seen
      ensures o.key == key && o.data == data && Chosen(primitives, o)
      ensures (r.Stored? <==> |o.payload| <= 255 * CHUNK_SIZE) && (r.TooLarge? ==> Contents() == old(Contents()))
      ensures r.Stored? ==> Written(primitives, old(Contents()), Contents(), r.id, o)
      ensures r.Stored? && CollisionFree(primitives.hash, seen) ==> Present(primitives, Contents(), r.id, o)
      ensures forall i, p | old(Present(primitives, Contents(), i, p)) && (p.key == key || r.TooLarge? || i != r.id) ::
                Present(primitives, Contents(), i, p)
    {
      hide Valid, ChunkBytes, DeflateFormat.Inflated, NonceOf, EncryptionKey, TagOf, CollisionFree, Extends, Present,
           ManifestBytes;
      var payload, compressed;
      ghost var probe, whole;
      payload, compressed, probe, whole := ChoosePayload(data);
      var nonce := DeriveNonce(primitives.hash, primitives.mac, EncryptionKey(primitives.mac, key), payload);
      var item := Object(key, nonce, payload, compressed, data);
      o := item;
      ManifestFits(|payload|);
      if HEADER + 32 * ChunkCount(|payload|) > MAX_MESSAGE {
        return TooLarge, o;
      }
      ghost var before := Contents();
      var manifest := StoreChunks(item);
      var id := StoreManifest(key, manifest);
      r := Stored(id);
      if CollisionFree(primitives.hash, seen) {
        ObjectIsPresent(id, o, old(chunks.Keys));
      }
      forall i, p | Present(primitives, before, i, p) && (p.key == key || i != id)
        ensures Present(primitives, Contents(), i, p)
      {
        TagStands(primitives, before, i, p);
        PresentPersists(primitives, before, Contents(), i, p);
      }
    }

    // ---- Reading ----

    /** Reads the manifest of an object and checks it against the id. */
    method ReadManifest(id: Digest) returns (m: Option<seq<Byte>>)
      requires Valid()
      ensures id in manifests ==> m == if Readable(Contents().manifests, id) then Some(manifestBytes[id]) else None
      ensures id !in manifests ==> m == None
    {
      hide AllHold, Holds, Recoverable;
      m := None;
      if id in manifests {
        SeenBytes(primitives.hash, Contents().manifests, seen, id);
        HeldSize(primitives.hash, manifests[id], manifestBytes[id]);
        m := ReadShards(primitives.hash, manifests[id], manifestBytes[id]);
        if m.Some? && primitives.hash(m.value) != id {
          m := None;
        }
      }
    }

    /** Reads a chunk and checks it against its digest. */
    method ReadChunk(d: Digest) returns (m: Option<seq<Byte>>)
      requires Valid()
      ensures d in chunks ==> m == if Readable(Contents().chunks, d) then Some(chunkBytes[d]) else None
      ensures d !in chunks ==> m == None
    {
      hide AllHold, Holds, Recoverable;
      m := None;
      if d in chunks {
        SeenBytes(primitives.hash, Contents().chunks, seen, d);
        HeldSize(primitives.hash, chunks[d], chunkBytes[d]);
        m := ReadShards(primitives.hash, chunks[d], chunkBytes[d]);
        if m.Some? && primitives.hash(m.value) != d {
          m := None;
        }
      }
    }

    /** Reads the chunks that a manifest lists, and decrypts them if `reassemble`. */
    method ReadPayload(key: Key, m: seq<Byte>, reassemble: bool, ghost o: Object) returns (r: Option<seq<Byte>>)
      requires Valid() && |m| >= HEADER
      ensures Lists(primitives, Contents().chunks, m, o) ==>
                (r.Some? <==> ChunksReadable(primitives, Contents().chunks, o))
      ensures Lists(primitives, Contents().chunks, m, o) && reassemble && key == o.key && r.Some? ==>
                r.value == o.payload
    {
      hide Valid, Lists, Readable, ChunksReadable, ChunkName, Crypted, EncryptionKey, ChunkOf, ChunkStart, ChunkCount,
           PayloadLength, NonceAt, DigestSlot, CounterFor;
      var length := PayloadLength(m);
      var n := ChunkCount(length);
      ghost var ours := Lists(primitives, Contents().chunks, m, o);
      if ours {
        ListedChunks(primitives, Contents().chunks, m, o);
        ChunksStart(length);
      }
      if |m| < HEADER + 32 * n {
        return None;
      }
      ReadableMeans(primitives, Contents().chunks, o);
      var nonce := NonceAt(m);
      var payload := new Byte[length](_ => 0);
      var pos: nat := 0;
      for c := 0 to n
        invariant pos <= length && fresh(payload)
        invariant ours ==> pos == ChunkStart(length, c)
        invariant ours ==> forall j: nat :: j < c ==> Readable(Contents().chunks, ChunkName(primitives, o, j))
        invariant ours && reassemble && key == o.key ==> payload[..pos] == o.payload[..pos]
      {
        var d := DigestSlot(m, c);
        var x := ReadChunk(d);
        if ours {
          ListedChunk(primitives, Contents().chunks, m, o, c);
          ChunksJoin(o.payload, c);
        }
        if x == None || pos + |x.value| > length {
          return None;
        }
        if reassemble {
          ghost var before := payload[..pos];
          DecryptInto(key, nonce, c, x.value, payload, pos);
          assert payload[..pos + |x.value|] == before + payload[pos..pos + |x.value|];
        }
        pos := pos + |x.value|;
      }
      ChunksEnd(length);
      assert payload[..length] == payload[..];
      r := Some(payload[..]);
    }

    method DecryptInto(key: Key, nonce: Nonce, c: nat, bytes: seq<Byte>, payload: array<Byte>, pos: nat)
      requires pos + |bytes| <= payload.Length
      modifies payload
      ensures payload[..pos] == old(payload[..pos])
      ensures payload[pos..pos + |bytes|]
                == Crypted(primitives.block, EncryptionKey(primitives.mac, key), nonce, CounterFor(c), bytes)
    {
      hide Crypted, EncryptionKey;
      var a := new Byte[|bytes|](i requires 0 <= i < |bytes| => bytes[i]);
      assert a[..] == bytes;
      XCrypt(primitives.block, EncryptionKey(primitives.mac, key), nonce, CounterFor(c), a);
      Blit(payload, pos, a[..]);
    }

    /** Reads an object, or only checks it when `reassemble` is false. */
    method Load(key: Key, id: Digest, reassemble: bool, ghost o: Object) returns (r: LoadResult)
      requires Valid()
      ensures Present(primitives, Contents(), id, o) && reassemble && key == o.key ==>
                r == if AllReadable(primitives, Contents(), id, o) then Got(o.data) else Corrupt
      ensures Present(primitives, Contents(), id, o) && reassemble
                && TagOf(primitives.mac, key, id) != TagOf(primitives.mac, o.key, id) ==>
                !r.Got?
      ensures Present(primitives, Contents(), id, o) && !reassemble ==>
                (r.Got? <==> AllReadable(primitives, Contents(), id, o))
      ensures id !in manifests ==> r == Corrupt
    {
      hide Valid, Lists, Readable, ChunksReadable, DeflateFormat.Inflated, TagOf;
      if Present(primitives, Contents(), id, o) {
        PresentLists(primitives, Contents(), id, o);
      }
      var manifest := ReadManifest(id);
      if manifest == None {
        return Corrupt;
      }
      var m := manifest.value;
      if reassemble && (id !in manifests || manifests[id].tag != Some(TagOf(primitives.mac, key, id))) {
        return Unauthenticated;
      }
      if |m| < HEADER {
        return Corrupt;
      }
      var payload := ReadPayload(key, m, reassemble, o);
      if payload == None {
        return Corrupt;
      }
      if !reassemble {
        return Got([]);
      }
      if m[16] == 1 {
        var ok, data := Inflate.Decompress(payload.value);
        return if ok then Got(data) else Corrupt;
      }
      r := Got(payload.value);
    }

    method Get(key: Key, id: Digest, ghost o: Object) returns (r: LoadResult)
      requires Valid()
      ensures Present(primitives, Contents(), id, o) && key == o.key ==>
                r == if AllReadable(primitives, Contents(), id, o) then Got(o.data) else Corrupt
      ensures id !in manifests ==> r == Corrupt
    {
      hide Valid, Present, AllReadable, TagOf;
      r := Load(key, id, true, o);
    }

    /** Whether every blob of the object can still be read; needs no key. */
    method Verify(id: Digest, ghost o: Object) returns (intact: bool)
      requires Valid()
      ensures Present(primitives, Contents(), id, o) ==> (intact <==> AllReadable(primitives, Contents(), id, o))
    {
      hide Valid, Present, AllReadable, TagOf;
      var r := Load(seq(32, _ => 0), id, false, o);
      intact := r.Got?;
    }

    // ---- Repair ----

    /** Repairs one chunk directory. */
    method RepairChunk(d: Digest) returns (recoverable: bool, repaired: nat)
      requires Valid()
      modifies `chunks
      ensures Valid() && chunks == MendedDirs(old(Contents().chunks), {d})
      ensures d in old(chunks) ==> (recoverable <==> Readable(old(Contents().chunks), d))
      ensures d in old(chunks) && Full(old(Contents().chunks), d) ==> repaired == 0
      ensures d !in old(chunks) ==> !recoverable && repaired == 0
      ensures GoodShards(Contents().chunks) == old(GoodShards(Contents().chunks)) + repaired
    {
      hide AllHold, Holds, Mended, Full, Readable, GoodShards;
      recoverable, repaired := false, 0;
      if d in chunks {
        SeenBytes(primitives.hash, Contents().chunks, seen, d);
        var dir;
        dir, repaired, recoverable := RepairShards(primitives.hash, chunks[d], chunkBytes[d]);
        MendedIs(primitives.hash, Contents().chunks, d, dir, repaired, recoverable);
        MendedShelf(primitives.hash, Contents().chunks, seen, d);
        MoreGood(primitives.hash, Contents().chunks, d, dir, repaired);
        chunks := chunks[d := dir];
      } else {
        NothingMended(Contents().chunks);
      }
    }

    /** Repairs one manifest directory. */
    method RepairManifest(d: Digest) returns (recoverable: bool, repaired: nat)
      requires Valid()
      modifies `manifests
      ensures Valid() && manifests == MendedDirs(old(Contents().manifests), {d})
      ensures d in old(manifests) ==> (recoverable <==> Readable(old(Contents().manifests), d))
      ensures d in old(manifests) && Full(old(Contents().manifests), d) ==> repaired == 0
      ensures d !in old(manifests) ==> !recoverable && repaired == 0
      ensures GoodShards(Contents().manifests) == old(GoodShards(Contents().manifests)) + repaired
    {
      hide AllHold, Holds, Mended, Full, Readable, GoodShards;
      recoverable, repaired := false, 0;
      if d in manifests {
        SeenBytes(primitives.hash, Contents().manifests, seen, d);
        var dir;
        dir, repaired, recoverable := RepairShards(primitives.hash, manifests[d], manifestBytes[d]);
        MendedIs(primitives.hash, Contents().manifests, d, dir, repaired, recoverable);
        MendedShelf(primitives.hash, Contents().manifests, seen, d);
        MoreGood(primitives.hash, Contents().manifests, d, dir, repaired);
        manifests := manifests[d := dir];
      } else {
        NothingMended(Contents().manifests);
      }
    }

    /** Repairs the chunks that a manifest lists. */
    method RepairChunks(m: seq<Byte>, ghost o: Object) returns (recoverable: bool, repaired: nat)
      requires Valid() && |m| >= HEADER
      modifies `chunks
      ensures Valid() && GoodShards(Contents().chunks) == old(GoodShards(Contents().chunks)) + repaired
      ensures Lists(primitives, old(Contents().chunks), m, o) ==>
                && (recoverable <==> ChunksReadable(primitives, old(Contents().chunks), o))
                && chunks == MendedDirs(old(Contents().chunks), NameSet(primitives, o, ChunkCount(|o.payload|)))
                && (ChunksFull(primitives, old(Contents().chunks), o) ==> repaired == 0)
    {
      hide AllHold, Lists, Readable, Full, ChunksFull, ChunksReadable, ChunkName, ChunkCount, PayloadLength, DigestSlot,
           Mended, MendedDirs, NameSet, GoodShards;
      ghost var disk, ours := Contents(), Lists(primitives, Contents().chunks, m, o);
      if ours {
        ListedChunks(primitives, Contents().chunks, m, o);
        ReadableMeans(primitives, Contents().chunks, o);
        FullMeans(primitives, disk.chunks, o);
      }
      StartMending(primitives, disk.chunks, o);
      recoverable, repaired := false, 0;
      var n := ChunkCount(PayloadLength(m));
      if |m| < HEADER + 32 * n {
        return;
      }
      recoverable := true;
      for c := 0 to n
        invariant Valid() && GoodShards(Contents().chunks) == GoodShards(disk.chunks) + repaired
        invariant ours ==> chunks == MendedDirs(disk.chunks, NameSet(primitives, o, c))
        invariant ours ==>
                    (recoverable <==> forall j: nat :: j < c ==> Readable(disk.chunks, ChunkName(primitives, o, j)))
        invariant ours && ChunksFull(primitives, disk.chunks, o) ==> repaired == 0
      {
        var d := DigestSlot(m, c);
        if ours {
          MendedMore(primitives.hash, disk.chunks, Contents().chunks, seen, NameSet(primitives, o, c), d);
          NameSetStep(primitives, o, c);
        }
        var ok, rep := RepairChunk(d);
        repaired := repaired + rep;
        recoverable := recoverable && ok;
      }
    }

    /** Rebuilds the bad shards of the manifest and of every chunk of an object.  What can be
        restored is restored to what was stored; what cannot be is left alone.  The number of shards
        reported is by how many the good shards of the store increase. */
    method Repair(id: Digest, ghost o: Object) returns (recoverable: bool, repaired: nat)
      requires Valid()
      modifies `chunks, `manifests
      ensures Valid() && manifests == MendedDirs(old(Contents().manifests), {id})
      ensures GoodShards(Contents().manifests) + GoodShards(Contents().chunks)
           == old(GoodShards(Contents().manifests) + GoodShards(Contents().chunks)) + repaired
      ensures Present(primitives, old(Contents()), id, o) ==>
                && (recoverable <==> AllReadable(primitives, old(Contents()), id, o))
                && chunks == MendedDirs(old(Contents().chunks), RepairedNames(primitives, old(Contents()), id, o))
                && (AllFull(primitives, old(Contents()), id, o) ==> repaired == 0)
    {
      hide AllHold, Present, Readable, ChunksReadable, Mended, NameSet, Lists, Full, ChunksFull, MendedDirs, GoodShards;
      ghost var disk, ours := Contents(), Present(primitives, Contents(), id, o);
      if ours {
        PresentLists(primitives, Contents(), id, o);
      }
      NothingMended(disk.chunks);
      recoverable, repaired := RepairManifest(id);
      if !recoverable {
        return;
      }
      var manifest := ReadManifest(id);
      if ours {
        ManifestStillReads(primitives.hash, disk.manifests, Contents().manifests, seen, id);
      }
      if manifest == None || |manifest.value| < HEADER {
        return false, repaired;
      }
      ghost var m := manifest.value;
      var ok, rep := RepairChunks(manifest.value, o);
      recoverable := ok;
      repaired := repaired + rep;
    }

    /** A second repair finds nothing to do, and every shard of the object is as it was stored. */
    method RepairTwice(id: Digest, ghost o: Object) returns (repaired: nat)
      requires Valid() && Present(primitives, Contents(), id, o) && AllReadable(primitives, Contents(), id, o)
      modifies `chunks, `manifests
      ensures repaired == 0 && Present(primitives, Contents(), id, o) && AllFull(primitives, Contents(), id, o)
    {
      hide AllHold, Present, AllReadable, AllFull, MendedDirs, RepairedNames;
      ghost var disk := Contents();
      var recoverable, first := Repair(id, o);
      RepairRestores(primitives, disk, Contents(), seen, id, o);
      ghost var disk' := Contents();
      recoverable, repaired := Repair(id, o);
      RepairRestores(primitives, disk', Contents(), seen, id, o);
    }

    // ---- Garbage collection ----

    /** The chunks that the readable live manifests list. */
    method Mark(live: seq<Digest>) returns (reach: set<Digest>)
      requires Valid()
      ensures reach == Marked(Contents().manifests, live)
    {
      hide Valid, Recoverable, ListedNames;
      reach := {};
      for i := 0 to |live|
        invariant reach == Marked(Contents().manifests, live[..i])
      {
        assert live[..i + 1][..i] == live[..i];
        var manifest := ReadManifest(live[i]);
        if manifest.Some? {
          var names := ManifestNames(manifest.value);
          reach := reach + names;
        }
        MarkedStep(Contents().manifests, live[..i + 1]);
      }
      assert live[..|live|] == live;
    }

    /** Deletes every manifest that is not live and every chunk that no live manifest lists. */
    method CollectGarbage(live: seq<Digest>) returns (reclaimed: nat)
      requires Valid()
      modifies this
      ensures Valid() && Contents() == Collected(old(Contents()), live) && seen == old(seen)
      ensures reclaimed == |old(manifests)| - |manifests| + |old(chunks)| - |chunks|
    {
      hide AllHold, Marked, Restricted;
      var reach := Mark(live);
      var reachM := set d | d in live;
      var deadM, deadC;
      manifests, deadM := Sweep(manifests, reachM);
      chunks, deadC := Sweep(chunks, reach);
      reclaimed := deadM + deadC;
      SweptHolds(primitives.hash, old(Contents().manifests), reachM, seen);
      SweptHolds(primitives.hash, old(Contents().chunks), reach, seen);
      manifestBytes := Restricted(manifestBytes, reachM);
      chunkBytes := Restricted(chunkBytes, reach);
    }

    lemma ObjectIsPresent(id: Digest, o: Object, before: set<Digest>)
      requires Valid() && CollisionFree(primitives.hash, seen) && Consistent(o)
                 && ChunksDone(o, ChunkCount(|o.payload|), before)
      requires ManifestBytes(primitives, o) in seen && id == primitives.hash(ManifestBytes(primitives, o))
                 && id in manifests
      requires manifests[id].tag == Some(TagOf(primitives.mac, o.key, id))
      ensures Present(primitives, Contents(), id, o)
    {
      hide AllHold, CollisionFree, Consistent, ManifestBytes, ChunkBytes, TagOf;
      NameDetermines(primitives.hash, Contents().manifests, seen, ManifestBytes(primitives, o));
      forall c: nat | c < ChunkCount(|o.payload|)
        ensures HasChunk(primitives, Contents().chunks, o, c)
      {
        assert ChunkName(primitives, o, c) in NameSet(primitives, o, ChunkCount(|o.payload|));
        NameDetermines(primitives.hash, Contents().chunks, seen, ChunkBytes(primitives, o, c));
      }
    }
  }

  // ---- What repair does to a directory ----

  /** The directory after a repair: restored if it can be, else untouched. */
  ghost function Mended(dir: Directory, bytes: seq<Byte>): Directory {
    if |bytes| <= MAX_BLOB && Recoverable(dir, bytes) then Restored(dir, bytes) else dir
  }

  /** The directories after a repair of those in `names`. */
  ghost function MendedDirs(shelf: Shelf, names: set<Digest>): map<Digest, Directory> {
    map d | d in shelf.dirs ::
      if d in names && d in shelf.bytes then Mended(shelf.dirs[d], shelf.bytes[d]) else shelf.dirs[d]
  }

  ghost function NameSet(e: Primitives, o: Object, n: nat): set<Digest>
    requires n <= ChunkCount(|o.payload|)
  {
    set c: nat | c < n :: ChunkName(e, o, c)
  }

  /** Every shard of blob `d` is as it was stored. */
  ghost predicate Full(shelf: Shelf, d: Digest) {
    && d in shelf.dirs && d in shelf.bytes && |shelf.bytes[d]| <= MAX_BLOB
    && Survivors(shelf.dirs[d], shelf.bytes[d]) == AllShards(|shelf.bytes[d]|)
  }

  ghost predicate ChunksFull(e: Primitives, chunks: Shelf, o: Object) {
    forall c: nat :: c < ChunkCount(|o.payload|) ==> Full(chunks, ChunkName(e, o, c))
  }

  ghost predicate AllFull(e: Primitives, disk: Disk, id: Digest, o: Object) {
    Full(disk.manifests, id) && ChunksFull(e, disk.chunks, o)
  }

  lemma FullMeans(e: Primitives, chunks: Shelf, o: Object)
    ensures ChunksFull(e, chunks, o)
       <==> forall c: nat :: c < ChunkCount(|o.payload|) ==> Full(chunks, ChunkName(e, o, c))
  {
    hide Full, ChunkName;
  }

  lemma StartMending(e: Primitives, chunks: Shelf, o: Object)
    ensures NameSet(e, o, 0) == {} && MendedDirs(chunks, {}) == chunks.dirs
  {
    hide Mended, ChunkName;
  }

  /** Repairing one more directory. */
  lemma MendedMore(hash: Hash, shelf: Shelf, now: Shelf, seen: set<seq<Byte>>, names: set<Digest>, d: Digest)
    requires AllHold(hash, shelf, seen) && now == Shelf(MendedDirs(shelf, names), shelf.bytes)
    ensures MendedDirs(now, {d}) == MendedDirs(shelf, names + {d}) && now.dirs.Keys == shelf.dirs.Keys
    ensures (Readable(now, d) <==> Readable(shelf, d)) && (Full(shelf, d) ==> Full(now, d))
  {
    hide Holds, Mended, Recoverable, Survivors;
    if d in shelf.dirs {
      MendedHolds(hash, shelf.dirs[d], shelf.bytes[d]);
      if Full(shelf, d) {
        FullIsRecoverable(shelf.dirs[d], shelf.bytes[d]);
      }
    }
  }

  lemma FullIsRecoverable(dir: Directory, bytes: seq<Byte>)
    requires |bytes| <= MAX_BLOB && Survivors(dir, bytes) == AllShards(|bytes|)
    ensures Recoverable(dir, bytes)
  {
    hide Survivors;
  }

  lemma ManifestStillReads(hash: Hash, shelf: Shelf, now: Shelf, seen: set<seq<Byte>>, d: Digest)
    requires AllHold(hash, shelf, seen) && now == Shelf(MendedDirs(shelf, {d}), shelf.bytes) && Readable(shelf, d)
    ensures Readable(now, d) && d in now.dirs
  {
    hide Holds, Mended, Recoverable;
    MendedHolds(hash, shelf.dirs[d], shelf.bytes[d]);
  }

  /** The chunks that a repair of the object gets to. */
  ghost function RepairedNames(e: Primitives, disk: Disk, id: Digest, o: Object): set<Digest> {
    if Readable(disk.manifests, id) then NameSet(e, o, ChunkCount(|o.payload|)) else {}
  }

  lemma NameSetStep(e: Primitives, o: Object, c: nat)
    requires c < ChunkCount(|o.payload|)
    ensures NameSet(e, o, c + 1) == NameSet(e, o, c) + {ChunkName(e, o, c)} && NameSet(e, o, 0) == {}
  {
    hide ChunkName;
  }

  lemma NothingMended(shelf: Shelf)
    ensures MendedDirs(shelf, {}) == shelf.dirs
    ensures forall d :: d !in shelf.dirs ==> MendedDirs(shelf, {d}) == shelf.dirs
  {
    hide Mended;
  }

  lemma MendedIs(hash: Hash, shelf: Shelf, d: Digest, dir: Directory, repaired: nat, recoverable: bool)
    requires d in shelf.dirs && d in shelf.bytes && Holds(hash, shelf.dirs[d], shelf.bytes[d])
    requires !recoverable ==> dir == shelf.dirs[d] && repaired == 0
    requires recoverable <==> Recoverable(shelf.dirs[d], shelf.bytes[d])
    requires recoverable ==> dir == Restored(shelf.dirs[d], shelf.bytes[d])
    requires recoverable ==> repaired == AllShards(|shelf.bytes[d]|) - Survivors(shelf.dirs[d], shelf.bytes[d])
    ensures dir == Mended(shelf.dirs[d], shelf.bytes[d]) && (recoverable <==> Readable(shelf, d))
    ensures Full(shelf, d) ==> repaired == 0
  {
    hide Recoverable, Survivors, Restored;
  }

  /** The shards of every blob that are as they were stored. */
  ghost function GoodCounts(shelf: Shelf): map<Digest, nat> {
    map d | d in shelf.dirs ::
      if d in shelf.bytes && |shelf.bytes[d]| <= MAX_BLOB then Survivors(shelf.dirs[d], shelf.bytes[d]) else 0
  }

  ghost function GoodShards(shelf: Shelf): nat {
    Total(GoodCounts(shelf))
  }

  /** Repairing a directory adds the repaired shards to the good ones. */
  lemma MoreGood(hash: Hash, shelf: Shelf, d: Digest, dir: Directory, repaired: nat)
    requires d in shelf.dirs && d in shelf.bytes && Holds(hash, shelf.dirs[d], shelf.bytes[d])
    requires dir == Mended(shelf.dirs[d], shelf.bytes[d]) && (!Readable(shelf, d) ==> repaired == 0)
    requires Readable(shelf, d) ==> repaired == AllShards(|shelf.bytes[d]|) - Survivors(shelf.dirs[d], shelf.bytes[d])
    ensures GoodShards(shelf.(dirs := shelf.dirs[d := dir])) == GoodShards(shelf) + repaired
  {
    hide Holds, Recoverable, Survivors, Restored;
    MendedHolds(hash, shelf.dirs[d], shelf.bytes[d]);
    var now := shelf.(dirs := shelf.dirs[d := dir]);
    assert GoodCounts(now) == GoodCounts(shelf)[d := Survivors(dir, shelf.bytes[d])];
    TotalUpdated(GoodCounts(shelf), d, Survivors(dir, shelf.bytes[d]));
  }

  lemma MendedHolds(hash: Hash, dir: Directory, bytes: seq<Byte>)
    requires Holds(hash, dir, bytes)
    ensures Holds(hash, Mended(dir, bytes), bytes) && Mended(Mended(dir, bytes), bytes) == Mended(dir, bytes)
    ensures Mended(dir, bytes).tag == dir.tag && |bytes| <= MAX_BLOB
    ensures Recoverable(Mended(dir, bytes), bytes) <==> Recoverable(dir, bytes)
    ensures Recoverable(dir, bytes) ==> Survivors(Mended(dir, bytes), bytes) == AllShards(|bytes|)
  {
    hide Recoverable, Survivors, Restored;
    HeldSize(hash, dir, bytes);
    RestoredIsWhole(hash, dir, bytes);
  }

  lemma MendedShelf(hash: Hash, shelf: Shelf, seen: set<seq<Byte>>, d: Digest)
    requires AllHold(hash, shelf, seen) && d in shelf.dirs && d in shelf.bytes
    ensures var dirs := shelf.dirs[d := Mended(shelf.dirs[d], shelf.bytes[d])];
            dirs == MendedDirs(shelf, {d}) && AllHold(hash, Shelf(dirs, shelf.bytes), seen)
  {
    hide Holds, Mended;
    MendedHolds(hash, shelf.dirs[d], shelf.bytes[d]);
  }

  /** `now` is `shelf` after some of its directories were repaired. */
  ghost predicate Improved(shelf: Shelf, now: Shelf) {
    exists names :: now == Shelf(MendedDirs(shelf, names), shelf.bytes)
  }

  lemma ImprovedBlob(hash: Hash, shelf: Shelf, now: Shelf, seen: set<seq<Byte>>, names: set<Digest>, d: Digest)
    requires AllHold(hash, shelf, seen) && now == Shelf(MendedDirs(shelf, names), shelf.bytes) && d in shelf.dirs
    ensures d in now.dirs && now.dirs[d].tag == shelf.dirs[d].tag && (Readable(now, d) <==> Readable(shelf, d))
    ensures d in names && Readable(shelf, d) ==> Full(now, d)
  {
    hide Holds, Mended, Recoverable, Survivors;
    MendedHolds(hash, shelf.dirs[d], shelf.bytes[d]);
  }

  /** Repairing any object keeps every object on disk, and what can be read. */
  lemma RepairKeeps(e: Primitives, disk: Disk, disk': Disk, seen: set<seq<Byte>>, id: Digest, o: Object)
    requires AllHold(e.hash, disk.chunks, seen) && AllHold(e.hash, disk.manifests, seen)
    requires Improved(disk.chunks, disk'.chunks) && Improved(disk.manifests, disk'.manifests) && Present(e, disk, id, o)
    ensures Present(e, disk', id, o) && (AllReadable(e, disk', id, o) <==> AllReadable(e, disk, id, o))
  {
    hide AllHold, Consistent, ManifestBytes, ChunkBytes, TagOf, MendedDirs, Readable, Full;
    var names :| disk'.chunks == Shelf(MendedDirs(disk.chunks, names), disk.chunks.bytes);
    var names' :| disk'.manifests == Shelf(MendedDirs(disk.manifests, names'), disk.manifests.bytes);
    ImprovedBlob(e.hash, disk.manifests, disk'.manifests, seen, names', id);
    forall c: nat | c < ChunkCount(|o.payload|)
      ensures HasChunk(e, disk'.chunks, o, c)
      ensures Readable(disk'.chunks, ChunkName(e, o, c)) <==> Readable(disk.chunks, ChunkName(e, o, c))
    {
      assert HasChunk(e, disk.chunks, o, c);
      ImprovedBlob(e.hash, disk.chunks, disk'.chunks, seen, names, ChunkName(e, o, c));
    }
  }

  /** After a repair of an object that can be recovered, all its shards are as they were stored. */
  lemma RepairRestores(e: Primitives, disk: Disk, disk': Disk, seen: set<seq<Byte>>, id: Digest, o: Object)
    requires AllHold(e.hash, disk.chunks, seen) && AllHold(e.hash, disk.manifests, seen)
    requires disk'.manifests == Shelf(MendedDirs(disk.manifests, {id}), disk.manifests.bytes)
    requires disk'.chunks == Shelf(MendedDirs(disk.chunks, RepairedNames(e, disk, id, o)), disk.chunks.bytes)
    requires Present(e, disk, id, o) && AllReadable(e, disk, id, o)
    ensures Present(e, disk', id, o) && AllReadable(e, disk', id, o) && AllFull(e, disk', id, o)
  {
    hide AllHold, Consistent, ManifestBytes, ChunkBytes, TagOf, MendedDirs, Readable, Full;
    RepairKeeps(e, disk, disk', seen, id, o);
    ImprovedBlob(e.hash, disk.manifests, disk'.manifests, seen, {id}, id);
    forall c: nat | c < ChunkCount(|o.payload|)
      ensures Full(disk'.chunks, ChunkName(e, o, c))
    {
      assert HasChunk(e, disk.chunks, o, c);
      assert ChunkName(e, o, c) in NameSet(e, o, ChunkCount(|o.payload|));
      ImprovedBlob(e.hash, disk.chunks, disk'.chunks, seen, RepairedNames(e, disk, id, o), ChunkName(e, o, c));
    }
  }

  // ---- Losing shards ----

  /** Only shards in `bad`, at most two, are not as they were stored. */
  ghost predicate OnlyBad(dir: Directory, bytes: seq<Byte>, bad: set<nat>)
    requires |bytes| <= MAX_BLOB
  {
    |bad| <= PARITY_SHARDS && forall s: nat :: s < AllShards(|bytes|) && s !in bad ==> Good(dir, bytes, s)
  }

  ghost predicate FewLosses(dir: Directory, bytes: seq<Byte>) {
    |bytes| <= MAX_BLOB && exists bad: set<nat> :: OnlyBad(dir, bytes, bad)
  }

  /** The same directories, some of them with damaged shard files. */
  ghost predicate Harmed(shelf: Shelf, now: Shelf) {
    && now.bytes == shelf.bytes && now.dirs.Keys == shelf.dirs.Keys == shelf.bytes.Keys
    && forall d :: d in shelf.dirs ==> now.dirs[d].tag == shelf.dirs[d].tag && FewLosses(now.dirs[d], shelf.bytes[d])
  }

  /** Losing or corrupting up to two shards of every blob loses no object: it is still there and
      can be read. */
  lemma ObjectsSurvive(e: Primitives, disk: Disk, disk': Disk, id: Digest, o: Object)
    requires Present(e, disk, id, o) && Harmed(disk.chunks, disk'.chunks) && Harmed(disk.manifests, disk'.manifests)
    ensures Present(e, disk', id, o) && AllReadable(e, disk', id, o)
  {
    hide Consistent, ManifestBytes, ChunkBytes, TagOf, FewLosses;
    BlobSurvives(disk.manifests, disk'.manifests, id);
    forall c: nat | c < ChunkCount(|o.payload|)
      ensures HasChunk(e, disk'.chunks, o, c) && Readable(disk'.chunks, ChunkName(e, o, c))
    {
      assert HasChunk(e, disk.chunks, o, c);
      BlobSurvives(disk.chunks, disk'.chunks, ChunkName(e, o, c));
    }
  }

  lemma BlobSurvives(shelf: Shelf, now: Shelf, d: Digest)
    requires Harmed(shelf, now) && d in shelf.dirs
    ensures Readable(now, d)
  {
    hide Recoverable, Good;
    var bytes := shelf.bytes[d];
    assert FewLosses(now.dirs[d], bytes);
    var bad: set<nat> :| OnlyBad(now.dirs[d], bytes, bad);
    TwoLossesAreRecoverable(now.dirs[d], bytes, bad);
  }

  // ---- What garbage collection leaves ----

  /** The chunk names that a manifest lists. */
  ghost function ListedNames(m: seq<Byte>): set<Digest> {
    if |m| < HEADER then {}
    else set c: nat | c < ChunkCount(PayloadLength(m)) && HEADER + 32 * (c + 1) <= |m| :: DigestSlot(m, c)
  }

  method ManifestNames(m: seq<Byte>) returns (names: set<Digest>)
    ensures names == ListedNames(m)
  {
    hide ChunkCount, PayloadLength, DigestSlot;
    names := {};
    if |m| < HEADER {
      return;
    }
    var n, c: nat := ChunkCount(PayloadLength(m)), 0;
    while c < n && HEADER + 32 * (c + 1) <= |m|
      invariant c <= n && (c == 0 || HEADER + 32 * c <= |m|)
      invariant names == set j: nat | j < c && HEADER + 32 * (j + 1) <= |m| :: DigestSlot(m, j)
    {
      names := names + {DigestSlot(m, c)};
      c := c + 1;
    }
  }

  /** The chunk names that the readable ones of the live manifests list. */
  ghost function Marked(manifests: Shelf, live: seq<Digest>): set<Digest> {
    if |live| == 0 then {}
    else
      var id := live[|live| - 1];
      Marked(manifests, live[..|live| - 1]) + if Readable(manifests, id) then ListedNames(manifests.bytes[id]) else {}
  }

  lemma MarkedStep(manifests: Shelf, live: seq<Digest>)
    requires |live| > 0
    ensures var id := live[|live| - 1];
            Marked(manifests, live) == Marked(manifests, live[..|live| - 1])
                + if Readable(manifests, id) then ListedNames(manifests.bytes[id]) else {}
  {
    hide Readable, ListedNames;
  }

  /** The part of a map whose keys are kept. */
  ghost function Restricted<V>(m: map<Digest, V>, keep: set<Digest>): map<Digest, V> {
    map d | d in m && d in keep :: m[d]
  }

  ghost function Swept(shelf: Shelf, keep: set<Digest>): Shelf {
    Shelf(Restricted(shelf.dirs, keep), Restricted(shelf.bytes, keep))
  }

  /** The disk after a collection. */
  ghost function Collected(disk: Disk, live: seq<Digest>): Disk {
    Disk(Swept(disk.chunks, Marked(disk.manifests, live)), Swept(disk.manifests, set d | d in live))
  }

  lemma SweptHolds(hash: Hash, shelf: Shelf, keep: set<Digest>, seen: set<seq<Byte>>)
    requires AllHold(hash, shelf, seen)
    ensures AllHold(hash, Swept(shelf, keep), seen)
  {
    hide Holds;
  }

  method FindDead(dirs: map<Digest, Directory>, keep: set<Digest>) returns (dead: seq<Digest>)
    ensures forall d :: d in dead <==> d in dirs && d !in keep
    ensures forall i, j :: 0 <= i < j < |dead| ==> dead[i] != dead[j]
  {
    var todo := dirs.Keys;
    dead := [];
    while todo != {}
      invariant todo <= dirs.Keys
      invariant forall d :: d in dead <==> d in dirs && d !in keep && d !in todo
      invariant forall i, j :: 0 <= i < j < |dead| ==> dead[i] != dead[j]
      decreases |todo|
    {
      var d :| d in todo;
      todo := todo - {d};
      if d !in keep {
        dead := dead + [d];
      }
    }
  }

  method DeleteAll(dirs: map<Digest, Directory>, dead: seq<Digest>) returns (rest: map<Digest, Directory>, removed: nat)
    requires forall d :: d in dead ==> d in dirs
    requires forall i, j :: 0 <= i < j < |dead| ==> dead[i] != dead[j]
    ensures forall d :: d in rest <==> d in dirs && d !in dead
    ensures forall d :: d in rest ==> rest[d] == dirs[d]
    ensures removed == |dirs| - |rest|
  {
    rest, removed := dirs, 0;
    for i := 0 to |dead|
      invariant forall d :: d in rest <==> d in dirs && d !in dead[..i]
      invariant forall d :: d in rest ==> rest[d] == dirs[d]
      invariant removed == |dirs| - |rest|
    {
      assert dead[i] in rest;
      assert (rest - {dead[i]}).Keys == rest.Keys - {dead[i]};
      rest := rest - {dead[i]};
      removed := removed + 1;
    }
    assert dead[..|dead|] == dead;
  }

  /** Finds the names that are not kept, then deletes them. */
  method Sweep(dirs: map<Digest, Directory>, keep: set<Digest>) returns (rest: map<Digest, Directory>, removed: nat)
    ensures rest == Restricted(dirs, keep) && removed == |dirs| - |rest|
  {
    var dead := FindDead(dirs, keep);
    rest, removed := DeleteAll(dirs, dead);
  }

  /** A live object whose manifest can be read keeps its manifest, its tag and every chunk, with
      the shards they had. */
  lemma LiveObjectsStay(e: Primitives, disk: Disk, live: seq<Digest>, id: Digest, o: Object)
    requires Present(e, disk, id, o) && id in live && Readable(disk.manifests, id)
    ensures var disk' := Collected(disk, live);
            Present(e, disk', id, o) && (AllReadable(e, disk', id, o) <==> AllReadable(e, disk, id, o))
  {
    hide Consistent, ManifestBytes, ChunkBytes, TagOf, Recoverable, Marked, ListedNames;
    var disk', m := Collected(disk, live), disk.manifests.bytes[id];
    PresentLists(e, disk, id, o);
    ListedChunks(e, disk.chunks, m, o);
    MarkedIncludes(disk.manifests, live, id);
    forall c: nat | c < ChunkCount(|o.payload|)
      ensures HasChunk(e, disk'.chunks, o, c)
      ensures Readable(disk'.chunks, ChunkName(e, o, c)) <==> Readable(disk.chunks, ChunkName(e, o, c))
    {
      assert HasChunk(e, disk.chunks, o, c);
      NameIsListed(m, c);
    }
  }

  lemma NameIsListed(m: seq<Byte>, c: nat)
    requires |m| >= HEADER + 32 * (c + 1) && c < ChunkCount(PayloadLength(m))
    ensures DigestSlot(m, c) in ListedNames(m)
  {
    hide PayloadLength, ChunkCount, DigestSlot;
  }

  lemma {:induction false} MarkedIncludes(manifests: Shelf, live: seq<Digest>, id: Digest)
    requires id in live && Readable(manifests, id)
    ensures ListedNames(manifests.bytes[id]) <= Marked(manifests, live)
  {
    hide Readable, ListedNames;
    if id != live[|live| - 1] {
      MarkedIncludes(manifests, live[..|live| - 1], id);
    }
  }

  lemma {:induction false} MarkedAgain(manifests: Shelf, live: seq<Digest>, keep: set<Digest>)
    requires forall d :: d in live ==> d in keep
    ensures Marked(Swept(manifests, keep), live) == Marked(manifests, live)
  {
    hide ListedNames, Recoverable;
    if |live| > 0 {
      MarkedAgain(manifests, live[..|live| - 1], keep);
    }
  }

  /** A chunk is marked exactly if a readable live manifest lists it. */
  lemma {:induction false} MarkedMeans(manifests: Shelf, live: seq<Digest>, d: Digest)
    ensures d in Marked(manifests, live)
       <==> exists id :: id in live && Readable(manifests, id) && d in ListedNames(manifests.bytes[id])
  {
    hide Readable, ListedNames;
    if |live| > 0 {
      MarkedMeans(manifests, live[..|live| - 1], d);
    }
  }

  /** What is left depends only on which ids are live. */
  lemma CollectedSameSet(disk: Disk, live: seq<Digest>, live': seq<Digest>)
    requires forall d :: d in live <==> d in live'
    ensures Collected(disk, live) == Collected(disk, live')
  {
    hide Marked, Readable, ListedNames, Restricted;
    forall d
      ensures d in Marked(disk.manifests, live) <==> d in Marked(disk.manifests, live')
    {
      MarkedMeans(disk.manifests, live, d);
      MarkedMeans(disk.manifests, live', d);
    }
    assert Marked(disk.manifests, live) == Marked(disk.manifests, live');
    assert (set d | d in live) == (set d | d in live');
  }

  /** A second collection with the same live set removes nothing. */
  lemma CollectTwice(disk: Disk, live: seq<Digest>)
    ensures Collected(Collected(disk, live), live) == Collected(disk, live)
  {
    hide Marked;
    MarkedAgain(disk.manifests, live, set d | d in live);
  }

  lemma HeldSize(hash: Hash, dir: Directory, data: seq<Byte>)
    requires Holds(hash, dir, data)
    ensures |data| <= MAX_BLOB
  {}

  /** The chunks below `n` have been hashed and have directories, besides those of `before`. */
  ghost predicate AllDone(e: Primitives, o: Object, n: nat, before: set<Digest>, chunks: Shelf, seen: set<seq<Byte>>)
    requires n <= ChunkCount(|o.payload|)
  {
    && (forall c: nat :: c < n ==> ChunkBytes(e, o, c) in seen)
    && chunks.dirs.Keys == before + NameSet(e, o, n)
  }

  lemma MoreChunksDone(e: Primitives, o: Object, c: nat, before: set<Digest>, chunks: Shelf, seen: set<seq<Byte>>,
                       chunks': Shelf, seen': set<seq<Byte>>)
    requires c < ChunkCount(|o.payload|) && AllDone(e, o, c, before, chunks, seen)
    requires seen' == seen + {ChunkBytes(e, o, c)} && chunks'.dirs == WithBlob(e.hash, chunks.dirs, ChunkBytes(e, o, c))
    ensures AllDone(e, o, c + 1, before, chunks', seen')
  {
    hide ChunkBytes, StoredAs;
    assert NameSet(e, o, c + 1) == NameSet(e, o, c) + {ChunkName(e, o, c)};
  }

  lemma StartManifest(e: Primitives, o: Object, m: seq<Byte>, header: seq<Byte>)
    requires |header| == HEADER <= |m| && m[..HEADER] == header
    ensures m[..HEADER + 32 * 0] == header + Flatten(ChunkNames(e, o, 0))
  {
    assert ChunkNames(e, o, 0) == [];
  }

  /** Writing the next slot extends the list of names. */
  lemma SlotWritten(e: Primitives, o: Object, m: seq<Byte>, m': seq<Byte>, header: seq<Byte>, c: nat)
    requires c < ChunkCount(|o.payload|) && |header| == HEADER && |m| == HEADER + 32 * ChunkCount(|o.payload|)
    requires m[..HEADER + 32 * c] == header + Flatten(ChunkNames(e, o, c))
    requires m' == m[..HEADER + 32 * c] + ChunkName(e, o, c) + m[HEADER + 32 * c + 32..]
    ensures m'[..HEADER + 32 * (c + 1)] == header + Flatten(ChunkNames(e, o, c + 1))
  {
    hide ChunkName, Flatten;
    FlattenAppend(ChunkNames(e, o, c), ChunkName(e, o, c));
    assert ChunkNames(e, o, c + 1) == ChunkNames(e, o, c) + [ChunkName(e, o, c)];
  }

  lemma ManifestIs(e: Primitives, o: Object, header: seq<Byte>)
    requires header == ManifestHeader(|o.payload|, |o.data|, o.compressed, o.nonce)
    ensures ManifestBytes(e, o) == header + Flatten(ChunkNames(e, o, ChunkCount(|o.payload|)))
  {}

  lemma ExtendsFurther(hash: Hash, a: Shelf, b: Shelf, c: Shelf)
    requires Extends(hash, a, b) && Extends(hash, b, c)
    ensures Extends(hash, a, c)
  {
    hide StoredAs;
    forall d | d in c.dirs && d !in a.dirs
      ensures Unharmed(hash, c, d)
    {
      assert d in b.dirs ==> Unharmed(hash, b, d);
    }
  }

  lemma ChunksStart(length: nat)
    ensures ChunkStart(length, 0) == 0
  {}

  lemma ChunksEnd(length: nat)
    ensures ChunkStart(length, ChunkCount(length)) == length
  {}

  lemma ReadableMeans(e: Primitives, chunks: Shelf, o: Object)
    ensures ChunksReadable(e, chunks, o)
       <==> forall c: nat :: c < ChunkCount(|o.payload|) ==> Readable(chunks, ChunkName(e, o, c))
  {
    hide Readable, ChunkName;
  }

  lemma ListedChunks(e: Primitives, chunks: Shelf, m: seq<Byte>, o: Object)
    requires Lists(e, chunks, m, o)
    ensures |m| == HEADER + 32 * ChunkCount(|o.payload|) && PayloadLength(m) == |o.payload| && NonceAt(m) == o.nonce
    ensures m[16] == 1 <==> o.compressed
    ensures forall c: nat :: c < ChunkCount(|o.payload|) ==> DigestSlot(m, c) == ChunkName(e, o, c)
    ensures forall c: nat :: c < ChunkCount(|o.payload|) ==> ChunkName(e, o, c) in chunks.dirs
  {
    hide DeflateFormat.Inflated, ChunkName, PayloadLength, NonceAt, DigestSlot, ManifestOf;
    ManifestRoundTrip(|o.payload|, |o.data|, o.compressed, o.nonce, ChunkNames(e, o, ChunkCount(|o.payload|)));
    forall c: nat | c < ChunkCount(|o.payload|)
      ensures ChunkName(e, o, c) in chunks.dirs
    {
      assert HasChunk(e, chunks, o, c);
    }
  }

  /** The chunk is on disk, and decrypts to its part of the payload. */
  lemma ListedChunk(e: Primitives, chunks: Shelf, m: seq<Byte>, o: Object, c: nat)
    requires Lists(e, chunks, m, o) && c < ChunkCount(|o.payload|)
    ensures var d := ChunkName(e, o, c);
            d in chunks.dirs && d in chunks.bytes && |chunks.bytes[d]| == |ChunkOf(o.payload, c)|
    ensures Crypted(e.block, EncryptionKey(e.mac, o.key), o.nonce, CounterFor(c), chunks.bytes[ChunkName(e, o, c)])
         == ChunkOf(o.payload, c)
  {
    hide Crypted, EncryptionKey, DeflateFormat.Inflated, ManifestBytes, CounterFor, ChunkOf;
    assert HasChunk(e, chunks, o, c);
    CryptedTwice(e.block, EncryptionKey(e.mac, o.key), o.nonce, CounterFor(c), ChunkOf(o.payload, c));
  }

  lemma PresentLists(e: Primitives, disk: Disk, id: Digest, o: Object)
    requires Present(e, disk, id, o)
    ensures id in disk.manifests.dirs && id in disk.manifests.bytes
              && Lists(e, disk.chunks, disk.manifests.bytes[id], o)
    ensures var m := disk.manifests.bytes[id]; |m| >= HEADER && (m[16] == 1 <==> o.compressed)
  {
    hide DeflateFormat.Inflated, TagOf, ManifestBytes, ChunkName;
    assert Lists(e, disk.chunks, disk.manifests.bytes[id], o);
    ListedChunks(e, disk.chunks, disk.manifests.bytes[id], o);
  }

  lemma TagStands(e: Primitives, disk: Disk, id: Digest, o: Object)
    requires Present(e, disk, id, o)
    ensures id in disk.manifests.dirs && disk.manifests.dirs[id].tag == Some(TagOf(e.mac, o.key, id))
  {}

  lemma NoOrphans(hash: Hash, shelf: Shelf, seen: set<seq<Byte>>)
    requires AllHold(hash, shelf, seen)
    ensures shelf.dirs.Keys == shelf.bytes.Keys
  {}

  lemma SeenBytes(hash: Hash, shelf: Shelf, seen: set<seq<Byte>>, d: Digest)
    requires AllHold(hash, shelf, seen) && d in shelf.dirs
    ensures d in shelf.bytes && shelf.bytes[d] in seen && hash(shelf.bytes[d]) == d
              && Holds(hash, shelf.dirs[d], shelf.bytes[d])
  {}
}
