/** Objects from end to end: stored, damaged, read back, scrubbed and collected. */
module ObjectRuns {
  import opened BitOps
  import opened Cipher
  import opened Erasure
  import opened Shards
  import opened ObjectFormat
  import opened ContentStore
  import opened Totals
  import opened Objects

  // ---- Reading back ----

  /** The recorded size is that of the content; only composite objects depend on it. */
  ghost predicate RightSize(w: Whole, pieces: Pieces) {
    w.composite ==> w.size == |Content(pieces)|
  }

  /** An object that was on disk reads back as its content, whichever two shards of every blob are
      missing or damaged by now. */
  method GetAfterLoss(store: Store, key: Key, w: Whole, ghost pieces: Pieces, ghost disk: Disk) returns (r: LoadResult)
    requires store.Valid() && Kept(store.primitives, disk, key, w, pieces) && RightSize(w, pieces)
    requires Harmed(disk.chunks, store.Contents().chunks) && Harmed(disk.manifests, store.Contents().manifests)
    ensures r == Got(Content(pieces))
  {
    hide Store.Valid, Store.Contents, Kept, KeptReadable, Harmed, Joined;
    WholeObjectsSurvive(store.primitives, disk, store.Contents(), key, w, pieces);
    r := GetObject(store, key, w, pieces);
  }

  /** What is put can be got.  It reads back exactly if every blob of it that was on disk before the
      put could be read then: such a blob is not written again, and all others are new. */
  method PutThenGet(store: Store, key: Key, data: seq<Byte>) returns (r: LoadResult, w: Whole, ghost pieces: Pieces)
    requires store.Valid() && |data| <= NATURAL_LAST
    modifies store
    ensures store.Valid() && old(store.seen) <= store.seen && Content(pieces) == data && RightSize(w, pieces)
    ensures (pieces.Parts? <==> |data| > MAX_SINGLE) && (pieces.Parts? ==> Sliced(pieces, data))
    ensures AllChosen(store.primitives, pieces)
    ensures Grows(store.primitives, key, IdsOf(w, pieces), old(store.Contents()), store.Contents())
    ensures CollisionFree(store.primitives.hash, store.seen) ==>
              && Kept(store.primitives, store.Contents(), key, w, pieces)
              && r == if KeptUsable(store.primitives, old(store.Contents()), w, pieces) then Got(data) else Corrupt
  {
    hide Store.Valid, Store.Contents, Kept, KeptReadable, KeptUsable, Joined, CollisionFree, Grows, Sliced, Chosen;
    KnownBytes(store);
    w, pieces := PutObject(store, key, data);
    if CollisionFree(store.primitives.hash, store.seen) {
      KeptReadableAfter(store.primitives, key, IdsOf(w, pieces), old(store.Contents()), store.Contents(), w, pieces);
    }
    r := GetObject(store, key, w, pieces);
  }

  lemma KnownBytes(store: Store)
    requires store.Valid()
    ensures NoStrays(store.Contents())
  {
    hide Holds;
  }

  /** On a new store everything that is put can be got. */
  method PutInNewStore(e: Primitives, key: Key, data: seq<Byte>)
    returns (store: Store, r: LoadResult, w: Whole, ghost pieces: Pieces)
    requires |data| <= NATURAL_LAST
    ensures fresh(store) && store.Valid() && store.primitives == e && Content(pieces) == data && RightSize(w, pieces)
    ensures (pieces.Parts? <==> |data| > MAX_SINGLE) && (pieces.Parts? ==> Sliced(pieces, data))
    ensures AllChosen(e, pieces)
    ensures w.id in store.manifests
    ensures CollisionFree(e.hash, store.seen) ==>
              && r == Got(data) && Kept(e, store.Contents(), key, w, pieces)
              && KeptReadable(e, store.Contents(), w, pieces)
  {
    hide Store.Valid, Kept, KeptReadable, KeptUsable, Joined, CollisionFree, Grows, Sliced, Chosen;
    store := new Store(e);
    ghost var disk := store.Contents();
    KnownBytes(store);
    r, w, pieces := PutThenGet(store, key, data);
    Stored(e, key, disk, store.Contents(), w, pieces);
    if CollisionFree(e.hash, store.seen) {
      NothingDamaged(e, disk, store.Contents(), key, w, pieces);
      KeptReadableAfter(e, key, IdsOf(w, pieces), disk, store.Contents(), w, pieces);
    }
  }

  lemma Stored(e: Primitives, key: Key, disk: Disk, disk': Disk, w: Whole, pieces: Pieces)
    requires Grows(e, key, IdsOf(w, pieces), disk, disk')
    ensures w.id in disk'.manifests.dirs
  {
    hide Extends, TagOf;
    assert w.id in IdsOf(w, pieces);
  }

  /** Where there is nothing, nothing is damaged. */
  lemma NothingDamaged(e: Primitives, disk: Disk, disk': Disk, key: Key, w: Whole, pieces: Pieces)
    requires disk.chunks.dirs == map[] && disk.manifests.dirs == map[] && Kept(e, disk', key, w, pieces)
    ensures KeptUsable(e, disk, w, pieces)
  {
    hide Present, Readable, ListOf;
  }

  // ---- Damage ----

  /** The directories after those of `lost` have lost all their shards. */
  function WithoutShards(dirs: map<Digest, Directory>, lost: set<Digest>): map<Digest, Directory> {
    map d | d in dirs :: if d in lost then dirs[d].(files := map[]) else dirs[d]
  }

  /** Without shards a blob cannot be read, but its directory still stands for its bytes. */
  lemma ShardsLost(hash: Hash, shelf: Shelf, seen: set<seq<Byte>>, lost: set<Digest>)
    requires AllHold(hash, shelf, seen)
    ensures var now := Shelf(WithoutShards(shelf.dirs, lost), shelf.bytes);
            AllHold(hash, now, seen) && forall d :: d in shelf.dirs ==>
              now.dirs[d].tag == shelf.dirs[d].tag && (Readable(now, d) <==> d !in lost && Readable(shelf, d))
  {
    hide IndexOf, ShardFile, Survivors;
    forall d | d in lost && d in shelf.dirs
      ensures Holds(hash, shelf.dirs[d].(files := map[]), shelf.bytes[d])
      ensures !Recoverable(shelf.dirs[d].(files := map[]), shelf.bytes[d])
    {
      assert Holds(hash, shelf.dirs[d], shelf.bytes[d]);
      NoneGood(shelf.dirs[d].(files := map[]), shelf.bytes[d]);
    }
  }

  lemma NoneGood(dir: Directory, data: seq<Byte>)
    requires |data| <= MAX_BLOB && dir.files == map[]
    ensures Survivors(dir, data) == 0
  {
    NoneCounted(GoodMap(dir, data), AllShards(|data|));
  }

  lemma {:induction false} NoneCounted(present: seq<bool>, n: nat)
    requires n <= |present| && forall s :: 0 <= s < n ==> !present[s]
    ensures PresentCount(present, n) == 0
  {
    if n > 0 {
      NoneCounted(present, n - 1);
    }
  }

  /** Some manifests lose all their shards. */
  method LoseManifests(store: Store, lost: set<Digest>)
    requires store.Valid()
    modifies store`manifests
    ensures store.Valid() && store.manifests == WithoutShards(old(store.manifests), lost)
    ensures forall d :: d in old(store.manifests) ==>
              && store.manifests[d].tag == old(store.manifests)[d].tag
              && (Readable(store.Contents().manifests, d)
                  <==> d !in lost && Readable(old(store.Contents()).manifests, d))
  {
    hide AllHold, Readable, WithoutShards;
    ShardsLost(store.primitives.hash, store.Contents().manifests, store.seen, lost);
    store.manifests := WithoutShards(store.manifests, lost);
  }

  /** How a single byte is stored. */
  ghost function OneByte(e: Primitives, key: Key, b: Byte): Object {
    Object(key, NonceOf(e.hash, e.mac, EncryptionKey(e.mac, key), [b]), [b], false, [b])
  }

  /** No byte string is shorter when compressed to nothing. */
  lemma ByteIsPlain(e: Primitives, disk: Disk, seen: set<seq<Byte>>, id: Digest, o: Object, b: Byte)
    requires Present(e, disk, id, o) && Chosen(e, o) && o.data == [b] && AllHold(e.hash, disk.manifests, seen)
    ensures o == OneByte(e, o.key, b) && id == e.hash(ManifestBytes(e, o))
  {
    hide Holds, NonceOf, EncryptionKey, ManifestBytes, TagOf, HasChunk;
    assert |o.payload| == 0 ==> o.payload == [];
  }

  /** A byte that is put, loses the shards of its manifest and is put again: the second put does not
      help. */
  method PutOverDamage(e: Primitives, key: Key, b: Byte) returns (store: Store, first: LoadResult, second: LoadResult)
    ensures store.primitives == e
    ensures CollisionFree(e.hash, store.seen) ==> first == Got([b]) && second == Corrupt
  {
    hide Store.Valid, KeptReadable, CollisionFree, Grows, Chosen, Present, Readable, OneByte, ManifestBytes;
    var w;
    ghost var pieces;
    store, first, w, pieces := PutInNewStore(e, key, [b]);
    ghost var disk, seen := store.Contents(), store.seen;
    ValidHolds(store);
    LoseManifests(store, {w.id});
    ghost var damaged := store.Contents();
    var w';
    ghost var pieces';
    second, w', pieces' := PutThenGet(store, key, [b]);
    if CollisionFree(e.hash, store.seen) {
      StillFree(e.hash, seen, store.seen);
      ValidHolds(store);
      ByteIsPlain(e, disk, seen, w.id, pieces.only, b);
      ByteIsPlain(e, store.Contents(), store.seen, w'.id, pieces'.only, b);
      assert !Usable(damaged.manifests, w'.id);
    }
  }

  // ---- Uploads ----

  function Concat(datas: seq<seq<Byte>>): seq<Byte> {
    if |datas| == 0 then [] else Concat(datas[..|datas| - 1]) + datas[|datas| - 1]
  }

  /** A part as it is sent: its data and its number, zero for the next free one. */
  datatype Send = Send(data: seq<Byte>, number: nat)

  /** The parts after some were sent: the last one of every number. */
  ghost function Sent(sends: seq<Send>): map<nat, seq<Byte>> {
    if |sends| == 0 then map[]
    else
      var before, last := Sent(sends[..|sends| - 1]), sends[|sends| - 1];
      before[NextNumber(before.Keys, last.number) := last.data]
  }

  /** The last part has a number that was sent before. */
  ghost predicate Resent(sends: seq<Send>)
    requires |sends| > 0
  {
    var before := Sent(sends[..|sends| - 1]);
    NextNumber(before.Keys, sends[|sends| - 1].number) in before
  }

  /** The bytes that are counted: of every number, those of the first part. */
  ghost function CountedBytes(sends: seq<Send>): nat {
    if |sends| == 0 then 0
    else CountedBytes(sends[..|sends| - 1]) + if Resent(sends) then 0 else |sends[|sends| - 1].data|
  }

  ghost function Lengths(parts: map<nat, seq<Byte>>): map<nat, nat> {
    map n | n in parts :: |parts[n]|
  }

  /** No part is sent twice. */
  ghost predicate EachOnce(sends: seq<Send>) {
    forall i :: 0 < i <= |sends| ==> !Resent(sends[..i])
  }

  lemma OnceBefore(sends: seq<Send>)
    requires |sends| > 0 && EachOnce(sends)
    ensures EachOnce(sends[..|sends| - 1]) && !Resent(sends)
  {
    hide Resent;
    var front := sends[..|sends| - 1];
    forall i | 0 < i <= |front|
      ensures !Resent(front[..i])
    {
      assert front[..i] == sends[..i];
    }
    assert sends[..|sends|] == sends;
  }

  /** If no part is sent twice, all the bytes are counted. */
  lemma {:induction false} AllCounted(sends: seq<Send>)
    requires EachOnce(sends)
    ensures CountedBytes(sends) == Total(Lengths(Sent(sends)))
  {
    hide EachOnce, NextNumber;
    if |sends| == 0 {
      assert Lengths(Sent(sends)) == map[];
    } else {
      var before, last := Sent(sends[..|sends| - 1]), sends[|sends| - 1];
      var n := NextNumber(before.Keys, last.number);
      OnceBefore(sends);
      AllCounted(sends[..|sends| - 1]);
      assert Lengths(before[n := last.data]) == Lengths(before)[n := |last.data|];
      TotalUpdated(Lengths(before), n, |last.data|);
    }
  }

  ghost predicate Distinct(sends: seq<Send>) {
    && (forall i :: 0 <= i < |sends| ==> sends[i].number > 0)
    && forall i, j :: 0 <= i < j < |sends| ==> sends[i].number != sends[j].number
  }

  lemma NumberedSend(sends: seq<Send>)
    requires |sends| > 0 && sends[|sends| - 1].number > 0
    ensures var before, last := Sent(sends[..|sends| - 1]), sends[|sends| - 1];
            Sent(sends) == before[last.number := last.data] && (Resent(sends) <==> last.number in before)
  {}

  lemma DistinctBefore(sends: seq<Send>, i: nat)
    requires Distinct(sends) && i < |sends|
    ensures Distinct(sends[..i]) && (forall j :: 0 <= j < i ==> sends[..i][j] == sends[j])
    ensures forall j :: 0 <= j < i ==> sends[j].number != sends[i].number
  {}

  /** Parts with numbers of their own, in any order, are there under these numbers. */
  lemma {:induction false} SentByNumber(sends: seq<Send>)
    requires Distinct(sends)
    ensures EachOnce(sends) && Sent(sends).Keys == set i | 0 <= i < |sends| :: sends[i].number
    ensures forall i :: 0 <= i < |sends| ==> Sent(sends)[sends[i].number] == sends[i].data
  {
    hide Sent, Resent, NextNumber, EachOnce;
    if |sends| == 0 {
      NoneSent(sends);
    } else {
      var front := sends[..|sends| - 1];
      DistinctBefore(sends, |sends| - 1);
      SentByNumber(front);
      NumberedSend(sends);
      OnceMore(sends);
    }
  }

  lemma NoneSent(sends: seq<Send>)
    requires |sends| == 0
    ensures Sent(sends) == map[] && EachOnce(sends)
  {}

  lemma OnceMore(sends: seq<Send>)
    requires |sends| > 0 && EachOnce(sends[..|sends| - 1]) && !Resent(sends)
    ensures EachOnce(sends)
  {
    hide Resent;
    var front := sends[..|sends| - 1];
    forall i | 0 < i <= |sends|
      ensures !Resent(sends[..i])
    {
      if i <= |front| {
        assert front[..i] == sends[..i];
      } else {
        assert sends[..i] == sends;
      }
    }
  }

  /** The parts, all without a number. */
  function InTurn(datas: seq<seq<Byte>>): (sends: seq<Send>)
    ensures |sends| == |datas|
  {
    seq(|datas|, i requires 0 <= i < |datas| => Send(datas[i], 0))
  }

  lemma LastInTurn(datas: seq<seq<Byte>>)
    requires |datas| > 0
    ensures var front, sends := datas[..|datas| - 1], InTurn(datas);
            var before := Sent(InTurn(front));
            var n := NextNumber(before.Keys, 0);
            && sends[..|sends| - 1] == InTurn(front) && (Resent(sends) <==> n in before)
            && Sent(sends) == before[n := datas[|datas| - 1]]
  {
    hide NextNumber;
    var sends := InTurn(datas);
    assert sends[..|sends| - 1] == InTurn(datas[..|datas| - 1]);
  }

  /** Parts 1 to `|datas|` are there. */
  ghost predicate CountedFromOne(parts: map<nat, seq<Byte>>, datas: seq<seq<Byte>>) {
    (forall n :: n in parts <==> 1 <= n <= |datas|) && forall n :: 1 <= n <= |datas| ==> parts[n] == datas[n - 1]
  }

  lemma OneCounted(parts: map<nat, seq<Byte>>, datas: seq<seq<Byte>>)
    requires |datas| > 0 && CountedFromOne(parts, datas[..|datas| - 1])
    ensures CountedFromOne(parts[|datas| := datas[|datas| - 1]], datas)
  {}

  /** Parts without numbers are counted off from one. */
  lemma {:induction false} SentInTurn(datas: seq<seq<Byte>>)
    ensures EachOnce(InTurn(datas)) && CountedFromOne(Sent(InTurn(datas)), datas)
  {
    hide Sent, Resent, NextNumber, EachOnce, InTurn;
    if |datas| == 0 {
      NoneSent(InTurn(datas));
    } else {
      var front := datas[..|datas| - 1];
      SentInTurn(front);
      LastInTurn(datas);
      NextIsNew(Sent(InTurn(front)).Keys, |front|);
      OneCounted(Sent(InTurn(front)), datas);
      OnceMore(InTurn(datas));
    }
  }

  lemma NextIsNew(used: set<nat>, n: nat)
    requires forall k :: k in used <==> 1 <= k <= n
    ensures NextNumber(used, 0) == n + 1
  {
    if n == 0 {
      assert used == {};
    } else {
      assert n in used;
    }
  }

  /** Ordered numbers that are 1 to `n` are counted off. */
  lemma {:induction false} CountedOff(order: seq<nat>, n: nat)
    requires Ordered(order) && forall k :: k in order <==> 1 <= k <= n
    ensures |order| == n && forall i :: 0 <= i < n ==> order[i] == i + 1
    decreases n
  {
    assert |order| > 0 ==> order[0] in order;
    if n > 0 {
      assert n in order;
      var front, last := order[..|order| - 1], order[|order| - 1];
      assert last in order;
      var i :| 0 <= i < |order| && order[i] == n;
      assert last == n;
      forall k
        ensures k in front <==> 1 <= k <= n - 1
      {
        if 1 <= k <= n - 1 {
          assert k in order;
        }
        if k in front {
          assert k in order;
        }
      }
      CountedOff(front, n - 1);
    }
  }

  lemma {:induction false} PartsConcat(parts: seq<Object>, datas: seq<seq<Byte>>)
    requires |parts| == |datas| && forall i :: 0 <= i < |parts| ==> parts[i].data == datas[i]
    ensures Joined(parts) == Concat(datas)
  {
    if |parts| > 0 {
      PartsConcat(parts[..|parts| - 1], datas[..|datas| - 1]);
    }
  }

  /** The data of the parts in the order of their numbers. */
  ghost function ByNumber(parts: map<nat, seq<Byte>>, order: seq<nat>): (r: seq<seq<Byte>>)
    requires forall i :: 0 <= i < |order| ==> order[i] in parts
    ensures |r| == |order|
  {
    seq(|order|, i requires 0 <= i < |order| => parts[order[i]])
  }

  /** The upload has the parts that were sent, and counts their bytes. */
  ghost predicate Has(u: Upload, objects: map<nat, Object>, sends: seq<Send>) {
    && u.parts.Keys == objects.Keys && objects.Keys == Sent(sends).Keys && u.total == CountedBytes(sends)
    && forall n :: n in objects ==> objects[n].data == Sent(sends)[n]
  }

  lemma HasNext(u: Upload, objects: map<nat, Object>, u': Upload, objects': map<nat, Object>, sends: seq<Send>, i: nat)
    requires i < |sends| && Has(u, objects, sends[..i])
    requires var n := NextNumber(u.parts.Keys, sends[i].number);
             && n in u'.parts && u'.parts == u.parts[n := u'.parts[n]]
             && n in objects' && objects' == objects[n := objects'[n]] && objects'[n].data == sends[i].data
             && u'.total == u.total + if n in u.parts then 0 else |sends[i].data|
    ensures Has(u', objects', sends[..i + 1])
  {
    hide NextNumber;
    assert sends[..i + 1][..i] == sends[..i];
  }

  /** The sizes that fit the vault. */
  predicate Fit(sends: seq<Send>) {
    |sends| <= NATURAL_LAST && forall i :: 0 <= i < |sends| ==> |sends[i].data| <= NATURAL_LAST
  }

  /** Parts that are never refused. */
  predicate Small(sends: seq<Send>) {
    |sends| * 64 <= MAX_SINGLE && forall i :: 0 <= i < |sends| ==> |sends[i].data| <= MAX_SINGLE
  }

  /** The parts are sent one after the other, up to the first that is refused. */
  method UploadAll(store: Store, key: Key, sends: seq<Send>)
    returns (u: Upload, ok: bool, ghost objects: map<nat, Object>, ghost ids: set<Digest>)
    requires store.Valid() && Fit(sends)
    modifies store
    ensures store.Valid() && old(store.seen) <= store.seen && (Small(sends) ==> ok) && (ok ==> Has(u, objects, sends))
    ensures Grows(store.primitives, key, ids, old(store.Contents()), store.Contents())
    ensures CollisionFree(store.primitives.hash, store.seen) ==>
              Uploaded(store.primitives, store.Contents(), key, u, objects)
  {
    hide Store.Valid, Store.Contents, Present, CollisionFree, NextNumber, TotalBytes, Grows, Has;
    u, objects, ids := Upload(map[], 0), map[], {};
    NothingYet(u, objects, sends);
    NothingGrows(store.primitives, key, store.Contents());
    for i := 0 to |sends|
      invariant store.Valid() && old(store.seen) <= store.seen && Has(u, objects, sends[..i])
      invariant Grows(store.primitives, key, ids, old(store.Contents()), store.Contents())
      invariant CollisionFree(store.primitives.hash, store.seen) ==>
                  Uploaded(store.primitives, store.Contents(), key, u, objects)
    {
      ghost var seen, disk, u0, objects0 := store.seen, store.Contents(), u, objects;
      u, ok, objects := UploadPart(store, key, u, sends[i].data, sends[i].number, objects);
      if CollisionFree(store.primitives.hash, store.seen) {
        StillFree(store.primitives.hash, seen, store.seen);
      }
      if !ok {
        return;
      }
      HasNext(u0, objects0, u, objects, sends, i);
      ghost var id := u.parts[NextNumber(u0.parts.Keys, sends[i].number)];
      GrowsFurther(store.primitives, key, ids, {id}, old(store.Contents()), disk, store.Contents());
      ids := ids + {id};
    }
    assert sends[..|sends|] == sends;
    ok := true;
  }

  lemma NothingYet(u: Upload, objects: map<nat, Object>, sends: seq<Send>)
    requires u == Upload(map[], 0) && objects == map[]
    ensures Has(u, objects, sends[..0])
  {
    assert sends[..0] == [];
  }

  /** An upload in parts, completed and read back, unless a part or the list is refused: the parts in
      the order of their numbers, the last one of every number.  It reads back exactly if every blob
      of it that was on disk before the upload could be read then, and the counted bytes are those of
      the parts; they are if no part is sent twice. */
  method UploadThenGet(store: Store, key: Key, sends: seq<Send>)
    returns (r: LoadResult, w: Option<Whole>, ghost pieces: Pieces, order: seq<nat>)
    requires store.Valid() && Fit(sends)
    modifies store
    ensures store.Valid() && (Small(sends) ==> w.Some?)
    ensures w.Some? ==> w.value.composite && w.value.size == CountedBytes(sends)
    ensures w.Some? ==> Ordered(order) && forall n :: n in order <==> n in Sent(sends)
    ensures w.Some? ==> Content(pieces) == Concat(ByNumber(Sent(sends), order))
    ensures w.Some? ==>
              |Content(pieces)| == Total(Lengths(Sent(sends))) && (EachOnce(sends) ==> RightSize(w.value, pieces))
    ensures w.Some? && CollisionFree(store.primitives.hash, store.seen) ==>
              && Kept(store.primitives, store.Contents(), key, w.value, pieces)
              && (r.Got? <==> && KeptUsable(store.primitives, old(store.Contents()), w.value, pieces)
                              && |Content(pieces)| <= w.value.size)
              && (r.Got? ==> |r.data| == w.value.size && Content(pieces) <= r.data)
              && (r.Got? || r == Corrupt)
  {
    hide Store.Valid, Store.Contents, Kept, KeptReadable, KeptUsable, Joined, CollisionFree, Uploaded, TotalBytes,
         PartsInOrder, Concat, Grows, Has, EachOnce, Sent, CountedBytes, Lengths, ByNumber, Ordered;
    KnownBytes(store);
    var u, ok;
    ghost var objects, ids;
    u, ok, objects, ids := UploadAll(store, key, sends);
    if !ok {
      return Corrupt, Option.None, Single(Nothing(key)), [];
    }
    ghost var seen, disk := store.seen, store.Contents();
    HasFew(u, objects, sends);
    w, pieces, order := CompleteUpload(store, key, u, objects);
    if w.None? {
      return Corrupt, Option.None, pieces, order;
    }
    SentContent(u, objects, sends, order);
    if EachOnce(sends) {
      AllCounted(sends);
    }
    GrowsFurther(store.primitives, key, ids, {w.value.id}, old(store.Contents()), disk, store.Contents());
    if CollisionFree(store.primitives.hash, store.seen) {
      StillFree(store.primitives.hash, seen, store.seen);
      KeptReadableAfter(store.primitives, key, ids + {w.value.id}, old(store.Contents()), store.Contents(), w.value,
                        pieces);
    }
    r := GetObject(store, key, w.value, pieces);
  }

  lemma {:induction false} SentSize(sends: seq<Send>)
    ensures |Sent(sends).Keys| <= |sends|
  {
    hide NextNumber;
    if |sends| > 0 {
      SentSize(sends[..|sends| - 1]);
      var before := Sent(sends[..|sends| - 1]);
      assert Sent(sends).Keys == before.Keys + {NextNumber(before.Keys, sends[|sends| - 1].number)};
    }
  }

  lemma HasFew(u: Upload, objects: map<nat, Object>, sends: seq<Send>)
    requires Has(u, objects, sends)
    ensures u.parts.Keys == objects.Keys && |u.parts.Keys| <= |sends| && u.total == CountedBytes(sends)
  {
    hide Sent, CountedBytes;
    SentSize(sends);
  }

  lemma SentContent(u: Upload, objects: map<nat, Object>, sends: seq<Send>, order: seq<nat>)
    requires Has(u, objects, sends) && forall n :: n in order <==> n in objects
    ensures (forall n :: n in order <==> n in Sent(sends)) && (forall i :: 0 <= i < |order| ==> order[i] in Sent(sends))
    ensures (forall i :: 0 <= i < |order| ==> order[i] in objects)
              && Joined(PartsInOrder(objects, order)) == Concat(ByNumber(Sent(sends), order))
    ensures TotalBytes(objects) == Total(Lengths(Sent(sends)))
  {
    hide Joined, Concat, Sent, CountedBytes;
    forall i | 0 <= i < |order|
      ensures order[i] in objects
    {
      assert order[i] in order;
    }
    PartsConcat(PartsInOrder(objects, order), ByNumber(Sent(sends), order));
    assert Sizes(objects) == Lengths(Sent(sends));
  }

  /** Parts sent without numbers read back one after the other. */
  method UploadInTurn(store: Store, key: Key, datas: seq<seq<Byte>>)
    returns (r: LoadResult, w: Option<Whole>, ghost pieces: Pieces)
    requires store.Valid() && Fit(InTurn(datas))
    modifies store
    ensures store.Valid() && (Small(InTurn(datas)) ==> w.Some?) && (w.Some? ==> Content(pieces) == Concat(datas))
    ensures w.Some? && CollisionFree(store.primitives.hash, store.seen) ==>
              r == if KeptUsable(store.primitives, old(store.Contents()), w.value, pieces) then Got(Concat(datas))
                   else Corrupt
  {
    hide Store.Valid, Store.Contents, Kept, KeptUsable, Joined, CollisionFree, Concat, EachOnce, Sent, CountedBytes,
         Lengths, ByNumber, Ordered;
    var order;
    r, w, pieces, order := UploadThenGet(store, key, InTurn(datas));
    if w.Some? {
      SentInTurn(datas);
      CountedOff(order, |datas|);
      AllInTurn(datas, order);
    }
  }

  lemma AllInTurn(datas: seq<seq<Byte>>, order: seq<nat>)
    requires CountedFromOne(Sent(InTurn(datas)), datas)
    requires |order| == |datas| && forall i :: 0 <= i < |order| ==> order[i] == i + 1
    ensures ByNumber(Sent(InTurn(datas)), order) == datas
  {
    hide Sent;
  }

  /** A part that is sent again: only the first one is counted.  A longer second one makes the object
      unreadable; with a shorter one the object reads back longer than it is. */
  method PartSentTwice(e: Primitives, key: Key, a: seq<Byte>, b: seq<Byte>) returns (store: Store, r: LoadResult)
    requires |a| <= MAX_SINGLE && |b| <= MAX_SINGLE
    ensures store.primitives == e
    ensures CollisionFree(e.hash, store.seen) ==>
              if |b| > |a| then r == Corrupt else r.Got? && |r.data| == |a| && b <= r.data
  {
    hide Store.Valid, Kept, KeptUsable, Joined, CollisionFree, Concat, EachOnce, Sent, CountedBytes, Lengths, ByNumber,
         Ordered;
    store := new Store(e);
    ghost var disk := store.Contents();
    var w, order;
    ghost var pieces;
    r, w, pieces, order := UploadThenGet(store, key, [Send(a, 1), Send(b, 1)]);
    TwiceSent(a, b);
    OnlyPart(b, order);
    if CollisionFree(e.hash, store.seen) {
      NothingDamaged(e, disk, store.Contents(), key, w.value, pieces);
    }
  }

  lemma TwiceSent(a: seq<Byte>, b: seq<Byte>)
    ensures Sent([Send(a, 1), Send(b, 1)]) == map[1 := b] && CountedBytes([Send(a, 1), Send(b, 1)]) == |a|
  {
    hide NextNumber;
    var both, one := [Send(a, 1), Send(b, 1)], [Send(a, 1)];
    assert both[..1] == one && one[..0] == [];
    NumberedSend(one);
    NumberedSend(both);
    assert CountedBytes(one) == |a|;
  }

  lemma OnlyPart(b: seq<Byte>, order: seq<nat>)
    requires Ordered(order) && forall n :: n in order <==> n in map[1 := b]
    ensures (forall i :: 0 <= i < |order| ==> order[i] == 1) && Concat(ByNumber(map[1 := b], order)) == b
  {
    assert 1 in order;
    CountedOff(order, 1);
    assert ByNumber(map[1 := b], order) == [b];
    assert [b][..0] == [];
  }

  // ---- Versions of composite objects ----

  /** Two objects under one id have manifests with the same length field. */
  lemma SameLength(e: Primitives, disk: Disk, id: Digest, a: Object, b: Object)
    requires Present(e, disk, id, a) && Present(e, disk, id, b)
    requires Chosen(e, a) && Chosen(e, b) && |a.data| <= NATURAL_LAST && |b.data| <= NATURAL_LAST
    ensures |a.data| == |b.data|
  {
    hide Consistent, TagOf, ManifestOf, HasChunk;
    ManifestRoundTrip(|a.payload|, |a.data|, a.compressed, a.nonce, ChunkNames(e, a, ChunkCount(|a.payload|)));
    ManifestRoundTrip(|b.payload|, |b.data|, b.compressed, b.nonce, ChunkNames(e, b, ChunkCount(|b.payload|)));
  }

  /** The list of a large object never has the length of its first part, so it has another id. */
  lemma ListIsNoPart(e: Primitives, disk: Disk, key: Key, w: Whole, pieces: Pieces, data: seq<Byte>)
    requires Kept(e, disk, key, w, pieces) && pieces.Parts? && Sliced(pieces, data) && AllChosen(e, pieces)
    requires MAX_SINGLE < |data| <= NATURAL_LAST
    ensures |pieces.ids| > 0 && pieces.ids[0] != w.id
  {
    hide Present, ListOf;
    assert IsSlice(pieces.parts[0], data, 0) && |pieces.parts[0].data| == PART_SIZE;
    assert |pieces.list.data| == 64 * |pieces.ids|;
    if pieces.ids[0] == w.id {
      SameLength(e, disk, w.id, pieces.list, pieces.parts[0]);
    }
  }

  /** The ids of all the parts are spared by a collection. */
  ghost predicate PartsNeeded(wholes: seq<Whole>, others: seq<Digest>, known: seq<Pieces>, pieces: Pieces)
    requires |known| == |wholes|
  {
    pieces.Parts? ==> forall p :: 0 <= p < |pieces.ids| ==> Needed(wholes, others, known, pieces.ids[p])
  }

  /** A collection can go through, and the object can be read before it. */
  ghost predicate Collectable(e: Primitives, disk: Disk, key: Key, wholes: seq<Whole>, known: seq<Pieces>, w: Whole,
                              pieces: Pieces) {
    && AllListed(e, disk, key, wholes, known) && ListsReadable(e, disk, wholes, known)
    && ReadableWhole(e, disk, key, w, pieces) && RightSize(w, pieces)
  }

  /** An object that the vault knows only as a version: a collection spares the id that the version
      has, which for a composite object is that of the list.  So afterwards it can be read exactly if
      all its parts are needed by something else. */
  method CollectVersion(store: Store, key: Key, w: Whole, wholes: seq<Whole>, others: seq<Digest>,
                        ghost known: seq<Pieces>, ghost pieces: Pieces)
    returns (reclaimed: Option<nat>, r: LoadResult)
    requires store.Valid() && |known| == |wholes| && w.id in others
    modifies store
    ensures store.Valid() && store.seen == old(store.seen)
    ensures old(Collectable(store.primitives, store.Contents(), key, wholes, known, w, pieces)) ==>
              && reclaimed.Some?
              && r == if PartsNeeded(wholes, others, known, pieces) then Got(Content(pieces)) else Corrupt
  {
    hide Store.Valid, Kept, KeptReadable, Joined, Present, Collected, Needed, AllListed, ListsReadable, Listed;
    ghost var disk, e := store.Contents(), store.primitives;
    ghost var live;
    reclaimed, live := CollectVaultGarbage(store, key, wholes, others, known);
    if Collectable(e, disk, key, wholes, known, w, pieces) {
      IdNeeded(w.id, wholes, others, known);
      if PartsNeeded(wholes, others, known, pieces) {
        CollectionKeeps(e, disk, live, key, w, pieces);
      } else {
        var p :| 0 <= p < |pieces.ids| && !Needed(wholes, others, known, pieces.ids[p]);
        PartGone(e, disk, live, key, w, pieces, p);
      }
    }
    r := GetObject(store, key, w, pieces);
  }

  lemma IdNeeded(id: Digest, wholes: seq<Whole>, others: seq<Digest>, known: seq<Pieces>)
    requires |known| == |wholes| && id in others
    ensures Needed(wholes, others, known, id)
  {}

  lemma PartGone(e: Primitives, disk: Disk, live: seq<Digest>, key: Key, w: Whole, pieces: Pieces, p: nat)
    requires ReadableWhole(e, disk, key, w, pieces) && w.id in live
    requires pieces.Parts? && p < |pieces.ids| && pieces.ids[p] !in live
    ensures Listed(e, Collected(disk, live), key, w, pieces)
    ensures pieces.ids[p] !in Collected(disk, live).manifests.dirs
  {
    hide Present, ChunksReadable, Readable, ListOf, Marked;
    LiveObjectsStay(e, disk, live, w.id, pieces.list);
  }

  /** No version of a large object outlives a collection on its own. */
  method LargeVersionIsLost(e: Primitives, key: Key, data: seq<Byte>)
    returns (store: Store, first: LoadResult, second: LoadResult)
    requires MAX_SINGLE < |data| <= NATURAL_LAST
    ensures store.primitives == e
    ensures CollisionFree(e.hash, store.seen) ==> first == Got(data) && second == Corrupt
  {
    hide Store.Valid, Store.Contents, Kept, KeptReadable, Joined, Sliced, CollisionFree, PartCount, Chosen;
    var w, reclaimed;
    ghost var pieces;
    store, first, w, pieces := PutInNewStore(e, key, data);
    ghost var disk := store.Contents();
    reclaimed, second := CollectVersion(store, key, w, [], [w.id], [], pieces);
    if CollisionFree(e.hash, store.seen) {
      ListIsNoPart(e, disk, key, w, pieces, data);
      assert !Needed([], [w.id], [], pieces.ids[0]);
      assert !PartsNeeded([], [w.id], [], pieces);
    }
  }

  // ---- Reading a version ----

  /** Reads the object that a version has the id of: of a composite object this is its list. */
  method GetVersion(store: Store, key: Key, w: Whole, ghost pieces: Pieces) returns (r: LoadResult)
    requires store.Valid()
    ensures Kept(store.primitives, store.Contents(), key, w, pieces) ==>
              r == if AllReadable(store.primitives, store.Contents(), w.id, Scrubbed(pieces))
                   then Got(Scrubbed(pieces).data) else Corrupt
  {
    hide Store.Valid, Store.Contents, Present, AllReadable, ListOf, AllPresent;
    r := store.Get(key, w.id, Scrubbed(pieces));
  }

  /** What is put reads back as a version exactly if it is a single object; else its list of parts
      does, which is shorter. */
  method PutThenGetVersion(e: Primitives, key: Key, data: seq<Byte>) returns (store: Store, r: LoadResult)
    requires |data| <= NATURAL_LAST
    ensures store.primitives == e
    ensures CollisionFree(e.hash, store.seen) ==>
              && r.Got? && (r == Got(data) <==> |data| <= MAX_SINGLE)
              && (|data| > MAX_SINGLE ==> |r.data| == 64 * PartCount(|data|))
  {
    hide Store.Valid, Store.Contents, Kept, KeptReadable, Joined, Sliced, CollisionFree, AllReadable, Chosen;
    var got, w;
    ghost var pieces;
    store, got, w, pieces := PutInNewStore(e, key, data);
    r := GetVersion(store, key, w, pieces);
    if CollisionFree(e.hash, store.seen) {
      VersionLength(e, store.Contents(), key, w, pieces, data);
    }
  }

  lemma VersionLength(e: Primitives, disk: Disk, key: Key, w: Whole, pieces: Pieces, data: seq<Byte>)
    requires Kept(e, disk, key, w, pieces) && KeptReadable(e, disk, w, pieces) && Content(pieces) == data
    requires (pieces.Parts? <==> |data| > MAX_SINGLE) && (pieces.Parts? ==> Sliced(pieces, data))
    ensures AllReadable(e, disk, w.id, Scrubbed(pieces))
    ensures if pieces.Single? then Scrubbed(pieces).data == data
            else |Scrubbed(pieces).data| == 64 * PartCount(|data|) < |data|
  {
    hide Present, AllReadable, ListOf, Joined;
  }

  // ---- Scrubbing ----

  /** The object that a scrub repairs: of a composite object, only its list. */
  ghost function Scrubbed(pieces: Pieces): Object {
    match pieces
    case Single(o) => o
    case Parts(list, _, _) => list
  }

  ghost predicate AllOnDisk(e: Primitives, disk: Disk, wholes: seq<Whole>, pieces: seq<Pieces>) {
    |pieces| == |wholes| && forall i :: 0 <= i < |wholes| ==> Present(e, disk, wholes[i].id, Scrubbed(pieces[i]))
  }

  /** The ids and the chunks that a scrub of the first `n` objects repairs. */
  ghost function Ids(wholes: seq<Whole>, n: nat): set<Digest>
    requires n <= |wholes|
  {
    if n == 0 then {} else Ids(wholes, n - 1) + {wholes[n - 1].id}
  }

  ghost function Chunks(e: Primitives, disk: Disk, wholes: seq<Whole>, pieces: seq<Pieces>, n: nat): set<Digest>
    requires n <= |wholes| == |pieces|
  {
    if n == 0 then {}
    else Chunks(e, disk, wholes, pieces, n - 1) + RepairedNames(e, disk, wholes[n - 1].id, Scrubbed(pieces[n - 1]))
  }

  /** The disk after a repair of some manifests and chunks. */
  ghost function MendedDisk(disk: Disk, ids: set<Digest>, names: set<Digest>): Disk {
    Disk(Shelf(MendedDirs(disk.chunks, names), disk.chunks.bytes),
         Shelf(MendedDirs(disk.manifests, ids), disk.manifests.bytes))
  }

  /** Repairing after a repair is repairing both. */
  lemma MendedUnion(hash: Hash, shelf: Shelf, seen: set<seq<Byte>>, a: set<Digest>, b: set<Digest>)
    requires AllHold(hash, shelf, seen)
    ensures MendedDirs(Shelf(MendedDirs(shelf, a), shelf.bytes), b) == MendedDirs(shelf, a + b)
  {
    hide Holds, Mended;
    forall d | d in shelf.dirs
      ensures Mended(Mended(shelf.dirs[d], shelf.bytes[d]), shelf.bytes[d]) == Mended(shelf.dirs[d], shelf.bytes[d])
    {
      MendedHolds(hash, shelf.dirs[d], shelf.bytes[d]);
    }
  }

  /** Repairs of other objects change nothing about what the repair of an object finds and does. */
  lemma ScrubStep(e: Primitives, disk: Disk, seen: set<seq<Byte>>, ids: set<Digest>, names: set<Digest>, id: Digest,
                  o: Object)
    requires AllHold(e.hash, disk.chunks, seen) && AllHold(e.hash, disk.manifests, seen) && Present(e, disk, id, o)
    ensures var now, more := MendedDisk(disk, ids, names), RepairedNames(e, disk, id, o);
            && Present(e, now, id, o) && (AllReadable(e, now, id, o) <==> AllReadable(e, disk, id, o))
            && RepairedNames(e, now, id, o) == more
            && MendedDirs(now.manifests, {id}) == MendedDirs(disk.manifests, ids + {id})
            && MendedDirs(now.chunks, more) == MendedDirs(disk.chunks, names + more)
  {
    hide AllHold, Present, MendedDirs, Readable, ChunksReadable;
    var now, more := MendedDisk(disk, ids, names), RepairedNames(e, disk, id, o);
    assert Improved(disk.chunks, now.chunks) && Improved(disk.manifests, now.manifests);
    RepairKeeps(e, disk, now, seen, id, o);
    MendedMore(e.hash, disk.manifests, now.manifests, seen, ids, id);
    MendedUnion(e.hash, disk.chunks, seen, names, more);
  }

  lemma ValidHolds(store: Store)
    requires store.Valid()
    ensures AllHold(store.primitives.hash, store.Contents().chunks, store.seen)
    ensures AllHold(store.primitives.hash, store.Contents().manifests, store.seen)
  {}

  lemma NothingScrubbed(e: Primitives, disk: Disk, wholes: seq<Whole>, pieces: seq<Pieces>)
    requires |wholes| == |pieces|
    ensures MendedDisk(disk, Ids(wholes, 0), Chunks(e, disk, wholes, pieces, 0)) == disk
  {
    NothingMended(disk.chunks);
    NothingMended(disk.manifests);
  }

  /** Repairs the object, or the list, of every name of the index.  What can be restored is; parts
      of composite objects are not looked at, so a composite object passes if its list can be read. */
  method ScrubObjects(store: Store, wholes: seq<Whole>, ghost pieces: seq<Pieces>) returns (verdicts: seq<bool>)
    requires store.Valid() && |pieces| == |wholes|
    modifies store`chunks, store`manifests
    ensures store.Valid() && |verdicts| == |wholes|
    ensures AllOnDisk(store.primitives, old(store.Contents()), wholes, pieces) ==>
              && (forall i :: 0 <= i < |wholes| ==>
                   (verdicts[i]
                    <==> AllReadable(store.primitives, old(store.Contents()), wholes[i].id, Scrubbed(pieces[i]))))
              && store.Contents() == MendedDisk(old(store.Contents()), Ids(wholes, |wholes|),
                                                Chunks(store.primitives, old(store.Contents()), wholes, pieces,
                                                       |wholes|))
  {
    hide Present, AllReadable, MendedDirs, RepairedNames, AllHold, Readable;
    ghost var e, disk := store.primitives, store.Contents();
    ghost var ours := AllOnDisk(e, disk, wholes, pieces);
    ValidHolds(store);
    NothingScrubbed(e, disk, wholes, pieces);
    verdicts := [];
    for i := 0 to |wholes|
      invariant store.Valid() && |verdicts| == i
      invariant ours ==> forall j :: 0 <= j < i ==>
                  (verdicts[j] <==> AllReadable(e, disk, wholes[j].id, Scrubbed(pieces[j])))
      invariant ours ==> store.Contents() == MendedDisk(disk, Ids(wholes, i), Chunks(e, disk, wholes, pieces, i))
    {
      ghost var o := Scrubbed(pieces[i]);
      if ours {
        ScrubStep(e, disk, store.seen, Ids(wholes, i), Chunks(e, disk, wholes, pieces, i), wholes[i].id, o);
      }
      var ok, repaired := store.Repair(wholes[i].id, o);
      verdicts := verdicts + [ok];
    }
  }

  /** A large object whose parts have lost all their shards passes a scrub, and cannot be read. */
  method ScrubMissesParts(e: Primitives, key: Key, data: seq<Byte>)
    returns (store: Store, verdicts: seq<bool>, r: LoadResult)
    requires MAX_SINGLE < |data| <= NATURAL_LAST
    ensures store.primitives == e && |verdicts| == 1
    ensures CollisionFree(e.hash, store.seen) ==> verdicts[0] && r == Corrupt
  {
    hide Store.Valid, Present, Readable, ChunksReadable, Joined, Sliced, CollisionFree, PartCount, Chosen, ListOf,
         MendedDisk, Ids, Chunks;
    var first, w;
    ghost var pieces;
    store, first, w, pieces := PutInNewStore(e, key, data);
    ghost var disk := store.Contents();
    LoseManifests(store, store.manifests.Keys - {w.id});
    ghost var damaged := store.Contents();
    if CollisionFree(e.hash, store.seen) {
      ListIsNoPart(e, disk, key, w, pieces, data);
      KeptStill(e, disk, damaged, key, w, pieces);
      TagStands(e, disk, pieces.ids[0], pieces.parts[0]);
      assert pieces.ids[0] in disk.manifests.dirs && !Readable(damaged.manifests, pieces.ids[0]);
    }
    verdicts := ScrubObjects(store, [w], [pieces]);
    if CollisionFree(e.hash, store.seen) {
      PartsUnmended(e, damaged, key, w, pieces);
    }
    r := GetObject(store, key, w, pieces);
  }

  /** The same names, bytes and tags: only shards may differ. */
  ghost predicate SameNames(disk: Disk, disk': Disk) {
    && disk'.chunks.dirs.Keys == disk.chunks.dirs.Keys && disk'.chunks.bytes == disk.chunks.bytes
    && disk'.manifests.dirs.Keys == disk.manifests.dirs.Keys && disk'.manifests.bytes == disk.manifests.bytes
    && forall d :: d in disk.manifests.dirs ==> disk'.manifests.dirs[d].tag == disk.manifests.dirs[d].tag
  }

  lemma PresentStill(e: Primitives, disk: Disk, disk': Disk, id: Digest, o: Object)
    requires Present(e, disk, id, o) && SameNames(disk, disk')
    ensures Present(e, disk', id, o)
  {
    hide Consistent, ManifestBytes, ChunkBytes, TagOf;
    forall c: nat | c < ChunkCount(|o.payload|)
      ensures HasChunk(e, disk'.chunks, o, c)
    {
      assert HasChunk(e, disk.chunks, o, c);
    }
  }

  lemma KeptStill(e: Primitives, disk: Disk, disk': Disk, key: Key, w: Whole, pieces: Pieces)
    requires Kept(e, disk, key, w, pieces) && SameNames(disk, disk')
    ensures Kept(e, disk', key, w, pieces) && Present(e, disk', w.id, Scrubbed(pieces))
  {
    hide Present, SameNames, ListOf;
    PresentStill(e, disk, disk', w.id, Scrubbed(pieces));
    if pieces.Parts? {
      forall p | 0 <= p < |pieces.ids|
        ensures Present(e, disk', pieces.ids[p], pieces.parts[p])
      {
        PresentStill(e, disk, disk', pieces.ids[p], pieces.parts[p]);
      }
    }
  }

  /** A scrub of one composite object leaves a lost part lost. */
  lemma PartsUnmended(e: Primitives, disk: Disk, key: Key, w: Whole, pieces: Pieces)
    requires Kept(e, disk, key, w, pieces) && pieces.Parts? && |pieces.ids| > 0 && pieces.ids[0] != w.id
    requires !Readable(disk.manifests, pieces.ids[0])
    ensures var now := MendedDisk(disk, Ids([w], 1), Chunks(e, disk, [w], [pieces], 1));
            Kept(e, now, key, w, pieces) && !KeptReadable(e, now, w, pieces)
  {
    hide Present, Readable, ListOf, RepairedNames, Mended;
    var now := MendedDisk(disk, Ids([w], 1), Chunks(e, disk, [w], [pieces], 1));
    MendedNames(disk, Ids([w], 1), Chunks(e, disk, [w], [pieces], 1));
    KeptStill(e, disk, now, key, w, pieces);
    TagStands(e, disk, pieces.ids[0], pieces.parts[0]);
    InIds([w], 1);
    LeftUnread(disk.manifests, Ids([w], 1), pieces.ids[0]);
    assert !AllReadable(e, now, pieces.ids[0], pieces.parts[0]);
  }

  lemma MendedNames(disk: Disk, ids: set<Digest>, names: set<Digest>)
    ensures SameNames(disk, MendedDisk(disk, ids, names))
  {
    hide Recoverable;
  }

  lemma LeftUnread(shelf: Shelf, names: set<Digest>, d: Digest)
    requires d in shelf.dirs && d !in names
    ensures Readable(Shelf(MendedDirs(shelf, names), shelf.bytes), d) <==> Readable(shelf, d)
  {
    hide Mended, Recoverable;
  }

  /** After a scrub every object that passed is whole, if it is a single one; a part, or anything
      else that is no object of the index, has the manifest that it had, damaged or not. */
  lemma ScrubRestores(e: Primitives, disk: Disk, seen: set<seq<Byte>>, wholes: seq<Whole>, pieces: seq<Pieces>, i: nat,
                      d: Digest)
    requires AllHold(e.hash, disk.chunks, seen) && AllHold(e.hash, disk.manifests, seen)
    requires AllOnDisk(e, disk, wholes, pieces) && i < |wholes|
    requires AllReadable(e, disk, wholes[i].id, Scrubbed(pieces[i]))
    ensures var now := MendedDisk(disk, Ids(wholes, |wholes|), Chunks(e, disk, wholes, pieces, |wholes|));
            && AllFull(e, now, wholes[i].id, Scrubbed(pieces[i]))
            && (d in disk.manifests.dirs && (forall j :: 0 <= j < |wholes| ==> wholes[j].id != d) ==>
                  now.manifests.dirs[d] == disk.manifests.dirs[d])
  {
    hide AllHold, Present, Readable, Full, MendedDirs;
    var n := |wholes|;
    var id, o, now := wholes[i].id, Scrubbed(pieces[i]),
        MendedDisk(disk, Ids(wholes, n), Chunks(e, disk, wholes, pieces, n));
    InIds(wholes, n);
    InChunks(e, disk, wholes, pieces, n, i);
    assert Present(e, disk, id, o);
    PresentBlobs(e, disk, id, o);
    ImprovedBlob(e.hash, disk.manifests, now.manifests, seen, Ids(wholes, n), id);
    forall c: nat | c < ChunkCount(|o.payload|)
      ensures Full(now.chunks, ChunkName(e, o, c))
    {
      assert ChunkName(e, o, c) in NameSet(e, o, ChunkCount(|o.payload|));
      ImprovedBlob(e.hash, disk.chunks, now.chunks, seen, Chunks(e, disk, wholes, pieces, n), ChunkName(e, o, c));
    }
    Unmended(disk.manifests, Ids(wholes, n), d);
  }

  lemma PresentBlobs(e: Primitives, disk: Disk, id: Digest, o: Object)
    requires Present(e, disk, id, o)
    ensures id in disk.manifests.dirs && forall c: nat :: c < ChunkCount(|o.payload|) ==>
              ChunkName(e, o, c) in disk.chunks.dirs
  {
    hide Consistent, ManifestBytes, TagOf;
    forall c: nat | c < ChunkCount(|o.payload|)
      ensures ChunkName(e, o, c) in disk.chunks.dirs
    {
      assert HasChunk(e, disk.chunks, o, c);
    }
  }

  lemma Unmended(shelf: Shelf, names: set<Digest>, d: Digest)
    ensures d in shelf.dirs && d !in names ==>
              d in MendedDirs(shelf, names) && MendedDirs(shelf, names)[d] == shelf.dirs[d]
  {
    hide Mended;
  }

  lemma {:induction false} InIds(wholes: seq<Whole>, n: nat)
    requires n <= |wholes|
    ensures forall d :: d in Ids(wholes, n) <==> exists j :: 0 <= j < n && wholes[j].id == d
  {
    if n > 0 {
      InIds(wholes, n - 1);
    }
  }

  lemma {:induction false} InChunks(e: Primitives, disk: Disk, wholes: seq<Whole>, pieces: seq<Pieces>, n: nat, i: nat)
    requires i < n <= |wholes| == |pieces|
    ensures RepairedNames(e, disk, wholes[i].id, Scrubbed(pieces[i])) <= Chunks(e, disk, wholes, pieces, n)
  {
    hide RepairedNames;
    if i < n - 1 {
      InChunks(e, disk, wholes, pieces, n - 1, i);
    }
  }
}
