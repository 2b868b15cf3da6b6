/** Whole objects: one manifest, or a list of parts when the object is large or came in parts. */
module Objects {
  import opened BitOps
  import opened Cipher
  import opened Shards
  import opened ObjectFormat
  import opened ContentStore
  import opened Records
  import opened Totals

  const PART_SIZE := 900000
  const MAX_SINGLE := 2000000
  const NATURAL_LAST := 0x7fff_ffff

  /** What the index knows about the content of an object. */
  datatype Whole = Whole(id: Digest, composite: bool, size: nat)

  /** How it is stored: as one object, or as a list object and parts. */
  datatype Pieces = Single(only: Object) | Parts(list: Object, ids: seq<Digest>, parts: seq<Object>)

  // ---- Lists of ids ----

  /** An id as the 64 characters that a list holds. */
  function IdText(id: Digest): (b: seq<Byte>)
    ensures |b| == 64
  {
    HexIsLatin(id);
    Codes(ToHex(id))
  }

  lemma {:induction false} HexIsLatin(b: seq<Byte>)
    ensures Latin(ToHex(b))
  {
    if |b| > 0 {
      HexIsLatin(b[..|b| - 1]);
    }
  }

  function IdOf(b: seq<Byte>): Digest {
    DigestOf(Chars(b))
  }

  lemma IdRoundTrip(id: Digest)
    ensures IdOf(IdText(id)) == id
  {
    hide ToHex, DigestOf;
    HexIsLatin(id);
    CodesRoundTrip(ToHex(id));
    DigestRoundTrip(id);
  }

  function ListOf(ids: seq<Digest>): (b: seq<Byte>)
    ensures |b| == 64 * |ids|
  {
    if |ids| == 0 then [] else ListOf(ids[..|ids| - 1]) + IdText(ids[|ids| - 1])
  }

  lemma ListAppend(ids: seq<Digest>, id: Digest)
    ensures ListOf(ids + [id]) == ListOf(ids) + IdText(id)
  {
    assert (ids + [id])[..|ids|] == ids;
  }

  lemma {:induction false} ListSlot(ids: seq<Digest>, p: nat)
    requires p < |ids|
    ensures ListOf(ids)[64 * p..64 * p + 64] == IdText(ids[p])
  {
    hide IdText;
    var front := ids[..|ids| - 1];
    if p < |front| {
      ListSlot(front, p);
      assert ListOf(ids)[64 * p..64 * p + 64] == ListOf(front)[64 * p..64 * p + 64];
    }
  }

  // ---- Objects that are there ----

  function Joined(parts: seq<Object>): seq<Byte> {
    if |parts| == 0 then [] else Joined(parts[..|parts| - 1]) + parts[|parts| - 1].data
  }

  lemma JoinedAppend(parts: seq<Object>, o: Object)
    ensures Joined(parts + [o]) == Joined(parts) + o.data
  {
    assert (parts + [o])[..|parts|] == parts;
  }

  lemma JoinedPrefix(parts: seq<Object>, p: nat)
    requires p < |parts|
    ensures Joined(parts[..p + 1]) == Joined(parts[..p]) + parts[p].data
  {
    assert parts[..p + 1][..p] == parts[..p];
  }

  /** All of `parts` are on disk under `ids`, with the key. */
  ghost predicate AllPresent(e: Primitives, disk: Disk, key: Key, ids: seq<Digest>, parts: seq<Object>) {
    |ids| == |parts| && forall p :: 0 <= p < |ids| ==> Present(e, disk, ids[p], parts[p]) && parts[p].key == key
  }

  /** The list of a composite object is on disk. */
  ghost predicate Listed(e: Primitives, disk: Disk, key: Key, w: Whole, pieces: Pieces) {
    match pieces
    case Single(_) => !w.composite
    case Parts(list, ids, _) =>
      w.composite && Present(e, disk, w.id, list) && list.key == key && list.data == ListOf(ids)
  }

  /** The object is on disk, in the given pieces. */
  ghost predicate Kept(e: Primitives, disk: Disk, key: Key, w: Whole, pieces: Pieces) {
    match pieces
    case Single(o) => !w.composite && Present(e, disk, w.id, o) && o.key == key
    case Parts(list, ids, parts) =>
      && w.composite && Present(e, disk, w.id, list) && list.key == key && list.data == ListOf(ids)
      && AllPresent(e, disk, key, ids, parts)
  }

  function Content(pieces: Pieces): seq<Byte> {
    match pieces
    case Single(o) => o.data
    case Parts(_, _, parts) => Joined(parts)
  }

  /** Every blob of every piece can be read. */
  ghost predicate KeptReadable(e: Primitives, disk: Disk, w: Whole, pieces: Pieces) {
    match pieces
    case Single(o) => AllReadable(e, disk, w.id, o)
    case Parts(list, ids, parts) =>
      AllReadable(e, disk, w.id, list) && PartsReadable(e, disk, ids, parts)
  }

  ghost predicate PartsReadable(e: Primitives, disk: Disk, ids: seq<Digest>, parts: seq<Object>) {
    |ids| == |parts| && forall p :: 0 <= p < |ids| ==> AllReadable(e, disk, ids[p], parts[p])
  }

  /** The blobs of the object that are there can be read: every one is missing or readable. */
  ghost predicate KeptUsable(e: Primitives, disk: Disk, w: Whole, pieces: Pieces) {
    match pieces
    case Single(o) => AllUsable(e, disk, w.id, o)
    case Parts(list, ids, parts) =>
      AllUsable(e, disk, w.id, list) && PartsUsable(e, disk, ids, parts)
  }

  ghost predicate PartsUsable(e: Primitives, disk: Disk, ids: seq<Digest>, parts: seq<Object>) {
    |ids| == |parts| && forall p :: 0 <= p < |ids| ==> AllUsable(e, disk, ids[p], parts[p])
  }

  /** No directory without known bytes. */
  ghost predicate NoStrays(disk: Disk) {
    disk.chunks.dirs.Keys == disk.chunks.bytes.Keys && disk.manifests.dirs.Keys == disk.manifests.bytes.Keys
  }

  /** An object that was put can be read exactly if the blobs of it that were there before can. */
  lemma KeptReadableAfter(e: Primitives, key: Key, ids: set<Digest>, disk: Disk, disk': Disk, w: Whole, pieces: Pieces)
    requires NoStrays(disk) && Grows(e, key, ids, disk, disk') && Kept(e, disk', key, w, pieces)
    ensures KeptReadable(e, disk', w, pieces) <==> KeptUsable(e, disk, w, pieces)
  {
    hide Present, AllReadable, AllUsable, Extends, ListOf, TagOf;
    match pieces {
      case Single(o) => AllReadableAfter(e, disk, disk', w.id, o);
      case Parts(list, ids, parts) =>
        AllReadableAfter(e, disk, disk', w.id, list);
        forall p | 0 <= p < |ids|
          ensures AllReadable(e, disk', ids[p], parts[p]) <==> AllUsable(e, disk, ids[p], parts[p])
        {
          AllReadableAfter(e, disk, disk', ids[p], parts[p]);
        }
    }
  }

  lemma AllPresentLater(e: Primitives, key: Key, more: set<Digest>, disk: Disk, disk': Disk, ids: seq<Digest>,
                        parts: seq<Object>)
    requires Grows(e, key, more, disk, disk') && AllPresent(e, disk, key, ids, parts)
    ensures AllPresent(e, disk', key, ids, parts)
  {
    hide Present, Grows;
    forall p | 0 <= p < |ids|
      ensures Present(e, disk', ids[p], parts[p])
    {
      GrowsKeeps(e, key, more, disk, disk', ids[p], parts[p]);
    }
  }

  /** The ids that an object needs: its own, and those of its parts. */
  ghost function IdsOf(w: Whole, pieces: Pieces): set<Digest> {
    match pieces
    case Single(_) => {w.id}
    case Parts(_, ids, _) => {w.id} + set i | i in ids
  }

  // ---- Storing ----

  lemma StillFree(hash: Hash, few: set<seq<Byte>>, known: set<seq<Byte>>)
    requires CollisionFree(hash, known) && few <= known
    ensures CollisionFree(hash, few)
  {}

  function PartCount(length: nat): nat {
    (length + PART_SIZE - 1) / PART_SIZE
  }

  function PartStart(length: nat, p: nat): (s: nat)
    ensures s <= length
  {
    if p * PART_SIZE < length then p * PART_SIZE else length
  }

  lemma PartsJoin(data: seq<Byte>, p: nat)
    requires p < PartCount(|data|)
    ensures data[..PartStart(|data|, p)] + data[PartStart(|data|, p)..PartStart(|data|, p + 1)]
              == data[..PartStart(|data|, p + 1)]
    ensures PartStart(|data|, p) <= PartStart(|data|, p + 1) <= PartStart(|data|, p) + PART_SIZE
  {}

  lemma PartsEnd(length: nat)
    ensures PartStart(length, 0) == 0 && PartStart(length, PartCount(length)) == length
    ensures length <= NATURAL_LAST ==> PartCount(length) * 64 <= MAX_SINGLE
  {}

  /** Adds one part to a list of parts. */
  method PutPart(store: Store, key: Key, data: seq<Byte>, ghost ids: seq<Digest>, ghost parts: seq<Object>)
    returns (id: Digest, ghost o: Object)
    requires store.Valid() && |data| <= MAX_SINGLE
    modifies store
    ensures store.Valid() && old(store.seen) <= store.seen && o.data == data && o.key == key
              && Chosen(store.primitives, o)
    ensures Grows(store.primitives, key, {id}, old(store.Contents()), store.Contents())
    ensures CollisionFree(store.primitives.hash, store.seen)
            && old(AllPresent(store.primitives, store.Contents(), key, ids, parts)) ==>
              AllPresent(store.primitives, store.Contents(), key, ids + [id], parts + [o])
  {
    hide Present, CollisionFree, Store.Valid, Store.Contents, Grows, NonceOf;
    ghost var before := store.Contents();
    var r;
    r, o := store.Put(key, data);
    id := r.id;
    if AllPresent(store.primitives, before, key, ids, parts) {
      AllPresentLater(store.primitives, key, {id}, before, store.Contents(), ids, parts);
    }
  }

  /** All pieces are stored in the way that `Put` chooses, which settles their names. */
  ghost predicate AllChosen(e: Primitives, pieces: Pieces) {
    match pieces
    case Single(o) => Chosen(e, o)
    case Parts(list, _, parts) => Chosen(e, list) && forall p :: 0 <= p < |parts| ==> Chosen(e, parts[p])
  }

  /** Part `p` of a large object. */
  ghost predicate IsSlice(part: Object, data: seq<Byte>, p: nat) {
    && PartStart(|data|, p) <= PartStart(|data|, p + 1)
    && part.data == data[PartStart(|data|, p)..PartStart(|data|, p + 1)]
  }

  ghost predicate Sliced(pieces: Pieces, data: seq<Byte>)
    requires pieces.Parts?
  {
    && |pieces.parts| == PartCount(|data|)
    && forall p :: 0 <= p < |pieces.parts| ==> IsSlice(pieces.parts[p], data, p)
  }

  /** Stores a large object as parts and a list of them. */
  method StoreComposite(store: Store, key: Key, data: seq<Byte>) returns (id: Digest, ghost pieces: Pieces)
    requires store.Valid() && |data| <= NATURAL_LAST
    modifies store
    ensures store.Valid() && old(store.seen) <= store.seen && Content(pieces) == data
    ensures pieces.Parts? && Sliced(pieces, data) && AllChosen(store.primitives, pieces)
    ensures Grows(store.primitives, key, IdsOf(Whole(id, true, |data|), pieces), old(store.Contents()),
                  store.Contents())
    ensures CollisionFree(store.primitives.hash, store.seen) ==>
              Kept(store.primitives, store.Contents(), key, Whole(id, true, |data|), pieces)
  {
    hide Present, CollisionFree, Store.Valid, Store.Contents, ListOf, Joined, PartCount, PartStart, IdText, Grows;
    NothingGrows(store.primitives, key, store.Contents());
    var n := PartCount(|data|);
    PartsEnd(|data|);
    NoParts();
    ghost var ids: seq<Digest>, parts: seq<Object> := [], [];
    assert (set i | i in ids) == {};
    var list: seq<Byte> := [];
    for p := 0 to n
      invariant store.Valid() && old(store.seen) <= store.seen
      invariant |ids| == |parts| == p && list == ListOf(ids) && Joined(parts) == data[..PartStart(|data|, p)]
      invariant forall q :: 0 <= q < p ==> IsSlice(parts[q], data, q) && Chosen(store.primitives, parts[q])
      invariant Grows(store.primitives, key, set i | i in ids, old(store.Contents()), store.Contents())
      invariant CollisionFree(store.primitives.hash, store.seen) ==>
                  AllPresent(store.primitives, store.Contents(), key, ids, parts)
    {
      PartsJoin(data, p);
      ghost var seen, before := store.seen, store.Contents();
      var pid;
      ghost var o;
      pid, o := PutPart(store, key, data[PartStart(|data|, p)..PartStart(|data|, p + 1)], ids, parts);
      if CollisionFree(store.primitives.hash, store.seen) {
        StillFree(store.primitives.hash, seen, store.seen);
      }
      ListAppend(ids, pid);
      JoinedAppend(parts, o);
      GrowsFurther(store.primitives, key, set i | i in ids, {pid}, old(store.Contents()), before, store.Contents());
      assert (set i | i in ids + [pid]) == (set i | i in ids) + {pid};
      list := list + IdText(pid);
      ids, parts := ids + [pid], parts + [o];
    }
    ghost var before := store.Contents();
    var r;
    r, pieces := PutList(store, key, list, ids, parts);
    id := r.id;
    GrowsFurther(store.primitives, key, set i | i in ids, {id}, old(store.Contents()), before, store.Contents());
    assert IdsOf(Whole(id, true, |data|), pieces) == (set i | i in ids) + {id};
  }

  /** Stores the list of the ids of parts that are there, unless it is too long. */
  method PutList(store: Store, key: Key, list: seq<Byte>, ghost ids: seq<Digest>, ghost parts: seq<Object>)
    returns (r: PutResult, ghost pieces: Pieces)
    requires store.Valid() && list == ListOf(ids) && |list| < 0x1_0000_0000_0000_0000
    modifies store
    ensures store.Valid() && old(store.seen) <= store.seen && pieces.Parts? && pieces.parts == parts
              && pieces.ids == ids
    ensures Chosen(store.primitives, pieces.list) && (|list| <= MAX_SINGLE ==> r.Stored?)
    ensures Grows(store.primitives, key, if r.Stored? then {r.id} else {}, old(store.Contents()), store.Contents())
    ensures r.Stored? && CollisionFree(store.primitives.hash, store.seen)
            && (CollisionFree(store.primitives.hash, old(store.seen)) ==>
                  AllPresent(store.primitives, old(store.Contents()), key, ids, parts)) ==>
              forall size :: Kept(store.primitives, store.Contents(), key, Whole(r.id, true, size), pieces)
  {
    hide Present, CollisionFree, Store.Valid, Store.Contents, ListOf, Grows, NonceOf;
    ghost var before, seen := store.Contents(), store.seen;
    NothingGrows(store.primitives, key, before);
    ghost var o;
    r, o := store.Put(key, list);
    pieces := Parts(o, ids, parts);
    if CollisionFree(store.primitives.hash, store.seen) {
      StillFree(store.primitives.hash, seen, store.seen);
      if r.Stored? && AllPresent(store.primitives, before, key, ids, parts) {
        AllPresentLater(store.primitives, key, {r.id}, before, store.Contents(), ids, parts);
      }
    }
  }

  lemma NoParts()
    ensures ListOf([]) == [] && Joined([]) == []
  {}

  /** Stores an object of any size. */
  method PutObject(store: Store, key: Key, data: seq<Byte>) returns (w: Whole, ghost pieces: Pieces)
    requires store.Valid() && |data| <= NATURAL_LAST
    modifies store
    ensures store.Valid() && old(store.seen) <= store.seen && w.size == |data| && Content(pieces) == data
    ensures (pieces.Parts? <==> |data| > MAX_SINGLE) && (pieces.Parts? ==> Sliced(pieces, data))
    ensures AllChosen(store.primitives, pieces)
    ensures Grows(store.primitives, key, IdsOf(w, pieces), old(store.Contents()), store.Contents())
    ensures CollisionFree(store.primitives.hash, store.seen) ==>
              Kept(store.primitives, store.Contents(), key, w, pieces)
  {
    hide Present, CollisionFree, Store.Valid, Store.Contents, Sliced, Grows, NonceOf;
    if |data| <= MAX_SINGLE {
      var r;
      ghost var o;
      r, o := store.Put(key, data);
      w, pieces := Whole(r.id, false, |data|), Single(o);
    } else {
      var id;
      id, pieces := StoreComposite(store, key, data);
      w := Whole(id, true, |data|);
    }
  }

  // ---- Reading ----

  /** Reads an object back.  It succeeds exactly when every piece can be read and fits the recorded
      size, and what it returns is the content exactly when that size is right.  It fails when a part
      is missing. */
  method GetObject(store: Store, key: Key, w: Whole, ghost pieces: Pieces) returns (r: LoadResult)
    requires store.Valid()
    ensures Kept(store.primitives, store.Contents(), key, w, pieces) ==>
              && (r.Got? <==> && KeptReadable(store.primitives, store.Contents(), w, pieces)
                              && (w.composite ==> |Content(pieces)| <= w.size))
              && (r.Got? || r == Corrupt)
    ensures Kept(store.primitives, store.Contents(), key, w, pieces) && r.Got? ==>
              && (w.composite ==> |r.data| == w.size && Content(pieces) <= r.data)
              && (r.data == Content(pieces) <==> (w.composite ==> w.size == |Content(pieces)|))
    ensures Listed(store.primitives, store.Contents(), key, w, pieces) && pieces.Parts? ==>
              r == Corrupt || (r.Got? && forall p :: 0 <= p < |pieces.ids| ==> pieces.ids[p] in store.manifests)
  {
    hide Present, AllReadable, Store.Valid, Store.Contents, ListOf, Joined, AllPresent, PartsReadable;
    if !w.composite {
      r := store.Get(key, w.id, if pieces.Single? then pieces.only else pieces.list);
      return;
    }
    ghost var kept := Listed(store.primitives, store.Contents(), key, w, pieces) && pieces.Parts?;
    var list := store.Get(key, w.id, if pieces.Parts? then pieces.list else pieces.only);
    if !list.Got? {
      return list;
    }
    r := ReadParts(store, key, list.data, w.size, if kept then pieces.ids else [], if kept then pieces.parts else []);
  }

  /** Fetches the parts of a list in order and copies them one after the other. */
  method ReadParts(store: Store, key: Key, list: seq<Byte>, size: nat, ghost ids: seq<Digest>, ghost parts: seq<Object>)
    returns (r: LoadResult)
    requires store.Valid()
    ensures list == ListOf(ids) && AllPresent(store.primitives, store.Contents(), key, ids, parts) ==>
              && (r.Got? <==> PartsReadable(store.primitives, store.Contents(), ids, parts) && |Joined(parts)| <= size)
              && (r.Got? ==> |r.data| == size && Joined(parts) <= r.data)
    ensures r.Got? || r == Corrupt
    ensures list == ListOf(ids) && r.Got? ==> forall p :: 0 <= p < |ids| ==> ids[p] in store.manifests
  {
    hide Present, AllReadable, Store.Valid, Store.Contents, ListOf, Joined, IdOf;
    ghost var listed := list == ListOf(ids);
    ghost var ours := listed && AllPresent(store.primitives, store.Contents(), key, ids, parts);
    var out := new Byte[size](_ => 0);
    var pos: nat := 0;
    NoParts();
    assert parts[..0] == [];
    for p := 0 to |list| / 64
      invariant pos <= size && fresh(out)
      invariant listed ==> forall q :: 0 <= q < p ==> ids[q] in store.manifests
      invariant ours ==> out[..pos] == Joined(parts[..p])
      invariant ours ==> forall q :: 0 <= q < p ==> AllReadable(store.primitives, store.Contents(), ids[q], parts[q])
    {
      var pid := IdOf(list[64 * p..64 * p + 64]);
      if listed {
        ListSlot(ids, p);
        IdRoundTrip(ids[p]);
      }
      if ours {
        JoinedPrefix(parts, p);
        JoinedBound(parts, p + 1);
      }
      var part := store.Get(key, pid, if ours then parts[p] else Nothing(key));
      if !part.Got? || pos + |part.data| > size {
        return Corrupt;
      }
      ghost var before := out[..pos];
      Blit(out, pos, part.data);
      assert out[..pos + |part.data|] == before + part.data;
      pos := pos + |part.data|;
    }
    if ours {
      assert parts[..|parts|] == parts;
    }
    assert out[..][..pos] == out[..pos];
    r := Got(out[..]);
  }

  ghost function Nothing(key: Key): Object {
    Object(key, seq(12, _ => 0), [], false, [])
  }

  lemma {:induction false} JoinedBound(parts: seq<Object>, p: nat)
    requires p <= |parts|
    ensures |Joined(parts[..p])| <= |Joined(parts)|
    decreases |parts| - p
  {
    hide Joined;
    if p == |parts| {
      assert parts[..p] == parts;
    } else {
      JoinedPrefix(parts, p);
      JoinedBound(parts, p + 1);
    }
  }

  /** Losing up to two shards of every blob loses no object. */
  lemma WholeObjectsSurvive(e: Primitives, disk: Disk, disk': Disk, key: Key, w: Whole, pieces: Pieces)
    requires Kept(e, disk, key, w, pieces) && Harmed(disk.chunks, disk'.chunks)
               && Harmed(disk.manifests, disk'.manifests)
    ensures Kept(e, disk', key, w, pieces) && KeptReadable(e, disk', w, pieces)
  {
    hide Present, AllReadable, Harmed, ListOf;
    match pieces {
      case Single(o) => ObjectsSurvive(e, disk, disk', w.id, o);
      case Parts(list, ids, parts) =>
        ObjectsSurvive(e, disk, disk', w.id, list);
        forall p | 0 <= p < |ids|
          ensures Present(e, disk', ids[p], parts[p]) && AllReadable(e, disk', ids[p], parts[p])
        {
          ObjectsSurvive(e, disk, disk', ids[p], parts[p]);
        }
    }
  }

  // ---- Uploads in parts ----

  /** An upload in progress: the id of every part by its number, and the bytes counted so far. */
  datatype Upload = Upload(parts: map<nat, Digest>, total: nat)

  /** The parts of the upload are on disk, as `objects`. */
  ghost predicate Uploaded(e: Primitives, disk: Disk, key: Key, u: Upload, objects: map<nat, Object>) {
    && u.parts.Keys == objects.Keys
    && forall n :: n in u.parts ==> Present(e, disk, u.parts[n], objects[n]) && objects[n].key == key
  }

  ghost function Sizes(objects: map<nat, Object>): map<nat, nat> {
    map n | n in objects :: |objects[n].data|
  }

  /** The bytes of all the parts together. */
  ghost function TotalBytes(objects: map<nat, Object>): nat {
    Total(Sizes(objects))
  }

  /** Sending a part replaces the part of that number. */
  lemma TotalAfter(objects: map<nat, Object>, n: nat, o: Object)
    ensures TotalBytes(objects[n := o])
         == TotalBytes(objects) + |o.data| - if n in objects then |objects[n].data| else 0
  {
    assert Sizes(objects[n := o]) == Sizes(objects)[n := |o.data|];
    TotalUpdated(Sizes(objects), n, |o.data|);
  }

  /** The number under which a part is sent: the given one, or one above all those in use. */
  function NextNumber(used: set<nat>, number: nat): nat {
    if number > 0 then number else if |used| == 0 then 1 else Largest(used) + 1
  }

  function Largest(s: set<nat>): (m: nat)
    requires |s| > 0
    ensures m in s && forall n :: n in s ==> n <= m
  {
    HasLargest(s);
    var m :| m in s && forall n :: n in s ==> n <= m;
    m
  }

  lemma {:induction false} HasLargest(s: set<nat>)
    requires |s| > 0
    ensures exists m :: m in s && forall n :: n in s ==> n <= m
    decreases |s|
  {
    var n :| n in s;
    if s == {n} {
    } else {
      var rest := s - {n};
      assert s == rest + {n};
      HasLargest(rest);
      var m :| m in rest && forall k :: k in rest ==> k <= m;
      var top := if m < n then n else m;
      forall k | k in s
        ensures k <= top
      {
        if k != n {
          assert k in rest;
        }
      }
      assert top in s;
    }
  }

  /** Stores a part, unless it is too large; then nothing changes.  The total counts it only if no
      part of that number was there, so it stays the sum of the part sizes exactly when the number
      is new or the replaced part is as long. */
  method UploadPart(store: Store, key: Key, u: Upload, data: seq<Byte>, number: nat, ghost objects: map<nat, Object>)
    returns (u': Upload, stored: bool, ghost objects': map<nat, Object>)
    requires store.Valid() && |data| <= NATURAL_LAST
    modifies store
    ensures store.Valid() && old(store.seen) <= store.seen && (|data| <= MAX_SINGLE ==> stored)
    ensures !stored ==> u' == u && objects' == objects && store.Contents() == old(store.Contents())
    ensures var n := NextNumber(u.parts.Keys, number);
            stored ==> && n in u'.parts && u'.parts == u.parts[n := u'.parts[n]]
                       && n in objects' && objects' == objects[n := objects'[n]] && objects'[n].data == data
                       && objects'[n].key == key && u'.total == u.total + (if n in u.parts then 0 else |data|)
                       && Grows(store.primitives, key, {u'.parts[n]}, old(store.Contents()), store.Contents())
    ensures CollisionFree(store.primitives.hash, store.seen)
              && Uploaded(store.primitives, old(store.Contents()), key, u, objects) ==>
              Uploaded(store.primitives, store.Contents(), key, u', objects')
    ensures var n := NextNumber(u.parts.Keys, number);
            stored && u.parts.Keys == objects.Keys && u.total == TotalBytes(objects) ==>
              (u'.total == TotalBytes(objects') <==> n in objects ==> |objects[n].data| == |data|)
  {
    hide Present, CollisionFree, Store.Valid, Store.Contents, NextNumber, TotalBytes, Grows, NonceOf;
    ghost var before := store.Contents();
    var r;
    ghost var o;
    r, o := store.Put(key, data);
    stored := r.Stored?;
    u', objects' := u, objects;
    if stored {
      var n := NextNumber(u.parts.Keys, number);
      u' := Upload(u.parts[n := r.id], if n in u.parts then u.total else u.total + |data|);
      objects' := objects[n := o];
      TotalAfter(objects, n, o);
    }
    if CollisionFree(store.primitives.hash, store.seen) && Uploaded(store.primitives, before, key, u, objects) {
      forall m | m in u'.parts
        ensures Present(store.primitives, store.Contents(), u'.parts[m], objects'[m]) && objects'[m].key == key
      {
        if !(stored && m == NextNumber(u.parts.Keys, number)) {
          assert Present(store.primitives, before, u.parts[m], objects[m]);
          if stored {
            GrowsKeeps(store.primitives, key, {r.id}, before, store.Contents(), u.parts[m], objects[m]);
          }
        }
      }
    }
  }

  predicate Ordered(order: seq<nat>) {
    forall i, j :: 0 <= i < j < |order| ==> order[i] < order[j]
  }

  /** The part numbers in ascending order. */
  method Ascending(numbers: set<nat>) returns (order: seq<nat>)
    ensures Ordered(order) && forall n :: n in order <==> n in numbers
  {
    order := [];
    var todo := numbers;
    while todo != {}
      invariant todo <= numbers && forall n :: n in order <==> n in numbers && n !in todo
      invariant Ordered(order)
      invariant forall n, m :: n in todo && m in order ==> n < m
      decreases |todo|
    {
      assert |todo| > 0;
      var n := Largest(todo);
      todo := todo - {n};
      forall j | 0 <= j < |order|
        ensures n < order[j]
      {
        assert order[j] in order;
      }
      order := [n] + order;
    }
  }

  ghost function PartsInOrder(objects: map<nat, Object>, order: seq<nat>): (r: seq<Object>)
    requires forall i :: 0 <= i < |order| ==> order[i] in objects
    ensures |r| == |order|
  {
    seq(|order|, i requires 0 <= i < |order| => objects[order[i]])
  }

  /** Dropping the last of some ordered numbers. */
  lemma LastNumber(order: seq<nat>, numbers: set<nat>)
    requires |order| > 0 && (forall n :: n in order <==> n in numbers)
    requires Ordered(order)
    ensures var n := order[|order| - 1]; n in numbers && forall m :: m in order[..|order| - 1] <==> m in numbers - {n}
  {
    var front, n := order[..|order| - 1], order[|order| - 1];
    assert n in order;
    forall m
      ensures m in front <==> m in numbers - {n}
    {
      if m in numbers - {n} {
        var i :| 0 <= i < |order| && order[i] == m;
        assert front[i] == m;
      }
      if m in front {
        var i :| 0 <= i < |front| && front[i] == m;
        assert order[i] == m;
      }
    }
  }

  /** Taking out the last of all the parts. */
  lemma LastPart(objects: map<nat, Object>, order: seq<nat>)
    requires |order| > 0 && Ordered(order) && forall n :: n in order <==> n in objects
    ensures var n, front := order[|order| - 1], order[..|order| - 1];
            && n in objects && Ordered(front) && (forall m :: m in front <==> m in objects - {n})
            && PartsInOrder(objects, order) == PartsInOrder(objects - {n}, front) + [objects[n]]
            && Sizes(objects - {n}) == Sizes(objects) - {n}
  {
    LastNumber(order, objects.Keys);
  }

  lemma {:induction false} JoinedLength(objects: map<nat, Object>, order: seq<nat>)
    requires Ordered(order) && forall n :: n in order <==> n in objects
    ensures |Joined(PartsInOrder(objects, order))| == TotalBytes(objects)
    decreases |order|
  {
    hide Joined, Ordered, PartsInOrder;
    if |order| == 0 {
      assert Sizes(objects) == map[];
      NoParts();
    } else {
      var front, n := order[..|order| - 1], order[|order| - 1];
      LastPart(objects, order);
      TotalWithout(Sizes(objects), n);
      JoinedLength(objects - {n}, front);
      JoinedAppend(PartsInOrder(objects - {n}, front), objects[n]);
    }
  }

  /** Completes an upload, unless there are too many parts: the parts in the order of their numbers.
      When the total is the sum of the part sizes, reading the object gives them one after the other. */
  method CompleteUpload(store: Store, key: Key, u: Upload, ghost objects: map<nat, Object>)
    returns (w: Option<Whole>, ghost pieces: Pieces, order: seq<nat>)
    requires store.Valid() && |u.parts.Keys| <= NATURAL_LAST && u.parts.Keys == objects.Keys
    modifies store
    ensures store.Valid() && old(store.seen) <= store.seen && (|u.parts.Keys| * 64 <= MAX_SINGLE ==> w.Some?)
    ensures w.Some? ==> w.value.composite && w.value.size == u.total
    ensures Ordered(order) && forall n :: n in order <==> n in objects
    ensures Content(pieces) == Joined(PartsInOrder(objects, order)) && |Content(pieces)| == TotalBytes(objects)
    ensures Grows(store.primitives, key, if w.Some? then {w.value.id} else {}, old(store.Contents()), store.Contents())
    ensures w.Some? && CollisionFree(store.primitives.hash, store.seen)
            && Uploaded(store.primitives, old(store.Contents()), key, u, objects) ==>
              Kept(store.primitives, store.Contents(), key, w.value, pieces)
  {
    hide Present, CollisionFree, Store.Valid, Store.Contents, ListOf, Joined, TotalBytes, PartsInOrder, Grows;
    order := Ascending(u.parts.Keys);
    OrderSize(order, u.parts.Keys);
    var list;
    ghost var ids;
    list, ids := ListParts(u, order);
    ghost var parts := PartsInOrder(objects, order);
    JoinedLength(objects, order);
    if Uploaded(store.primitives, store.Contents(), key, u, objects) {
      OrderedPresent(store.primitives, store.Contents(), key, u, objects, order, ids);
    }
    var r;
    r, pieces := PutList(store, key, list, ids, parts);
    w := if r.Stored? then Some(Whole(r.id, true, u.total)) else Option.None;
  }

  /** The list of the part ids in the given order. */
  method ListParts(u: Upload, order: seq<nat>) returns (list: seq<Byte>, ghost ids: seq<Digest>)
    requires forall i :: 0 <= i < |order| ==> order[i] in u.parts
    ensures list == ListOf(ids) && |ids| == |order| && forall j :: 0 <= j < |order| ==> ids[j] == u.parts[order[j]]
  {
    hide ListOf, IdText;
    NoParts();
    list, ids := [], [];
    for i := 0 to |order|
      invariant |ids| == i && list == ListOf(ids) && forall j :: 0 <= j < i ==> ids[j] == u.parts[order[j]]
    {
      ListAppend(ids, u.parts[order[i]]);
      list := list + IdText(u.parts[order[i]]);
      ids := ids + [u.parts[order[i]]];
    }
  }

  lemma OrderedPresent(e: Primitives, disk: Disk, key: Key, u: Upload, objects: map<nat, Object>, order: seq<nat>,
                       ids: seq<Digest>)
    requires Uploaded(e, disk, key, u, objects) && |ids| == |order|
    requires forall j :: 0 <= j < |order| ==> order[j] in u.parts && ids[j] == u.parts[order[j]]
    ensures AllPresent(e, disk, key, ids, PartsInOrder(objects, order))
  {
    hide Present;
    forall p | 0 <= p < |ids|
      ensures Present(e, disk, ids[p], objects[order[p]]) && objects[order[p]].key == key
    {
      assert Present(e, disk, u.parts[order[p]], objects[order[p]]);
    }
  }

  lemma {:induction false} OrderSize(order: seq<nat>, numbers: set<nat>)
    requires Ordered(order) && forall n :: n in order <==> n in numbers
    ensures |order| == |numbers| && forall i :: 0 <= i < |order| ==> order[i] in numbers
    decreases |order|
  {
    if |order| == 0 {
      assert numbers == {};
    } else {
      var front, n := order[..|order| - 1], order[|order| - 1];
      LastNumber(order, numbers);
      OrderSize(front, numbers - {n});
      forall i | 0 <= i < |order|
        ensures order[i] in numbers
      {
        assert order[i] in order;
      }
    }
  }

  // ---- Collecting garbage ----

  /** All the ids that an object needs: its own, and those on its list. */
  ghost predicate CoveredBy(live: seq<Digest>, w: Whole, pieces: Pieces) {
    w.id in live && (pieces.Parts? ==> forall p :: 0 <= p < |pieces.ids| ==> pieces.ids[p] in live)
  }

  /** An object all of whose ids are live is the same after a collection. */
  lemma CollectionKeeps(e: Primitives, disk: Disk, live: seq<Digest>, key: Key, w: Whole, pieces: Pieces)
    requires Kept(e, disk, key, w, pieces) && KeptReadable(e, disk, w, pieces) && CoveredBy(live, w, pieces)
    ensures var disk' := Collected(disk, live); Kept(e, disk', key, w, pieces) && KeptReadable(e, disk', w, pieces)
  {
    hide Present, Collected, ChunksReadable, ListOf, Readable;
    match pieces {
      case Single(o) => LiveObjectsStay(e, disk, live, w.id, o);
      case Parts(list, ids, parts) =>
        LiveObjectsStay(e, disk, live, w.id, list);
        forall p | 0 <= p < |ids|
          ensures Present(e, Collected(disk, live), ids[p], parts[p])
                    && AllReadable(e, Collected(disk, live), ids[p], parts[p])
        {
          LiveObjectsStay(e, disk, live, ids[p], parts[p]);
        }
    }
  }

  lemma NotLiveIsGone(e: Primitives, disk: Disk, live: seq<Digest>, id: Digest, o: Object)
    requires id !in live
    ensures !Present(e, Collected(disk, live), id, o)
  {
    hide Marked, Consistent, ManifestBytes;
  }

  /** An object that can be read is kept by a collection exactly if all its ids are live. */
  lemma KeptByCollection(e: Primitives, disk: Disk, live: seq<Digest>, key: Key, w: Whole, pieces: Pieces)
    requires Kept(e, disk, key, w, pieces) && KeptReadable(e, disk, w, pieces)
    ensures Kept(e, Collected(disk, live), key, w, pieces) <==> CoveredBy(live, w, pieces)
  {
    hide Present, Collected, AllReadable, ListOf;
    if CoveredBy(live, w, pieces) {
      CollectionKeeps(e, disk, live, key, w, pieces);
    } else if w.id !in live {
      NotLiveIsGone(e, disk, live, w.id, if pieces.Single? then pieces.only else pieces.list);
    } else {
      var p :| 0 <= p < |pieces.ids| && pieces.ids[p] !in live;
      NotLiveIsGone(e, disk, live, pieces.ids[p], pieces.parts[p]);
    }
  }

  ghost predicate ListReadable(e: Primitives, disk: Disk, w: Whole, pieces: Pieces) {
    pieces.Parts? ==> AllReadable(e, disk, w.id, pieces.list)
  }

  /** The object needs `d`: it is its id, or on its list. */
  ghost predicate Needs(w: Whole, pieces: Pieces, d: Digest) {
    d == w.id || (pieces.Parts? && d in pieces.ids)
  }

  /** The ids that a collection spares: those of the objects of the index with their parts, and of
      uploads and versions without any. */
  ghost predicate Needed(wholes: seq<Whole>, others: seq<Digest>, pieces: seq<Pieces>, d: Digest)
    requires |pieces| == |wholes|
  {
    d in others || exists i :: 0 <= i < |wholes| && Needs(wholes[i], pieces[i], d)
  }

  ghost predicate AllListed(e: Primitives, disk: Disk, key: Key, wholes: seq<Whole>, pieces: seq<Pieces>) {
    |pieces| == |wholes| && forall i :: 0 <= i < |wholes| ==> Listed(e, disk, key, wholes[i], pieces[i])
  }

  ghost predicate ListsReadable(e: Primitives, disk: Disk, wholes: seq<Whole>, pieces: seq<Pieces>) {
    |pieces| == |wholes| && forall i :: 0 <= i < |wholes| ==> ListReadable(e, disk, wholes[i], pieces[i])
  }

  lemma NeededStep(wholes: seq<Whole>, others: seq<Digest>, pieces: seq<Pieces>, i: nat)
    requires |pieces| == |wholes| && i < |wholes|
    ensures forall d :: Needed(wholes[..i + 1], others, pieces[..i + 1], d)
                   <==> Needed(wholes[..i], others, pieces[..i], d) || Needs(wholes[i], pieces[i], d)
  {
    hide Needs;
    forall d
      ensures Needed(wholes[..i + 1], others, pieces[..i + 1], d)
         <==> Needed(wholes[..i], others, pieces[..i], d) || Needs(wholes[i], pieces[i], d)
    {
      var ws, ps, ws', ps' := wholes[..i], pieces[..i], wholes[..i + 1], pieces[..i + 1];
      if j :| 0 <= j < |ws| && Needs(ws[j], ps[j], d) {
        assert Needs(ws'[j], ps'[j], d);
      }
      if j :| 0 <= j < |ws'| && Needs(ws'[j], ps'[j], d) {
        assert j == i || Needs(ws[j], ps[j], d);
      }
      assert ws'[i] == wholes[i] && ps'[i] == pieces[i];
    }
  }

  /** The ids that must stay, or none if the list of a composite object cannot be read. */
  method LiveIds(store: Store, key: Key, wholes: seq<Whole>, others: seq<Digest>, ghost pieces: seq<Pieces>)
    returns (live: Option<seq<Digest>>)
    requires store.Valid() && |pieces| == |wholes|
    ensures AllListed(store.primitives, store.Contents(), key, wholes, pieces) ==>
              (live.Some? <==> ListsReadable(store.primitives, store.Contents(), wholes, pieces))
    ensures AllListed(store.primitives, store.Contents(), key, wholes, pieces) && live.Some? ==>
              forall d :: d in live.value <==> Needed(wholes, others, pieces, d)
  {
    hide Present, AllReadable, Store.Valid, Store.Contents, ListOf, Needs, Needed;
    ghost var e, disk := store.primitives, store.Contents();
    ghost var ours := AllListed(e, disk, key, wholes, pieces);
    var ids := others;
    NoneNeeded(others);
    for i := 0 to |wholes|
      invariant ours ==> forall d :: d in ids <==> Needed(wholes[..i], others, pieces[..i], d)
      invariant ours ==> forall j :: 0 <= j < i ==> ListReadable(e, disk, wholes[j], pieces[j])
    {
      var w := wholes[i];
      NeededStep(wholes, others, pieces, i);
      NeedsMeans(w, pieces[i]);
      assert ours ==> Listed(e, disk, key, w, pieces[i]);
      ghost var before := ids;
      ids := ids + [w.id];
      if w.composite {
        var list := store.Get(key, w.id, if ours then pieces[i].list else Nothing(key));
        if !list.Got? {
          return Option.None;
        }
        ids := AddParts(ids, list.data, if ours then pieces[i].ids else []);
      }
      forall d | ours
        ensures d in ids <==> Needed(wholes[..i + 1], others, pieces[..i + 1], d)
      {
        assert ids == before + [w.id] + if w.composite then pieces[i].ids else [];
        assert d in ids <==> d in before || Needs(w, pieces[i], d);
        assert d in before <==> Needed(wholes[..i], others, pieces[..i], d);
      }
    }
    assert wholes[..|wholes|] == wholes && pieces[..|wholes|] == pieces;
    live := Some(ids);
  }

  lemma NoneNeeded(others: seq<Digest>)
    ensures forall wholes: seq<Whole>, pieces: seq<Pieces>, d :: |wholes| == |pieces| == 0 ==>
              (Needed(wholes, others, pieces, d) <==> d in others)
  {}

  lemma NeedsMeans(w: Whole, pieces: Pieces)
    ensures forall d :: Needs(w, pieces, d) <==> d == w.id || (pieces.Parts? && d in pieces.ids)
  {}

  /** Adds the ids on a list. */
  method AddParts(live: seq<Digest>, list: seq<Byte>, ghost ids: seq<Digest>) returns (more: seq<Digest>)
    ensures list == ListOf(ids) ==> more == live + ids
  {
    hide ListOf, IdOf, IdText;
    ghost var ours := list == ListOf(ids);
    more := live;
    for p := 0 to |list| / 64
      invariant ours ==> more == live + ids[..p]
    {
      if ours {
        ListSlot(ids, p);
        IdRoundTrip(ids[p]);
      }
      more := more + [IdOf(list[64 * p..64 * p + 64])];
    }
    assert ids[..|ids|] == ids;
  }

  /** A single object that is there and can be read. */
  ghost predicate ReadableObject(e: Primitives, disk: Disk, id: Digest, o: Object) {
    Present(e, disk, id, o) && AllReadable(e, disk, id, o)
  }

  /** A whole object that is there and can be read. */
  ghost predicate ReadableWhole(e: Primitives, disk: Disk, key: Key, w: Whole, pieces: Pieces) {
    Kept(e, disk, key, w, pieces) && KeptReadable(e, disk, w, pieces)
  }

  /** Collecting garbage with the live ids of the vault: what is left is exactly what those ids
      reach.  It stops before removing anything exactly when the list of a composite object is
      unreadable. */
  method CollectVaultGarbage(store: Store, key: Key, wholes: seq<Whole>, others: seq<Digest>, ghost pieces: seq<Pieces>)
    returns (reclaimed: Option<nat>, ghost live: seq<Digest>)
    requires store.Valid() && |pieces| == |wholes|
    modifies store
    ensures store.Valid() && store.seen == old(store.seen)
    ensures AllListed(store.primitives, old(store.Contents()), key, wholes, pieces) ==>
              && (reclaimed.Some? <==> ListsReadable(store.primitives, old(store.Contents()), wholes, pieces))
              && (reclaimed.Some? ==> forall d :: d in live <==> Needed(wholes, others, pieces, d))
    ensures reclaimed.None? ==> store.Contents() == old(store.Contents())
    ensures reclaimed.Some? ==>
              && store.Contents() == Collected(old(store.Contents()), live)
              && reclaimed.value == |old(store.manifests)| - |store.manifests| + |old(store.chunks)| - |store.chunks|
  {
    hide Present, Store.Valid, Store.Contents, Collected, AllListed, ListsReadable, Needed;
    var ids := LiveIds(store, key, wholes, others, pieces);
    live := [];
    if ids.None? {
      return Option.None, [];
    }
    live := ids.value;
    var count := store.CollectGarbage(ids.value);
    reclaimed := Some(count);
  }

  /** What could be read, of the index, the uploads and the versions that are single objects, can be
      read after a collection. */
  lemma CollectionSpares(e: Primitives, disk: Disk, live: seq<Digest>, key: Key, wholes: seq<Whole>,
                         others: seq<Digest>,
                         pieces: seq<Pieces>)
    requires |pieces| == |wholes| && forall d :: d in live <==> Needed(wholes, others, pieces, d)
    ensures forall i :: 0 <= i < |wholes| && ReadableWhole(e, disk, key, wholes[i], pieces[i]) ==>
              ReadableWhole(e, Collected(disk, live), key, wholes[i], pieces[i])
    ensures forall d, o :: d in others && ReadableObject(e, disk, d, o) ==>
              ReadableObject(e, Collected(disk, live), d, o)
  {
    hide Present, Kept, KeptReadable, Collected, Readable, ChunksReadable;
    forall i | 0 <= i < |wholes| && ReadableWhole(e, disk, key, wholes[i], pieces[i])
      ensures ReadableWhole(e, Collected(disk, live), key, wholes[i], pieces[i])
    {
      assert forall d :: Needs(wholes[i], pieces[i], d) ==> Needed(wholes, others, pieces, d);
      assert Needs(wholes[i], pieces[i], wholes[i].id);
      CollectionKeeps(e, disk, live, key, wholes[i], pieces[i]);
    }
    forall d, o | d in others && ReadableObject(e, disk, d, o)
      ensures ReadableObject(e, Collected(disk, live), d, o)
    {
      assert Needed(wholes, others, pieces, d);
      LiveObjectsStay(e, disk, live, d, o);
    }
  }

  /** A second collection of the same vault removes nothing. */
  method CollectVaultTwice(store: Store, key: Key, wholes: seq<Whole>, others: seq<Digest>, ghost pieces: seq<Pieces>)
    returns (first: Option<nat>, second: Option<nat>)
    requires store.Valid() && |pieces| == |wholes|
    modifies store
    ensures store.Valid()
    ensures AllListed(store.primitives, old(store.Contents()), key, wholes, pieces) && first.Some? ==> second == Some(0)
  {
    hide Present, Store.Valid, Store.Contents, Collected, AllListed, ListsReadable, Needed;
    ghost var disk := store.Contents();
    ghost var live, live';
    first, live := CollectVaultGarbage(store, key, wholes, others, pieces);
    if first.None? {
      return first, first;
    }
    ghost var ours := AllListed(store.primitives, disk, key, wholes, pieces);
    if ours {
      ListsStay(store.primitives, disk, live, key, wholes, others, pieces);
    }
    ghost var once := store.Contents();
    OnShelves(store);
    second, live' := CollectVaultGarbage(store, key, wholes, others, pieces);
    if ours {
      CollectedSameSet(once, live, live');
    }
    CollectTwice(disk, live);
    OnShelves(store);
  }

  lemma OnShelves(store: Store)
    ensures store.Contents().chunks.dirs == store.chunks && store.Contents().manifests.dirs == store.manifests
  {}

  /** The lists of the index are live, so they stay as readable as they were. */
  lemma ListsStay(e: Primitives, disk: Disk, live: seq<Digest>, key: Key, wholes: seq<Whole>, others: seq<Digest>,
                  pieces: seq<Pieces>)
    requires AllListed(e, disk, key, wholes, pieces) && ListsReadable(e, disk, wholes, pieces)
    requires forall d :: d in live <==> Needed(wholes, others, pieces, d)
    ensures AllListed(e, Collected(disk, live), key, wholes, pieces)
              && ListsReadable(e, Collected(disk, live), wholes, pieces)
  {
    hide Present, Collected, Readable, ChunksReadable, ListOf;
    forall i | 0 <= i < |wholes|
      ensures Listed(e, Collected(disk, live), key, wholes[i], pieces[i])
      ensures ListReadable(e, Collected(disk, live), wholes[i], pieces[i])
    {
      assert Listed(e, disk, key, wholes[i], pieces[i]) && ListReadable(e, disk, wholes[i], pieces[i]);
      assert Needs(wholes[i], pieces[i], wholes[i].id);
      if pieces[i].Parts? {
        LiveObjectsStay(e, disk, live, wholes[i].id, pieces[i].list);
      }
    }
  }
}
