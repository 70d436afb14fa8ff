/** The media library: the append-only file list, its count, and the inverted
    index from a metadata value to the files holding it ("buckets"). Files are
    references, modelled as ids into `store`; paths may repeat. */
module Collection {
  import opened Wrappers
  import opened MetaData
  import opened MediaFile
  import Seqs

  /** A file reference: its position in the store of all files ever created. */
  type FileId = nat

  /** `buckets[v]` lists, with repetitions, the files indexed under value `v`. */
  datatype Library = Library(
    store: seq<MediaFile>,
    collection: seq<FileId>,
    buckets: map<string, seq<FileId>>,
    count: int)

  /** The unseen file-level rewrite: the new file state and its success flag. */
  type Rewrite = (MediaFile, Metadata) -> (MediaFile, bool)

  /** Every id of `ids` refers to a created file. */
  predicate RefsIn(ids: seq<FileId>, n: nat)
  {
    forall i :: 0 <= i < |ids| ==> ids[i] < n
  }

  /** Every bucket refers to created files only. */
  predicate BucketsIn(b: map<string, seq<FileId>>, n: nat)
  {
    forall v :: v in b ==> RefsIn(b[v], n)
  }

  /** All references resolve, and `count` tracks the collection length. */
  predicate Valid(lib: Library)
  {
    && lib.count == |lib.collection|
    && RefsIn(lib.collection, |lib.store|)
    && BucketsIn(lib.buckets, |lib.store|)
  }

  /** The bucket of `v`, empty when `v` has none. */
  function Bucket(b: map<string, seq<FileId>>, v: string): seq<FileId>
  {
    if v in b then b[v] else []
  }

  /** A new, empty library. */
  function Empty(): (lib: Library)
    ensures Valid(lib) && lib.collection == [] && lib.count == 0
    ensures forall v :: Bucket(lib.buckets, v) == []
  {
    Library([], [], map[], 0)
  }

  /** Creating a file object: it gets the next id and is not yet in the
      collection. */
  function Alloc(lib: Library, f: MediaFile): (r: (Library, FileId))
    ensures r.1 == |lib.store| && r.0.store == lib.store + [f]
    ensures r.0.collection == lib.collection && r.0.buckets == lib.buckets && r.0.count == lib.count
    ensures Valid(lib) ==> Valid(r.0)
  {
    (lib.(store := lib.store + [f]), |lib.store|)
  }

  /** `addMetadataToMultiMap`: the file goes at the end of the bucket of the
      entry's value, which is created when absent. */
  function AddMetadataToMultiMap(b: map<string, seq<FileId>>, m: Metadata, id: FileId): (r: map<string, seq<FileId>>)
    ensures Bucket(r, m.value) == Bucket(b, m.value) + [id]
    ensures forall v :: v != m.value ==> Bucket(r, v) == Bucket(b, v)
    ensures r.Keys == b.Keys + {m.value}
  {
    if m.value in b then b[m.value := b[m.value] + [id]] else b[m.value := [id]]
  }

  /** Appending a reference to a bucket keeps all buckets resolvable. */
  lemma AddToBucketKeepsRefs(b: map<string, seq<FileId>>, m: Metadata, id: FileId, n: nat)
    requires BucketsIn(b, n) && id < n
    ensures BucketsIn(AddMetadataToMultiMap(b, m, id), n)
  {
    var r := AddMetadataToMultiMap(b, m, id);
    forall v | v in r ensures RefsIn(r[v], n) {
      assert r[v] == Bucket(r, v);
    }
  }

  /** The indexing loop of `add(file:)`: `AddMetadataToMultiMap` for each
      entry, in entry order. */
  function IndexEntries(b: map<string, seq<FileId>>, ms: seq<Metadata>, id: FileId): (r: map<string, seq<FileId>>)
    ensures forall v :: v in r <==> v in b || v in Values(ms)
    decreases |ms|
  {
    if |ms| == 0 then b
    else
      assert Values(ms) == [ms[0].value] + Values(ms[1..]);
      IndexEntries(AddMetadataToMultiMap(b, ms[0], id), ms[1..], id)
  }

  /** The file lands in a value's bucket once per entry holding that value,
      after what the bucket held before. */
  lemma {:induction false} IndexEntriesBucket(b: map<string, seq<FileId>>, ms: seq<Metadata>, id: FileId, v: string)
    ensures Bucket(IndexEntries(b, ms, id), v) == Bucket(b, v) + Seqs.Repeat(id, multiset(Values(ms))[v])
    decreases |ms|
  {
    if |ms| > 0 {
      var b' := AddMetadataToMultiMap(b, ms[0], id);
      IndexEntriesBucket(b', ms[1..], id, v);
      IndexEntriesStep(b, ms, id);
      ValuesCount(ms, v);
      var c := multiset(Values(ms[1..]))[v];
      if v == ms[0].value {
        RepeatAfter(Bucket(b, v), id, c);
      }
    }
  }

  /** Indexing entries is indexing the first one, then the rest. */
  lemma IndexEntriesStep(b: map<string, seq<FileId>>, ms: seq<Metadata>, id: FileId)
    requires |ms| > 0
    ensures IndexEntries(b, ms, id) == IndexEntries(AddMetadataToMultiMap(b, ms[0], id), ms[1..], id)
  {
  }

  /** How often a value occurs among the entries, split at the first one. */
  lemma ValuesCount(ms: seq<Metadata>, v: string)
    requires |ms| > 0
    ensures multiset(Values(ms))[v] == multiset(Values(ms[1..]))[v] + (if v == ms[0].value then 1 else 0)
  {
    assert Values(ms) == [ms[0].value] + Values(ms[1..]);
  }

  /** One more copy of `id` after `b` is `id` appended, then the copies. */
  lemma RepeatAfter(b: seq<FileId>, id: FileId, c: nat)
    ensures b + Seqs.Repeat(id, c + 1) == (b + [id]) + Seqs.Repeat(id, c)
  {
    assert Seqs.Repeat(id, c + 1) == [id] + Seqs.Repeat(id, c);
  }

  /** Indexing a file's entries keeps all buckets resolvable. */
  lemma {:induction false} IndexEntriesKeepsRefs(b: map<string, seq<FileId>>, ms: seq<Metadata>, id: FileId, n: nat)
    requires BucketsIn(b, n) && id < n
    ensures BucketsIn(IndexEntries(b, ms, id), n)
    decreases |ms|
  {
    if |ms| > 0 {
      AddToBucketKeepsRefs(b, ms[0], id, n);
      IndexEntriesKeepsRefs(AddMetadataToMultiMap(b, ms[0], id), ms[1..], id, n);
    }
  }

  /** Every bucket after indexing a file's entries, at once. */
  lemma IndexEntriesBuckets(b: map<string, seq<FileId>>, ms: seq<Metadata>, id: FileId)
    ensures forall v :: Bucket(IndexEntries(b, ms, id), v) == Bucket(b, v) + Seqs.Repeat(id, multiset(Values(ms))[v])
  {
    forall v ensures Bucket(IndexEntries(b, ms, id), v) == Bucket(b, v) + Seqs.Repeat(id, multiset(Values(ms))[v]) {
      IndexEntriesBucket(b, ms, id, v);
    }
  }

  /** `add(file:)`: the file goes at the end of the collection, with no check
      that its path is new, and every bucket keeps what it held and gains the
      file once per entry carrying that bucket's value. */
  function AddFile(lib: Library, id: FileId): (r: Library)
    requires Valid(lib) && id < |lib.store|
    ensures Valid(r)
    ensures r.store == lib.store
    ensures r.collection == lib.collection + [id] && r.count == lib.count + 1
    ensures forall v ::
              Bucket(r.buckets, v) == Bucket(lib.buckets, v) + Seqs.Repeat(id, multiset(Values(lib.store[id].metadata))[v])
  {
    var b := IndexEntries(lib.buckets, lib.store[id].metadata, id);
    IndexEntriesKeepsRefs(lib.buckets, lib.store[id].metadata, id, |lib.store|);
    IndexEntriesBuckets(lib.buckets, lib.store[id].metadata, id);
    lib.(collection := lib.collection + [id], buckets := b, count := lib.count + 1)
  }

  /** `add(metadata:file:)`: the index changes only when the file-level add
      succeeds, and then the file goes at the end of the value's bucket. */
  function Add(lib: Library, m: Metadata, id: FileId): (r: Library)
    requires Valid(lib) && id < |lib.store|
    ensures Valid(r)
    ensures r.collection == lib.collection && r.count == lib.count
    ensures ContainsMetadata(lib.store[id], m) ==> r == lib
    ensures !ContainsMetadata(lib.store[id], m) ==>
      && r.store == lib.store[id := AddMetadata(lib.store[id], m).0]
      && Bucket(r.buckets, m.value) == Bucket(lib.buckets, m.value) + [id]
      && forall v :: v != m.value ==> Bucket(r.buckets, v) == Bucket(lib.buckets, v)
  {
    var (f, ok) := AddMetadata(lib.store[id], m);
    AddToBucketKeepsRefs(lib.buckets, m, id, |lib.store|);
    if ok then
      lib.(store := lib.store[id := f], buckets := AddMetadataToMultiMap(lib.buckets, m, id))
    else
      lib
  }

  /** `add(metadata:file:)` grows the file's local index by the new pair and
      nothing else: every pair it listed is still listed, the new pair is
      listed, other files are untouched and the file keeps its identity. */
  lemma AddKeepsIndexed(lib: Library, m: Metadata, id: FileId, other: Metadata)
    requires Valid(lib) && id < |lib.store|
    ensures ContainsMetadata(Add(lib, m, id).store[id], m)
    ensures ContainsMetadata(Add(lib, m, id).store[id], other) <==>
              ContainsMetadata(lib.store[id], other) || other == m
    ensures forall j :: 0 <= j < |lib.store| && j != id ==> Add(lib, m, id).store[j] == lib.store[j]
    ensures SameIdentity(lib.store[id], Add(lib, m, id).store[id])
  {
    var f := lib.store[id];
    if !ContainsMetadata(f, m) {
      var g := AddMetadata(f, m).0;
      assert ContainsMetadata(f, other) ==> ValuesOf(f, other.keyword) == f.index[other.keyword];
      assert ContainsMetadata(g, other) ==> ValuesOf(g, other.keyword) == g.index[other.keyword];
      if other.keyword == m.keyword {
        assert ValuesOf(g, other.keyword) == ValuesOf(f, other.keyword) + [m.value];
      } else {
        assert ValuesOf(g, other.keyword) == ValuesOf(f, other.keyword);
      }
    }
  }

  /** One bucket after `removeMetadataFromMultiMap`: its last file is dropped
      when that file has `path`, otherwise the bucket is kept. */
  function PopIfPath(store: seq<MediaFile>, b: seq<FileId>, path: string): (r: seq<FileId>)
    requires RefsIn(b, |store|)
    ensures RefsIn(r, |store|) && r <= b && |b| - 1 <= |r|
    ensures |r| < |b| <==> |b| > 0 && store[b[|b| - 1]].path == path
  {
    if |b| > 0 && store[b[|b| - 1]].path == path then b[..|b| - 1] else b
  }

  /** `PopIfPath` applied `n` times. */
  function PopTimes(store: seq<MediaFile>, b: seq<FileId>, path: string, n: nat): (r: seq<FileId>)
    requires RefsIn(b, |store|)
    ensures RefsIn(r, |store|) && r <= b
    decreases n
  {
    if n == 0 then b else PopTimes(store, PopIfPath(store, b, path), path, n - 1)
  }

  /** `removeMetadataFromMultiMap`: only the LAST file of the value's bucket is
      inspected. An absent or empty bucket fails; otherwise that last file is
      removed when its path is the given file's path, and the call succeeds
      either way. */
  function RemoveMetadataFromMultiMap(lib: Library, m: Metadata, id: FileId): (r: (Library, bool))
    requires Valid(lib) && id < |lib.store|
    ensures Valid(r.0)
    ensures r.0.store == lib.store && r.0.collection == lib.collection && r.0.count == lib.count
    ensures r.1 <==> Bucket(lib.buckets, m.value) != []
    ensures forall v :: v != m.value ==> Bucket(r.0.buckets, v) == Bucket(lib.buckets, v)
    ensures var b := Bucket(lib.buckets, m.value);
      r.1 ==>
        if lib.store[b[|b| - 1]].path == lib.store[id].path
        then Bucket(r.0.buckets, m.value) == b[..|b| - 1]
        else r.0 == lib
    ensures !r.1 ==> r.0 == lib
    ensures Bucket(r.0.buckets, m.value) == PopIfPath(lib.store, Bucket(lib.buckets, m.value), lib.store[id].path)
  {
    if m.value in lib.buckets && |lib.buckets[m.value]| > 0 then
      var b := lib.buckets[m.value];
      var last := b[|b| - 1];
      if lib.store[last].path == lib.store[id].path then
        (lib.(buckets := lib.buckets[m.value := b[..|b| - 1]]), true)
      else
        (lib, true)
    else
      (lib, false)
  }

  /** `removeMetadataFromFile`: a refusal by the file's guarded delete fails
      with nothing changed; otherwise the file is updated and the result is the
      bucket removal's. */
  function RemoveMetadataFromFile(lib: Library, m: Metadata, id: FileId): (r: (Library, bool))
    requires Valid(lib) && id < |lib.store|
    ensures Valid(r.0)
    ensures r.0.collection == lib.collection && r.0.count == lib.count && |r.0.store| == |lib.store|
    ensures !DeleteMetaData(lib.store[id], m).1 ==> r == (lib, false)
    ensures DeleteMetaData(lib.store[id], m).1 ==>
      r.0.store == lib.store[id := DeleteMetaData(lib.store[id], m).0] &&
      (r.1 <==> Bucket(lib.buckets, m.value) != []) &&
      Bucket(r.0.buckets, m.value) == PopIfPath(lib.store, Bucket(lib.buckets, m.value), lib.store[id].path)
    ensures forall v :: v != m.value ==> Bucket(r.0.buckets, v) == Bucket(lib.buckets, v)
  {
    var (f, ok) := DeleteMetaData(lib.store[id], m);
    if ok then
      assert f.path == lib.store[id].path by {
        assert SameIdentity(lib.store[id], Delete(lib.store[id], m).0);
      }
      PopIfPathSamePaths(lib.store, lib.store[id := f], Bucket(lib.buckets, m.value), f.path);
      RemoveMetadataFromMultiMap(lib.(store := lib.store[id := f]), m, id)
    else
      (lib, false)
  }

  /** The bucket step reads only paths, so a store with the same paths gives
      the same bucket. */
  lemma PopIfPathSamePaths(store: seq<MediaFile>, store': seq<MediaFile>, b: seq<FileId>, path: string)
    requires |store'| == |store| && RefsIn(b, |store|)
    requires forall i :: 0 <= i < |store| ==> store'[i].path == store[i].path
    ensures PopIfPath(store', b, path) == PopIfPath(store, b, path)
  {
  }

  /** The loop of `remove(metadata:)` over a snapshot of the collection:
      every file gets `RemoveMetadataFromFile`, refusals are ignored. */
  function RemoveFromEach(lib: Library, m: Metadata, ids: seq<FileId>): (r: Library)
    requires Valid(lib) && RefsIn(ids, |lib.store|)
    ensures Valid(r)
    ensures r.collection == lib.collection && r.count == lib.count && |r.store| == |lib.store|
    ensures forall id :: 0 <= id < |lib.store| && id !in ids ==> r.store[id] == lib.store[id]
    ensures forall v :: v != m.value ==> Bucket(r.buckets, v) == Bucket(lib.buckets, v)
    ensures Bucket(r.buckets, m.value) <= Bucket(lib.buckets, m.value)
    decreases |ids|
  {
    if |ids| == 0 then lib
    else
      assert forall id :: id in ids[1..] ==> id in ids;
      RemoveFromEach(RemoveMetadataFromFile(lib, m, ids[0]).0, m, ids[1..])
  }

  /** Over duplicate-free ids, every listed file ends up as its own guarded
      delete of the entry leaves it. */
  lemma {:induction false} RemoveFromEachIsPerFile(lib: Library, m: Metadata, ids: seq<FileId>)
    requires Valid(lib) && RefsIn(ids, |lib.store|)
    ensures var r := RemoveFromEach(lib, m, ids);
      Seqs.Distinct(ids) ==> forall id :: id in ids ==> r.store[id] == DeleteMetaData(lib.store[id], m).0
    decreases |ids|
  {
    if |ids| > 0 && Seqs.Distinct(ids) {
      Seqs.DistinctCons(ids);
      var next := RemoveMetadataFromFile(lib, m, ids[0]).0;
      assert next.store[ids[0]] == DeleteMetaData(lib.store[ids[0]], m).0;
      assert forall id :: id in ids[1..] ==> next.store[id] == lib.store[id];
      RemoveFromEachIsPerFile(next, m, ids[1..]);
    }
  }

  /** A file whose kind requires the entry's keyword is left as it was. */
  lemma {:induction false} RemoveFromEachSparesRequired(lib: Library, m: Metadata, ids: seq<FileId>)
    requires Valid(lib) && RefsIn(ids, |lib.store|)
    ensures var r := RemoveFromEach(lib, m, ids);
      forall id :: 0 <= id < |lib.store| && m.keyword in RequiredKeywords(lib.store[id].kind) ==>
        r.store[id] == lib.store[id]
    decreases |ids|
  {
    if |ids| > 0 {
      var next := RemoveMetadataFromFile(lib, m, ids[0]).0;
      RemoveFromEachSparesRequired(next, m, ids[1..]);
    }
  }

  /** The bucket of the entry's value after the loop of `remove(metadata:)`,
      read off the files as they were before it: each listed file whose
      guarded delete succeeds drops the bucket's last file when that file has
      the listed file's path. */
  function PoppedBucket(store: seq<MediaFile>, m: Metadata, b: seq<FileId>, ids: seq<FileId>): (r: seq<FileId>)
    requires RefsIn(b, |store|) && RefsIn(ids, |store|)
    ensures RefsIn(r, |store|) && r <= b
    decreases |ids|
  {
    if |ids| == 0 then b
    else
      var b' := if DeleteMetaData(store[ids[0]], m).1 then PopIfPath(store, b, store[ids[0]].path) else b;
      PoppedBucket(store, m, b', ids[1..])
  }

  /** `PoppedBucket` reads only the listed files and the paths. */
  lemma {:induction false} PoppedBucketFrame(store: seq<MediaFile>, store': seq<MediaFile>, m: Metadata, b: seq<FileId>, ids: seq<FileId>)
    requires |store'| == |store| && RefsIn(b, |store|) && RefsIn(ids, |store|)
    requires forall i :: 0 <= i < |store| ==> store'[i].path == store[i].path
    requires forall id :: id in ids ==> store'[id] == store[id]
    ensures PoppedBucket(store', m, b, ids) == PoppedBucket(store, m, b, ids)
    decreases |ids|
  {
    if |ids| > 0 {
      PopIfPathSamePaths(store, store', b, store[ids[0]].path);
      var b' := if DeleteMetaData(store[ids[0]], m).1 then PopIfPath(store, b, store[ids[0]].path) else b;
      assert forall id :: id in ids[1..] ==> id in ids;
      PoppedBucketFrame(store, store', m, b', ids[1..]);
    }
  }

  /** Over duplicate-free ids, the loop leaves the value's bucket as
      `PoppedBucket` says. */
  lemma {:induction false} RemoveFromEachBucket(lib: Library, m: Metadata, ids: seq<FileId>)
    requires Valid(lib) && RefsIn(ids, |lib.store|)
    ensures Seqs.Distinct(ids) ==>
      Bucket(RemoveFromEach(lib, m, ids).buckets, m.value) == PoppedBucket(lib.store, m, Bucket(lib.buckets, m.value), ids)
    decreases |ids|
  {
    if |ids| > 0 && Seqs.Distinct(ids) {
      Seqs.DistinctCons(ids);
      var id := ids[0];
      var next := RemoveMetadataFromFile(lib, m, id).0;
      assert forall x :: x in ids[1..] ==> x in ids;
      RemoveFromEachBucket(next, m, ids[1..]);
      var b := Bucket(lib.buckets, m.value);
      var b' := if DeleteMetaData(lib.store[id], m).1 then PopIfPath(lib.store, b, lib.store[id].path) else b;
      assert Bucket(next.buckets, m.value) == b';
      PoppedBucketFrame(lib.store, next.store, m, b', ids[1..]);
    }
  }

  /** `remove(metadata:)`: removes the entry from every file of the collection,
      ignoring the files that refuse. */
  function Remove(lib: Library, m: Metadata): (r: Library)
    requires Valid(lib)
    ensures Valid(r)
    ensures r.collection == lib.collection && r.count == lib.count && |r.store| == |lib.store|
    ensures forall id :: 0 <= id < |lib.store| && id !in lib.collection ==> r.store[id] == lib.store[id]
    ensures forall id :: 0 <= id < |lib.store| && m.keyword in RequiredKeywords(lib.store[id].kind) ==>
      r.store[id] == lib.store[id]
    ensures Seqs.Distinct(lib.collection) ==>
      forall id :: id in lib.collection ==> r.store[id] == DeleteMetaData(lib.store[id], m).0
    ensures forall v :: v != m.value ==> Bucket(r.buckets, v) == Bucket(lib.buckets, v)
    ensures Bucket(r.buckets, m.value) <= Bucket(lib.buckets, m.value)
    ensures Seqs.Distinct(lib.collection) ==>
      Bucket(r.buckets, m.value) == PoppedBucket(lib.store, m, Bucket(lib.buckets, m.value), lib.collection)
  {
    RemoveFromEachSparesRequired(lib, m, lib.collection);
    RemoveFromEachBucket(lib, m, lib.collection);
    RemoveFromEachIsPerFile(lib, m, lib.collection);
    RemoveFromEach(lib, m, lib.collection)
  }

  /** Runs the bucket removal for each entry of `ms`, ignoring the results. */
  function RemoveEachFromMultiMap(lib: Library, ms: seq<Metadata>, id: FileId): (r: Library)
    requires Valid(lib) && id < |lib.store|
    ensures Valid(r)
    ensures r.store == lib.store && r.collection == lib.collection && r.count == lib.count
    ensures forall v :: v !in Values(ms) ==> Bucket(r.buckets, v) == Bucket(lib.buckets, v)
    decreases |ms|
  {
    if |ms| == 0 then lib
    else
      assert forall v :: v in Values(ms[1..]) ==> v in Values(ms) by {
        assert Values(ms) == [ms[0].value] + Values(ms[1..]);
      }
      RemoveEachFromMultiMap(RemoveMetadataFromMultiMap(lib, ms[0], id).0, ms[1..], id)
  }

  /** Each bucket loses its last file once per entry carrying its value,
      while that last file has the given file's path. */
  lemma {:induction false} RemoveEachBucket(lib: Library, ms: seq<Metadata>, id: FileId, v: string)
    requires Valid(lib) && id < |lib.store|
    ensures Bucket(RemoveEachFromMultiMap(lib, ms, id).buckets, v) ==
      PopTimes(lib.store, Bucket(lib.buckets, v), lib.store[id].path, multiset(Values(ms))[v])
    decreases |ms|
  {
    if |ms| > 0 {
      var next := RemoveMetadataFromMultiMap(lib, ms[0], id).0;
      RemoveEachBucket(next, ms[1..], id, v);
      ValuesCount(ms, v);
    }
  }

  /** Every bucket after `RemoveEachFromMultiMap`, at once. */
  lemma RemoveEachBuckets(lib: Library, ms: seq<Metadata>, id: FileId)
    requires Valid(lib) && id < |lib.store|
    ensures forall v ::
              Bucket(RemoveEachFromMultiMap(lib, ms, id).buckets, v) ==
              PopTimes(lib.store, Bucket(lib.buckets, v), lib.store[id].path, multiset(Values(ms))[v])
  {
    forall v ensures Bucket(RemoveEachFromMultiMap(lib, ms, id).buckets, v) ==
      PopTimes(lib.store, Bucket(lib.buckets, v), lib.store[id].path, multiset(Values(ms))[v])
    {
      RemoveEachBucket(lib, ms, id, v);
    }
  }

  /** `rewriteMetadataToFile`: the index is updated first and unconditionally
      (the bucket removal for each old value of the keyword, then the file is
      appended to the new value's bucket), and only then is the file-level
      rewrite run; its result is returned. */
  function RewriteMetadataToFile(lib: Library, m: Metadata, id: FileId, rewrite: Rewrite): (r: (Library, bool))
    requires Valid(lib) && id < |lib.store|
    ensures Valid(r.0)
    ensures r.0.collection == lib.collection && r.0.count == lib.count
    ensures r.0.store == lib.store[id := rewrite(lib.store[id], m).0]
    ensures r.1 == rewrite(lib.store[id], m).1
    ensures forall v ::
              Bucket(r.0.buckets, v) == RewrittenBucket(lib, m, id, v)
  {
    var buckets := ReindexForRewrite(lib, m, id);
    var (f, ok) := rewrite(lib.store[id], m);
    (lib.(store := lib.store[id := f], buckets := buckets), ok)
  }

  /** The index update of `rewriteMetadataToFile`: the bucket removal for each
      old value of the keyword, then the file goes at the end of the new
      value's bucket. */
  function ReindexForRewrite(lib: Library, m: Metadata, id: FileId): (b: map<string, seq<FileId>>)
    requires Valid(lib) && id < |lib.store|
    ensures BucketsIn(b, |lib.store|)
    ensures forall v :: Bucket(b, v) == RewrittenBucket(lib, m, id, v)
  {
    var prior := GetMetaDataFromKey(lib.store[id], m.keyword);
    var cleared := RemoveEachFromMultiMap(lib, prior, id);
    RewriteBuckets(lib, m, id);
    AddToBucketKeepsRefs(cleared.buckets, m, id, |lib.store|);
    AddMetadataToMultiMap(cleared.buckets, m, id)
  }

  /** The bucket of `v` after `rewriteMetadataToFile`: it loses its last file
      once per old value of the keyword equal to `v` (while that last file has
      the file's path), and the new value's bucket then gains the file. */
  function RewrittenBucket(lib: Library, m: Metadata, id: FileId, v: string): seq<FileId>
    requires Valid(lib) && id < |lib.store|
  {
    PopTimes(lib.store, Bucket(lib.buckets, v), lib.store[id].path, multiset(ValuesOf(lib.store[id], m.keyword))[v])
      + (if v == m.value then [id] else [])
  }

  /** The index update of `rewriteMetadataToFile` gives `RewrittenBucket`. */
  lemma RewriteBuckets(lib: Library, m: Metadata, id: FileId)
    requires Valid(lib) && id < |lib.store|
    ensures var prior := GetMetaDataFromKey(lib.store[id], m.keyword);
      forall v ::
        Bucket(AddMetadataToMultiMap(RemoveEachFromMultiMap(lib, prior, id).buckets, m, id), v) ==
        RewrittenBucket(lib, m, id, v)
  {
    var prior := GetMetaDataFromKey(lib.store[id], m.keyword);
    assert Values(prior) == ValuesOf(lib.store[id], m.keyword);
    RemoveEachBuckets(lib, prior, id);
  }

  /** Whatever the file-level rewrite answers, the file ends the new value's
      bucket, and only the buckets of the keyword's old values and of the new
      value change. */
  lemma RewriteReindexes(lib: Library, m: Metadata, id: FileId, rewrite: Rewrite)
    requires Valid(lib) && id < |lib.store|
    ensures var r := RewriteMetadataToFile(lib, m, id, rewrite);
      var b := Bucket(r.0.buckets, m.value); |b| > 0 && b[|b| - 1] == id
    ensures var r := RewriteMetadataToFile(lib, m, id, rewrite);
      forall v :: v != m.value && v !in ValuesOf(lib.store[id], m.keyword) ==>
        Bucket(r.0.buckets, v) == Bucket(lib.buckets, v)
  {
    var prior := GetMetaDataFromKey(lib.store[id], m.keyword);
    assert Values(prior) == ValuesOf(lib.store[id], m.keyword);
  }

  /** `search(term:)`: the value's bucket itself, order and repetitions kept. */
  function SearchTerm(lib: Library, term: string): (r: seq<FileId>)
    ensures term !in lib.buckets ==> r == []
    ensures term in lib.buckets ==> r == lib.buckets[term]
  {
    if term in lib.buckets then lib.buckets[term] else []
  }

  /** Keeps the files whose local index lists `m`. */
  function IndexesPair(store: seq<MediaFile>, m: Metadata): FileId -> bool
  {
    (id: FileId) => id < |store| && ContainsMetadata(store[id], m)
  }

  /** `search(item:)`: a scan of the collection, in collection order, keeping
      the files whose local index lists the pair. */
  function SearchItem(lib: Library, m: Metadata): (r: seq<FileId>)
    requires Valid(lib)
    ensures RefsIn(r, |lib.store|)
    ensures forall id :: id in r <==> id in lib.collection && ContainsMetadata(lib.store[id], m)
    ensures r == Seqs.Filter(lib.collection, IndexesPair(lib.store, m))
  {
    var r := Seqs.Filter(lib.collection, IndexesPair(lib.store, m));
    assert forall i :: 0 <= i < |r| ==> r[i] in r;
    r
  }

  /** `all()`: the collection in insertion order, as many files as `count`. */
  function All(lib: Library): (r: seq<FileId>)
    ensures Valid(lib) ==> |r| == lib.count && RefsIn(r, |lib.store|)
  {
    lib.collection
  }

  /** `all()` follows the collection's operations: `add(file:)` appends the
      file, and the metadata operations leave it as it was. */
  lemma AllTracksOperations(lib: Library, id: FileId, m: Metadata, rewrite: Rewrite)
    requires Valid(lib) && id < |lib.store|
    ensures All(AddFile(lib, id)) == All(lib) + [id]
    ensures All(Add(lib, m, id)) == All(lib)
    ensures All(RemoveMetadataFromFile(lib, m, id).0) == All(lib)
    ensures All(Remove(lib, m)) == All(lib)
    ensures All(RewriteMetadataToFile(lib, m, id, rewrite).0) == All(lib)
  {
  }

  /** The `contains(where:)` scan of `containsFile`. */
  function HasPath(store: seq<MediaFile>, ids: seq<FileId>, path: string): (r: bool)
    requires RefsIn(ids, |store|)
    ensures r <==> exists i :: 0 <= i < |ids| && store[ids[i]].path == path
    decreases |ids|
  {
    if |ids| == 0 then false
    else if store[ids[0]].path == path then true
    else
      assert forall i :: 1 <= i < |ids| ==> ids[i] == ids[1..][i - 1];
      HasPath(store, ids[1..], path)
  }

  /** The loop of `getFile`: the first file with the path, in collection order. */
  function FirstWithPath(store: seq<MediaFile>, ids: seq<FileId>, path: string): (r: Option<FileId>)
    requires RefsIn(ids, |store|)
    ensures r.Some? ==>
      exists i :: 0 <= i < |ids| && ids[i] == r.value && store[ids[i]].path == path &&
        (forall j :: 0 <= j < i ==> store[ids[j]].path != path)
    ensures r.None? ==> forall i :: 0 <= i < |ids| ==> store[ids[i]].path != path
    decreases |ids|
  {
    if |ids| == 0 then None
    else if store[ids[0]].path == path then Some(ids[0])
    else
      var r := FirstWithPath(store, ids[1..], path);
      assert forall i :: 1 <= i < |ids| ==> ids[i] == ids[1..][i - 1];
      if r.Some? then
        var i :| 0 <= i < |ids[1..]| && ids[1..][i] == r.value && store[ids[1..][i]].path == path &&
          (forall j :: 0 <= j < i ==> store[ids[1..][j]].path != path);
        assert ids[i + 1] == r.value;
        r
      else
        r
  }

  /** `containsFile`: some file of the collection has the path. */
  function ContainsFile(lib: Library, path: string): (r: bool)
    requires Valid(lib)
    ensures r <==> exists i :: 0 <= i < |lib.collection| && lib.store[lib.collection[i]].path == path
  {
    HasPath(lib.store, lib.collection, path)
  }

  /** `getFile`: the first file of the collection with the path, if any. */
  function GetFile(lib: Library, path: string): (r: Option<FileId>)
    requires Valid(lib)
    ensures r.Some? ==>
      exists i :: 0 <= i < |lib.collection| && lib.collection[i] == r.value && lib.store[r.value].path == path &&
        (forall j :: 0 <= j < i ==> lib.store[lib.collection[j]].path != path)
    ensures r.None? ==> forall i :: 0 <= i < |lib.collection| ==> lib.store[lib.collection[i]].path != path
  {
    FirstWithPath(lib.store, lib.collection, path)
  }

  /** `containsFile` holds exactly when `getFile` finds a file. */
  lemma ContainsFileIffGetFile(lib: Library, path: string)
    requires Valid(lib)
    ensures ContainsFile(lib, path) <==> GetFile(lib, path).Some?
  {
  }

  /** Adding a file extends the pair search by that file, at the end, exactly
      when its local index lists the pair: results stay in collection order. */
  lemma SearchItemAfterAddFile(lib: Library, id: FileId, m: Metadata)
    requires Valid(lib) && id < |lib.store|
    ensures SearchItem(AddFile(lib, id), m) ==
      SearchItem(lib, m) + (if ContainsMetadata(lib.store[id], m) then [id] else [])
  {
    var keep := IndexesPair(lib.store, m);
    Seqs.FilterConcat(lib.collection, [id], keep);
    assert Seqs.Filter([id], keep) == (if keep(id) then [id] else []) by {
      assert [id][1..] == [];
    }
  }

  /** A file with two entries of the same value sits twice in that value's
      bucket after `add(file:)`. */
  lemma AddFileIndexesOncePerEntry(lib: Library, id: FileId, v: string)
    requires Valid(lib) && id < |lib.store|
    ensures Occurrences(SearchTerm(AddFile(lib, id), v), id) ==
      Occurrences(SearchTerm(lib, v), id) + multiset(Values(lib.store[id].metadata))[v]
  {
    var n := multiset(Values(lib.store[id].metadata))[v];
    var rep := Seqs.Repeat(id, n);
    var after := AddFile(lib, id);
    IndexEntriesBucket(lib.buckets, lib.store[id].metadata, id, v);
    assert SearchTerm(after, v) == Bucket(after.buckets, v);
    assert Bucket(after.buckets, v) == Bucket(lib.buckets, v) + rep;
    assert SearchTerm(lib, v) == Bucket(lib.buckets, v);
    RepeatMultiset(id, n);
    var before: multiset<FileId> := multiset(Bucket(lib.buckets, v));
    var added: multiset<FileId> := multiset(rep);
    assert multiset(SearchTerm(after, v)) == before + added;
    assert (before + added)[id] == before[id] + added[id];
    assert Occurrences(SearchTerm(after, v), id) == before[id] + added[id];
  }

  /** How many times `id` occurs in `ids`. */
  function Occurrences(ids: seq<FileId>, id: FileId): nat
  {
    multiset(ids)[id]
  }

  /** `n` copies of `x` hold `x` exactly `n` times. */
  lemma {:induction false} RepeatMultiset(x: FileId, n: nat)
    ensures Occurrences(Seqs.Repeat(x, n), x) == n
  {
    if n > 0 {
      RepeatMultiset(x, n - 1);
      assert Seqs.Repeat(x, n) == [x] + Seqs.Repeat(x, n - 1);
    }
  }
}
