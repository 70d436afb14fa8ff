/** A media file: its ordered entries array, its private key -> values index,
    and the add / lookup / delete operations on them. */
module MediaFile {
  import opened MetaData
  import Seqs

  /** The missing-keyword flags the type-specific validity checks set. Each
      type uses the flags for its own required keywords; the rest stay false. */
  datatype MissingFlags = MissingFlags(creator: bool, resolution: bool, runtime: bool)

  const NoneMissing := MissingFlags(false, false, false)

  /** `metadata` is the entries array; `index` is the private local index from
      keyword to the list of values recorded for it. The two are maintained
      separately and need not agree. */
  datatype MediaFile = MediaFile(
    metadata: seq<Metadata>,
    index: map<string, seq<string>>,
    filename: string,
    path: string,
    kind: MediaType,
    missing: MissingFlags)

  /** The index list of `k`, or the empty list when `k` is not a key. */
  function ValuesOf(f: MediaFile, k: string): seq<string>
  {
    if k in f.index then f.index[k] else []
  }

  /** `g` is `f` with at most its entries and index changed. */
  predicate SameIdentity(f: MediaFile, g: MediaFile)
  {
    g.filename == f.filename && g.path == f.path && g.kind == f.kind && g.missing == f.missing
  }

  /** Every index list is non-empty and holds each value at most once. The
      operations below keep this; it does NOT say the index agrees with the
      entries array. */
  ghost predicate IndexWellFormed(f: MediaFile)
  {
    forall k :: k in f.index ==> |f.index[k]| > 0 && Seqs.Distinct(f.index[k])
  }

  /** Construction: the entries are taken as given but the local index starts
      empty, so no (keyword, value) pair is indexed yet. */
  function NewFile(metadata: seq<Metadata>, filename: string, path: string, kind: MediaType): (f: MediaFile)
    ensures f.metadata == metadata && f.filename == filename && f.path == path && f.kind == kind
    ensures f.missing == NoneMissing
    ensures forall m :: !ContainsMetadata(f, m)
    ensures forall k :: GetMetaDataFromKey(f, k) == []
    ensures IndexWellFormed(f)
  {
    MediaFile(metadata, map[], filename, path, kind, NoneMissing)
  }

  /** One entry `(key, v)` per value `v` of `vs`, in list order. */
  function Tag(key: string, vs: seq<string>): (r: seq<Metadata>)
    ensures |r| == |vs|
    ensures forall i :: 0 <= i < |vs| ==> r[i] == Metadata(key, vs[i])
  {
    if |vs| == 0 then [] else [Metadata(key, vs[0])] + Tag(key, vs[1..])
  }

  /** The entries recorded in the local index under `key`, rebuilt from the
      index list (the entries array is not consulted). */
  function GetMetaDataFromKey(f: MediaFile, key: string): (r: seq<Metadata>)
    ensures key !in f.index ==> r == []
    ensures |r| == |ValuesOf(f, key)|
    ensures forall i :: 0 <= i < |r| ==> r[i].keyword == key && r[i].value == ValuesOf(f, key)[i]
  {
    if key in f.index then Tag(key, f.index[key]) else []
  }

  /** Whether the local index lists `m.value` under `m.keyword`. */
  function ContainsMetadata(f: MediaFile, m: Metadata): (r: bool)
    ensures r <==> m.keyword in f.index && m.value in f.index[m.keyword]
  {
    if m.keyword in f.index then Seqs.Contains(f.index[m.keyword], m.value) else false
  }

  /** Adds `m` unless the local index already lists it. On success the entry is
      appended to the entries array and the value to the keyword's list. */
  function AddMetadata(f: MediaFile, m: Metadata): (r: (MediaFile, bool))
    ensures r.1 <==> !ContainsMetadata(f, m)
    ensures !r.1 ==> r.0 == f
    ensures r.1 ==> r.0.metadata == f.metadata + [m]
    ensures r.1 ==> ValuesOf(r.0, m.keyword) == ValuesOf(f, m.keyword) + [m.value]
    ensures r.0.index.Keys == f.index.Keys + {m.keyword}
    ensures forall k :: k != m.keyword ==> ValuesOf(r.0, k) == ValuesOf(f, k)
    ensures ContainsMetadata(r.0, m)
    ensures SameIdentity(f, r.0)
  {
    if !ContainsMetadata(f, m) then
      if m.keyword in f.index then
        (f.(metadata := f.metadata + [m], index := f.index[m.keyword := f.index[m.keyword] + [m.value]]), true)
      else
        (f.(metadata := f.metadata + [m], index := f.index[m.keyword := [m.value]]), true)
    else
      (f, false)
  }

  /** Keeps the entries whose keyword is not `k`. */
  function KeywordIsNot(k: string): Metadata -> bool
  {
    (e: Metadata) => e.keyword != k
  }

  /** Keeps the values other than `v`. */
  function ValueIsNot(v: string): string -> bool
  {
    (x: string) => x != v
  }

  /** The private `delete`. It fails, changing nothing, when the keyword has no
      index list. Otherwise every entry with that keyword leaves the entries
      array whatever its value; in the index, a keyword holding one value is
      dropped even when that value is not `m.value`, and a keyword holding
      several loses every occurrence of `m.value`. */
  function Delete(f: MediaFile, m: Metadata): (r: (MediaFile, bool))
    ensures r.1 <==> m.keyword in f.index
    ensures !r.1 ==> r.0 == f
    ensures r.1 ==> r.0.metadata == Seqs.Filter(f.metadata, KeywordIsNot(m.keyword))
    ensures r.1 ==> forall e :: e in r.0.metadata <==> e in f.metadata && e.keyword != m.keyword
    ensures r.1 && |f.index[m.keyword]| == 1 ==> m.keyword !in r.0.index
    ensures r.1 && |f.index[m.keyword]| != 1 ==>
      m.keyword in r.0.index &&
      forall x :: x in r.0.index[m.keyword] <==> x in f.index[m.keyword] && x != m.value
    ensures r.1 && |f.index[m.keyword]| != 1 ==>
      r.0.index[m.keyword] == Seqs.Filter(f.index[m.keyword], ValueIsNot(m.value))
    ensures forall k :: k != m.keyword ==> (k in r.0.index <==> k in f.index) && ValuesOf(r.0, k) == ValuesOf(f, k)
    ensures SameIdentity(f, r.0)
  {
    if m.keyword in f.index then
      var existing := f.index[m.keyword];
      var index' :=
        if |existing| == 1 then f.index - {m.keyword}
        else f.index[m.keyword := Seqs.Filter(existing, ValueIsNot(m.value))];
      (f.(metadata := Seqs.Filter(f.metadata, KeywordIsNot(m.keyword)), index := index'), true)
    else
      (f, false)
  }

  /** Deletion guarded by the file's type: a keyword the type requires is
      refused with no change; any other goes to `Delete`. */
  function DeleteMetaData(f: MediaFile, m: Metadata): (r: (MediaFile, bool))
    ensures m.keyword in RequiredKeywords(f.kind) ==> r == (f, false)
    ensures m.keyword !in RequiredKeywords(f.kind) ==> r == Delete(f, m)
  {
    match f.kind
    case Image =>
      if m.keyword != Creator && m.keyword != Resolution then Delete(f, m) else (f, false)
    case Audio =>
      if m.keyword != Creator && m.keyword != Runtime then Delete(f, m) else (f, false)
    case Document =>
      if m.keyword != Creator then Delete(f, m) else (f, false)
    case Video =>
      if m.keyword != Creator && m.keyword != Resolution && m.keyword != Runtime then Delete(f, m) else (f, false)
  }

  /** A keyword's entries, as rebuilt from the index, are exactly the pairs
      `ContainsMetadata` accepts for that keyword. */
  lemma GetMetaDataAgreesWithContains(f: MediaFile, k: string, v: string)
    ensures Metadata(k, v) in GetMetaDataFromKey(f, k) <==> ContainsMetadata(f, Metadata(k, v))
  {
    var r := GetMetaDataFromKey(f, k);
    if Metadata(k, v) in r {
      var i :| 0 <= i < |r| && r[i] == Metadata(k, v);
      assert ValuesOf(f, k)[i] == v;
    }
    if ContainsMetadata(f, Metadata(k, v)) {
      var i :| 0 <= i < |f.index[k]| && f.index[k][i] == v;
      assert r[i] == Metadata(k, v);
    }
  }

  /** After a successful add the entries array grew by exactly one. */
  lemma AddGrowsByOne(f: MediaFile, m: Metadata)
    requires !ContainsMetadata(f, m)
    ensures |AddMetadata(f, m).0.metadata| == |f.metadata| + 1
    ensures ContainsMetadata(AddMetadata(f, m).0, m)
  {
  }

  /** Adding keeps index lists non-empty and duplicate-free. */
  lemma AddPreservesWellFormed(f: MediaFile, m: Metadata)
    requires IndexWellFormed(f)
    ensures IndexWellFormed(AddMetadata(f, m).0)
  {
    var g := AddMetadata(f, m).0;
    if !ContainsMetadata(f, m) {
      forall k | k in g.index
        ensures |g.index[k]| > 0 && Seqs.Distinct(g.index[k])
      {
        if k == m.keyword {
          var prior := ValuesOf(f, m.keyword);
          assert m.value !in prior;
          assert g.index[k] == prior + [m.value];
          forall x ensures multiset(g.index[k])[x] <= 1 {
            assert multiset(prior + [m.value]) == multiset(prior) + multiset{m.value};
            if x == m.value {
              assert multiset(prior)[x] == 0;
            } else {
              assert k in f.index ==> multiset(f.index[k])[x] <= 1;
            }
          }
        } else {
          assert g.index[k] == f.index[k];
        }
      }
    }
  }

  /** A duplicate-free list of two or more values has two different values. */
  lemma DistinctHeadsDiffer(s: seq<string>)
    requires Seqs.Distinct(s) && |s| >= 2
    ensures s[0] != s[1]
  {
    assert s == [s[0], s[1]] + s[2..];
    assert multiset(s) == multiset{s[0], s[1]} + multiset(s[2..]);
    assert multiset(s)[s[0]] <= 1;
  }

  /** Deleting keeps index lists non-empty and duplicate-free: a list of two or
      more distinct values still has a value other than the deleted one. */
  lemma DeletePreservesWellFormed(f: MediaFile, m: Metadata)
    requires IndexWellFormed(f)
    ensures IndexWellFormed(Delete(f, m).0)
  {
    var g := Delete(f, m).0;
    if m.keyword in f.index && |f.index[m.keyword]| != 1 {
      var existing := f.index[m.keyword];
      var kept := Seqs.Filter(existing, ValueIsNot(m.value));
      assert g.index[m.keyword] == kept;
      DistinctHeadsDiffer(existing);
      if existing[0] != m.value {
        assert existing[0] in kept;
      } else {
        assert existing[1] in kept;
      }
      forall x ensures multiset(kept)[x] <= 1 {
        Seqs.FilterMultiset(existing, ValueIsNot(m.value), x);
      }
    }
  }

  /** `DeleteMetaData` keeps a file valid: every required keyword present in
      the entries array before is still present after. */
  lemma DeleteKeepsRequiredKeywords(f: MediaFile, m: Metadata, k: string)
    requires k in RequiredKeywords(f.kind)
    requires HasKeyword(f.metadata, k)
    ensures HasKeyword(DeleteMetaData(f, m).0.metadata, k)
  {
    var r := DeleteMetaData(f, m);
    if r.1 {
      var i :| 0 <= i < |f.metadata| && f.metadata[i].keyword == k;
      assert f.metadata[i] in r.0.metadata;
      var j :| 0 <= j < |r.0.metadata| && r.0.metadata[j] == f.metadata[i];
    }
  }

  /** Adding an entry under a keyword the file has neither indexed nor stored,
      then deleting it, restores the file exactly. */
  lemma AddThenDeleteRestores(f: MediaFile, m: Metadata)
    requires m.keyword !in f.index
    requires !HasKeyword(f.metadata, m.keyword)
    requires m.keyword !in RequiredKeywords(f.kind)
    ensures DeleteMetaData(AddMetadata(f, m).0, m) == (f, true)
  {
    var g := AddMetadata(f, m).0;
    assert g.index[m.keyword] == [m.value];
    var d := Delete(g, m).0;
    assert d.index == f.index;
    Seqs.FilterConcat(f.metadata, [m], KeywordIsNot(m.keyword));
    Seqs.FilterAllKept(f.metadata, KeywordIsNot(m.keyword));
    assert Seqs.Filter([m], KeywordIsNot(m.keyword)) == [];
    assert d.metadata == f.metadata;
  }
}
