/** The record-building loop of `save`: each file becomes a JSON record whose
    dictionary is filled from the file's entries. The dictionary update passes
    the keyword as the stored value and the entry's value as the key, so the
    dictionary is keyed by the entry's VALUE and maps it to the entry's
    keyword; a later entry with the same value overwrites an earlier one. */
module Exporter {
  import opened MetaData
  import opened MediaFile
  import Collection
  import Importer

  /** One record of the JSON array written to disk. */
  datatype Media = Media(fullpath: string, kind: MediaType, metadata: map<string, string>)

  /** The entry at `i` is the last one carrying value `v`. */
  predicate LastWithValue(ms: seq<Metadata>, i: nat, v: string)
  {
    i < |ms| && ms[i].value == v && forall j :: i < j < |ms| ==> ms[j].value != v
  }

  /** The dictionary after the inner loop has run over `ms`: each step binds
      the entry's value to its keyword, overwriting any earlier binding. */
  function Flatten(ms: seq<Metadata>): (r: map<string, string>)
    ensures forall v :: v in r <==> exists i :: 0 <= i < |ms| && ms[i].value == v
    decreases |ms|
  {
    if |ms| == 0 then map[]
    else
      var last := ms[|ms| - 1];
      var r := Flatten(ms[..|ms| - 1])[last.value := last.keyword];
      assert forall i :: 0 <= i < |ms| - 1 ==> ms[..|ms| - 1][i] == ms[i];
      r
  }

  /** Each key is bound to the keyword of the LAST entry carrying it. */
  lemma {:induction false} FlattenLastWins(ms: seq<Metadata>, i: nat)
    requires i < |ms| && LastWithValue(ms, i, ms[i].value)
    ensures ms[i].value in Flatten(ms) && Flatten(ms)[ms[i].value] == ms[i].keyword
    decreases |ms|
  {
    if i < |ms| - 1 {
      var prefix := ms[..|ms| - 1];
      assert prefix[i] == ms[i];
      assert LastWithValue(prefix, i, ms[i].value);
      FlattenLastWins(prefix, i);
    }
  }

  /** Every key of the flattened dictionary is the value of some entry, and it
      maps to that entry's keyword. */
  lemma FlattenBindsEntry(ms: seq<Metadata>, v: string)
    requires v in Flatten(ms)
    ensures exists i :: 0 <= i < |ms| && ms[i].value == v && Flatten(ms)[v] == ms[i].keyword
  {
    var i := LastIndexOf(ms, v);
    FlattenLastWins(ms, i);
  }

  /** The position of the last entry carrying value `v`. */
  function LastIndexOf(ms: seq<Metadata>, v: string): (i: nat)
    requires exists j :: 0 <= j < |ms| && ms[j].value == v
    ensures LastWithValue(ms, i, v)
    decreases |ms|
  {
    if ms[|ms| - 1].value == v then |ms| - 1
    else
      var prefix := ms[..|ms| - 1];
      assert exists j :: 0 <= j < |prefix| && prefix[j].value == v by {
        var j :| 0 <= j < |ms| && ms[j].value == v;
        assert prefix[j] == ms[j];
      }
      var i := LastIndexOf(prefix, v);
      assert ms[i] == prefix[i];
      i
  }

  /** The loop over the files being saved: one record per file, in order. */
  function Export(store: seq<MediaFile>, ids: seq<Collection.FileId>): (r: seq<Media>)
    requires Collection.RefsIn(ids, |store|)
    ensures |r| == |ids|
    ensures forall i :: 0 <= i < |ids| ==>
      r[i].fullpath == store[ids[i]].path && r[i].kind == store[ids[i]].kind &&
      r[i].metadata == Flatten(store[ids[i]].metadata)
  {
    seq(|ids|, i requires 0 <= i < |ids| =>
      var f := store[ids[i]];
      Media(f.path, f.kind, Flatten(f.metadata)))
  }

  /** Saving and loading back swaps keyword and value: when no two entries
      share a value, re-importing a saved record under any iteration order of
      its dictionary gives back exactly the original entries with keyword and
      value exchanged, each once. */
  lemma ExportImportSwaps(f: MediaFile, order: seq<string>)
    requires forall i, j :: 0 <= i < j < |f.metadata| ==> f.metadata[i].value != f.metadata[j].value
    requires Importer.WellOrdered(Importer.DecodedItem(f.path, f.kind, Flatten(f.metadata), order))
    ensures var back := Importer.Entries(Importer.DecodedItem(f.path, f.kind, Flatten(f.metadata), order));
      Importer.DistinctKeywords(back) &&
      (forall e :: e in back <==> Metadata(e.value, e.keyword) in f.metadata)
  {
    var ms := f.metadata;
    var flat := Flatten(ms);
    var item := Importer.DecodedItem(f.path, f.kind, flat, order);
    var back := Importer.Entries(item);
    Importer.ImportedEntriesMatchDictionary(item);
    forall e
      ensures e in back <==> Metadata(e.value, e.keyword) in ms
    {
      if e in back {
        var i :| 0 <= i < |ms| && ms[i].value == e.keyword && flat[e.keyword] == ms[i].keyword by {
          FlattenBindsEntry(ms, e.keyword);
        }
        assert ms[i] == Metadata(e.value, e.keyword);
      }
      if Metadata(e.value, e.keyword) in ms {
        var i :| 0 <= i < |ms| && ms[i] == Metadata(e.value, e.keyword);
        var last := LastIndexOf(ms, e.keyword);
        assert last == i;
        FlattenLastWins(ms, i);
        assert e.keyword in flat && flat[e.keyword] == e.value;
        assert HasKeyword(back, e.keyword);
        var k :| 0 <= k < |back| && back[k].keyword == e.keyword;
        assert back[k] in back;
      }
    }
  }
}
