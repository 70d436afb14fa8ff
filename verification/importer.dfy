/** The import side of `load`: a decoded JSON record becomes a media file of
    its type, the file is checked, and it is admitted into the result only if
    it passes and no file already admitted by the same read has its path.
    Rejected files go to a garbage list that is reported with reasons. */
module Importer {
  import opened MetaData
  import opened MediaFile
  import FileTypes
  import Seqs

  /** One decoded JSON record. `metadata` is the decoded dictionary and `order`
      lists its keys in the dictionary's iteration order, which Swift does not
      fix; the model takes the order as part of the input. */
  datatype DecodedItem = DecodedItem(
    fullpath: string,
    kind: MediaType,
    metadata: map<string, string>,
    order: seq<string>)

  /** `order` lists every key of the dictionary exactly once. */
  ghost predicate WellOrdered(item: DecodedItem)
  {
    Seqs.Distinct(item.order) && forall k :: k in item.order <==> k in item.metadata
  }

  /** One entry per listed key of the dictionary, in listing order. */
  function EntriesOf(m: map<string, string>, order: seq<string>): (r: seq<Metadata>)
    ensures |r| <= |order|
    ensures forall e :: e in r ==> e.keyword in order && e.keyword in m && m[e.keyword] == e.value
    ensures forall k :: k in order && k in m ==> Metadata(k, m[k]) in r
  {
    if |order| == 0 then []
    else
      var head := if order[0] in m then [Metadata(order[0], m[order[0]])] else [];
      head + EntriesOf(m, order[1..])
  }

  /** The entries the read loop builds for a record. */
  function Entries(item: DecodedItem): seq<Metadata>
  {
    EntriesOf(item.metadata, item.order)
  }

  /** No keyword occurs in two entries. */
  predicate DistinctKeywords(ms: seq<Metadata>)
  {
    forall i, j :: 0 <= i < j < |ms| ==> ms[i].keyword != ms[j].keyword
  }

  /** Keys listed once give entries with pairwise distinct keywords. */
  lemma {:induction false} EntriesOfDistinctKeywords(m: map<string, string>, order: seq<string>)
    requires Seqs.Distinct(order)
    ensures DistinctKeywords(EntriesOf(m, order))
  {
    if |order| > 0 {
      Seqs.DistinctCons(order);
      EntriesOfDistinctKeywords(m, order[1..]);
      var rest := EntriesOf(m, order[1..]);
      var r := EntriesOf(m, order);
      if order[0] in m {
        assert r == [Metadata(order[0], m[order[0]])] + rest;
        forall i, j | 0 <= i < j < |r|
          ensures r[i].keyword != r[j].keyword
        {
          if i == 0 {
            assert r[0].keyword == order[0];
            assert r[j] == rest[j - 1] && r[j] in rest;
            assert r[j].keyword in order[1..];
          } else {
            assert r[i] == rest[i - 1] && r[j] == rest[j - 1];
            assert 0 <= i - 1 < j - 1 < |rest|;
          }
        }
      } else {
        assert r == rest;
      }
    }
  }

  /** A well-ordered record yields exactly one entry per dictionary key, and
      the entries carry the dictionary's values. */
  lemma ImportedEntriesMatchDictionary(item: DecodedItem)
    requires WellOrdered(item)
    ensures DistinctKeywords(Entries(item))
    ensures forall k :: HasKeyword(Entries(item), k) <==> k in item.metadata
    ensures forall e :: e in Entries(item) ==> e.keyword in item.metadata && item.metadata[e.keyword] == e.value
  {
    EntriesOfDistinctKeywords(item.metadata, item.order);
    var r := Entries(item);
    assert r == EntriesOf(item.metadata, item.order);
    forall k
      ensures HasKeyword(r, k) <==> k in item.metadata
    {
      if k in item.metadata {
        assert Metadata(k, item.metadata[k]) in r;
      }
      if HasKeyword(r, k) {
        var i :| 0 <= i < |r| && r[i].keyword == k;
        assert r[i] in r;
      }
    }
  }

  /** `getMultiMedaiFile`: build the file of the record's type (its local index
      empty) and run that type's check, which also sets the missing flags. */
  function GetMultiMediaFile(fileName: string, item: DecodedItem): (r: (MediaFile, bool))
    ensures r.0.path == item.fullpath && r.0.filename == fileName && r.0.kind == item.kind
    ensures r.0.metadata == Entries(item) && r.0.index == map[]
    ensures r.1 <==> forall k :: k in RequiredKeywords(item.kind) ==> HasKeyword(Entries(item), k)
  {
    var (ok, g) := FileTypes.IsValid(NewFile(Entries(item), fileName, item.fullpath, item.kind));
    (g, ok)
  }

  /** The built file reports errors exactly when its check failed. */
  lemma BuiltErrorsIffFails(fileName: string, item: DecodedItem)
    ensures var (f, ok) := GetMultiMediaFile(fileName, item); FileTypes.GetErrors(f) == [] <==> ok
  {
    FileTypes.FreshFileErrorsIffInvalid(Entries(item), fileName, item.fullpath, item.kind);
  }

  /** For a well-ordered record, the check passes exactly when the decoded
      dictionary holds every keyword the record's type requires. */
  lemma PassesIffRequiredKeysPresent(fileName: string, item: DecodedItem)
    requires WellOrdered(item)
    ensures GetMultiMediaFile(fileName, item).1 <==>
      forall k :: k in RequiredKeywords(item.kind) ==> k in item.metadata
  {
    ImportedEntriesMatchDictionary(item);
  }

  /** A built file and the verdict of its check. */
  type Candidate = (MediaFile, bool)

  /** The candidate built from each record, in record order. The loop in
      `read` builds them one at a time; building has no side effect, so
      building them first changes nothing. */
  function Candidates(fileName: string, items: seq<DecodedItem>): (cs: seq<Candidate>)
    ensures |cs| == |items|
    ensures forall i :: 0 <= i < |items| ==> cs[i] == GetMultiMediaFile(fileName, items[i])
    ensures forall i :: 0 <= i < |items| ==> cs[i].0.path == items[i].fullpath
  {
    seq(|items|, i requires 0 <= i < |items| => GetMultiMediaFile(fileName, items[i]))
  }

  /** The admission rule, stated without the loop: candidate `i` is admitted
      exactly when it passed its check and no EARLIER passing candidate has
      the same path. (The first passing candidate of each path wins.) */
  ghost predicate AdmitsAt(cs: seq<Candidate>, i: nat)
    requires i < |cs|
  {
    cs[i].1 && forall j :: 0 <= j < i && cs[j].1 ==> cs[j].0.path != cs[i].0.path
  }

  /** The first `n` candidates that are admitted (or, for `admitted == false`,
      rejected), in order. */
  ghost function Pick(cs: seq<Candidate>, n: nat, admitted: bool): seq<MediaFile>
    requires n <= |cs|
  {
    if n == 0 then []
    else Pick(cs, n - 1, admitted) + (if AdmitsAt(cs, n - 1) == admitted then [cs[n - 1].0] else [])
  }

  /** `files.contains(where: { $0.path == path })`. */
  function PathTaken(files: seq<MediaFile>, path: string): (r: bool)
    ensures r <==> exists i :: 0 <= i < |files| && files[i].path == path
  {
    if |files| == 0 then false
    else files[0].path == path || PathTaken(files[1..], path)
  }

  /** The state of the read loop after the first `n` candidates: the admitted
      files and the garbage. */
  function ReadPrefix(cs: seq<Candidate>, n: nat): (r: (seq<MediaFile>, seq<MediaFile>))
    requires n <= |cs|
    ensures |r.0| + |r.1| == n
    decreases n
  {
    if n == 0 then ([], [])
    else
      var (files, garbage) := ReadPrefix(cs, n - 1);
      var (f, ok) := cs[n - 1];
      if ok && !PathTaken(files, f.path) then (files + [f], garbage)
      else (files, garbage + [f])
  }

  /** The paths admitted after `n` candidates are exactly the paths of the
      passing candidates among them. */
  lemma {:induction false} ReadPrefixPaths(cs: seq<Candidate>, n: nat, p: string)
    requires n <= |cs|
    ensures PathTaken(ReadPrefix(cs, n).0, p) <==> exists j :: 0 <= j < n && cs[j].1 && cs[j].0.path == p
    decreases n
  {
    if n > 0 {
      ReadPrefixPaths(cs, n - 1, p);
      var files := ReadPrefix(cs, n - 1).0;
      var (f, ok) := cs[n - 1];
      if ok && !PathTaken(files, f.path) {
        assert ReadPrefix(cs, n).0 == files + [f];
        if PathTaken(files + [f], p) && !PathTaken(files, p) {
          var i :| 0 <= i < |files + [f]| && (files + [f])[i].path == p;
          assert i == |files|;
        }
        if PathTaken(files, p) {
          var i :| 0 <= i < |files| && files[i].path == p;
          assert (files + [f])[i].path == p;
        }
        if f.path == p {
          assert (files + [f])[|files|].path == p;
        }
      } else {
        assert ReadPrefix(cs, n).0 == files;
        if ok && f.path == p {
          assert PathTaken(files, p);
        }
      }
    }
  }

  /** The loop implements the admission rule: after `n` candidates the two
      lists are exactly the admitted and the rejected ones, in order. */
  lemma {:induction false} ReadPrefixFollowsRule(cs: seq<Candidate>, n: nat)
    requires n <= |cs|
    ensures ReadPrefix(cs, n).0 == Pick(cs, n, true)
    ensures ReadPrefix(cs, n).1 == Pick(cs, n, false)
    decreases n
  {
    if n > 0 {
      ReadPrefixFollowsRule(cs, n - 1);
      ReadPrefixPaths(cs, n - 1, cs[n - 1].0.path);
    }
  }

  /** No path occurs in two files. */
  predicate DistinctPaths(files: seq<MediaFile>)
  {
    forall i, j :: 0 <= i < j < |files| ==> files[i].path != files[j].path
  }

  /** Every file is a candidate that passed its check. */
  predicate AllPassed(files: seq<MediaFile>, cs: seq<Candidate>)
  {
    forall i :: 0 <= i < |files| ==> (files[i], true) in cs
  }

  /** Admitted files have pairwise distinct paths and each passed its check. */
  lemma {:induction false} ReadPrefixAdmitsCleanFiles(cs: seq<Candidate>, n: nat)
    requires n <= |cs|
    ensures DistinctPaths(ReadPrefix(cs, n).0)
    ensures AllPassed(ReadPrefix(cs, n).0, cs)
    decreases n
  {
    if n > 0 {
      ReadPrefixAdmitsCleanFiles(cs, n - 1);
      var files := ReadPrefix(cs, n - 1).0;
      var (f, ok) := cs[n - 1];
      if ok && !PathTaken(files, f.path) {
        var files' := files + [f];
        assert ReadPrefix(cs, n).0 == files';
        assert cs[n - 1] == (f, true);
        forall i, j | 0 <= i < j < |files'|
          ensures files'[i].path != files'[j].path
        {
          if j == |files| {
            assert files'[i] == files[i];
          } else {
            assert files'[i] == files[i] && files'[j] == files[j];
          }
        }
      } else {
        assert ReadPrefix(cs, n).0 == files;
      }
    }
  }

  /** `read`'s loop over the decoded records: the admitted files, which are
      the candidates the admission rule picks, in record order, with
      pairwise distinct paths. */
  function Read(fileName: string, items: seq<DecodedItem>): (r: seq<MediaFile>)
    ensures r == Pick(Candidates(fileName, items), |items|, true)
    ensures DistinctPaths(r)
    ensures |r| <= |items|
  {
    var cs := Candidates(fileName, items);
    ReadPrefixFollowsRule(cs, |items|);
    ReadPrefixAdmitsCleanFiles(cs, |items|);
    ReadPrefix(cs, |items|).0
  }

  /** `read` admits, in order, each record whose file passes its type check
      and whose path no earlier admitted file has: the admitted paths are
      distinct and every admitted file's check reports nothing missing. */
  lemma ReadAdmits(fileName: string, items: seq<DecodedItem>)
    ensures Read(fileName, items) == Pick(Candidates(fileName, items), |items|, true)
    ensures DistinctPaths(Read(fileName, items))
    ensures forall i :: 0 <= i < |Read(fileName, items)| ==> FileTypes.GetErrors(Read(fileName, items)[i]) == []
  {
    var cs := Candidates(fileName, items);
    ReadPrefixFollowsRule(cs, |items|);
    ReadPrefixAdmitsCleanFiles(cs, |items|);
    var files := ReadPrefix(cs, |items|).0;
    assert forall i :: 0 <= i < |files| ==> FileTypes.GetErrors(files[i]) == [] by {
      forall i | 0 <= i < |files|
        ensures FileTypes.GetErrors(files[i]) == []
      {
        var k :| 0 <= k < |cs| && cs[k] == (files[i], true);
        BuiltErrorsIffFails(fileName, items[k]);
      }
    }
  }

  /** The files `read` passes to `handleGarbage`. */
  function Garbage(fileName: string, items: seq<DecodedItem>): (garbage: seq<MediaFile>)
    ensures garbage == Pick(Candidates(fileName, items), |items|, false)
    ensures |Read(fileName, items)| + |garbage| == |items|
  {
    var cs := Candidates(fileName, items);
    ReadPrefixFollowsRule(cs, |items|);
    ReadAdmits(fileName, items);
    ReadPrefix(cs, |items|).1
  }

  /** What `handleGarbage` reports for one rejected file. */
  datatype GarbageReport = Duplicate(path: string) | MissingKeywords(path: string, errors: seq<string>)

  /** A rejected file whose type check reports no error is reported as a
      duplicate path; otherwise its errors are listed. */
  function ReportOne(f: MediaFile): (r: GarbageReport)
    ensures r.path == f.path
    ensures r.Duplicate? <==> FileTypes.GetErrors(f) == []
    ensures r.MissingKeywords? ==> r.errors == FileTypes.GetErrors(f)
  {
    var errors := FileTypes.GetErrors(f);
    if |errors| == 0 then Duplicate(f.path) else MissingKeywords(f.path, errors)
  }

  /** `handleGarbage`: one report per rejected file, in order. */
  function HandleGarbage(garbage: seq<MediaFile>): (r: seq<GarbageReport>)
    ensures |r| == |garbage|
    ensures forall i :: 0 <= i < |garbage| ==> r[i] == ReportOne(garbage[i])
  {
    seq(|garbage|, i requires 0 <= i < |garbage| => ReportOne(garbage[i]))
  }

  /** The report is truthful: a rejected record is called a duplicate exactly
      when it passed its check. */
  lemma GarbageReportTruthful(fileName: string, items: seq<DecodedItem>, i: nat)
    requires i < |items|
    ensures var (f, ok) := GetMultiMediaFile(fileName, items[i]); ReportOne(f).Duplicate? <==> ok
  {
    BuiltErrorsIffFails(fileName, items[i]);
  }

  /** A rejected record that passed its check really is a duplicate: an
      earlier admitted record has its path. */
  lemma RejectedPasserHasAdmittedTwin(fileName: string, items: seq<DecodedItem>, i: nat)
    requires i < |items| && !AdmitsAt(Candidates(fileName, items), i)
    requires GetMultiMediaFile(fileName, items[i]).1
    ensures exists j :: 0 <= j < i && AdmitsAt(Candidates(fileName, items), j) && items[j].fullpath == items[i].fullpath
  {
    var cs := Candidates(fileName, items);
    assert cs[i].1;
    var j0 :| 0 <= j0 < i && cs[j0].1 && cs[j0].0.path == cs[i].0.path;
    FirstPasserAdmitted(cs, j0);
    var j :| 0 <= j <= j0 && AdmitsAt(cs, j) && cs[j].0.path == cs[j0].0.path;
    assert items[j].fullpath == items[i].fullpath;
  }

  /** Among the passing candidates sharing a path, the first one is admitted. */
  lemma {:induction false} FirstPasserAdmitted(cs: seq<Candidate>, j0: nat)
    requires j0 < |cs| && cs[j0].1
    ensures exists j :: 0 <= j <= j0 && AdmitsAt(cs, j) && cs[j].0.path == cs[j0].0.path
    decreases j0
  {
    if !AdmitsAt(cs, j0) {
      var j1 :| 0 <= j1 < j0 && cs[j1].1 && cs[j1].0.path == cs[j0].0.path;
      FirstPasserAdmitted(cs, j1);
    }
  }
}
