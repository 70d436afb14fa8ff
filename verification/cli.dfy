/** The command handlers of the interactive shell. Each handler takes the
    arguments after the command word, the previous result set and the
    library, and yields the library afterwards together with either a new
    result set or an error. The library is returned on errors too: the Swift
    handlers change it in place before they throw, and nothing is rolled
    back. A Swift runtime trap (a negative array index, reading past the
    last argument) is the error `Trap`. */
module Cli {
  import opened Wrappers
  import opened MetaData
  import opened MediaFile
  import opened Collection
  import Seqs
  import Text
  import CommandLineParser
  import Importer
  import Loops

  /** `MMResultSet`: the files a command produced, numbered from 0 for the
      next command. */
  datatype ResultSet = ResultSet(results: seq<FileId>)

  /** `hasResults`. */
  function HasResults(rs: ResultSet): (r: bool)
    ensures r <==> rs.results != []
  {
    |rs.results| > 0
  }

  /** What `getFileAtIndex` gives back. */
  datatype Lookup = Found(id: FileId) | NotFound | Trapped

  /** `getFileAtIndex`: only the upper bound is checked, so a negative index
      traps on the array access. */
  function GetFileAtIndex(rs: ResultSet, index: int): (r: Lookup)
    ensures 0 <= index < |rs.results| ==> r == Found(rs.results[index])
    ensures index >= |rs.results| ==> r == NotFound
    ensures index < 0 ==> r == Trapped
  {
    if index < |rs.results| then
      if index < 0 then Trapped else Found(rs.results[index])
    else NotFound
  }

  /** A result set has results exactly when its first index finds a file,
      and every index it finds lies within it, in order: the lookup recovers
      the whole list. */
  lemma LookupAgreesWithResults(rs: ResultSet)
    ensures HasResults(rs) <==> GetFileAtIndex(rs, 0).Found?
    ensures forall index :: GetFileAtIndex(rs, index).Found? <==> 0 <= index < |rs.results|
    ensures rs.results == seq(|rs.results|, i requires 0 <= i < |rs.results| => GetFileAtIndex(rs, i).id)
  {
  }

  /** The `MMCliError` cases these handlers throw, plus `Trap` for a runtime
      trap and `ReadFailed` for the error reading a file's text throws. */
  datatype CliError =
    | InvalidFile(path: string)
    | ReadFailed(path: string)
    | CouldNotParse
    | CouldNotDecode
    | AddDelFormatIncorrect
    | AddCouldNotLocateFile(index: int)
    | LibraryEmpty
    | SetKeyDidNotExist(key: string)
    | SetFormatIncorrect
    | DelNotAllowedError
    | DelAllFormatIncorrect
    | LoadCommandFormatInvalid
    | ListMetaCommandFormatInvalid
    | Trap

  /** A handler's effect: the library afterwards and what it returned or threw. */
  datatype Outcome = Outcome(lib: Library, result: Result<ResultSet, CliError>)

  /** The (keyword, value) pair built from arguments `i` and `i + 1`, both
      trimmed of whitespace. */
  function PairAt(params: seq<string>, i: nat): Metadata
    requires i + 1 < |params|
  {
    Metadata(Text.Trim(params[i]), Text.Trim(params[i + 1]))
  }

  /** No two files of `ids` share a path. */
  predicate PathsDistinct(store: seq<MediaFile>, ids: seq<FileId>)
    requires RefsIn(ids, |store|)
  {
    forall i, j :: 0 <= i < j < |ids| ==> store[ids[i]].path != store[ids[j]].path
  }

  /** The de-duplicating append of `list` and `list-meta`: each file of `ids`
      is appended unless a file with its path is already in the list, so the
      first file seen for a path is the one kept. */
  function AppendNewByPath(store: seq<MediaFile>, acc: seq<FileId>, ids: seq<FileId>): (r: seq<FileId>)
    requires RefsIn(acc, |store|) && RefsIn(ids, |store|)
    ensures RefsIn(r, |store|)
    ensures acc <= r
    ensures forall x :: x in r ==> x in acc || x in ids
    decreases |ids|
  {
    if |ids| == 0 then acc
    else
      var x := ids[0];
      var next := if HasPath(store, acc, store[x].path) then acc else acc + [x];
      AppendNewByPath(store, next, ids[1..])
  }

  /** The paths of the files of `ids`. */
  function PathSet(store: seq<MediaFile>, ids: seq<FileId>): set<string>
    requires RefsIn(ids, |store|)
  {
    set id | id in ids && id < |store| :: store[id].path
  }

  lemma PathSetConcat(store: seq<MediaFile>, a: seq<FileId>, b: seq<FileId>)
    requires RefsIn(a, |store|) && RefsIn(b, |store|)
    ensures RefsIn(a + b, |store|)
    ensures PathSet(store, a + b) == PathSet(store, a) + PathSet(store, b)
  {
    assert forall id :: id in a + b <==> id in a || id in b;
  }

  /** The paths of a list are its head's path and its tail's paths. */
  lemma PathSetCons(store: seq<MediaFile>, ids: seq<FileId>)
    requires RefsIn(ids, |store|) && |ids| > 0
    ensures PathSet(store, ids) == {store[ids[0]].path} + PathSet(store, ids[1..])
  {
    assert ids == [ids[0]] + ids[1..];
    PathSetConcat(store, [ids[0]], ids[1..]);
    assert PathSet(store, [ids[0]]) == {store[ids[0]].path};
  }

  /** Appending a file adds its path. */
  lemma PathSetSnoc(store: seq<MediaFile>, acc: seq<FileId>, x: FileId)
    requires RefsIn(acc, |store|) && x < |store|
    ensures PathSet(store, acc + [x]) == PathSet(store, acc) + {store[x].path}
  {
    PathSetConcat(store, acc, [x]);
    assert PathSet(store, [x]) == {store[x].path};
  }

  /** `HasPath` is membership in `PathSet`. */
  lemma HasPathInPathSet(store: seq<MediaFile>, ids: seq<FileId>, p: string)
    requires RefsIn(ids, |store|)
    ensures HasPath(store, ids, p) <==> p in PathSet(store, ids)
  {
    if p in PathSet(store, ids) {
      var id :| id in ids && id < |store| && store[id].path == p;
      var i :| 0 <= i < |ids| && ids[i] == id;
    }
  }

  /** The de-duplicating append lists exactly the paths listed before or in
      `ids`. */
  lemma {:induction false} AppendNewByPathPaths(store: seq<MediaFile>, acc: seq<FileId>, ids: seq<FileId>)
    requires RefsIn(acc, |store|) && RefsIn(ids, |store|)
    ensures PathSet(store, AppendNewByPath(store, acc, ids)) == PathSet(store, acc) + PathSet(store, ids)
    decreases |ids|
  {
    if |ids| > 0 {
      var x := ids[0];
      var next := if HasPath(store, acc, store[x].path) then acc else acc + [x];
      AppendNewByPathPaths(store, next, ids[1..]);
      PathSetCons(store, ids);
      if next == acc {
        HasPathInPathSet(store, acc, store[x].path);
      } else {
        PathSetSnoc(store, acc, x);
      }
    }
  }

  /** The de-duplicating append keeps the list free of repeated paths. */
  lemma {:induction false} AppendNewByPathDistinct(store: seq<MediaFile>, acc: seq<FileId>, ids: seq<FileId>)
    requires RefsIn(acc, |store|) && RefsIn(ids, |store|)
    requires PathsDistinct(store, acc)
    ensures PathsDistinct(store, AppendNewByPath(store, acc, ids))
    decreases |ids|
  {
    if |ids| > 0 {
      var x := ids[0];
      var next := if HasPath(store, acc, store[x].path) then acc else acc + [x];
      if next == acc + [x] {
        forall i, j | 0 <= i < j < |next|
          ensures store[next[i]].path != store[next[j]].path
        {
          if j == |acc| {
            assert next[i] == acc[i];
          } else {
            assert next[i] == acc[i] && next[j] == acc[j];
          }
        }
      }
      AppendNewByPathDistinct(store, next, ids[1..]);
    }
  }

  /** The reference for the de-duplication of `list` and `list-meta`: the
      files of `ids` in order, keeping each one exactly when no earlier file
      of `ids` has its path. */
  function FirstByPath(store: seq<MediaFile>, ids: seq<FileId>): (r: seq<FileId>)
    requires RefsIn(ids, |store|)
    ensures RefsIn(r, |store|) && |r| <= |ids|
    decreases |ids|
  {
    if |ids| == 0 then []
    else
      var earlier := ids[..|ids| - 1];
      var x := ids[|ids| - 1];
      FirstByPath(store, earlier) + (if HasPath(store, earlier, store[x].path) then [] else [x])
  }

  /** A path is among the kept files exactly when it is among all of them. */
  lemma {:induction false} FirstByPathPaths(store: seq<MediaFile>, ids: seq<FileId>, p: string)
    requires RefsIn(ids, |store|)
    ensures HasPath(store, FirstByPath(store, ids), p) <==> HasPath(store, ids, p)
    decreases |ids|
  {
    if |ids| > 0 {
      var earlier := ids[..|ids| - 1];
      var x := ids[|ids| - 1];
      FirstByPathPaths(store, earlier, p);
      HasPathSnoc(store, earlier, x, p);
      assert ids == earlier + [x];
      var kept := FirstByPath(store, earlier);
      if HasPath(store, earlier, store[x].path) {
        assert FirstByPath(store, ids) == kept;
        if store[x].path == p {
          assert HasPath(store, earlier, p);
        }
      } else {
        assert FirstByPath(store, ids) == kept + [x];
        HasPathSnoc(store, kept, x, p);
      }
    }
  }

  /** A path is in a list with one more file exactly when it is that file's
      or already in the list. */
  lemma HasPathSnoc(store: seq<MediaFile>, ids: seq<FileId>, x: FileId, p: string)
    requires RefsIn(ids, |store|) && x < |store|
    ensures HasPath(store, ids + [x], p) <==> HasPath(store, ids, p) || store[x].path == p
  {
    HasPathInPathSet(store, ids + [x], p);
    HasPathInPathSet(store, ids, p);
    PathSetSnoc(store, ids, x);
  }

  /** Appending `ys` de-duplicated to the kept files of `xs` gives the kept
      files of `xs + ys`. */
  lemma {:induction false} AppendNewByPathIsFirstByPath(store: seq<MediaFile>, xs: seq<FileId>, ys: seq<FileId>)
    requires RefsIn(xs, |store|) && RefsIn(ys, |store|)
    ensures RefsIn(xs + ys, |store|)
    ensures AppendNewByPath(store, FirstByPath(store, xs), ys) == FirstByPath(store, xs + ys)
    decreases |ys|
  {
    if |ys| == 0 {
      assert xs + ys == xs;
    } else {
      var y := ys[0];
      var xs' := xs + [y];
      var kept := FirstByPath(store, xs);
      FirstByPathSnoc(store, xs, y);
      assert AppendNewByPath(store, kept, ys) == AppendNewByPath(store, FirstByPath(store, xs'), ys[1..]);
      AppendNewByPathIsFirstByPath(store, xs', ys[1..]);
      Seqs.ConcatShift(xs, ys);
    }
  }

  /** One more file is kept exactly when no kept file has its path. */
  lemma FirstByPathSnoc(store: seq<MediaFile>, xs: seq<FileId>, y: FileId)
    requires RefsIn(xs, |store|) && y < |store|
    ensures RefsIn(xs + [y], |store|)
    ensures var kept := FirstByPath(store, xs);
      FirstByPath(store, xs + [y]) == if HasPath(store, kept, store[y].path) then kept else kept + [y]
  {
    var xs' := xs + [y];
    assert xs'[..|xs'| - 1] == xs;
    FirstByPathPaths(store, xs, store[y].path);
  }

  /** The files found by `search(term:)` for the terms from index `i` on, one
      term after the other, repeats included. */
  function TermHits(lib: Library, terms: seq<string>, i: nat): (r: seq<FileId>)
    requires Valid(lib) && i <= |terms|
    ensures RefsIn(r, |lib.store|)
    decreases |terms| - i
  {
    if i == |terms| then [] else SearchTerm(lib, terms[i]) + TermHits(lib, terms, i + 1)
  }

  /** The loop of `list` keeps the first file per path among all the hits,
      in the order the terms find them. */
  lemma {:induction false} ListLoopIsFirstByPath(lib: Library, terms: seq<string>, i: nat, seen: seq<FileId>)
    requires Valid(lib) && i <= |terms| && RefsIn(seen, |lib.store|)
    ensures RefsIn(seen + TermHits(lib, terms, i), |lib.store|)
    ensures ListLoop(lib, terms, i, FirstByPath(lib.store, seen)) == FirstByPath(lib.store, seen + TermHits(lib, terms, i))
    decreases |terms| - i
  {
    if i == |terms| {
      assert seen + [] == seen;
    } else {
      var hits := SearchTerm(lib, terms[i]);
      AppendNewByPathIsFirstByPath(lib.store, seen, hits);
      ListLoopIsFirstByPath(lib, terms, i + 1, seen + hits);
      Seqs.ConcatAssoc(seen, hits, TermHits(lib, terms, i + 1));
    }
  }

  /** The paths found by `search(term:)` for the terms from index `i` on. */
  function TermPaths(lib: Library, terms: seq<string>, i: nat): set<string>
    requires Valid(lib) && i <= |terms|
    decreases |terms| - i
  {
    if i == |terms| then {} else PathSet(lib.store, SearchTerm(lib, terms[i])) + TermPaths(lib, terms, i + 1)
  }

  /** A path is found by the terms exactly when some term's bucket holds a
      file with that path. */
  lemma {:induction false} TermPathsMembers(lib: Library, terms: seq<string>, i: nat, p: string)
    requires Valid(lib) && i <= |terms|
    ensures p in TermPaths(lib, terms, i) <==>
      exists j :: i <= j < |terms| && p in PathSet(lib.store, SearchTerm(lib, terms[j]))
    decreases |terms| - i
  {
    if i < |terms| {
      TermPathsMembers(lib, terms, i + 1, p);
    }
  }

  /** The loop of `list` over its search terms, from term `i` on. */
  function ListLoop(lib: Library, terms: seq<string>, i: nat, acc: seq<FileId>): (r: seq<FileId>)
    requires Valid(lib) && i <= |terms| && RefsIn(acc, |lib.store|)
    ensures RefsIn(r, |lib.store|)
    ensures PathsDistinct(lib.store, acc) ==> PathsDistinct(lib.store, r)
    ensures PathSet(lib.store, r) == PathSet(lib.store, acc) + TermPaths(lib, terms, i)
    decreases |terms| - i
  {
    if i == |terms| then acc
    else
      var hits := SearchTerm(lib, terms[i]);
      var next := AppendNewByPath(lib.store, acc, hits);
      AppendNewByPathPaths(lib.store, acc, hits);
      if PathsDistinct(lib.store, acc) then
        AppendNewByPathDistinct(lib.store, acc, hits);
        ListLoop(lib, terms, i + 1, next)
      else
        ListLoop(lib, terms, i + 1, next)
  }

  /** `list`: an error on an empty library; with no terms, every file; with
      terms, the files found under any term, one per path, first seen first.
      The library is not changed. */
  function List(params: seq<string>, lib: Library): (r: Result<ResultSet, CliError>)
    requires Valid(lib)
    ensures lib.collection == [] ==> r == Failure(LibraryEmpty)
    ensures lib.collection != [] && params == [] ==> r == Success(ResultSet(lib.collection))
    ensures lib.collection != [] && params != [] ==>
      && r.Success?
      && RefsIn(r.value.results, |lib.store|)
      && PathsDistinct(lib.store, r.value.results)
      && PathSet(lib.store, r.value.results) == TermPaths(lib, params, 0)
      && r.value.results == FirstByPath(lib.store, TermHits(lib, params, 0))
  {
    if |lib.collection| == 0 then Failure(LibraryEmpty)
    else if |params| == 0 then Success(ResultSet(All(lib)))
    else
      ListLoopIsFirstByPath(lib, params, 0, []);
      assert [] + TermHits(lib, params, 0) == TermHits(lib, params, 0);
      Success(ResultSet(ListLoop(lib, params, 0, [])))
  }

  /** `list` with terms finds a path exactly when some term's bucket holds a
      file with that path. */
  lemma ListFindsExactlyTermHits(params: seq<string>, lib: Library, p: string)
    requires Valid(lib) && lib.collection != [] && params != []
    ensures HasPath(lib.store, List(params, lib).value.results, p) <==>
      exists j :: 0 <= j < |params| && HasPath(lib.store, SearchTerm(lib, params[j]), p)
  {
    TermPathsHasPath(lib, params, List(params, lib).value.results, p);
  }

  /** Files whose paths are those the terms find have a path exactly when
      some term finds a file with it. */
  lemma TermPathsHasPath(lib: Library, terms: seq<string>, found: seq<FileId>, p: string)
    requires Valid(lib) && RefsIn(found, |lib.store|)
    requires PathSet(lib.store, found) == TermPaths(lib, terms, 0)
    ensures HasPath(lib.store, found, p) <==>
      exists j :: 0 <= j < |terms| && HasPath(lib.store, SearchTerm(lib, terms[j]), p)
  {
    HasPathInPathSet(lib.store, found, p);
    TermPathsMembers(lib, terms, 0, p);
    forall j | 0 <= j < |terms|
      ensures HasPath(lib.store, SearchTerm(lib, terms[j]), p) <==> p in PathSet(lib.store, SearchTerm(lib, terms[j]))
    {
      HasPathInPathSet(lib.store, SearchTerm(lib, terms[j]), p);
    }
  }


  /** The trimmed (keyword, value) pairs of the arguments from index `start`
      on, stepping by two: arguments `start` and `start + 1`, then
      `start + 2` and `start + 3`, and so on. A trailing unpaired argument
      is not part of any pair. */
  function Pairs(params: seq<string>, start: nat): (r: seq<Metadata>)
    ensures start + 2 * |r| <= |params| || |r| == 0
    ensures start <= |params| ==> |params| <= start + 2 * |r| + 1
  {
    var n := PairCount(|params| - start);
    seq(n, k requires 0 <= k < n => PairAt(params, start + 2 * k))
  }

  /** How many full pairs `n` arguments make: half of them, rounded down. */
  function PairCount(n: int): (c: nat)
    ensures 2 * c <= n || c == 0
    ensures n >= 0 ==> n <= 2 * c + 1
    ensures c == if n < 0 then 0 else n / 2
    decreases n
  {
    if n < 2 then 0 else 1 + PairCount(n - 2)
  }

  /** The `k`-th pair is made of arguments `start + 2k` and `start + 2k + 1`. */
  lemma PairsAt(params: seq<string>, start: nat, k: nat)
    requires k < |Pairs(params, start)|
    ensures start + 2 * k + 1 < |params|
    ensures Pairs(params, start)[k] == PairAt(params, start + 2 * k)
  {
  }

  /** Whether an argument is left over after the last full pair. */
  predicate Dangling(params: seq<string>, start: nat)
  {
    start + 2 * |Pairs(params, start)| < |params|
  }

  /** With pairs starting at 0 or 1, a leftover argument is a matter of the
      argument count's parity. */
  lemma DanglingIffParity(params: seq<string>, start: nat)
    requires start <= 1 && start <= |params|
    ensures Dangling(params, start) <==> |params| % 2 != start % 2
  {
    var n := |Pairs(params, start)|;
    assert |params| == start + 2 * n || |params| == start + 2 * n + 1;
  }

  /** The paths found by `search(item:)` for the pairs of `ms`. */
  function PairPaths(lib: Library, ms: seq<Metadata>): set<string>
    requires Valid(lib)
  {
    if |ms| == 0 then {} else PathSet(lib.store, SearchItem(lib, ms[0])) + PairPaths(lib, ms[1..])
  }

  /** A path is found by the pairs exactly when some pair's search finds a
      file with that path. */
  lemma {:induction false} PairPathsMembers(lib: Library, ms: seq<Metadata>, p: string)
    requires Valid(lib)
    ensures p in PairPaths(lib, ms) <==> exists m :: m in ms && p in PathSet(lib.store, SearchItem(lib, m))
  {
    if |ms| > 0 {
      PairPathsMembers(lib, ms[1..], p);
      assert forall m :: m in ms <==> m == ms[0] || m in ms[1..];
    }
  }

  /** The files found by `search(item:)` for each pair of `ms` in turn,
      repeats included. */
  function PairHits(lib: Library, ms: seq<Metadata>): (r: seq<FileId>)
    requires Valid(lib)
    ensures RefsIn(r, |lib.store|)
  {
    if |ms| == 0 then [] else SearchItem(lib, ms[0]) + PairHits(lib, ms[1..])
  }

  /** The loop of `list-meta` keeps the first file per path among all the
      hits, in the order the pairs find them. */
  lemma {:induction false} ListMetaLoopIsFirstByPath(lib: Library, ms: seq<Metadata>, seen: seq<FileId>)
    requires Valid(lib) && RefsIn(seen, |lib.store|)
    ensures RefsIn(seen + PairHits(lib, ms), |lib.store|)
    ensures ListMetaLoop(lib, ms, FirstByPath(lib.store, seen)) == FirstByPath(lib.store, seen + PairHits(lib, ms))
  {
    if |ms| == 0 {
      assert seen + [] == seen;
    } else {
      var hits := SearchItem(lib, ms[0]);
      AppendNewByPathIsFirstByPath(lib.store, seen, hits);
      ListMetaLoopIsFirstByPath(lib, ms[1..], seen + hits);
      Seqs.ConcatAssoc(seen, hits, PairHits(lib, ms[1..]));
    }
  }

  /** The search-and-merge loop of `list-meta` over the pairs. */
  function ListMetaLoop(lib: Library, ms: seq<Metadata>, acc: seq<FileId>): (r: seq<FileId>)
    requires Valid(lib) && RefsIn(acc, |lib.store|)
    ensures RefsIn(r, |lib.store|)
    ensures PathsDistinct(lib.store, acc) ==> PathsDistinct(lib.store, r)
    ensures PathSet(lib.store, r) == PathSet(lib.store, acc) + PairPaths(lib, ms)
  {
    if |ms| == 0 then acc
    else
      var hits := SearchItem(lib, ms[0]);
      var next := AppendNewByPath(lib.store, acc, hits);
      AppendNewByPathPaths(lib.store, acc, hits);
      if PathsDistinct(lib.store, acc) then
        AppendNewByPathDistinct(lib.store, acc, hits);
        ListMetaLoop(lib, ms[1..], next)
      else
        ListMetaLoop(lib, ms[1..], next)
  }

  /** `list-meta`: an error on an empty library or fewer than two arguments;
      otherwise the files of the collection whose local index lists any of
      the argument pairs, one per path. An odd argument count traps after the
      last full pair. The library is not changed. */
  function ListMeta(params: seq<string>, lib: Library): (r: Result<ResultSet, CliError>)
    requires Valid(lib)
    ensures lib.collection == [] ==> r == Failure(LibraryEmpty)
    ensures lib.collection != [] && |params| < 2 ==> r == Failure(ListMetaCommandFormatInvalid)
    ensures lib.collection != [] && |params| >= 2 && |params| % 2 == 1 ==> r == Failure(Trap)
    ensures lib.collection != [] && |params| >= 2 && |params| % 2 == 0 ==>
      && r.Success?
      && RefsIn(r.value.results, |lib.store|)
      && PathsDistinct(lib.store, r.value.results)
      && PathSet(lib.store, r.value.results) == PairPaths(lib, Pairs(params, 0))
      && r.value.results == FirstByPath(lib.store, PairHits(lib, Pairs(params, 0)))
  {
    if |lib.collection| == 0 then Failure(LibraryEmpty)
    else if |params| < 2 then Failure(ListMetaCommandFormatInvalid)
    else
      var found := ListMetaLoop(lib, Pairs(params, 0), []);
      ListMetaLoopIsFirstByPath(lib, Pairs(params, 0), []);
      assert [] + PairHits(lib, Pairs(params, 0)) == PairHits(lib, Pairs(params, 0));
      DanglingIffParity(params, 0);
      if Dangling(params, 0) then Failure(Trap) else Success(ResultSet(found))
  }

  /** A `list-meta` hit is a file of the collection whose local index lists
      the pair (the entries array is not consulted). */
  lemma ListMetaHitsAreIndexed(lib: Library, m: Metadata, id: FileId)
    requires Valid(lib)
    ensures id in SearchItem(lib, m) <==> id in lib.collection && ContainsMetadata(lib.store[id], m)
  {
  }

  /** The loop of `add`: each pair goes through `add(metadata:file:)`; pairs
      the file already lists are skipped silently. */
  function AddPairs(ms: seq<Metadata>, id: FileId, lib: Library): (r: Library)
    requires Valid(lib) && id < |lib.store|
    ensures Valid(r)
    ensures r.collection == lib.collection && |r.store| == |lib.store|
    ensures forall j :: 0 <= j < |lib.store| && j != id ==> r.store[j] == lib.store[j]
    ensures SameIdentity(lib.store[id], r.store[id])
  {
    if |ms| == 0 then lib
    else
      AddKeepsIndexed(lib, ms[0], id, ms[0]);
      AddPairs(ms[1..], id, Collection.Add(lib, ms[0], id))
  }

  /** The `add` loop keeps every pair the file's local index listed. */
  lemma AddPairsKeeps(ms: seq<Metadata>, id: FileId, lib: Library, other: Metadata)
    requires Valid(lib) && id < |lib.store|
    requires ContainsMetadata(lib.store[id], other)
    ensures ContainsMetadata(AddPairs(ms, id, lib).store[id], other)
  {
    AddPairsIndexesExactly(ms, id, lib, other);
  }

  /** After the `add` loop the file's local index lists every pair. */
  lemma AddPairsIndexesAll(ms: seq<Metadata>, id: FileId, lib: Library, m: Metadata)
    requires Valid(lib) && id < |lib.store|
    requires m in ms
    ensures ContainsMetadata(AddPairs(ms, id, lib).store[id], m)
  {
    AddPairsIndexesExactly(ms, id, lib, m);
  }

  /** After the `add` loop the file's local index lists exactly what it
      listed before and the pairs given. */
  lemma {:induction false} AddPairsIndexesExactly(ms: seq<Metadata>, id: FileId, lib: Library, other: Metadata)
    requires Valid(lib) && id < |lib.store|
    ensures ContainsMetadata(AddPairs(ms, id, lib).store[id], other) <==>
              ContainsMetadata(lib.store[id], other) || other in ms
    decreases |ms|
  {
    if |ms| > 0 {
      AddKeepsIndexed(lib, ms[0], id, other);
      AddPairsIndexesExactly(ms[1..], id, Collection.Add(lib, ms[0], id), other);
      assert other in ms <==> other == ms[0] || other in ms[1..];
    }
  }

  /** The pairs among `ms` with value `v` that `f` does not list yet: each
      adds the file once to the bucket of `v`, whatever its position. */
  function NewWithValue(f: MediaFile, ms: seq<Metadata>, v: string): set<Metadata>
  {
    set m | m in ms && m.value == v && !ContainsMetadata(f, m)
  }

  /** The bucket of `v` after the `add` loop is the old bucket followed by the
      file once for each listed pair with that value the file lacked; no
      other bucket changes. */
  lemma {:induction false} AddPairsBuckets(ms: seq<Metadata>, id: FileId, lib: Library, v: string)
    requires Valid(lib) && id < |lib.store|
    ensures Bucket(AddPairs(ms, id, lib).buckets, v) ==
              Bucket(lib.buckets, v) + Seqs.Repeat(id, |NewWithValue(lib.store[id], ms, v)|)
    decreases |ms|
  {
    if |ms| == 0 {
      assert NewWithValue(lib.store[id], ms, v) == {};
    } else {
      var m0 := ms[0];
      var next := Collection.Add(lib, m0, id);
      AddPairsBuckets(ms[1..], id, next, v);
      AddIndexesOnePair(lib, m0, id);
      NewWithValueStep(lib.store[id], next.store[id], ms, v);
      AddBucketStep(lib, m0, id, v);
      if !ContainsMetadata(lib.store[id], m0) && m0.value == v {
        RepeatAfter(Bucket(lib.buckets, v), id, |NewWithValue(next.store[id], ms[1..], v)|);
      }
    }
  }



  lemma AddIndexesOnePair(lib: Library, m: Metadata, id: FileId)
    requires Valid(lib) && id < |lib.store|
    ensures forall x :: ContainsMetadata(Collection.Add(lib, m, id).store[id], x) <==>
                          ContainsMetadata(lib.store[id], x) || x == m
  {
    forall x ensures ContainsMetadata(Collection.Add(lib, m, id).store[id], x) <==> ContainsMetadata(lib.store[id], x) || x == m {
      AddKeepsIndexed(lib, m, id, x);
    }
  }

  lemma AddBucketStep(lib: Library, m: Metadata, id: FileId, v: string)
    requires Valid(lib) && id < |lib.store|
    ensures Bucket(Collection.Add(lib, m, id).buckets, v) ==
              Bucket(lib.buckets, v) + (if !ContainsMetadata(lib.store[id], m) && m.value == v then [id] else [])
  {
  }

  /** One pair less: the first pair counts exactly when it is new and has
      value `v`, and the file then lists it. */
  lemma NewWithValueStep(f: MediaFile, g: MediaFile, ms: seq<Metadata>, v: string)
    requires |ms| > 0
    requires forall x :: ContainsMetadata(g, x) <==> ContainsMetadata(f, x) || x == ms[0]
    ensures |NewWithValue(f, ms, v)| ==
              |NewWithValue(g, ms[1..], v)| + (if !ContainsMetadata(f, ms[0]) && ms[0].value == v then 1 else 0)
  {
    var now, later := NewWithValue(f, ms, v), NewWithValue(g, ms[1..], v);
    assert forall x :: x in ms <==> x == ms[0] || x in ms[1..];
    if ContainsMetadata(f, ms[0]) || ms[0].value != v {
      assert now == later;
    } else {
      assert now == later + {ms[0]};
    }
  }

  /** The `add` loop appends entries to the file's array, each one of the
      pairs given. */
  lemma {:induction false} AddPairsAppendsListed(ms: seq<Metadata>, id: FileId, lib: Library)
    requires Valid(lib) && id < |lib.store|
    ensures var g := AddPairs(ms, id, lib).store[id];
      && lib.store[id].metadata <= g.metadata
      && forall i :: |lib.store[id].metadata| <= i < |g.metadata| ==> g.metadata[i] in ms
    decreases |ms|
  {
    if |ms| > 0 {
      var next := Collection.Add(lib, ms[0], id);
      AddPairsAppendsListed(ms[1..], id, next);
      assert forall x :: x in ms[1..] ==> x in ms;
    }
  }

  /** `after` is `before` with the pairs `ms` added to file `id`: its local
      index lists exactly the old pairs and `ms`, its entries array only grows
      by pairs of `ms`, and each bucket gains the file once per pair with that
      value the file lacked. */
  ghost predicate AddedExactly(before: Library, after: Library, id: FileId, ms: seq<Metadata>)
    requires id < |before.store| && id < |after.store|
  {
    && (forall m :: ContainsMetadata(after.store[id], m) <==> ContainsMetadata(before.store[id], m) || m in ms)
    && before.store[id].metadata <= after.store[id].metadata
    && (forall i :: |before.store[id].metadata| <= i < |after.store[id].metadata| ==> after.store[id].metadata[i] in ms)
    && (forall v :: Bucket(after.buckets, v) ==
                      Bucket(before.buckets, v) + Seqs.Repeat(id, |NewWithValue(before.store[id], ms, v)|))
  }

  /** The `add` loop adds exactly the pairs given. */
  lemma AddPairsAddsExactly(ms: seq<Metadata>, id: FileId, lib: Library)
    requires Valid(lib) && id < |lib.store|
    ensures AddedExactly(lib, AddPairs(ms, id, lib), id, ms)
  {
    forall m ensures ContainsMetadata(AddPairs(ms, id, lib).store[id], m) <==> ContainsMetadata(lib.store[id], m) || m in ms {
      AddPairsIndexesExactly(ms, id, lib, m);
    }
    forall v ensures Bucket(AddPairs(ms, id, lib).buckets, v) ==
                       Bucket(lib.buckets, v) + Seqs.Repeat(id, |NewWithValue(lib.store[id], ms, v)|) {
      AddPairsBuckets(ms, id, lib, v);
    }
    AddPairsAppendsListed(ms, id, lib);
  }

  /** `add <n> <key> <value> ...`: the format check comes first, then the file
      at position n of the previous result set gets every pair of arguments
      1-2, 3-4, ...; a trailing unpaired argument is ignored. A failed lookup
      leaves the library as it was. The result is the whole collection. */
  function Add(params: seq<string>, last: ResultSet, lib: Library): (r: Outcome)
    requires Valid(lib) && RefsIn(last.results, |lib.store|)
    ensures Valid(r.lib) && r.lib.collection == lib.collection && |r.lib.store| == |lib.store|
    ensures !CommandLineParser.ValidFormat(params, 3) ==> r == Outcome(lib, Failure(AddDelFormatIncorrect))
    ensures CommandLineParser.ValidFormat(params, 3) ==>
      var index := CommandLineParser.ParseInt(params[0]).value;
      && (index < 0 ==> r == Outcome(lib, Failure(Trap)))
      && (index >= |last.results| ==> r == Outcome(lib, Failure(AddCouldNotLocateFile(index))))
      && (0 <= index < |last.results| ==>
            var id := last.results[index];
            && r.result == Success(ResultSet(lib.collection))
            && (forall j :: 0 <= j < |lib.store| && j != id ==> r.lib.store[j] == lib.store[j])
            && SameIdentity(lib.store[id], r.lib.store[id])
            && AddedExactly(lib, r.lib, id, Pairs(params, 1)))
  {
    if !CommandLineParser.ValidFormat(params, 3) then Outcome(lib, Failure(AddDelFormatIncorrect))
    else
      var index := CommandLineParser.ParseInt(params[0]).value;
      match GetFileAtIndex(last, index)
      case Trapped => Outcome(lib, Failure(Trap))
      case NotFound => Outcome(lib, Failure(AddCouldNotLocateFile(index)))
      case Found(id) =>
        var ms := Pairs(params, 1);
        var after := AddPairs(ms, id, lib);
        AddPairsAddsExactly(ms, id, lib);
        Outcome(after, Success(ResultSet(All(after))))
  }

  /** The loop of `set` over the pairs. The first rewrite that fails stops
      the loop, giving the position of its pair, and the changes already made
      stay. */
  function SetPairs(ms: seq<Metadata>, id: FileId, lib: Library, rewrite: Rewrite): (r: (Library, Option<nat>))
    requires Valid(lib) && id < |lib.store|
    ensures Valid(r.0)
    ensures r.0.collection == lib.collection && |r.0.store| == |lib.store|
    ensures forall j :: 0 <= j < |lib.store| && j != id ==> r.0.store[j] == lib.store[j]
    ensures r.1.Some? ==> r.1.value < |ms|
    decreases |ms|
  {
    if |ms| == 0 then (lib, None)
    else
      var step := RewriteMetadataToFile(lib, ms[0], id, rewrite);
      if !step.1 then (step.0, Some(0))
      else
        var rest := SetPairs(ms[1..], id, step.0, rewrite);
        (rest.0, if rest.1.Some? then Some(rest.1.value + 1) else None)
  }

  /** A rewrite that never fails makes the `set` loop succeed. */
  lemma {:induction false} SetPairsSucceedsWhenRewritesDo(ms: seq<Metadata>, id: FileId, lib: Library, rewrite: Rewrite)
    requires Valid(lib) && id < |lib.store|
    requires forall f: MediaFile, m: Metadata :: rewrite(f, m).1
    ensures SetPairs(ms, id, lib, rewrite).1 == None
    decreases |ms|
  {
    if |ms| > 0 {
      var step := RewriteMetadataToFile(lib, ms[0], id, rewrite);
      assert step.1 == rewrite(lib.store[id], ms[0]).1;
      SetPairsSucceedsWhenRewritesDo(ms[1..], id, step.0, rewrite);
    }
  }

  /** The rewrite the `set` loop performs for one pair, as a step of a
      generic loop; it fails on a library the handler never reaches. */
  function SetStep(id: FileId, rewrite: Rewrite): (step: (Library, Metadata) -> (Library, bool))
    ensures forall l, m :: Valid(l) && id < |l.store| ==> step(l, m) == RewriteMetadataToFile(l, m, id, rewrite)
  {
    (l: Library, m: Metadata) =>
      if Valid(l) && id < |l.store| then RewriteMetadataToFile(l, m, id, rewrite) else (l, false)
  }

  /** The `set` loop is the generic stop-at-first-failure loop over its step. */
  lemma {:induction false} SetPairsIsRun(ms: seq<Metadata>, id: FileId, lib: Library, rewrite: Rewrite)
    requires Valid(lib) && id < |lib.store|
    ensures SetPairs(ms, id, lib, rewrite) == Loops.RunUntilFailure(SetStep(id, rewrite), lib, ms)
    decreases |ms|
  {
    if |ms| > 0 {
      var step := RewriteMetadataToFile(lib, ms[0], id, rewrite);
      assert SetStep(id, rewrite)(lib, ms[0]) == step;
      if step.1 {
        SetPairsIsRun(ms[1..], id, step.0, rewrite);
      }
    }
  }

  /** Every library the `set` loop passes through is valid, with the same
      collection and store size as the one it started from. */
  lemma StatesAfterValid(ms: seq<Metadata>, id: FileId, lib: Library, rewrite: Rewrite, k: nat)
    requires Valid(lib) && id < |lib.store| && k <= |ms|
    ensures var r := Loops.StateAfter(SetStep(id, rewrite), lib, ms, k);
      Valid(r) && r.collection == lib.collection && |r.store| == |lib.store|
  {
    var inv := (l: Library) => Valid(l) && id < |l.store| && l.collection == lib.collection && |l.store| == |lib.store|;
    Loops.InvariantHolds(SetStep(id, rewrite), lib, ms, inv, k);
  }

  /** The library after the first `k` rewrites of the `set` loop, whatever
      each of them answered. */
  function Applied(ms: seq<Metadata>, id: FileId, lib: Library, rewrite: Rewrite, k: nat): (r: Library)
    requires Valid(lib) && id < |lib.store| && k <= |ms|
    ensures Valid(r) && r.collection == lib.collection && |r.store| == |lib.store|
  {
    StatesAfterValid(ms, id, lib, rewrite, k);
    Loops.StateAfter(SetStep(id, rewrite), lib, ms, k)
  }

  /** The rewrite of pair `j` succeeds, run on the library the earlier pairs
      left. */
  predicate StepSucceeds(ms: seq<Metadata>, id: FileId, lib: Library, rewrite: Rewrite, j: nat)
    requires Valid(lib) && id < |lib.store| && j < |ms|
  {
    Loops.StepOk(SetStep(id, rewrite), lib, ms, j)
  }

  /** No rewrite has run before the loop starts, and each pair's rewrite
      acts on the library the earlier ones left. */
  lemma AppliedStep(ms: seq<Metadata>, id: FileId, lib: Library, rewrite: Rewrite, k: nat)
    requires Valid(lib) && id < |lib.store| && k < |ms|
    ensures Applied(ms, id, lib, rewrite, 0) == lib
    ensures Applied(ms, id, lib, rewrite, k + 1) == RewriteMetadataToFile(Applied(ms, id, lib, rewrite, k), ms[k], id, rewrite).0
    ensures StepSucceeds(ms, id, lib, rewrite, k) == RewriteMetadataToFile(Applied(ms, id, lib, rewrite, k), ms[k], id, rewrite).1
  {
    var prev := Applied(ms, id, lib, rewrite, k);
    Loops.StateAfterStep(SetStep(id, rewrite), lib, ms, k);
    assert SetStep(id, rewrite)(prev, ms[k]) == RewriteMetadataToFile(prev, ms[k], id, rewrite);
  }

  /** The generic loop over the `set` step stops exactly at the first pair
      whose rewrite fails. */
  lemma SetRunStopsAtFirstFailure(ms: seq<Metadata>, id: FileId, lib: Library, rewrite: Rewrite)
    requires Valid(lib) && id < |lib.store|
    ensures var r := Loops.RunUntilFailure(SetStep(id, rewrite), lib, ms);
      && (r.1.None? <==> forall j :: 0 <= j < |ms| ==> StepSucceeds(ms, id, lib, rewrite, j))
      && (r.1.None? ==> r.0 == Applied(ms, id, lib, rewrite, |ms|))
      && (r.1.Some? ==>
            && r.1.value < |ms|
            && (forall j :: 0 <= j < r.1.value ==> StepSucceeds(ms, id, lib, rewrite, j))
            && !StepSucceeds(ms, id, lib, rewrite, r.1.value)
            && r.0 == Applied(ms, id, lib, rewrite, r.1.value + 1))
  {
    StepSucceedsIsStepOk(ms, id, lib, rewrite);
    Loops.RunStopsAtFirstFailure(SetStep(id, rewrite), lib, ms);
  }

  lemma StepSucceedsIsStepOk(ms: seq<Metadata>, id: FileId, lib: Library, rewrite: Rewrite)
    requires Valid(lib) && id < |lib.store|
    ensures forall j :: 0 <= j < |ms| ==>
              StepSucceeds(ms, id, lib, rewrite, j) == Loops.StepOk(SetStep(id, rewrite), lib, ms, j)
  {
    forall j | 0 <= j < |ms|
      ensures StepSucceeds(ms, id, lib, rewrite, j) == Loops.StepOk(SetStep(id, rewrite), lib, ms, j)
    {
    }
  }

  /** The `set` loop stops exactly at the first pair whose rewrite fails,
      after every earlier rewrite succeeded, and leaves the library of all
      rewrites up to and including the failing one; when none fails it runs
      them all. */
  lemma SetPairsStopsAtFirstFailure(ms: seq<Metadata>, id: FileId, lib: Library, rewrite: Rewrite)
    requires Valid(lib) && id < |lib.store|
    ensures var r := SetPairs(ms, id, lib, rewrite);
      && (r.1.None? <==> forall j :: 0 <= j < |ms| ==> StepSucceeds(ms, id, lib, rewrite, j))
      && (r.1.None? ==> r.0 == Applied(ms, id, lib, rewrite, |ms|))
      && (r.1.Some? ==>
            && r.1.value < |ms|
            && (forall j :: 0 <= j < r.1.value ==> StepSucceeds(ms, id, lib, rewrite, j))
            && !StepSucceeds(ms, id, lib, rewrite, r.1.value)
            && r.0 == Applied(ms, id, lib, rewrite, r.1.value + 1))
  {
    SetPairsIsRun(ms, id, lib, rewrite);
    SetRunStopsAtFirstFailure(ms, id, lib, rewrite);
  }

  /** The first failing step is where the loop stops. */
  lemma FirstFailureIsStop(ms: seq<Metadata>, id: FileId, lib: Library, rewrite: Rewrite, k: nat)
    requires Valid(lib) && id < |lib.store| && k < |ms|
    requires forall j :: 0 <= j < k ==> StepSucceeds(ms, id, lib, rewrite, j)
    requires !StepSucceeds(ms, id, lib, rewrite, k)
    ensures SetPairs(ms, id, lib, rewrite) == (Applied(ms, id, lib, rewrite, k + 1), Some(k))
  {
    SetPairsIsRun(ms, id, lib, rewrite);
    StepSucceedsIsStepOk(ms, id, lib, rewrite);
    Loops.FirstFailureStops(SetStep(id, rewrite), lib, ms, k);
  }


  /** How `set` ends once its loop is done: a pair whose rewrite failed
      names its key as typed; otherwise a leftover argument, which an even
      argument count leaves, traps; otherwise the whole collection. */
  function SetFinish(params: seq<string>, loop: (Library, Option<nat>)): (r: Outcome)
    requires loop.1.Some? ==> 2 + 2 * loop.1.value < |params|
    ensures r.lib == loop.0
    ensures loop.1.Some? ==> r.result == Failure(SetKeyDidNotExist(params[1 + 2 * loop.1.value]))
  {
    match loop.1
    case Some(k) => Outcome(loop.0, Failure(SetKeyDidNotExist(params[1 + 2 * k])))
    case None =>
      if |params| % 2 == 0 then Outcome(loop.0, Failure(Trap))
      else Outcome(loop.0, Success(ResultSet(All(loop.0))))
  }

  /** The part of `set` after the lookup found file `id`: the pairs are
      arguments 1-2, 3-4, ..., and a leftover argument traps once they are
      done. */
  function SetAt(params: seq<string>, id: FileId, lib: Library, rewrite: Rewrite): (r: Outcome)
    requires Valid(lib) && id < |lib.store| && |params| >= 1
    ensures Valid(r.lib) && r.lib.collection == lib.collection && |r.lib.store| == |lib.store|
    ensures forall j :: 0 <= j < |lib.store| && j != id ==> r.lib.store[j] == lib.store[j]
    ensures r.result.Success? ==> r.result.value == ResultSet(lib.collection) && |params| % 2 == 1
    ensures r.result == Failure(Trap) ==> |params| % 2 == 0
    ensures r.lib == SetPairs(Pairs(params, 1), id, lib, rewrite).0
  {
    var step := SetPairs(Pairs(params, 1), id, lib, rewrite);
    if step.1.Some? then
      PairsAt(params, 1, step.1.value);
      SetFinish(params, step)
    else SetFinish(params, step)
  }

  /** A `set` failure other than the trap names the key, as typed, of one
      of the pairs. */
  lemma SetAtErrorNamesKey(params: seq<string>, id: FileId, lib: Library, rewrite: Rewrite)
    requires Valid(lib) && id < |lib.store| && |params| >= 1
    ensures var r := SetAt(params, id, lib, rewrite);
      r.result.Failure? && r.result.error != Trap ==>
        exists k :: 0 <= k < |Pairs(params, 1)| && r.result.error == SetKeyDidNotExist(params[1 + 2 * k])
  {
    var step := SetPairs(Pairs(params, 1), id, lib, rewrite);
    if step.1.Some? {
      PairsAt(params, 1, step.1.value);
    }
  }

  /** `set <n> <key> <value> ...` with the file-level rewrite as a parameter:
      the format check, then the lookup in the previous result set, then
      `SetAt`. */
  function Set(params: seq<string>, last: ResultSet, lib: Library, rewrite: Rewrite): (r: Outcome)
    requires Valid(lib) && RefsIn(last.results, |lib.store|)
    ensures Valid(r.lib) && r.lib.collection == lib.collection && |r.lib.store| == |lib.store|
    ensures !CommandLineParser.ValidFormat(params, 3) ==> r == Outcome(lib, Failure(SetFormatIncorrect))
    ensures CommandLineParser.ValidFormat(params, 3) ==>
      var index := CommandLineParser.ParseInt(params[0]).value;
      && (index < 0 ==> r == Outcome(lib, Failure(Trap)))
      && (index >= |last.results| ==> r == Outcome(lib, Failure(AddCouldNotLocateFile(index))))
      && (0 <= index < |last.results| ==> r == SetAt(params, last.results[index], lib, rewrite))
  {
    if !CommandLineParser.ValidFormat(params, 3) then Outcome(lib, Failure(SetFormatIncorrect))
    else
      var index := CommandLineParser.ParseInt(params[0]).value;
      match GetFileAtIndex(last, index)
      case Trapped => Outcome(lib, Failure(Trap))
      case NotFound => Outcome(lib, Failure(AddCouldNotLocateFile(index)))
      case Found(id) => SetAt(params, id, lib, rewrite)
  }

  /** `set` on file `id` stops at the first pair whose rewrite fails and
      names that pair's key as typed, keeping every rewrite made up to and
      including the failing one; the file is already at the end of the
      failing value's bucket. */
  lemma SetStopsAtFirstFailure(params: seq<string>, id: FileId, lib: Library, rewrite: Rewrite, k: nat)
    requires Valid(lib) && id < |lib.store| && |params| >= 1
    requires k < |Pairs(params, 1)|
    requires forall j :: 0 <= j < k ==> StepSucceeds(Pairs(params, 1), id, lib, rewrite, j)
    requires !StepSucceeds(Pairs(params, 1), id, lib, rewrite, k)
    ensures var r := SetAt(params, id, lib, rewrite);
      && 2 + 2 * k < |params|
      && r.result == Failure(SetKeyDidNotExist(params[1 + 2 * k]))
      && r.lib == Applied(Pairs(params, 1), id, lib, rewrite, k + 1)
      && var b := Bucket(r.lib.buckets, PairAt(params, 1 + 2 * k).value); |b| > 0 && b[|b| - 1] == id
  {
    var ms := Pairs(params, 1);
    PairsAt(params, 1, k);
    FirstFailureIsStop(ms, id, lib, rewrite, k);
    var loop := SetPairs(ms, id, lib, rewrite);
    assert SetAt(params, id, lib, rewrite) == SetFinish(params, loop);
    SetFinishNamesStoppedKey(params, loop, k);
    AppliedEndsWithFile(ms, id, lib, rewrite, k);
  }

  /** A loop stopped at pair `k` ends `set` with that pair's key. */
  lemma SetFinishNamesStoppedKey(params: seq<string>, loop: (Library, Option<nat>), k: nat)
    requires loop.1 == Some(k) && 2 + 2 * k < |params|
    ensures SetFinish(params, loop) == Outcome(loop.0, Failure(SetKeyDidNotExist(params[1 + 2 * k])))
  {
  }

  /** After pair `k`'s rewrite the file is last in that value's bucket. */
  lemma AppliedEndsWithFile(ms: seq<Metadata>, id: FileId, lib: Library, rewrite: Rewrite, k: nat)
    requires Valid(lib) && id < |lib.store| && k < |ms|
    ensures var b := Bucket(Applied(ms, id, lib, rewrite, k + 1).buckets, ms[k].value);
      |b| > 0 && b[|b| - 1] == id
  {
    AppliedStep(ms, id, lib, rewrite, k);
    RewriteReindexes(Applied(ms, id, lib, rewrite, k), ms[k], id, rewrite);
  }

  /** When every rewrite succeeds, `set` runs them all, and it succeeds
      exactly when the arguments pair up; otherwise the leftover argument
      traps. */
  lemma SetAllRewritesSucceed(params: seq<string>, id: FileId, lib: Library, rewrite: Rewrite)
    requires Valid(lib) && id < |lib.store| && |params| >= 1
    requires forall j :: 0 <= j < |Pairs(params, 1)| ==> StepSucceeds(Pairs(params, 1), id, lib, rewrite, j)
    ensures var r := SetAt(params, id, lib, rewrite);
      && r.lib == Applied(Pairs(params, 1), id, lib, rewrite, |Pairs(params, 1)|)
      && (r.result.Success? <==> |params| % 2 == 1)
      && (r.result == Failure(Trap) <==> |params| % 2 == 0)
  {
    SetPairsStopsAtFirstFailure(Pairs(params, 1), id, lib, rewrite);
  }

  /** The inner loop of `del` over a snapshot of entries: each goes through
      `removeMetadataFromFile`, and the first refusal stops the loop with
      `false`, keeping the removals already made. */
  function RemoveEach(lib: Library, ms: seq<Metadata>, id: FileId): (r: (Library, bool))
    requires Valid(lib) && id < |lib.store|
    ensures Valid(r.0) && r.0.collection == lib.collection && |r.0.store| == |lib.store|
    ensures forall j :: 0 <= j < |lib.store| && j != id ==> r.0.store[j] == lib.store[j]
    decreases |ms|
  {
    if |ms| == 0 then (lib, true)
    else
      var step := RemoveMetadataFromFile(lib, ms[0], id);
      if !step.1 then step else RemoveEach(step.0, ms[1..], id)
  }

  /** Removing entries never brings a keyword back into the file's index. */
  lemma {:induction false} RemoveEachNoNewKeys(lib: Library, ms: seq<Metadata>, id: FileId, k: string)
    requires Valid(lib) && id < |lib.store|
    requires k !in lib.store[id].index
    ensures k !in RemoveEach(lib, ms, id).0.store[id].index
    decreases |ms|
  {
    if |ms| > 0 {
      var step := RemoveMetadataFromFile(lib, ms[0], id);
      if step.1 {
        RemoveEachNoNewKeys(step.0, ms[1..], id, k);
      }
    }
  }

  /** Removing entries keeps the file's index lists non-empty and
      duplicate-free. */
  lemma {:induction false} RemoveEachKeepsWellFormed(lib: Library, ms: seq<Metadata>, id: FileId)
    requires Valid(lib) && id < |lib.store|
    requires IndexWellFormed(lib.store[id])
    ensures IndexWellFormed(RemoveEach(lib, ms, id).0.store[id])
    decreases |ms|
  {
    if |ms| > 0 {
      DeletePreservesWellFormed(lib.store[id], ms[0]);
      var step := RemoveMetadataFromFile(lib, ms[0], id);
      if step.1 {
        RemoveEachKeepsWellFormed(step.0, ms[1..], id);
      }
    }
  }

  /** Dropping the head of a duplicate-free list is the same as filtering out
      its value. */
  lemma FilterOutHead(vs: seq<string>)
    requires Seqs.Distinct(vs) && |vs| > 0
    ensures Seqs.Filter(vs, ValueIsNot(vs[0])) == vs[1..]
  {
    Seqs.DistinctCons(vs);
    Seqs.FilterAllKept(vs[1..], ValueIsNot(vs[0]));
  }

  /** When every entry of a keyword's index list is removed one by one and
      none is refused, the keyword leaves the file's index. */
  lemma {:induction false} RemoveEachClearsKey(lib: Library, k: string, vs: seq<string>, id: FileId)
    requires Valid(lib) && id < |lib.store|
    requires k in lib.store[id].index && lib.store[id].index[k] == vs
    requires Seqs.Distinct(vs) && |vs| > 0
    requires RemoveEach(lib, Tag(k, vs), id).1
    ensures k !in RemoveEach(lib, Tag(k, vs), id).0.store[id].index
    decreases |vs|
  {
    var m := Metadata(k, vs[0]);
    var step := RemoveMetadataFromFile(lib, m, id);
    assert Tag(k, vs)[0] == m && Tag(k, vs)[1..] == Tag(k, vs[1..]);
    assert step.1;
    assert step.0.store[id] == Delete(lib.store[id], m).0;
    if |vs| > 1 {
      FilterOutHead(vs);
      assert step.0.store[id].index[k] == vs[1..];
      Seqs.DistinctCons(vs);
      RemoveEachClearsKey(step.0, k, vs[1..], id);
    }
  }

  /** The loop of `del` over the keys, each untrimmed: all index entries of
      the key are removed in turn; a refusal stops everything. */
  function DelKeys(keys: seq<string>, id: FileId, lib: Library): (r: (Library, bool))
    requires Valid(lib) && id < |lib.store|
    ensures Valid(r.0) && r.0.collection == lib.collection && |r.0.store| == |lib.store|
    ensures forall j :: 0 <= j < |lib.store| && j != id ==> r.0.store[j] == lib.store[j]
    decreases |keys|
  {
    if |keys| == 0 then (lib, true)
    else
      var step := RemoveEach(lib, GetMetaDataFromKey(lib.store[id], keys[0]), id);
      if !step.1 then step else DelKeys(keys[1..], id, step.0)
  }

  /** `del` of keys the file's index does not hold changes nothing. */
  lemma {:induction false} DelKeysAbsentIsNoop(keys: seq<string>, id: FileId, lib: Library)
    requires Valid(lib) && id < |lib.store|
    requires forall i :: 0 <= i < |keys| ==> keys[i] !in lib.store[id].index
    ensures DelKeys(keys, id, lib) == (lib, true)
    decreases |keys|
  {
    if |keys| > 0 {
      DelKeysAbsentIsNoop(keys[1..], id, lib);
    }
  }

  /** `del` of a keyword the file's type requires, while the index lists a
      value for it, is refused before anything changes. */
  lemma DelKeysRefusesRequired(keys: seq<string>, id: FileId, lib: Library)
    requires Valid(lib) && id < |lib.store|
    requires |keys| > 0 && keys[0] in RequiredKeywords(lib.store[id].kind)
    requires |ValuesOf(lib.store[id], keys[0])| > 0
    ensures DelKeys(keys, id, lib) == (lib, false)
  {
    assert GetMetaDataFromKey(lib.store[id], keys[0])[0].keyword == keys[0];
  }

  /** Keys absent from the index stay absent through `del`. */
  lemma {:induction false} DelKeysNoNewKeys(keys: seq<string>, id: FileId, lib: Library, k: string)
    requires Valid(lib) && id < |lib.store|
    requires k !in lib.store[id].index
    ensures k !in DelKeys(keys, id, lib).0.store[id].index
    decreases |keys|
  {
    if |keys| > 0 {
      var ms := GetMetaDataFromKey(lib.store[id], keys[0]);
      RemoveEachNoNewKeys(lib, ms, id, k);
      var step := RemoveEach(lib, ms, id);
      if step.1 {
        DelKeysNoNewKeys(keys[1..], id, step.0, k);
      }
    }
  }

  /** When `del` is not refused, none of its keys is left in the file's
      index. */
  lemma {:induction false} DelKeysClearsKeys(keys: seq<string>, id: FileId, lib: Library, i: nat)
    requires Valid(lib) && id < |lib.store|
    requires IndexWellFormed(lib.store[id])
    requires DelKeys(keys, id, lib).1 && i < |keys|
    ensures keys[i] !in DelKeys(keys, id, lib).0.store[id].index
    decreases |keys|
  {
    var f := lib.store[id];
    var ms := GetMetaDataFromKey(f, keys[0]);
    var step := RemoveEach(lib, ms, id);
    RemoveEachKeepsWellFormed(lib, ms, id);
    if i == 0 {
      if keys[0] in f.index {
        assert ms == Tag(keys[0], f.index[keys[0]]);
        RemoveEachClearsKey(lib, keys[0], f.index[keys[0]], id);
      }
      DelKeysNoNewKeys(keys[1..], id, step.0, keys[0]);
    } else {
      DelKeysClearsKeys(keys[1..], id, step.0, i - 1);
    }
  }

  /** `del <n> <key> ...`: the format check, then the lookup in the previous
      result set, then every index entry of every key is removed; a refused
      removal stops with `DelNotAllowedError`, keeping what was removed. */
  function Del(params: seq<string>, last: ResultSet, lib: Library): (r: Outcome)
    requires Valid(lib) && RefsIn(last.results, |lib.store|)
    ensures Valid(r.lib) && r.lib.collection == lib.collection && |r.lib.store| == |lib.store|
    ensures !CommandLineParser.ValidFormat(params, 2) ==> r == Outcome(lib, Failure(AddDelFormatIncorrect))
    ensures CommandLineParser.ValidFormat(params, 2) ==>
      var index := CommandLineParser.ParseInt(params[0]).value;
      && (index < 0 ==> r == Outcome(lib, Failure(Trap)))
      && (index >= |last.results| ==> r == Outcome(lib, Failure(AddCouldNotLocateFile(index))))
      && (0 <= index < |last.results| ==>
            var id := last.results[index];
            && (forall j :: 0 <= j < |lib.store| && j != id ==> r.lib.store[j] == lib.store[j])
            && (r.result == Success(ResultSet(lib.collection)) || r.result == Failure(DelNotAllowedError))
            && (r.result.Success? <==> DelKeys(params[1..], id, lib).1)
            && r.lib == DelKeys(params[1..], id, lib).0)
  {
    if !CommandLineParser.ValidFormat(params, 2) then Outcome(lib, Failure(AddDelFormatIncorrect))
    else
      var index := CommandLineParser.ParseInt(params[0]).value;
      match GetFileAtIndex(last, index)
      case Trapped => Outcome(lib, Failure(Trap))
      case NotFound => Outcome(lib, Failure(AddCouldNotLocateFile(index)))
      case Found(id) =>
        var step := DelKeys(params[1..], id, lib);
        if !step.1 then Outcome(step.0, Failure(DelNotAllowedError))
        else Outcome(step.0, Success(ResultSet(All(step.0))))
  }

  /** A successful `del` leaves none of the named keys in the file's index,
      provided the index was well formed. */
  lemma DelRemovesKeys(params: seq<string>, last: ResultSet, lib: Library, i: nat)
    requires Valid(lib) && RefsIn(last.results, |lib.store|)
    requires CommandLineParser.ValidFormat(params, 2)
    requires 0 <= CommandLineParser.ParseInt(params[0]).value < |last.results|
    requires IndexWellFormed(lib.store[last.results[CommandLineParser.ParseInt(params[0]).value]])
    requires Del(params, last, lib).result.Success?
    requires 1 <= i < |params|
    ensures params[i] !in Del(params, last, lib).lib.store[last.results[CommandLineParser.ParseInt(params[0]).value]].index
  {
    var id := last.results[CommandLineParser.ParseInt(params[0]).value];
    assert params[1..][i - 1] == params[i];
    DelKeysClearsKeys(params[1..], id, lib, i - 1);
  }

  /** The loop of `del-all`: `remove(metadata:)` for each pair in turn. */
  function RemovePairs(lib: Library, ms: seq<Metadata>): (r: Library)
    requires Valid(lib)
    ensures Valid(r) && r.collection == lib.collection && |r.store| == |lib.store|
    ensures forall id :: 0 <= id < |lib.store| && id !in lib.collection ==> r.store[id] == lib.store[id]
    decreases |ms|
  {
    if |ms| == 0 then lib else RemovePairs(Remove(lib, ms[0]), ms[1..])
  }

  /** The reference for one file: the type-guarded delete of each pair in
      turn, refusals ignored. */
  function ApplyDeletes(f: MediaFile, ms: seq<Metadata>): MediaFile
    decreases |ms|
  {
    if |ms| == 0 then f else ApplyDeletes(DeleteMetaData(f, ms[0]).0, ms[1..])
  }

  /** In a collection without repeated references, `del-all` treats each of
      its files as the per-file reference does. */
  lemma {:induction false} RemovePairsIsPerFile(lib: Library, ms: seq<Metadata>, id: FileId)
    requires Valid(lib) && Seqs.Distinct(lib.collection) && id in lib.collection
    ensures id < |lib.store|
    ensures RemovePairs(lib, ms).store[id] == ApplyDeletes(lib.store[id], ms)
    decreases |ms|
  {
    if |ms| > 0 {
      RemovePairsIsPerFile(Remove(lib, ms[0]), ms[1..], id);
    }
  }

  /** Pairs whose keyword a file's type requires never change that file. */
  lemma {:induction false} RemovePairsSparesRequired(lib: Library, ms: seq<Metadata>, id: FileId)
    requires Valid(lib) && id < |lib.store|
    requires forall i :: 0 <= i < |ms| ==> ms[i].keyword in RequiredKeywords(lib.store[id].kind)
    ensures RemovePairs(lib, ms).store[id] == lib.store[id]
    decreases |ms|
  {
    if |ms| > 0 {
      RemovePairsSparesRequired(Remove(lib, ms[0]), ms[1..], id);
    }
  }

  /** `del-all <key> <value> ...`: at least two arguments; each pair is
      removed from every file of the collection; a leftover argument traps
      after the last full pair. */
  function DelAll(params: seq<string>, lib: Library): (r: Outcome)
    requires Valid(lib)
    ensures Valid(r.lib) && r.lib.collection == lib.collection && |r.lib.store| == |lib.store|
    ensures |params| < 2 ==> r == Outcome(lib, Failure(DelAllFormatIncorrect))
    ensures |params| >= 2 ==> r.lib == RemovePairs(lib, Pairs(params, 0))
    ensures |params| >= 2 && |params| % 2 == 1 ==> r.result == Failure(Trap)
    ensures |params| >= 2 && |params| % 2 == 0 ==> r.result == Success(ResultSet(lib.collection))
  {
    if |params| < 2 then Outcome(lib, Failure(DelAllFormatIncorrect))
    else
      var after := RemovePairs(lib, Pairs(params, 0));
      DanglingIffParity(params, 0);
      if Dangling(params, 0) then Outcome(after, Failure(Trap))
      else Outcome(after, Success(ResultSet(All(after))))
  }

  /** What reading a path yields: the existence check, the text read, the
      UTF-8 conversion and the JSON decoding, each of which can fail. */
  datatype FileRead =
    | Absent
    | Unreadable
    | NotUtf8
    | Undecodable
    | Decoded(items: seq<Importer.DecodedItem>)

  /** The characters after the last '/', as `lastPathComponent` for a path
      that does not end in '/'. */
  function LastPathComponent(path: string): (r: string)
    ensures |r| <= |path| && r == path[|path| - |r|..]
    ensures '/' !in r
    ensures |r| < |path| ==> path[|path| - |r| - 1] == '/'
  {
    if |path| == 0 then []
    else if path[|path| - 1] == '/' then []
    else
      var rest := LastPathComponent(path[..|path| - 1]);
      rest + [path[|path| - 1]]
  }

  /** The ids `from`, `from + 1`, ... of `n` newly created files. */
  function NewIds(from: nat, n: nat): (r: seq<FileId>)
    ensures |r| == n && forall i :: 0 <= i < n ==> r[i] == from + i
  {
    seq(n, i requires 0 <= i < n => from + i)
  }

  /** `add(file:)` for each file read, in order. */
  function AddFiles(lib: Library, files: seq<MediaFile>): (r: Library)
    requires Valid(lib)
    ensures Valid(r)
    ensures r.store == lib.store + files
    ensures r.collection == lib.collection + NewIds(|lib.store|, |files|)
    decreases |files|
  {
    if |files| == 0 then lib
    else
      var (created, id) := Alloc(lib, files[0]);
      AppendSplit(lib.store, files);
      NewIdsTail(id, |files|);
      AppendSplit(lib.collection, NewIds(id, |files|));
      AddFiles(AddFile(created, id), files[1..])
  }

  /** The ids after the first are the ones from the next id on. */
  lemma NewIdsTail(from: nat, n: nat)
    requires n > 0
    ensures NewIds(from, n)[1..] == NewIds(from + 1, n - 1)
  {
  }

  /** Appending `s` is appending its head, then its tail. */
  lemma AppendSplit<T>(a: seq<T>, s: seq<T>)
    requires |s| > 0
    ensures a + [s[0]] + s[1..] == a + s
  {
  }

  /** The error `load` throws for a path that was not decoded: the missing
      file and the unreadable one are named by path; the decoding stages are
      not. */
  function StageError(path: string, read: FileRead): (e: CliError)
    requires !read.Decoded?
    ensures e == InvalidFile(path) <==> read == Absent
    ensures e == ReadFailed(path) <==> read == Unreadable
  {
    match read
    case Absent => InvalidFile(path)
    case Unreadable => ReadFailed(path)
    case NotUtf8 => CouldNotParse
    case Undecodable => CouldNotDecode
  }

  /** The files the importer admits from a decoded path, in order. */
  function FilesOf(path: string, fs: string -> FileRead): seq<MediaFile>
    requires fs(path).Decoded?
  {
    Importer.Read(LastPathComponent(path), fs(path).items)
  }

  /** `load` of one resolved path: a failure names the path or the stage
      that failed and changes nothing; otherwise the files the importer admits
      are appended to the store and the collection, in order. */
  function LoadFile(path: string, fs: string -> FileRead, lib: Library): (r: (Library, Option<CliError>))
    requires Valid(lib)
    ensures Valid(r.0)
    ensures !fs(path).Decoded? ==> r == (lib, Some(StageError(path, fs(path))))
    ensures fs(path).Decoded? ==>
      var files := Importer.Read(LastPathComponent(path), fs(path).items);
      && r == (AddFiles(lib, files), None)
      && r.0.store == lib.store + files
      && r.0.collection == lib.collection + NewIds(|lib.store|, |files|)
  {
    match fs(path)
    case Absent => (lib, Some(InvalidFile(path)))
    case Unreadable => (lib, Some(ReadFailed(path)))
    case NotUtf8 => (lib, Some(CouldNotParse))
    case Undecodable => (lib, Some(CouldNotDecode))
    case Decoded(items) => (AddFiles(lib, Importer.Read(LastPathComponent(path), items)), None)
  }

  /** The loop of `load`: each argument becomes a path by `getCommand` and is
      loaded; the first failure stops the loop, keeping the files of the
      earlier arguments. */
  function LoadPaths(params: seq<string>, home: string, cwd: string, fs: string -> FileRead, lib: Library): (r: (Library, Option<CliError>))
    requires Valid(lib)
    ensures Valid(r.0)
    ensures lib.store <= r.0.store && lib.collection <= r.0.collection
    decreases |params|
  {
    if |params| == 0 then (lib, None)
    else
      var step := LoadFile(CommandLineParser.GetCommand(params[0], home, cwd), fs, lib);
      if step.1.Some? then step else LoadPaths(params[1..], home, cwd, fs, step.0)
  }

  /** `load <path> ...`: at least one argument; the result set is empty. */
  function Load(params: seq<string>, home: string, cwd: string, fs: string -> FileRead, lib: Library): (r: Outcome)
    requires Valid(lib)
    ensures Valid(r.lib)
    ensures lib.store <= r.lib.store && lib.collection <= r.lib.collection
    ensures |params| == 0 ==> r == Outcome(lib, Failure(LoadCommandFormatInvalid))
    ensures r.result.Success? ==> r.result.value == ResultSet([])
  {
    if |params| == 0 then Outcome(lib, Failure(LoadCommandFormatInvalid))
    else
      var (after, err) := LoadPaths(params, home, cwd, fs, lib);
      if err.Some? then Outcome(after, Failure(err.value)) else Outcome(after, Success(ResultSet([])))
  }

  /** Every argument resolves to a path the reader decoded. */
  predicate AllDecoded(params: seq<string>, home: string, cwd: string, fs: string -> FileRead)
  {
    forall i :: 0 <= i < |params| ==> fs(CommandLineParser.GetCommand(params[i], home, cwd)).Decoded?
  }

  /** The files of every argument's path, argument after argument. */
  function ReadAll(params: seq<string>, home: string, cwd: string, fs: string -> FileRead): seq<MediaFile>
    requires AllDecoded(params, home, cwd, fs)
  {
    if |params| == 0 then []
    else FilesOf(CommandLineParser.GetCommand(params[0], home, cwd), fs) + ReadAll(params[1..], home, cwd, fs)
  }

  /** Adding two lists of files one after the other is adding them joined. */
  lemma {:induction false} AddFilesConcat(lib: Library, a: seq<MediaFile>, b: seq<MediaFile>)
    requires Valid(lib)
    ensures AddFiles(AddFiles(lib, a), b) == AddFiles(lib, a + b)
    decreases |a|
  {
    if |a| == 0 {
      assert a + b == b;
    } else {
      var (created, id) := Alloc(lib, a[0]);
      var next := AddFile(created, id);
      assert (a + b)[0] == a[0] && (a + b)[1..] == a[1..] + b;
      AddFilesStep(lib, a);
      AddFilesStep(lib, a + b);
      AddFilesConcat(next, a[1..], b);
      calc {
        AddFiles(AddFiles(lib, a), b);
        AddFiles(AddFiles(next, a[1..]), b);
        AddFiles(next, a[1..] + b);
        AddFiles(lib, a + b);
      }
    }
  }

  /** Adding files is adding the first, then the rest. */
  lemma AddFilesStep(lib: Library, files: seq<MediaFile>)
    requires Valid(lib) && |files| > 0
    ensures var (created, id) := Alloc(lib, files[0]);
      AddFiles(lib, files) == AddFiles(AddFile(created, id), files[1..])
  {
  }

  /** The loop of `load` appends the files of each argument's path in
      argument order; the first path that is not decoded stops it with that
      path's error, keeping the files of the arguments before it. */
  lemma {:induction false} LoadPathsInOrder(params: seq<string>, home: string, cwd: string, fs: string -> FileRead, lib: Library, k: nat)
    requires Valid(lib) && k <= |params| && AllDecoded(params[..k], home, cwd, fs)
    ensures var r := LoadPaths(params, home, cwd, fs, lib);
      var done := AddFiles(lib, ReadAll(params[..k], home, cwd, fs));
      && (k == |params| ==> r == (done, None))
      && (k < |params| && !fs(CommandLineParser.GetCommand(params[k], home, cwd)).Decoded? ==>
            var path := CommandLineParser.GetCommand(params[k], home, cwd);
            r == (done, Some(StageError(path, fs(path)))))
    decreases |params|
  {
    if k == 0 {
      assert params[..0] == [];
    } else {
      var path := CommandLineParser.GetCommand(params[0], home, cwd);
      var first := FilesOf(path, fs);
      ReadAllCons(params, home, cwd, fs, k);
      LoadPathsFirstDecoded(params, home, cwd, fs, lib);
      LoadPathsInOrder(params[1..], home, cwd, fs, AddFiles(lib, first), k - 1);
      AddFilesConcat(lib, first, ReadAll(params[1..][..k - 1], home, cwd, fs));
      if k < |params| {
        assert params[1..][k - 1] == params[k];
      }
    }
  }

  /** A first path that decodes adds its files and the loop goes on with the
      rest. */
  lemma LoadPathsFirstDecoded(params: seq<string>, home: string, cwd: string, fs: string -> FileRead, lib: Library)
    requires Valid(lib) && |params| > 0 && fs(CommandLineParser.GetCommand(params[0], home, cwd)).Decoded?
    ensures var first := FilesOf(CommandLineParser.GetCommand(params[0], home, cwd), fs);
      LoadPaths(params, home, cwd, fs, lib) == LoadPaths(params[1..], home, cwd, fs, AddFiles(lib, first))
  {
  }

  /** The files of the first `k` arguments are the first argument's followed
      by those of the next `k - 1`. */
  lemma ReadAllCons(params: seq<string>, home: string, cwd: string, fs: string -> FileRead, k: nat)
    requires 0 < k <= |params| && AllDecoded(params[..k], home, cwd, fs)
    ensures fs(CommandLineParser.GetCommand(params[0], home, cwd)).Decoded?
    ensures AllDecoded(params[1..][..k - 1], home, cwd, fs)
    ensures ReadAll(params[..k], home, cwd, fs) ==
              FilesOf(CommandLineParser.GetCommand(params[0], home, cwd), fs) + ReadAll(params[1..][..k - 1], home, cwd, fs)
  {
    assert params[..k][0] == params[0];
    assert params[1..][..k - 1] == params[..k][1..];
  }


  /** `load` with arguments: when every path is decoded, the library gains
      the files of all of them in argument order and the result set is
      empty; when the path of argument `k` is the first not decoded, `load`
      throws its error after adding the files of the arguments before it. */
  lemma LoadInOrder(params: seq<string>, home: string, cwd: string, fs: string -> FileRead, lib: Library, k: nat)
    requires Valid(lib) && 0 < |params| && k <= |params| && AllDecoded(params[..k], home, cwd, fs)
    ensures var r := Load(params, home, cwd, fs, lib);
      var done := AddFiles(lib, ReadAll(params[..k], home, cwd, fs));
      && (k == |params| ==> r == Outcome(done, Success(ResultSet([]))))
      && (k < |params| && !fs(CommandLineParser.GetCommand(params[k], home, cwd)).Decoded? ==>
            var path := CommandLineParser.GetCommand(params[k], home, cwd);
            r == Outcome(done, Failure(StageError(path, fs(path)))))
  {
    LoadPathsInOrder(params, home, cwd, fs, lib, k);
  }

  /** Loading a single argument is loading its resolved path. */
  lemma LoadOneIsLoadFile(path: string, home: string, cwd: string, fs: string -> FileRead, lib: Library)
    requires Valid(lib)
    ensures var step := LoadFile(CommandLineParser.GetCommand(path, home, cwd), fs, lib);
      var r := Load([path], home, cwd, fs, lib);
      && r.lib == step.0
      && (step.1.None? ==> r.result == Success(ResultSet([])))
      && (step.1.Some? ==> r.result == Failure(step.1.value))
  {
    var full := CommandLineParser.GetCommand(path, home, cwd);
    var step := LoadFile(full, fs, lib);
    assert [path][0] == path && [path][1..] == [];
    var lp := LoadPaths([path], home, cwd, fs, lib);
    if step.1.Some? {
      assert lp == step;
    } else {
      assert lp == LoadPaths([], home, cwd, fs, step.0);
      assert lp == step;
    }
  }

  /** Adding the same files twice puts each file at two new ids, one from
      each round, both in the collection. */
  lemma AddFilesTwice(lib: Library, files: seq<MediaFile>, i: nat)
    requires Valid(lib) && i < |files|
    ensures var twice := AddFiles(AddFiles(lib, files), files);
      && |twice.collection| == |lib.collection| + 2 * |files|
      && twice.collection[|lib.collection| + i] == |lib.store| + i
      && twice.collection[|lib.collection| + |files| + i] == |lib.store| + |files| + i
      && twice.store[|lib.store| + i] == files[i]
      && twice.store[|lib.store| + |files| + i] == files[i]
  {
  }

  /** Loading the same file twice is not a no-op: every admitted file is in
      the collection twice, as two different objects with the same path. */
  lemma LoadTwiceDuplicates(path: string, home: string, cwd: string, fs: string -> FileRead, lib: Library, i: nat)
    requires Valid(lib)
    requires fs(CommandLineParser.GetCommand(path, home, cwd)).Decoded?
    requires var full := CommandLineParser.GetCommand(path, home, cwd);
      i < |Importer.Read(LastPathComponent(full), fs(full).items)|
    ensures var full := CommandLineParser.GetCommand(path, home, cwd);
      var n := |Importer.Read(LastPathComponent(full), fs(full).items)|;
      var twice := Load([path], home, cwd, fs, Load([path], home, cwd, fs, lib).lib).lib;
      var a := twice.collection[|lib.collection| + i];
      var b := twice.collection[|lib.collection| + n + i];
      && |twice.collection| == |lib.collection| + 2 * n
      && a != b
      && twice.store[a] == twice.store[b]
  {
    var full := CommandLineParser.GetCommand(path, home, cwd);
    var files := Importer.Read(LastPathComponent(full), fs(full).items);
    LoadOneIsLoadFile(path, home, cwd, fs, lib);
    var once := Load([path], home, cwd, fs, lib).lib;
    LoadOneIsLoadFile(path, home, cwd, fs, once);
    AddFilesTwice(lib, files, i);
  }
}
