/** The video file type: valid when creator, resolution and runtime are all
    present in the entries array. */
module VideoFile {
  import opened MetaData
  import opened MediaFile

  /** `isValid`: one scan of the entries array per required keyword. Each
      missing keyword sets its flag (a set flag is never cleared); nothing else
      of the file changes, and the local index is not read. */
  function IsValid(f: MediaFile): (r: (bool, MediaFile))
    ensures r.0 <==> forall k :: k in RequiredKeywords(Video) ==> HasKeyword(f.metadata, k)
    ensures r.1 == f.(missing := r.1.missing)
    ensures r.1.missing.creator == (f.missing.creator || !HasKeyword(f.metadata, Creator))
    ensures r.1.missing.resolution == (f.missing.resolution || !HasKeyword(f.metadata, Resolution))
    ensures r.1.missing.runtime == (f.missing.runtime || !HasKeyword(f.metadata, Runtime))
  {
    assert Creator in RequiredKeywords(Video);
    assert Resolution in RequiredKeywords(Video);
    assert Runtime in RequiredKeywords(Video);
    var noCreator := !HasKeyword(f.metadata, Creator);
    var noResolution := !HasKeyword(f.metadata, Resolution);
    var noRuntime := !HasKeyword(f.metadata, Runtime);
    var flags := MissingFlags(
      if noCreator then true else f.missing.creator,
      if noResolution then true else f.missing.resolution,
      if noRuntime then true else f.missing.runtime);
    (!noCreator && !noResolution && !noRuntime, f.(missing := flags))
  }

  /** `getErrors`: one message per set flag, creator first, runtime last. */
  function GetErrors(f: MediaFile): (r: seq<string>)
    ensures |r| == (if f.missing.creator then 1 else 0) + (if f.missing.resolution then 1 else 0)
                   + (if f.missing.runtime then 1 else 0)
    ensures CreatorMissingMessage in r <==> f.missing.creator
    ensures ResolutionMissingMessage in r <==> f.missing.resolution
    ensures RuntimeMissingMessage in r <==> f.missing.runtime
    ensures f.missing.creator ==> r[0] == CreatorMissingMessage
    ensures f.missing.runtime ==> r[|r| - 1] == RuntimeMissingMessage
  {
    var errors := [];
    var errors := if f.missing.creator then errors + [CreatorMissingMessage] else errors;
    var errors := if f.missing.resolution then errors + [ResolutionMissingMessage] else errors;
    var errors := if f.missing.runtime then errors + [RuntimeMissingMessage] else errors;
    errors
  }
}
