/** The audio file type: valid when creator and runtime are present in the
    entries array. */
module AudioFile {
  import opened MetaData
  import opened MediaFile

  /** `isValid`: a scan of the entries array for creator, then for runtime.
      Each missing keyword sets its flag; only those two flags may change. */
  function IsValid(f: MediaFile): (r: (bool, MediaFile))
    ensures r.0 <==> forall k :: k in RequiredKeywords(Audio) ==> HasKeyword(f.metadata, k)
    ensures r.1 == f.(missing := r.1.missing)
    ensures r.1.missing.creator == (f.missing.creator || !HasKeyword(f.metadata, Creator))
    ensures r.1.missing.runtime == (f.missing.runtime || !HasKeyword(f.metadata, Runtime))
    ensures r.1.missing.resolution == f.missing.resolution
  {
    assert Creator in RequiredKeywords(Audio);
    assert Runtime in RequiredKeywords(Audio);
    var noCreator := !HasKeyword(f.metadata, Creator);
    var noRuntime := !HasKeyword(f.metadata, Runtime);
    var flags := f.missing.(
      creator := if noCreator then true else f.missing.creator,
      runtime := if noRuntime then true else f.missing.runtime);
    (!noCreator && !noRuntime, f.(missing := flags))
  }

  /** `getErrors`: the creator message, then the runtime message, each present
      exactly when its flag is set. */
  function GetErrors(f: MediaFile): (r: seq<string>)
    ensures |r| == (if f.missing.creator then 1 else 0) + (if f.missing.runtime then 1 else 0)
    ensures CreatorMissingMessage in r <==> f.missing.creator
    ensures RuntimeMissingMessage in r <==> f.missing.runtime
    ensures f.missing.creator ==> r[0] == CreatorMissingMessage
    ensures f.missing.runtime ==> r[|r| - 1] == RuntimeMissingMessage
  {
    var errors := [];
    var errors := if f.missing.creator then errors + [CreatorMissingMessage] else errors;
    var errors := if f.missing.runtime then errors + [RuntimeMissingMessage] else errors;
    errors
  }
}
