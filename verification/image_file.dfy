/** The image file type: valid when creator and resolution are present in the
    entries array. */
module ImageFile {
  import opened MetaData
  import opened MediaFile

  /** The message this type reports for a missing resolution: it names
      'contents', not 'resolution'. */
  const ContentsMissingMessage := "'contents' missing"

  /** `isValid`: a scan of the entries array for creator, then resolution.
      Each missing keyword sets its flag; flags only ever become true. */
  function IsValid(f: MediaFile): (r: (bool, MediaFile))
    ensures r.0 <==> forall k :: k in RequiredKeywords(Image) ==> HasKeyword(f.metadata, k)
    ensures r.1 == f.(missing := r.1.missing)
    ensures r.1.missing.creator == (f.missing.creator || !HasKeyword(f.metadata, Creator))
    ensures r.1.missing.resolution == (f.missing.resolution || !HasKeyword(f.metadata, Resolution))
    ensures r.1.missing.runtime == f.missing.runtime
  {
    assert Creator in RequiredKeywords(Image);
    assert Resolution in RequiredKeywords(Image);
    var noCreator := !HasKeyword(f.metadata, Creator);
    var noResolution := !HasKeyword(f.metadata, Resolution);
    var flags := f.missing.(
      creator := if noCreator then true else f.missing.creator,
      resolution := if noResolution then true else f.missing.resolution);
    (!noCreator && !noResolution, f.(missing := flags))
  }

  /** `getErrors`: the creator message, then the message for a missing
      resolution (worded 'contents'), each present exactly when its flag is set. */
  function GetErrors(f: MediaFile): (r: seq<string>)
    ensures |r| == (if f.missing.creator then 1 else 0) + (if f.missing.resolution then 1 else 0)
    ensures CreatorMissingMessage in r <==> f.missing.creator
    ensures ContentsMissingMessage in r <==> f.missing.resolution
    ensures ResolutionMissingMessage !in r
    ensures f.missing.creator ==> r[0] == CreatorMissingMessage
    ensures f.missing.resolution ==> r[|r| - 1] == ContentsMissingMessage
  {
    var errors := [];
    var errors := if f.missing.creator then errors + [CreatorMissingMessage] else errors;
    var errors := if f.missing.resolution then errors + [ContentsMissingMessage] else errors;
    errors
  }
}
