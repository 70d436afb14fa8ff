/** The document file type: valid when some entry has keyword creator. */
module DocumentFile {
  import opened MetaData
  import opened MediaFile

  /** `isValid`: a failed check sets the creator flag; a passing one leaves it
      as it was. Nothing else of the file changes. */
  function IsValid(f: MediaFile): (r: (bool, MediaFile))
    ensures r.0 <==> forall k :: k in RequiredKeywords(Document) ==> HasKeyword(f.metadata, k)
    ensures r.1 == f.(missing := r.1.missing)
    ensures !r.0 ==> r.1.missing.creator
    ensures !r.0 ==> r.1 == f.(missing := f.missing.(creator := true))
    ensures r.0 ==> r.1 == f
  {
    assert Creator in RequiredKeywords(Document);
    if !HasKeyword(f.metadata, Creator) then
      (false, f.(missing := f.missing.(creator := true)))
    else
      (true, f)
  }

  /** `getErrors`: the creator message when its flag is set, else nothing. */
  function GetErrors(f: MediaFile): (r: seq<string>)
    ensures f.missing.creator ==> r == [CreatorMissingMessage]
    ensures !f.missing.creator ==> r == []
  {
    var errors := [];
    if f.missing.creator then errors + [CreatorMissingMessage] else errors
  }
}
