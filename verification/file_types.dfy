/** Dispatch to the four file types by a file's media type, and the facts that
    tie their validity checks to the required-keyword table. */
module FileTypes {
  import opened MetaData
  import opened MediaFile
  import VideoFile
  import AudioFile
  import DocumentFile
  import ImageFile

  /** The validity check of the file's own type. */
  function IsValid(f: MediaFile): (r: (bool, MediaFile))
    ensures r.0 <==> forall k :: k in RequiredKeywords(f.kind) ==> HasKeyword(f.metadata, k)
    ensures r.1 == f.(missing := r.1.missing)
  {
    match f.kind
    case Image => ImageFile.IsValid(f)
    case Audio => AudioFile.IsValid(f)
    case Document => DocumentFile.IsValid(f)
    case Video => VideoFile.IsValid(f)
  }

  /** The missing-flag a type check sets for required keyword `k`. */
  function Flag(missing: MissingFlags, k: string): bool
  {
    if k == Creator then missing.creator
    else if k == Resolution then missing.resolution
    else if k == Runtime then missing.runtime
    else false
  }

  /** The keywords a type requires, in the order its check scans them. */
  function RequiredInOrder(kind: MediaType): (ks: seq<string>)
    ensures forall k :: k in ks <==> k in RequiredKeywords(kind)
  {
    match kind
    case Image => [Creator, Resolution]
    case Audio => [Creator, Runtime]
    case Document => [Creator]
    case Video => [Creator, Resolution, Runtime]
  }

  /** The message a type reports for a missing required keyword; the image
      type words a missing resolution as missing 'contents'. */
  function MissingMessage(kind: MediaType, k: string): string
  {
    if k == Creator then CreatorMissingMessage
    else if k == Resolution then (if kind == Image then ImageFile.ContentsMissingMessage else ResolutionMissingMessage)
    else RuntimeMissingMessage
  }

  /** The messages for the keywords of `ks` whose flag is set, in order. */
  function Reported(kind: MediaType, missing: MissingFlags, ks: seq<string>): seq<string>
  {
    if |ks| == 0 then []
    else (if Flag(missing, ks[0]) then [MissingMessage(kind, ks[0])] else []) + Reported(kind, missing, ks[1..])
  }

  /** The report for one flag. */
  function Line(flag: bool, message: string): seq<string>
  {
    if flag then [message] else []
  }

  /** The table-driven report, written out per type. */
  lemma ReportedPerType(kind: MediaType, missing: MissingFlags)
    ensures var r := Reported(kind, missing, RequiredInOrder(kind));
      match kind
      case Image => r == Line(missing.creator, CreatorMissingMessage) + Line(missing.resolution, ImageFile.ContentsMissingMessage)
      case Audio => r == Line(missing.creator, CreatorMissingMessage) + Line(missing.runtime, RuntimeMissingMessage)
      case Document => r == Line(missing.creator, CreatorMissingMessage)
      case Video => r == Line(missing.creator, CreatorMissingMessage) + Line(missing.resolution, ResolutionMissingMessage)
                         + Line(missing.runtime, RuntimeMissingMessage)
  {
    assert Flag(missing, Creator) == missing.creator;
    assert Flag(missing, Resolution) == missing.resolution;
    assert Flag(missing, Runtime) == missing.runtime;
    match kind
    case Image =>
      assert [Creator, Resolution][1..] == [Resolution];
      ReportedOne(kind, missing, Resolution);
    case Audio =>
      assert [Creator, Runtime][1..] == [Runtime];
      ReportedOne(kind, missing, Runtime);
    case Document =>
      ReportedOne(kind, missing, Creator);
    case Video =>
      assert [Creator, Resolution, Runtime][1..] == [Resolution, Runtime];
      assert [Resolution, Runtime][1..] == [Runtime];
      ReportedOne(kind, missing, Runtime);
      assert Reported(kind, missing, [Resolution, Runtime])
          == Line(missing.resolution, ResolutionMissingMessage) + Line(missing.runtime, RuntimeMissingMessage);
  }

  lemma ReportedOne(kind: MediaType, missing: MissingFlags, k: string)
    ensures Reported(kind, missing, [k]) == Line(Flag(missing, k), MissingMessage(kind, k))
  {
    assert [k][1..] == [];
  }

  /** The error report of the file's own type: the message of each required
      keyword whose flag is set, in scan order, and none exactly when no such
      flag is set. */
  function GetErrors(f: MediaFile): (r: seq<string>)
    ensures r == Reported(f.kind, f.missing, RequiredInOrder(f.kind))
    ensures r == [] <==> forall k :: k in RequiredKeywords(f.kind) ==> !Flag(f.missing, k)
  {
    ReportedPerType(f.kind, f.missing);
    var c := Line(f.missing.creator, CreatorMissingMessage);
    match f.kind
    case Image =>
      assert ImageFile.GetErrors(f) == c + Line(f.missing.resolution, ImageFile.ContentsMissingMessage);
      ImageFile.GetErrors(f)
    case Audio =>
      assert AudioFile.GetErrors(f) == c + Line(f.missing.runtime, RuntimeMissingMessage);
      AudioFile.GetErrors(f)
    case Document =>
      DocumentFile.GetErrors(f)
    case Video =>
      assert VideoFile.GetErrors(f) == c + Line(f.missing.resolution, ResolutionMissingMessage) + Line(f.missing.runtime, RuntimeMissingMessage);
      VideoFile.GetErrors(f)
  }

  /** On a freshly built file the check reports errors exactly when it fails:
      a passing check sets no flag, a failing one sets at least one. */
  lemma FreshFileErrorsIffInvalid(ms: seq<Metadata>, filename: string, path: string, kind: MediaType)
    ensures var (ok, g) := IsValid(NewFile(ms, filename, path, kind)); GetErrors(g) == [] <==> ok
  {
    var f := NewFile(ms, filename, path, kind);
    var (ok, g) := IsValid(f);
    match kind
    case Image => assert g == ImageFile.IsValid(f).1;
    case Audio => assert g == AudioFile.IsValid(f).1;
    case Document => assert g == DocumentFile.IsValid(f).1;
    case Video => assert g == VideoFile.IsValid(f).1;
  }

  /** The check reads only the entries array: the local index does not affect
      the verdict, and the check changes neither entries nor index. */
  lemma ValidityIgnoresIndex(f: MediaFile, index: map<string, seq<string>>)
    ensures IsValid(f).0 == IsValid(f.(index := index)).0
    ensures IsValid(f).1.metadata == f.metadata && IsValid(f).1.index == f.index
  {
  }

  /** The keywords `DeleteMetaData` refuses are exactly the required ones, so a
      valid file stays valid through any deletion. */
  lemma {:induction false} DeleteKeepsValidity(f: MediaFile, m: Metadata)
    requires IsValid(f).0
    ensures IsValid(DeleteMetaData(f, m).0).0
  {
    var g := DeleteMetaData(f, m).0;
    assert g.kind == f.kind by {
      if m.keyword !in RequiredKeywords(f.kind) {
        assert SameIdentity(f, Delete(f, m).0);
      }
    }
    forall k | k in RequiredKeywords(g.kind)
      ensures HasKeyword(g.metadata, k)
    {
      DeleteKeepsRequiredKeywords(f, m, k);
    }
  }
}
