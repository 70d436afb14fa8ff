/** A metadata entry, the media types, and the required-keyword table that the
    four file types' validity checks and the delete guard share. */
module MetaData {

  /** One (keyword, value) tag of a file. Keywords need not be unique. */
  datatype Metadata = Metadata(keyword: string, value: string)

  /** The four media types; a file's type is fixed when it is created. */
  datatype MediaType = Image | Audio | Document | Video

  const Creator := "creator"
  const Resolution := "resolution"
  const Runtime := "runtime"

  /** The error messages the file types report for a missing keyword. */
  const CreatorMissingMessage := "'creator' missing"
  const ResolutionMissingMessage := "'resolution' missing"
  const RuntimeMissingMessage := "'runtime' missing"

  /** The keywords a file of each type must carry to be admitted. */
  function RequiredKeywords(kind: MediaType): set<string>
  {
    match kind
    case Image => {Creator, Resolution}
    case Audio => {Creator, Runtime}
    case Document => {Creator}
    case Video => {Creator, Resolution, Runtime}
  }

  /** Some entry has keyword `k`: the `contains(where:)` scan each type's
      validity check runs over the entries array. */
  function HasKeyword(ms: seq<Metadata>, k: string): (r: bool)
    ensures r <==> exists i :: 0 <= i < |ms| && ms[i].keyword == k
  {
    if |ms| == 0 then false
    else if ms[0].keyword == k then true
    else
      assert forall i :: 1 <= i < |ms| ==> ms[i] == ms[1..][i - 1];
      HasKeyword(ms[1..], k)
  }

  /** The values of the entries, in entry order. */
  function Values(ms: seq<Metadata>): (r: seq<string>)
    ensures |r| == |ms|
    ensures forall i :: 0 <= i < |ms| ==> r[i] == ms[i].value
  {
    if |ms| == 0 then [] else [ms[0].value] + Values(ms[1..])
  }
}
