/** The image name derived from an editor version, and the check that the
    registry's package listing holds a tag equal to that version. */
module Image {
  import opened Wrappers

  const ImagePrefix := "ghcr.io/playeveryware/unity:"

  /** The build image for an editor version: the fixed repository, a colon, the version. */
  function ImageName(version: string): (name: string)
    ensures |name| == |ImagePrefix| + |version|
    ensures name[..|ImagePrefix|] == ImagePrefix && name[|ImagePrefix|..] == version
  {
    ImagePrefix + version
  }

  /** Distinct versions name distinct images. */
  lemma ImageNameInjective(v1: string, v2: string)
    requires ImageName(v1) == ImageName(v2)
    ensures v1 == v2
  {
  }

  /** One record of the container package listing, with the tags it carries. */
  datatype PackageVersion = PackageVersion(tags: seq<string>)

  /** The response to the listing request: the records, or the failure it reported. */
  datatype Listing = Listed(versions: seq<PackageVersion>) | RequestFailed(reason: string)

  /** Some tag of some record equals `tag` exactly. */
  ghost predicate TagPublished(versions: seq<PackageVersion>, tag: string) {
    exists i, j :: 0 <= i < |versions| && 0 <= j < |versions[i].tags| && versions[i].tags[j] == tag
  }

  /** `checkImage`: refuses an empty token; otherwise scans every tag of every record
      and answers whether one equals the version. A failed request is propagated. */
  method CheckImage(unityVersion: string, token: string, response: Listing) returns (r: Result<bool>)
    ensures token == "" ==> r == Err(MissingToken)
    ensures token != "" && response.RequestFailed? ==> r == Err(NetworkError(response.reason))
    ensures token != "" && response.Listed? ==> r == Ok(TagPublished(response.versions, unityVersion))
  {
    if token == "" {
      return Err(MissingToken);
    }
    if response.RequestFailed? {
      return Err(NetworkError(response.reason));
    }
    var data := response.versions;
    for i := 0 to |data|
      invariant forall i', j :: 0 <= i' < i && 0 <= j < |data[i'].tags| ==> data[i'].tags[j] != unityVersion
    {
      var tags := data[i].tags;
      for j := 0 to |tags|
        invariant forall j' :: 0 <= j' < j ==> tags[j'] != unityVersion
      {
        if tags[j] == unityVersion {
          return Ok(true);
        }
      }
    }
    return Ok(false);
  }
}
