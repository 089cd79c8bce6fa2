/** The action's run: locate the descriptor, parse it, derive the image name,
    check for the image when asked, and produce the outputs or the first failure. */
module Action {
  import opened Wrappers
  import opened Descriptor
  import opened Locator
  import opened Image

  /** The named outputs of a successful run. `imageExists` is set only when the check ran. */
  datatype Outputs = Outputs(
    projectPath: string,
    unityVersion: string,
    unityChangeset: Option<string>,
    libraryFolderExists: bool,
    imageName: string,
    imageExists: Option<bool>)

  function AsciiLower(c: char): char {
    if 'A' <= c <= 'Z' then (c as int + 32) as char else c
  }

  /** `check-image` lower-cased equals `true`. Only the ASCII letters T, R, U, E lower-case
      to t, r, u, e, so ASCII folding decides this exactly. */
  predicate ImageCheckRequested(input: string) {
    |input| == 4 && forall k :: 0 <= k < 4 ==> AsciiLower(input[k]) == "true"[k]
  }

  /** The check is requested for every capitalisation of `true`, and for nothing else. */
  lemma ImageCheckRequestedExactly(input: string)
    ensures ImageCheckRequested(input) <==>
      |input| == 4 && input[0] in "tT" && input[1] in "rR" && input[2] in "uU" && input[3] in "eE"
  {
  }

  /** `run`. `candidates` are the search's matches, `text` the located descriptor's contents,
      `projectPath` its resolved project root and `libraryExists` whether `Library` exists
      there; `response` is what the listing request would return. */
  method Run(candidates: seq<string>, text: string, projectPath: string, libraryExists: bool,
             checkImageInput: string, token: string, response: Listing)
    returns (r: Result<Outputs>)
    ensures |candidates| != 1 ==> r == Err(AmbiguousMatches(|candidates|))
    ensures |candidates| == 1 && Parse(candidates[0], text).Err? ==>
      r == Err(VersionNotFound(candidates[0]))
    ensures |candidates| == 1 && Parse(candidates[0], text).Ok? && ImageCheckRequested(checkImageInput) ==>
      (token == "" ==> r == Err(MissingToken))
      && (token != "" && response.RequestFailed? ==> r == Err(NetworkError(response.reason)))
    ensures r.Ok? <==>
      |candidates| == 1 && Parse(candidates[0], text).Ok?
      && (ImageCheckRequested(checkImageInput) ==> token != "" && response.Listed?)
    ensures r.Ok? ==>
      var found := Parse(candidates[0], text).value;
      r.value == Outputs(projectPath, found.version, found.changeset, libraryExists,
        ImagePrefix + found.version,
        if ImageCheckRequested(checkImageInput)
        then Some(TagPublished(response.versions, found.version)) else None)
  {
    var located := SelectProjectVersion(candidates);
    if located.Err? {
      return Err(located.error);
    }
    var parsed := DetermineUnityVersion(located.value, text);
    if parsed.Err? {
      NotFoundExactly(located.value, text);
      return Err(parsed.error);
    }
    var unity := parsed.value;
    var imageName := ImageName(unity.version);
    var imageExists := None;
    if ImageCheckRequested(checkImageInput) {
      var checked := CheckImage(unity.version, token, response);
      if checked.Err? {
        return Err(checked.error);
      }
      imageExists := Some(checked.value);
    }
    return Ok(Outputs(projectPath, unity.version, unity.changeset, libraryExists, imageName, imageExists));
  }
}
