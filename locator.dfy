/** The rule that picks the version descriptor out of the recursive search's
    matches for ProjectSettings/ProjectVersion.txt at any depth. */
module Locator {
  import opened Wrappers

  /** Succeeds with the only match; any other number of matches is an error that reports it. */
  function SelectProjectVersion(paths: seq<string>): (r: Result<string>)
    ensures r.Ok? <==> |paths| == 1
    ensures r.Ok? ==> r.value == paths[0]
    ensures r.Err? ==> r.error == AmbiguousMatches(|paths|)
  {
    if |paths| != 1 then Err(AmbiguousMatches(|paths|)) else Ok(paths[0])
  }

  /** The selection returns a path exactly when that path is the search's sole match. */
  lemma SelectsSoleMatch(paths: seq<string>, path: string)
    ensures SelectProjectVersion(paths) == Ok(path) <==> paths == [path]
  {
  }
}
