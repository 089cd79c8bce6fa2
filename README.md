# action-unity-info, modelled in Dafny

The model covers the logic of a CI action that reports a Unity project's editor version.
The action finds the project's `ProjectSettings/ProjectVersion.txt` descriptor and parses
the editor version, plus the changeset when the descriptor has one. It then derives the
build-image name `ghcr.io/playeveryware/unity:<version>`. When asked, it checks whether the
registry's package listing has a tag equal to that version. The files:

- `wrappers.dfy` (`Wrappers`): `Option`, the action's failures (`Error`) and `Result`.
- `text.dfy` (`Text`): JavaScript's `split('\n')` and `trimRight()`. The ECMAScript
  whitespace and line-terminator sets are written out code point by code point. `Join` is
  the inverse of `Split`, and `ToCrlf` rewrites a text with Windows line endings.
- `descriptor.dfy` (`Descriptor`): the descriptor parser. The two regular expressions are
  hand-written matchers, `MatchRevision` for `^m_EditorVersionWithRevision: ([^ ]*) \(([^)]*)\)$`
  and `MatchPlain` for `^m_EditorVersion: (.*)$`. `RevisionForm` and `PlainForm` state each
  pattern declaratively, and two lemmas prove each matcher accepts exactly its pattern.
  `DetermineUnityVersion` is the imperative parser. It splits the text and right-trims the
  line array in place. It then runs two independent passes, revision form first, and each
  pass returns on its first match. It is proved equal to the functional `Parse`, and the
  lemmas characterise `Parse`.
- `locator.dfy` (`Locator`): the rule that the recursive search must find exactly one
  descriptor.
- `image.dfy` (`Image`): the image name, and the token guard plus nested tag scan of
  `checkImage`.
- `action.dfy` (`Action`): `run`. It composes the steps, evaluates the `check-image` flag
  and assembles the outputs, or returns the first failure.
- `scenarios.dfy` (`Scenarios`): descriptors of the three shapes that matter, for any
  version and changeset. One is newer (a plain line followed by a revision line), one is
  older (a plain line only), and one has a revision line without its changeset.

Decisions about the code's exact behaviour:

- The fallback pattern's `.` does not match a line terminator, and `$` matches only at the
  end of the line. So after a line is right-trimmed, a carriage return, U+2028 or U+2029
  still inside it makes the fallback fail. The pattern is not simply "the rest of the
  line", and the model follows the regular expression as written.
- `trimRight` strips exactly ECMAScript's WhiteSpace and LineTerminator characters. A
  byte-order mark at the start of the file is not stripped, so it stops the first line from
  matching either pattern, as in the code.
- `check-image` is compared after `toLowerCase()`. The only characters that lower-case to
  `t`, `r`, `u` or `e` are the ASCII letters, so ASCII case folding decides the comparison
  exactly.

## Model

| member | source | states |
|---|---|---|
| `Text.TrimRight` | src/main.ts:56-59 | the trimmed line is a prefix of the line, does not end in whitespace, and only whitespace was removed |
| `Text.TrimRightIgnoresTrailingWhitespace` | src/main.ts:56-59 | appending whitespace to a line does not change its trimmed form |
| `Text.TrimRightIdempotent` | src/main.ts:58 | trimming a trimmed line changes nothing |
| `Text.Split` | src/main.ts:54 | splitting gives at least one piece, and no piece contains a line feed |
| `Text.JoinSplit` | src/main.ts:54 | joining the pieces with line feeds gives back the text |
| `Text.SplitJoin` | src/main.ts:54 | splitting the join of pieces free of line feeds gives back the pieces |
| `Text.SplitCrlf` | src/main.ts:54-59 | splitting a CRLF text gives the same pieces, each possibly followed by one carriage return |
| `Descriptor.MatchRevision` | src/main.ts:62-65 | a revision match means the line is the key, then a version with no space, then ` (`, then a changeset with no `)`, then `)` |
| `Descriptor.MatchPlain` | src/main.ts:76-79 | a fallback match means the line is the key followed by the version, the version has no line terminator, and there is no changeset |
| `Descriptor.RevisionPatternExact` | src/main.ts:62 | the revision matcher gives the pair (v, c) if and only if the line has the revision pattern with those captures |
| `Descriptor.PlainPatternExact` | src/main.ts:76 | the fallback matcher gives v if and only if the line has the plain pattern with capture v |
| `Descriptor.RevisionLineNotPlain` | src/main.ts:76 | a line starting `m_EditorVersionWithRevision`, well formed or not, never matches the fallback pattern |
| `Descriptor.ScanFindsFirst` | src/main.ts:63-72 | a pass returns the match of the first matching line, whatever follows it |
| `Descriptor.ScanFails` | src/main.ts:63-73 | a pass finds nothing if and only if no line matches |
| `Descriptor.TrimLines` | src/main.ts:57-59 | afterwards every array element is the right-trimmed form of its old value |
| `Descriptor.ScanLines` | src/main.ts:63-73 | the loop with early return computes the first match of the pass |
| `Descriptor.DetermineUnityVersion` | src/main.ts:54-89 | the split, trim and two-pass parser returns exactly `Parse` of the descriptor's path and text |
| `Descriptor.RevisionLineWins` | src/main.ts:61-73 | if the first revision-form line has captures (v, c), the result is version v with changeset c, whatever other lines exist |
| `Descriptor.PlainLineFallback` | src/main.ts:75-87 | if no line has the revision form, the first plain-form line gives the version and there is no changeset |
| `Descriptor.NotFoundExactly` | src/main.ts:61-89 | parsing fails if and only if no trimmed line matches either pattern, and the error names the descriptor's path |
| `Descriptor.ParsedShape` | src/main.ts:62-86 | a revision result's version has no space and its changeset has no `)`; a fallback version is non-empty and does not end in whitespace; each comes from some line in the pattern's form |
| `Descriptor.CrlfInvariant` | src/main.ts:54-59 | a descriptor with Windows line endings parses exactly like the same descriptor with Unix line endings |
| `Locator.SelectProjectVersion` | src/main.ts:34-42 | selection succeeds if and only if there is exactly one match, returns that match, and otherwise reports the number of matches |
| `Locator.SelectsSoleMatch` | src/main.ts:35-42 | the selection returns p if and only if the matches are exactly [p] |
| `Image.ImageName` | src/main.ts:134 | the image name is `ghcr.io/playeveryware/unity:` followed by exactly the version |
| `Image.ImageNameInjective` | src/main.ts:134 | different versions give different image names |
| `Image.CheckImage` | src/main.ts:100-118 | an empty token is an error; a failed request passes its failure on; otherwise the result is true if and only if some tag of some record equals the version |
| `Action.ImageCheckRequestedExactly` | src/main.ts:137 | the image check runs for every capitalisation of `true` and for no other input |
| `Action.Run` | src/main.ts:124-147 | the run fails with the first failing step's error. On success the outputs are the parsed version and changeset, the project path, the `Library` flag and the image name for the version; the image-exists output is present exactly when the check was requested, and it is true if and only if a matching tag exists |
| `Scenarios.NewerDescriptor` | src/main.ts:61-73 | a descriptor with a plain line then a revision line gives the revision line's version and changeset, for both LF and CRLF line endings |
| `Scenarios.OlderDescriptor` | src/main.ts:75-87 | a descriptor with only a plain line gives that version and no changeset |
| `Scenarios.MalformedRevisionDescriptor` | src/main.ts:61-89 | a descriptor whose only line is a revision line without a changeset gives the not-found error |

## Left out

- Reading the action's inputs is left out (`core.getInput` for `path`, `project-version`,
  `check-image`, `image-token`). The check-image flag and the token are parameters of `Run`.
  The empty-`path` guard (src/main.ts:16-19) is part of reading the inputs and is not modelled.
- The explicit `project-version` branch (src/main.ts:22-31) is left out. It joins paths with
  `path.join` and tests existence with `fs.statSync`, both filesystem behaviour.
- The recursive `glob.sync` search is left out. Its matches are the `candidates` parameter,
  and only the exactly-one rule is modelled.
- Resolving the project root with `fs.realpathSync` is left out. The resolved root is the
  `projectPath` parameter of `Run`.
- Reading the descriptor is left out. Its contents are the `text` parameter, as a sequence
  of Unicode scalar values. JavaScript's UTF-16 code units and lone surrogates are not modelled.
- Testing for the `Library` folder is left out. Its answer is the `libraryExists` parameter.
- The Octokit request and its asynchrony are left out. Its response is the `response`
  parameter: the listed records with their tags, or a failure that is propagated. Only the
  single returned page is seen, as in the code.
- Logging is left out: `core.error` for each candidate found, `console.log`, and the
  `startGroup`/`endGroup` calls. None of it affects a result.
- Error message text is not modelled. Each failure carries its data: the match count, the
  descriptor's path, or the request failure's reason. Formatting these into message strings
  is left out.
- `core.setOutput` and `core.setFailed` are left out. A successful run is an `Outputs`
  value, and a failed run is its `Error`. The code sets `image-exists` before the other
  outputs, but no step after the check can fail, so a run's outputs are all set or none are.
  How the toolkit writes an absent changeset is not modelled.
- The `instanceof Error` classification at the top of `run` (src/main.ts:148-154) is about
  JavaScript exception objects. It is not modelled.
- Regular expressions in general are not modelled. The two fixed patterns are hand-written
  matchers, proved equal to their declarative forms.
