/** The parser of a Unity project's `ProjectSettings/ProjectVersion.txt`:
    the descriptor text is split into lines, every line is right-trimmed,
    and two independent passes look for the first line of each of two
    forms, the revision-qualified form taking precedence:

      m_EditorVersionWithRevision: <version> (<changeset>)
      m_EditorVersion: <version>                                      */
module Descriptor {
  import opened Wrappers
  import opened Text

  /** What the parser extracts: the editor version and, from the newer form, the changeset. */
  datatype EditorVersion = EditorVersion(version: string, changeset: Option<string>)

  const RevisionKey := "m_EditorVersionWithRevision: "
  const PlainKey := "m_EditorVersion: "

  /** The pattern `^m_EditorVersionWithRevision: ([^ ]*) \(([^)]*)\)$` matches `line`
      with `version` as its first capture and `changeset` as its second. */
  ghost predicate RevisionForm(line: string, version: string, changeset: string) {
    line == RevisionKey + version + " (" + changeset + ")"
    && ' ' !in version && ')' !in changeset
  }

  /** The pattern `^m_EditorVersion: (.*)$` matches `line` with `version` as its capture
      (`.` matches anything but a line terminator, `$` only the end of the line). */
  ghost predicate PlainForm(line: string, version: string) {
    line == PlainKey + version
    && forall k :: 0 <= k < |version| ==> !IsLineTerminator(version[k])
  }

  /** The revision matcher: the version runs up to the first space after the key,
      and what follows it must be ` (`, a changeset free of `)`, and a final `)`. */
  function MatchRevision(line: string): (m: Option<EditorVersion>)
    ensures m.Some? ==>
      m.value.changeset.Some? && RevisionForm(line, m.value.version, m.value.changeset.value)
  {
    if !StartsWith(line, RevisionKey) then None
    else
      var rest := line[|RevisionKey|..];
      var space := IndexOf(rest, ' ');
      var tail := rest[space..];
      if 3 <= |tail| && tail[1] == '(' && tail[|tail| - 1] == ')' && ')' !in tail[2..|tail| - 1] then
        var version, changeset := rest[..space], tail[2..|tail| - 1];
        assert line == RevisionKey + rest;
        assert rest == version + tail;
        RevisionLineRebuilt(line, rest, version, tail, changeset);
        Some(EditorVersion(version, Some(changeset)))
      else None
  }

  lemma RevisionLineRebuilt(line: string, rest: string, version: string, tail: string, changeset: string)
    requires line == RevisionKey + rest && rest == version + tail
    requires 3 <= |tail| && tail[0] == ' ' && tail[1] == '(' && tail[|tail| - 1] == ')'
    requires changeset == tail[2..|tail| - 1]
    ensures line == RevisionKey + version + " (" + changeset + ")"
  {
  }

  /** The fallback matcher: the version is everything after the key. */
  function MatchPlain(line: string): (m: Option<EditorVersion>)
    ensures m.Some? ==> m.value.changeset.None? && PlainForm(line, m.value.version)
  {
    if StartsWith(line, PlainKey)
      && forall k :: |PlainKey| <= k < |line| ==> !IsLineTerminator(line[k])
    then
      assert line == PlainKey + line[|PlainKey|..];
      Some(EditorVersion(line[|PlainKey|..], None))
    else None
  }

  /** The revision matcher accepts exactly the lines of the revision pattern. */
  lemma RevisionPatternExact(line: string, version: string, changeset: string)
    ensures MatchRevision(line) == Some(EditorVersion(version, Some(changeset)))
      <==> RevisionForm(line, version, changeset)
  {
    if RevisionForm(line, version, changeset) {
      var rest := version + " (" + changeset + ")";
      assert line == RevisionKey + rest;
      assert StartsWith(line, RevisionKey);
      assert line[|RevisionKey|..] == rest;
      var space := IndexOf(rest, ' ');
      assert rest[|version|] == ' ';
      assert forall k :: 0 <= k < |version| ==> rest[k] == version[k];
      assert space == |version|;
      var tail := rest[space..];
      assert tail == " (" + changeset + ")";
      assert tail[2..|tail| - 1] == changeset;
      assert rest[..space] == version;
    }
  }

  /** The fallback matcher accepts exactly the lines of the plain pattern. */
  lemma PlainPatternExact(line: string, version: string)
    ensures MatchPlain(line) == Some(EditorVersion(version, None)) <==> PlainForm(line, version)
  {
  }

  /** A revision-qualified line, well formed or not, is never taken by the fallback pattern. */
  lemma RevisionLineNotPlain(line: string)
    requires StartsWith(line, "m_EditorVersionWithRevision")
    ensures MatchPlain(line).None?
  {
    assert line[15] == "m_EditorVersionWithRevision"[15] == 'W';
    assert PlainKey[15] == ':';
  }

  /** The two passes, in the order they run. */
  datatype Pattern = WithRevision | WithoutRevision

  function Match(p: Pattern, line: string): Option<EditorVersion> {
    match p
    case WithRevision => MatchRevision(line)
    case WithoutRevision => MatchPlain(line)
  }

  /** One pass: the match of the first line that matches, if any. */
  function Scan(p: Pattern, lines: seq<string>): Option<EditorVersion>
    decreases |lines|
  {
    if lines == [] then None
    else if Match(p, lines[0]).Some? then Match(p, lines[0])
    else Scan(p, lines[1..])
  }

  /** A pass returns the match of the first matching line; later lines are not inspected. */
  lemma {:induction false} ScanFindsFirst(p: Pattern, lines: seq<string>, i: nat)
    requires i < |lines| && Match(p, lines[i]).Some?
    requires forall k :: 0 <= k < i ==> Match(p, lines[k]).None?
    ensures Scan(p, lines) == Match(p, lines[i])
    decreases i
  {
    if i > 0 {
      assert Match(p, lines[0]).None?;
      ScanFindsFirst(p, lines[1..], i - 1);
    }
  }

  /** A pass finds nothing exactly when no line matches. */
  lemma {:induction false} ScanFails(p: Pattern, lines: seq<string>)
    ensures Scan(p, lines).None? <==> forall k :: 0 <= k < |lines| ==> Match(p, lines[k]).None?
    decreases |lines|
  {
    if lines != [] {
      ScanFails(p, lines[1..]);
      if Match(p, lines[0]).None? {
        forall k | 0 <= k < |lines| && k != 0 ensures lines[k] == lines[1..][k - 1] { }
      }
    }
  }

  /** The descriptor's lines, each right-trimmed. */
  function TrimmedLines(text: string): seq<string> {
    var pieces := Split(text);
    seq(|pieces|, k requires 0 <= k < |pieces| => TrimRight(pieces[k]))
  }

  /** The parser's result as a function of the descriptor's path and text. */
  function Parse(descriptorPath: string, text: string): Result<EditorVersion> {
    var lines := TrimmedLines(text);
    match Scan(WithRevision, lines)
    case Some(found) => Ok(found)
    case None =>
      match Scan(WithoutRevision, lines)
      case Some(found) => Ok(found)
      case None => Err(VersionNotFound(descriptorPath))
  }

  /** `determinUnityVersion`'s text handling: split, right-trim every line in place,
      then the revision pass and the fallback pass, each returning on its first match. */
  method DetermineUnityVersion(descriptorPath: string, text: string) returns (r: Result<EditorVersion>)
    ensures r == Parse(descriptorPath, text)
  {
    var pieces := Split(text);
    var lines := new string[|pieces|](k requires 0 <= k < |pieces| => pieces[k]);
    TrimLines(lines);
    assert lines[..] == TrimmedLines(text);

    var found := ScanLines(WithRevision, lines);
    if found.Some? {
      return Ok(found.value);
    }
    found := ScanLines(WithoutRevision, lines);
    if found.Some? {
      return Ok(found.value);
    }
    return Err(VersionNotFound(descriptorPath));
  }

  /** Right-trims every line of the array in place. */
  method TrimLines(lines: array<string>)
    modifies lines
    ensures forall k :: 0 <= k < lines.Length ==> lines[k] == TrimRight(old(lines[k]))
  {
    for ii := 0 to lines.Length
      invariant forall k :: 0 <= k < ii ==> lines[k] == TrimRight(old(lines[k]))
      invariant forall k :: ii <= k < lines.Length ==> lines[k] == old(lines[k])
    {
      lines[ii] := TrimRight(lines[ii]);
    }
  }

  /** One pass over the lines, returning the match of the first line that matches. */
  method ScanLines(p: Pattern, lines: array<string>) returns (m: Option<EditorVersion>)
    ensures m == Scan(p, lines[..])
  {
    for i := 0 to lines.Length
      invariant forall k :: 0 <= k < i ==> Match(p, lines[k]).None?
    {
      var candidate := Match(p, lines[i]);
      if candidate.Some? {
        ScanFindsFirst(p, lines[..], i);
        return candidate;
      }
    }
    ScanFails(p, lines[..]);
    return None;
  }

  // ---- Properties of the parser ----

  /** The first revision-qualified line decides the result, whatever `m_EditorVersion:`
      lines or other revision lines surround it. */
  lemma RevisionLineWins(descriptorPath: string, text: string, i: nat, version: string, changeset: string)
    requires i < |TrimmedLines(text)|
    requires RevisionForm(TrimmedLines(text)[i], version, changeset)
    requires forall k :: 0 <= k < i ==> MatchRevision(TrimmedLines(text)[k]).None?
    ensures Parse(descriptorPath, text) == Ok(EditorVersion(version, Some(changeset)))
  {
    var lines := TrimmedLines(text);
    RevisionPatternExact(lines[i], version, changeset);
    ScanFindsFirst(WithRevision, lines, i);
  }

  /** Without any revision-qualified line, the first `m_EditorVersion: ` line decides,
      and the result carries no changeset. */
  lemma PlainLineFallback(descriptorPath: string, text: string, i: nat, version: string)
    requires i < |TrimmedLines(text)|
    requires forall k :: 0 <= k < |TrimmedLines(text)| ==> MatchRevision(TrimmedLines(text)[k]).None?
    requires PlainForm(TrimmedLines(text)[i], version)
    requires forall k :: 0 <= k < i ==> MatchPlain(TrimmedLines(text)[k]).None?
    ensures Parse(descriptorPath, text) == Ok(EditorVersion(version, None))
  {
    var lines := TrimmedLines(text);
    ScanFails(WithRevision, lines);
    PlainPatternExact(lines[i], version);
    ScanFindsFirst(WithoutRevision, lines, i);
  }

  /** Parsing fails, naming the descriptor, exactly when no line matches either pattern. */
  lemma NotFoundExactly(descriptorPath: string, text: string)
    ensures Parse(descriptorPath, text).Err? <==>
      forall k :: 0 <= k < |TrimmedLines(text)| ==>
        MatchRevision(TrimmedLines(text)[k]).None? && MatchPlain(TrimmedLines(text)[k]).None?
    ensures Parse(descriptorPath, text).Err? ==> Parse(descriptorPath, text).error == VersionNotFound(descriptorPath)
  {
    var lines := TrimmedLines(text);
    ScanFails(WithRevision, lines);
    ScanFails(WithoutRevision, lines);
  }

  /** Every successful result comes from one trimmed line of the descriptor: a revision line
      whose version has no space and whose changeset has no `)`, or else a plain line whose
      version is non-empty and does not end in whitespace. */
  lemma ParsedShape(descriptorPath: string, text: string)
    requires Parse(descriptorPath, text).Ok?
    ensures var e := Parse(descriptorPath, text).value;
      match e.changeset
      case Some(c) =>
        ' ' !in e.version && ')' !in c
        && exists i :: 0 <= i < |TrimmedLines(text)| && RevisionForm(TrimmedLines(text)[i], e.version, c)
      case None =>
        e.version != [] && !IsWhitespace(e.version[|e.version| - 1])
        && exists i :: 0 <= i < |TrimmedLines(text)| && PlainForm(TrimmedLines(text)[i], e.version)
  {
    var lines := TrimmedLines(text);
    var e := Parse(descriptorPath, text).value;
    ScanFails(WithRevision, lines);
    var p := if Scan(WithRevision, lines).Some? then WithRevision else WithoutRevision;
    assert Scan(p, lines) == Some(e);
    var i := ScanWitness(p, lines);
    if p == WithoutRevision {
      var line := lines[i];
      assert line == TrimRight(Split(text)[i]);
      assert line == PlainKey + e.version;
      assert PlainKey[|PlainKey| - 1] == ' ';
      if e.version == [] {
        assert false;
      }
      assert line[|line| - 1] == e.version[|e.version| - 1];
    }
  }

  /** The line a successful pass took its match from. */
  lemma {:induction false} ScanWitness(p: Pattern, lines: seq<string>) returns (i: nat)
    requires Scan(p, lines).Some?
    ensures i < |lines| && Match(p, lines[i]) == Scan(p, lines)
    decreases |lines|
  {
    if Match(p, lines[0]).Some? {
      i := 0;
    } else {
      var j := ScanWitness(p, lines[1..]);
      i := j + 1;
    }
  }

  /** Trailing whitespace on each line does not change the trimmed lines, so a descriptor
      with Windows line endings parses like the same descriptor with Unix line endings. */
  lemma CrlfInvariant(descriptorPath: string, text: string)
    ensures Parse(descriptorPath, ToCrlf(text)) == Parse(descriptorPath, text)
  {
    SplitCrlf(text);
    var a, b := Split(ToCrlf(text)), Split(text);
    forall k | 0 <= k < |b| ensures TrimRight(a[k]) == TrimRight(b[k]) {
      if a[k] != b[k] {
        TrimRightIgnoresTrailingWhitespace(b[k], "\r");
      }
    }
    assert TrimmedLines(ToCrlf(text)) == TrimmedLines(text);
  }
}
