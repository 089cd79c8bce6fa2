/** Descriptors of the shapes Unity writes, for any version and changeset, and what the
    parser makes of them. */
module Scenarios {
  import opened Wrappers
  import opened Text
  import opened Descriptor

  /** A version as Unity writes it: non-empty, with no line terminator, and not ending in
      whitespace. */
  ghost predicate EditorVersionText(v: string) {
    v != [] && !IsWhitespace(v[|v| - 1]) && forall k :: 0 <= k < |v| ==> !IsLineTerminator(v[k])
  }

  lemma PlainLineShape(v: string)
    requires EditorVersionText(v)
    ensures '\n' !in PlainKey + v && TrimRight(PlainKey + v) == PlainKey + v
    ensures MatchRevision(PlainKey + v).None?
  {
    var l := PlainKey + v;
    forall k | 0 <= k < |l| ensures l[k] != '\n' {
      if k >= |PlainKey| { assert l[k] == v[k - |PlainKey|]; }
    }
    assert l[|l| - 1] == v[|v| - 1];
    assert !StartsWith(l, RevisionKey) by {
      assert l[15] == ':';
      assert RevisionKey[15] == 'W';
    }
  }

  lemma RevisionLineShape(v: string, c: string)
    requires '\n' !in v && '\n' !in c
    ensures var l := RevisionKey + v + " (" + c + ")";
      '\n' !in l && TrimRight(l) == l
  {
    var l, r := RevisionKey + v + " (" + c + ")", v + " (" + c + ")";
    assert l == RevisionKey + r;
    forall k | 0 <= k < |l| ensures l[k] != '\n' {
      if k >= |RevisionKey| {
        var j := k - |RevisionKey|;
        assert l[k] == r[j];
        if j < |v| { assert r[j] == v[j]; }
        else if j < |v| + 2 { }
        else if j < |v| + 2 + |c| { assert r[j] == c[j - |v| - 2]; }
      }
    }
    assert l[|l| - 1] == ')';
  }

  /** A newer descriptor carries a plain line and then a revision line: the revision line's
      version and changeset win, with Unix or with Windows line endings. */
  lemma NewerDescriptor(descriptorPath: string, v: string, c: string)
    requires EditorVersionText(v) && ' ' !in v
    requires ')' !in c && '\n' !in c
    ensures var text := PlainKey + v + "\n" + (RevisionKey + v + " (" + c + ")") + "\n";
      Parse(descriptorPath, text) == Ok(EditorVersion(v, Some(c)))
      && Parse(descriptorPath, ToCrlf(text)) == Parse(descriptorPath, text)
  {
    var l1, l2 := PlainKey + v, RevisionKey + v + " (" + c + ")";
    var text := l1 + "\n" + l2 + "\n";
    PlainLineShape(v);
    assert [l1, l2, ""][1..] == [l2, ""] && [l2, ""][1..] == [""];
    assert Join([""]) == "";
    assert Join([l2, ""]) == l2 + "\n" + "";
    assert Join([l1, l2, ""]) == l1 + "\n" + (l2 + "\n" + "");
    assert Join([l1, l2, ""]) == text;
    RevisionLineShape(v, c);
    SplitJoin([l1, l2, ""]);
    assert TrimmedLines(text) == [l1, l2, ""];
    assert RevisionForm(l2, v, c);
    RevisionLineWins(descriptorPath, text, 1, v, c);
    CrlfInvariant(descriptorPath, text);
  }

  /** An older descriptor has only the plain line: its version, and no changeset. */
  lemma OlderDescriptor(descriptorPath: string, v: string)
    requires EditorVersionText(v)
    ensures Parse(descriptorPath, PlainKey + v + "\n") == Ok(EditorVersion(v, None))
  {
    var l1 := PlainKey + v;
    var text := l1 + "\n";
    PlainLineShape(v);
    assert [l1, ""][1..] == [""];
    assert Join([l1, ""]) == l1 + "\n" + "";
    assert Join([l1, ""]) == text;
    SplitJoin([l1, ""]);
    assert TrimmedLines(text) == [l1, ""];
    assert !StartsWith("", RevisionKey);
    PlainLineFallback(descriptorPath, text, 0, v);
  }

  lemma BareRevisionLineShape(v: string)
    requires EditorVersionText(v) && ' ' !in v
    ensures var l := RevisionKey + v;
      '\n' !in l && TrimRight(l) == l && MatchRevision(l).None? && MatchPlain(l).None?
  {
    var l := RevisionKey + v;
    forall k | 0 <= k < |l| ensures l[k] != '\n' {
      if k >= |RevisionKey| { assert l[k] == v[k - |RevisionKey|]; }
    }
    assert l[|l| - 1] == v[|v| - 1];
    assert l[..|RevisionKey|] == RevisionKey && l[|RevisionKey|..] == v;
    assert IndexOf(v, ' ') == |v|;
    assert StartsWith(l, "m_EditorVersionWithRevision") by {
      assert l[..27] == RevisionKey[..27];
    }
    RevisionLineNotPlain(l);
  }

  /** A revision line without its parenthesised changeset is matched by neither pattern,
      so a descriptor holding only that line yields the not-found error. */
  lemma MalformedRevisionDescriptor(descriptorPath: string, v: string)
    requires EditorVersionText(v) && ' ' !in v
    ensures Parse(descriptorPath, RevisionKey + v + "\n") == Err(VersionNotFound(descriptorPath))
  {
    var l1 := RevisionKey + v;
    var text := l1 + "\n";
    BareRevisionLineShape(v);
    assert [l1, ""][1..] == [""];
    assert Join([l1, ""]) == l1 + "\n" + "";
    assert Join([l1, ""]) == text;
    SplitJoin([l1, ""]);
    assert TrimmedLines(text) == [l1, ""];
    assert !StartsWith("", RevisionKey) && !StartsWith("", PlainKey);
    NotFoundExactly(descriptorPath, text);
  }
}
