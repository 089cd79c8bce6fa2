/** The string primitives the descriptor parser relies on: JavaScript's
    `split('\n')` and `trimRight()`, with the ECMAScript whitespace set
    written out code point by code point. */
module Text {

  /** ECMAScript LineTerminator: the characters a regular-expression `.` does not match. */
  predicate IsLineTerminator(c: char) {
    c == '\n' || c == '\r' || c == '\U{2028}' || c == '\U{2029}'
  }

  /** ECMAScript WhiteSpace and LineTerminator: the characters `trimRight` strips. */
  predicate IsWhitespace(c: char) {
    c == '\t' || c == '\U{B}' || c == '\U{C}' || c == ' ' || c == '\U{A0}' || c == '\U{FEFF}'
    || c == '\U{1680}' || ('\U{2000}' <= c <= '\U{200A}') || c == '\U{202F}' || c == '\U{205F}'
    || c == '\U{3000}' || IsLineTerminator(c)
  }

  predicate StartsWith(s: string, prefix: string) {
    |prefix| <= |s| && s[..|prefix|] == prefix
  }

  /** Index of the first occurrence of `c` in `s`, or `|s|` when there is none. */
  function IndexOf(s: string, c: char): (i: nat)
    ensures i <= |s|
    ensures i < |s| ==> s[i] == c
    ensures forall k :: 0 <= k < i ==> s[k] != c
    decreases |s|
  {
    if s == [] then 0 else if s[0] == c then 0 else 1 + IndexOf(s[1..], c)
  }

  /** `trimRight`: the longest prefix of `s` that does not end in whitespace. */
  function TrimRight(s: string): (r: string)
    ensures r <= s
    ensures r == [] || !IsWhitespace(r[|r| - 1])
    ensures forall k :: |r| <= k < |s| ==> IsWhitespace(s[k])
    decreases |s|
  {
    if s != [] && IsWhitespace(s[|s| - 1]) then TrimRight(s[..|s| - 1]) else s
  }

  /** The three properties in TrimRight's contract determine its result. */
  lemma TrimRightUnique(s: string, r: string)
    requires r <= s
    requires r == [] || !IsWhitespace(r[|r| - 1])
    requires forall k :: |r| <= k < |s| ==> IsWhitespace(s[k])
    ensures r == TrimRight(s)
  {
    var t := TrimRight(s);
    assert |r| == |t|;
    assert r == s[..|r|] && t == s[..|t|];
  }

  /** Whitespace appended to a string does not survive `trimRight`. */
  lemma TrimRightIgnoresTrailingWhitespace(s: string, w: string)
    requires forall k :: 0 <= k < |w| ==> IsWhitespace(w[k])
    ensures TrimRight(s + w) == TrimRight(s)
  {
    var r := TrimRight(s);
    assert r <= s + w by { assert (s + w)[..|s|] == s; }
    forall k | |r| <= k < |s + w| ensures IsWhitespace((s + w)[k]) {
      if k < |s| { assert (s + w)[k] == s[k]; } else { assert (s + w)[k] == w[k - |s|]; }
    }
    TrimRightUnique(s + w, r);
  }

  /** `trimRight` is idempotent. */
  lemma TrimRightIdempotent(s: string)
    ensures TrimRight(TrimRight(s)) == TrimRight(s)
  {
  }

  /** `s.split('\n')`: the pieces of `s` between line feeds (one piece when there is none). */
  function Split(s: string): (r: seq<string>)
    ensures |r| >= 1
    ensures forall k :: 0 <= k < |r| ==> '\n' !in r[k]
    decreases |s|
  {
    if s == [] then [""]
    else
      var rest := Split(s[1..]);
      if s[0] == '\n' then [""] + rest
      else [[s[0]] + rest[0]] + rest[1..]
  }

  /** The inverse of Split: the pieces put back together with line feeds between them. */
  function Join(pieces: seq<string>): string
    requires |pieces| >= 1
    decreases |pieces|
  {
    if |pieces| == 1 then pieces[0] else pieces[0] + "\n" + Join(pieces[1..])
  }

  lemma {:induction false} JoinSplit(s: string)
    ensures Join(Split(s)) == s
    decreases |s|
  {
    if s != [] {
      var rest := Split(s[1..]);
      JoinSplit(s[1..]);
      if s[0] == '\n' {
        assert Split(s) == [""] + rest;
        assert ([""] + rest)[1..] == rest;
        assert s == "\n" + s[1..];
      } else if |rest| == 1 {
        assert Split(s) == [[s[0]] + rest[0]];
        assert s == [s[0]] + s[1..];
      } else {
        var first := [[s[0]] + rest[0]];
        assert Split(s) == first + rest[1..];
        assert (first + rest[1..])[1..] == rest[1..];
        assert Join(rest) == rest[0] + "\n" + Join(rest[1..]);
        assert s == [s[0]] + s[1..];
      }
    }
  }

  /** Splitting text that starts with a piece free of line feeds yields that piece first. */
  lemma {:induction false} SplitAfterPiece(a: string, t: string)
    requires '\n' !in a
    ensures Split(a + t) == [a + Split(t)[0]] + Split(t)[1..]
    decreases |a|
  {
    if a == [] {
      assert a + t == t;
      assert a + Split(t)[0] == Split(t)[0];
      assert [Split(t)[0]] + Split(t)[1..] == Split(t);
    } else {
      assert (a + t)[0] == a[0];
      assert (a + t)[1..] == a[1..] + t;
      SplitAfterPiece(a[1..], t);
      assert [a[0]] + (a[1..] + Split(t)[0]) == a + Split(t)[0];
    }
  }

  lemma {:induction false} SplitJoin(pieces: seq<string>)
    requires |pieces| >= 1
    requires forall k :: 0 <= k < |pieces| ==> '\n' !in pieces[k]
    ensures Split(Join(pieces)) == pieces
    decreases |pieces|
  {
    if |pieces| == 1 {
      SplitAfterPiece(pieces[0], "");
      assert pieces[0] + "" == pieces[0];
    } else {
      var rest := Join(pieces[1..]);
      SplitJoin(pieces[1..]);
      assert Split("\n" + rest) == [""] + Split(rest) by {
        assert ("\n" + rest)[1..] == rest;
      }
      SplitAfterPiece(pieces[0], "\n" + rest);
      assert pieces[0] + "\n" + rest == pieces[0] + ("\n" + rest);
      assert pieces[0] + "" == pieces[0];
      assert ([""] + pieces[1..])[1..] == pieces[1..];
      assert [pieces[0]] + pieces[1..] == pieces;
    }
  }

  /** The same text with Windows line endings: every line feed preceded by a carriage return. */
  function ToCrlf(s: string): string
    decreases |s|
  {
    if s == [] then [] else (if s[0] == '\n' then "\r\n" else [s[0]]) + ToCrlf(s[1..])
  }

  /** Splitting CRLF text gives the same pieces, each possibly followed by one carriage return. */
  lemma {:induction false} SplitCrlf(s: string)
    ensures |Split(ToCrlf(s))| == |Split(s)|
    ensures forall k :: 0 <= k < |Split(s)| ==>
      Split(ToCrlf(s))[k] == Split(s)[k] || Split(ToCrlf(s))[k] == Split(s)[k] + "\r"
    decreases |s|
  {
    if s != [] {
      var rest, crlfRest := Split(s[1..]), Split(ToCrlf(s[1..]));
      SplitCrlf(s[1..]);
      if s[0] == '\n' {
        var c := ToCrlf(s);
        assert c == "\r\n" + ToCrlf(s[1..]);
        assert c[1..] == "\n" + ToCrlf(s[1..]);
        assert ("\n" + ToCrlf(s[1..]))[1..] == ToCrlf(s[1..]);
        assert Split(c[1..]) == [""] + crlfRest;
        assert ([""] + crlfRest)[0] == "" && ([""] + crlfRest)[1..] == crlfRest;
        assert c[0] == '\r';
        assert Split(c) == [[c[0]] + ""] + crlfRest;
        assert [c[0]] + "" == "\r";
        assert Split(c) == ["\r"] + crlfRest;
        assert Split(s) == [""] + rest;
      } else {
        var c := ToCrlf(s);
        assert c == [s[0]] + ToCrlf(s[1..]);
        assert c[1..] == ToCrlf(s[1..]);
        assert Split(c) == [[s[0]] + crlfRest[0]] + crlfRest[1..];
        assert Split(s) == [[s[0]] + rest[0]] + rest[1..];
        assert crlfRest[0] == rest[0] || crlfRest[0] == rest[0] + "\r";
        assert [s[0]] + (rest[0] + "\r") == ([s[0]] + rest[0]) + "\r";
        forall k | 1 <= k < |Split(s)|
          ensures Split(c)[k] == Split(s)[k] || Split(c)[k] == Split(s)[k] + "\r"
        {
          assert Split(c)[k] == crlfRest[k] && Split(s)[k] == rest[k];
        }
      }
    }
  }
}
