/** The conventional-commit subject grammar that `parseCommit` applies to the
    SUBJECT field, written out by hand instead of with a regular expression.
    The pattern is `^(\w*)(?:\(([\w\$\.\-\*\s]*)\))?\:\s(.*)$` in Go's RE2
    dialect: `\w` and `\s` are ASCII classes, `.` does not match a newline
    and `$` only matches at the end of the text. */
module ConventionalHeader {
  import opened Maybe

  /** The three captures of a successful match. */
  datatype Header = Header(kind: string, scope: string, subject: string)

  /** RE2 `\w`. */
  predicate IsWordChar(c: char) {
    ('a' <= c <= 'z') || ('A' <= c <= 'Z') || ('0' <= c <= '9') || c == '_'
  }

  /** RE2 `\s`: tab, newline, form feed, carriage return and space (no vertical tab). */
  predicate IsRegexSpace(c: char) {
    c == '\t' || c == '\n' || c == '\U{000C}' || c == '\r' || c == ' '
  }

  /** The character class of the scope capture; it does not include `)`. */
  predicate IsScopeChar(c: char) {
    IsWordChar(c) || c == '$' || c == '.' || c == '-' || c == '*' || IsRegexSpace(c)
  }

  /** The end of the longest run of characters of a class starting at `i`. */
  function RunEnd(s: string, i: nat, inClass: char -> bool): (e: nat)
    requires i <= |s|
    ensures i <= e <= |s|
    ensures forall k :: i <= k < e ==> inClass(s[k])
    ensures e < |s| ==> !inClass(s[e])
    decreases |s| - i
  {
    if i < |s| && inClass(s[i]) then RunEnd(s, i + 1, inClass) else i
  }

  /** The part of the pattern after the optional scope: `\:\s(.*)$` at `k`. */
  function AfterColon(v: string, kind: string, scope: string, k: nat): Option<Header>
    requires k <= |v|
  {
    if k + 2 <= |v| && v[k] == ':' && IsRegexSpace(v[k + 1]) && '\n' !in v[k + 2..] then
      Some(Header(kind, scope, v[k + 2..]))
    else None
  }

  /** Matches one subject line against the grammar. The type is the longest
      word-character prefix (no shorter one can be followed by `(` or `:`);
      when `(` follows, the scope must run up to the first `)`, as `)` is
      outside its class and the pattern cannot skip the group past a `(`. */
  function ParseHeader(v: string): (r: Option<Header>)
  {
    var t := RunEnd(v, 0, IsWordChar);
    if t < |v| && v[t] == '(' then
      var c := RunEnd(v, t + 1, IsScopeChar);
      if c < |v| && v[c] == ')' then AfterColon(v, v[..t], v[t + 1..c], c + 1) else None
    else AfterColon(v, v[..t], "", t)
  }

  /** The text of a subject line built from the grammar's parts: type, the
      optional parenthesised scope, `:`, one white-space character, rest. */
  function Compose(kind: string, scope: Option<string>, ws: char, rest: string): string {
    kind + (match scope case Some(sc) => "(" + sc + ")" case None => "") + [':', ws] + rest
  }

  /** The parts obey the character classes of the grammar. */
  predicate WellFormedParts(kind: string, scope: Option<string>, ws: char, rest: string) {
    && (forall c :: c in kind ==> IsWordChar(c))
    && (scope.Some? ==> forall c :: c in scope.value ==> IsScopeChar(c))
    && IsRegexSpace(ws)
    && '\n' !in rest
  }

  /** Every subject built from well-formed parts is matched, and the captures
      give back the type, the scope (empty without parentheses) and the rest. */
  lemma ParseHeaderComplete(kind: string, scope: Option<string>, ws: char, rest: string)
    requires WellFormedParts(kind, scope, ws, rest)
    ensures ParseHeader(Compose(kind, scope, ws, rest)) == Some(Header(kind, scope.ValueOr(""), rest))
  {
    var v := Compose(kind, scope, ws, rest);
    TypeRun(kind, v);
    match scope {
      case None =>
        assert v[|kind|..] == [':', ws] + rest;
        assert v[|kind| + 2..] == rest;
      case Some(sc) =>
        ScopeRun(kind, sc, ws, rest);
    }
  }

  /** The type capture of a composed subject is exactly its type part: the
      word-character run stops at the `(` or `:` that follows it. */
  lemma TypeRun(kind: string, v: string)
    requires forall c :: c in kind ==> IsWordChar(c)
    requires |kind| < |v| && v[..|kind|] == kind && (v[|kind|] == '(' || v[|kind|] == ':')
    ensures RunEnd(v, 0, IsWordChar) == |kind|
  {
    assert forall k :: 0 <= k < |kind| ==> v[k] == kind[k];
    assert !IsWordChar(v[|kind|]);
  }

  /** The scope capture of a composed subject with parentheses is exactly its
      scope part, and the colon and white space follow the `)`. */
  lemma ScopeRun(kind: string, sc: string, ws: char, rest: string)
    requires forall c :: c in sc ==> IsScopeChar(c)
    requires IsRegexSpace(ws) && '\n' !in rest
    requires RunEnd(Compose(kind, Some(sc), ws, rest), 0, IsWordChar) == |kind|
    ensures ParseHeader(Compose(kind, Some(sc), ws, rest)) == Some(Header(kind, sc, rest))
  {
    var v := Compose(kind, Some(sc), ws, rest);
    var t := |kind|;
    assert v[..t] == kind;
    assert v[t] == '(';
    var c := RunEnd(v, t + 1, IsScopeChar);
    assert forall k :: 0 <= k < |sc| ==> v[t + 1 + k] == sc[k];
    assert v[t + 1 + |sc|] == ')';
    assert c == t + 1 + |sc|;
    assert v[t + 1..c] == sc;
    assert v[c + 1..] == [':', ws] + rest;
    assert v[c + 3..] == rest;
  }

  /** The layout of a subject line with parentheses, cut at its delimiters. */
  lemma CutWithScope(v: string, t: nat, c: nat)
    requires t < c && c + 2 < |v|
    requires v[t] == '(' && v[c] == ')' && v[c + 1] == ':'
    ensures v == Compose(v[..t], Some(v[t + 1..c]), v[c + 2], v[c + 3..])
  {
    assert v == v[..t] + [v[t]] + v[t + 1..c] + [v[c]] + [v[c + 1], v[c + 2]] + v[c + 3..];
  }

  /** The layout of a subject line without parentheses, cut at the colon. */
  lemma CutWithoutScope(v: string, t: nat)
    requires t + 1 < |v| && v[t] == ':'
    ensures v == Compose(v[..t], None, v[t + 1], v[t + 2..])
  {
    assert v == v[..t] + [v[t], v[t + 1]] + v[t + 2..];
  }

  /** Every match comes from well-formed parts: the subject line is exactly
      the captures put back together, with the white space that was consumed
      after the colon and the parentheses if there were any. */
  lemma ParseHeaderSound(v: string) returns (scope: Option<string>, ws: char)
    requires ParseHeader(v).Some?
    ensures var h := ParseHeader(v).value;
      && WellFormedParts(h.kind, scope, ws, h.subject)
      && v == Compose(h.kind, scope, ws, h.subject)
      && h.scope == scope.ValueOr("")
  {
    var t := RunEnd(v, 0, IsWordChar);
    var kind := v[..t];
    assert forall c :: c in kind ==> IsWordChar(c);
    if t < |v| && v[t] == '(' {
      var c := RunEnd(v, t + 1, IsScopeChar);
      assert ParseHeader(v) == AfterColon(v, kind, v[t + 1..c], c + 1);
      scope, ws := Some(v[t + 1..c]), v[c + 2];
      assert forall x :: x in scope.value ==> IsScopeChar(x);
      CutWithScope(v, t, c);
    } else {
      assert ParseHeader(v) == AfterColon(v, kind, "", t);
      scope, ws := None, v[t + 1];
      CutWithoutScope(v, t);
    }
  }

  /** The conventional example: type, dotted scope and the rest of the line. */
  lemma ExampleWithScope()
    ensures ParseHeader("fix(api.client): retry on timeout") == Some(Header("fix", "api.client", "retry on timeout"))
  {
    assert "fix(api.client): retry on timeout" == Compose("fix", Some("api.client"), ' ', "retry on timeout");
    ParseHeaderComplete("fix", Some("api.client"), ' ', "retry on timeout");
  }

  /** Exactly one white-space character is consumed after the colon. */
  lemma ExampleExtraSpaceKept()
    ensures ParseHeader("fix:  a") == Some(Header("fix", "", " a"))
  {
    assert "fix:  a" == Compose("fix", None, ' ', " a");
    ParseHeaderComplete("fix", None, ' ', " a");
  }

  /** Without white space after the colon, or without a colon, nothing matches. */
  lemma ExamplesNoMatch()
    ensures ParseHeader("fix:a") == None
    ensures ParseHeader("update configs") == None
  {
    assert RunEnd("fix:a", 0, IsWordChar) == 3 by {
      assert RunEnd("fix:a", 3, IsWordChar) == 3;
    }
    assert RunEnd("update configs", 0, IsWordChar) == 6 by {
      assert RunEnd("update configs", 6, IsWordChar) == 6;
    }
  }
}
