/** `ParseCommits` and `parseCommit`: the `git log` dump cut into records,
    each record cut into `NAME:value` fields, the subject classified, the
    scope inferred when missing, and ignored commits blanked. */
module Commits {
  import opened Maybe
  import opened GoStrings
  import opened ConventionalHeader
  import Scope

  /** One commit of the changelog; `kind` is the conventional-commit type. */
  datatype Commit = Commit(hash: string, authorName: string, kind: string, scope: string, subject: string)

  /** The zero value `Commit{}` that ignored records leave in their slot. */
  const Blank := Commit("", "", "", "", "")

  /** The record separator and field delimiter put into the log format. */
  const Separator := "@@__CHGLOG__@@"
  const Delimiter := "@@__CHGLOG_DELIMITER__@@"

  const HashField := "HASH"
  const AuthorField := "AUTHOR"
  const SubjectField := "SUBJECT"
  const BodyField := "BODY"

  /** Subjects containing one of these are left out of the changelog. */
  const IgnoreList: seq<string> := [
    "update etc/telegraf.conf and etc/telegraf_windows.conf",
    "update configs"
  ]

  /** Every token has a colon; `parseCommit` slices at index -1 otherwise. */
  predicate WellFormedRecord(record: string, delimiter: string) {
    forall t :: t in Split(record, delimiter) ==> ':' in t
  }

  /** The field name: the text before the first colon. */
  function FieldName(token: string): (name: string)
    requires ':' in token
    ensures |name| < |token| && token[|name|] == ':' && name == token[..|name|]
    ensures ':' !in name
    ensures forall k :: 0 <= k < |name| ==> token[k] != ':'
  {
    OccursChar(token, ':');
    var i := Index(token, ":");
    assert forall j :: 0 <= j < i ==> token[j] != ':' by {
      forall j | 0 <= j < i
        ensures token[j] != ':'
      {
        assert !OccursAt(token, ":", j);
        assert token[j..j + 1] == [token[j]];
      }
    }
    token[..i]
  }

  /** The field value: everything after the first colon, trimmed. */
  function FieldValue(token: string): string
    requires ':' in token
  {
    TrimSpace(token[|FieldName(token)| + 1..])
  }

  /** A token is its name, a colon, and the untrimmed value. */
  lemma TokenLayout(name: string, raw: string)
    requires ':' !in name
    ensures ':' in name + ":" + raw
    ensures FieldName(name + ":" + raw) == name
    ensures FieldValue(name + ":" + raw) == TrimSpace(raw)
  {
    var t := name + ":" + raw;
    assert t[|name|] == ':';
    var n := FieldName(t);
    assert forall k :: 0 <= k < |name| ==> t[k] == name[k];
    assert |n| == |name|;
    assert t[|name| + 1..] == raw;
  }

  /** One iteration of the field loop: HASH, AUTHOR and SUBJECT change the
      commit; BODY and any other name are skipped. A subject that does not
      match the grammar leaves type, scope and subject as they were. */
  function ApplyToken(c: Commit, token: string): (r: Commit)
    requires ':' in token
    ensures FieldName(token) != HashField ==> r.hash == c.hash
    ensures FieldName(token) != AuthorField ==> r.authorName == c.authorName
    ensures FieldName(token) != SubjectField ==> r.kind == c.kind && r.scope == c.scope && r.subject == c.subject
  {
    var name, value := FieldName(token), FieldValue(token);
    if name == HashField then c.(hash := value)
    else if name == AuthorField then c.(authorName := value)
    else if name == SubjectField then
      match ParseHeader(value)
      case Some(h) => c.(kind := h.kind, scope := h.scope, subject := h.subject)
      case None => c
    else c
  }

  /** The whole field loop, in token order. */
  function ApplyTokens(c: Commit, tokens: seq<string>): Commit
    requires forall t :: t in tokens ==> ':' in t
    decreases |tokens|
  {
    if |tokens| == 0 then c else ApplyTokens(ApplyToken(c, tokens[0]), tokens[1..])
  }

  /** The value of the last token with the given name, or the default. */
  function LastValue(tokens: seq<string>, name: string, default: string): string
    requires forall t :: t in tokens ==> ':' in t
  {
    if |tokens| == 0 then default
    else
      var last := tokens[|tokens| - 1];
      if FieldName(last) == name then FieldValue(last)
      else LastValue(tokens[..|tokens| - 1], name, default)
  }

  /** The captures of the last SUBJECT token whose value matches the grammar. */
  function LastHeader(tokens: seq<string>): Option<Header>
    requires forall t :: t in tokens ==> ':' in t
  {
    if |tokens| == 0 then None
    else
      var last := tokens[|tokens| - 1];
      if FieldName(last) == SubjectField && ParseHeader(FieldValue(last)).Some? then
        ParseHeader(FieldValue(last))
      else LastHeader(tokens[..|tokens| - 1])
  }

  /** The loop over `tokens + [t]` is the loop over `tokens`, then `t`. */
  lemma {:induction false} ApplyTokensSnoc(c: Commit, tokens: seq<string>, t: string)
    requires forall x :: x in tokens ==> ':' in x
    requires ':' in t
    ensures ApplyTokens(c, tokens + [t]) == ApplyToken(ApplyTokens(c, tokens), t)
    decreases |tokens|
  {
    if |tokens| > 0 {
      assert (tokens + [t])[1..] == tokens[1..] + [t];
      ApplyTokensSnoc(ApplyToken(c, tokens[0]), tokens[1..], t);
    }
  }

  /** What the field loop leaves in each field: a later token of the same
      name overwrites an earlier one, and the type, scope and subject come
      together from the last subject that matched. */
  lemma {:induction false} ApplyTokensFields(c: Commit, tokens: seq<string>)
    requires forall t :: t in tokens ==> ':' in t
    ensures var r := ApplyTokens(c, tokens);
      && r.hash == LastValue(tokens, HashField, c.hash)
      && r.authorName == LastValue(tokens, AuthorField, c.authorName)
      && match LastHeader(tokens)
         case None => r.kind == c.kind && r.scope == c.scope && r.subject == c.subject
         case Some(h) => r.kind == h.kind && r.scope == h.scope && r.subject == h.subject
    decreases |tokens|
  {
    if |tokens| > 0 {
      var init, last := tokens[..|tokens| - 1], tokens[|tokens| - 1];
      assert tokens == init + [last];
      ApplyTokensSnoc(c, init, last);
      ApplyTokensFields(c, init);
    }
  }

  /** A token whose name is not HASH, AUTHOR or SUBJECT (BODY, say) leaves
      the commit as it is. */
  lemma OtherFieldsIgnored(c: Commit, name: string, raw: string)
    requires ':' !in name && name != HashField && name != AuthorField && name != SubjectField
    ensures ApplyToken(c, name + ":" + raw) == c
  {
    TokenLayout(name, raw);
  }

  /** The BODY token the log format asks for is read but never stored. */
  lemma BodyIgnored(c: Commit, raw: string)
    ensures ApplyToken(c, BodyField + ":" + raw) == c
  {
    OtherFieldsIgnored(c, BodyField, raw);
  }

  /** The diff-tree output recorded for a hash; a missing hash is a failed command. */
  function ChangedFiles(diffTrees: map<string, string>, hash: string): Option<string> {
    if hash in diffTrees then Some(diffTrees[hash]) else None
  }

  /** `parseCommit`: the field loop from the zero commit, then the scope
      inference when no scope was given. `diffTrees` holds the output of
      `git diff-tree` per commit hash. */
  function ParseCommit(input: string, delimiter: string, diffTrees: map<string, string>): Commit
    requires WellFormedRecord(input, delimiter)
  {
    var commit := ApplyTokens(Blank, Split(input, delimiter));
    if commit.scope == "" then commit.(scope := Scope.DetectScope(ChangedFiles(diffTrees, commit.hash)))
    else commit
  }

  /** What `parseCommit` returns for the plain fields: the last hash and the
      last author given, or empty. */
  lemma ParseCommitIdentity(input: string, delimiter: string, diffTrees: map<string, string>)
    requires WellFormedRecord(input, delimiter)
    ensures var c, tokens := ParseCommit(input, delimiter, diffTrees), Split(input, delimiter);
      && c.hash == LastValue(tokens, HashField, "")
      && c.authorName == LastValue(tokens, AuthorField, "")
  {
    ApplyTokensFields(Blank, Split(input, delimiter));
  }

  /** What `parseCommit` returns for the classification: the type, subject
      and explicit scope of the last subject that matched, or empty; and the
      inferred scope exactly when no explicit one was given. */
  lemma ParseCommitFields(input: string, delimiter: string, diffTrees: map<string, string>)
    requires WellFormedRecord(input, delimiter)
    ensures var c := ParseCommit(input, delimiter, diffTrees);
      var inferred := Scope.DetectScope(ChangedFiles(diffTrees, c.hash));
      match LastHeader(Split(input, delimiter))
      case None => c.kind == "" && c.subject == "" && c.scope == inferred
      case Some(h) =>
        && c.kind == h.kind && c.subject == h.subject
        && c.scope == (if h.scope != "" then h.scope else inferred)
  {
    ApplyTokensFields(Blank, Split(input, delimiter));
  }

  /** The ignore check: some entry of the list occurs in the subject. */
  function IsIgnored(subject: string, ignoreList: seq<string>): (b: bool)
    ensures b <==> exists j :: 0 <= j < |ignoreList| && Occurs(subject, ignoreList[j])
  {
    if |ignoreList| == 0 then false
    else if Contains(subject, ignoreList[0]) then true
    else
      var b := IsIgnored(subject, ignoreList[1..]);
      assert forall j :: 1 <= j < |ignoreList| ==> ignoreList[j] == ignoreList[1..][j - 1];
      b
  }

  /** A subject that did not match the grammar stays empty and so is never
      ignored: no entry of the list is empty. */
  lemma UnparsedNeverIgnored()
    ensures !IsIgnored("", IgnoreList)
  {
    forall j, i | 0 <= j < |IgnoreList|
      ensures !OccursAt("", IgnoreList[j], i)
    {
    }
  }

  /** The records of the log: the texts after each separator. */
  function Records(log: string): seq<string> {
    Split(log, Separator)[1..]
  }

  /** The log is its leading text followed by every record, each behind a
      separator, and no record contains a separator: one record per
      separator, in log order. */
  lemma {:induction false} RecordsCoverLog(log: string)
    ensures log == Split(log, Separator)[0] + Concat(Separator, Records(log))
    ensures forall k :: 0 <= k < |Records(log)| ==> !Occurs(Records(log)[k], Separator)
  {
    var parts := Split(log, Separator);
    JoinAsConcat(parts, Separator);
  }

  /** Each part preceded by `sep`, concatenated. */
  function Concat(sep: string, parts: seq<string>): string {
    if |parts| == 0 then "" else sep + parts[0] + Concat(sep, parts[1..])
  }

  lemma {:induction false} JoinAsConcat(parts: seq<string>, sep: string)
    requires |parts| >= 1
    ensures Join(parts, sep) == parts[0] + Concat(sep, parts[1..])
    decreases |parts|
  {
    if |parts| > 1 {
      JoinAsConcat(parts[1..], sep);
      assert parts[1..][1..] == parts[2..];
      assert Concat(sep, parts[1..]) == sep + parts[1] + Concat(sep, parts[2..]);
    }
  }

  /** The log is well formed when every field token of every record has a colon. */
  predicate WellFormedLog(log: string) {
    forall k :: 0 <= k < |Records(log)| ==> WellFormedRecord(Records(log)[k], Delimiter)
  }

  /** What ends up in a record's slot. */
  function Slot(record: string, diffTrees: map<string, string>): Commit
    requires WellFormedRecord(record, Delimiter)
  {
    var c := ParseCommit(record, Delimiter, diffTrees);
    if IsIgnored(c.subject, IgnoreList) then Blank else c
  }

  /** A record whose subject never matched the grammar is kept as parsed,
      uncategorised, in its slot. */
  lemma UnparsedRecordKept(record: string, diffTrees: map<string, string>)
    requires WellFormedRecord(record, Delimiter)
    ensures LastHeader(Split(record, Delimiter)) == None ==>
      Slot(record, diffTrees) == ParseCommit(record, Delimiter, diffTrees) && Slot(record, diffTrees).kind == ""
  {
    ParseCommitFields(record, Delimiter, diffTrees);
    UnparsedNeverIgnored();
  }

  /** `ParseCommits`. `gitLog` is the output of `git log` since the latest
      tag, or None when any of the three git commands failed; `diffTrees`
      the `git diff-tree` output per hash. An ignored record keeps its slot,
      holding the zero commit. */
  method ParseCommits(gitLog: Option<string>, diffTrees: map<string, string>) returns (r: Option<seq<Commit>>)
    requires gitLog.Some? ==> WellFormedLog(gitLog.value)
    ensures r.None? <==> gitLog.None?
    ensures r.Some? ==> |r.value| == |Records(gitLog.value)|
    ensures r.Some? ==> forall i :: 0 <= i < |r.value| ==>
                          var c := ParseCommit(Records(gitLog.value)[i], Delimiter, diffTrees);
                          r.value[i] == if IsIgnored(c.subject, IgnoreList) then Blank else c
  {
    if gitLog.None? {
      return None;
    }
    var lines := Records(gitLog.value);
    var commits := FillSlots(lines, record requires WellFormedRecord(record, Delimiter) => ParseCommit(record, Delimiter, diffTrees),
                             (c: Commit) => IsIgnored(c.subject, IgnoreList));
    r := Some(commits);
  }

  /** The loop of `ParseCommits`, for any parser and ignore test: the slice
      is allocated at full length, and every record whose commit is not
      ignored is stored in its own slot. */
  method FillSlots(lines: seq<string>, parse: string --> Commit, ignored: Commit -> bool) returns (commits: seq<Commit>)
    requires forall k :: 0 <= k < |lines| ==> parse.requires(lines[k])
    ensures |commits| == |lines|
    ensures forall k :: 0 <= k < |lines| ==>
              commits[k] == if ignored(parse(lines[k])) then Blank else parse(lines[k])
  {
    commits := seq(|lines|, _ => Blank);
    var i := 0;
    while i < |lines|
      invariant 0 <= i <= |lines| && |commits| == |lines|
      invariant forall k :: 0 <= k < i ==> commits[k] == if ignored(parse(lines[k])) then Blank else parse(lines[k])
      invariant forall k :: i <= k < |lines| ==> commits[k] == Blank
    {
      var commit := parse(lines[i]);
      var ignore := ignored(commit);
      if !ignore {
        commits := commits[i := commit];
      }
      i := i + 1;
    }
  }
}
