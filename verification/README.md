# Changelog generator model

A Dafny model of Telegraf's release-notes generator
(`scripts/generate_changelog/main.go`). The generator works in five steps:

- It reads the commits since the latest tag from a `git log` dump. Each record starts with `@@__CHGLOG__@@`. Its fields are `NAME:value` tokens separated by `@@__CHGLOG_DELIMITER__@@`.
- It classifies each commit subject with the conventional-commit header pattern `type(scope): subject`.
- When a commit has no scope, it infers one from the first changed file under `plugins/<category>/<name>/`.
- It groups the commits into Bugfixes (`fix`) and Features (`feat`).
- It splices the rendered section into `CHANGELOG.md`, right after the `# Changelog` heading.

Modules, one per concern of the program:

- `Maybe`: `Option`.
- `GoStrings`: the parts of Go's `strings` package the program relies on:
  - `Split`, including the explode behaviour for an empty separator;
  - `Index` and `Contains`;
  - `TrimSpace`, with the `unicode.IsSpace` set.
- `ConventionalHeader`: the subject pattern `^(\w*)(?:\(([\w\$\.\-\*\s]*)\))?\:\s(.*)$`, written out by hand with RE2's semantics:
  - `\w` is ASCII `[0-9A-Za-z_]`;
  - `\s` is `[\t\n\f\r ]`;
  - `.` does not match a newline, and `$` is the end of the text;
  - matching is leftmost-first with greedy repetition.
- `Scope`: `detectScope` and the pattern `plugins\/(.*){2}\/`. Under RE2 the pattern reports this text:
  - it starts at the first `plugins/` of a line that has a later `/` before the next newline;
  - it runs up to and including the last such `/`.
- `Commits`: `ParseCommits` and `parseCommit`.
- `Groups`: `CreateCommitGroups`.
- `Changelog`: `AppendToChangelog`, as a pure function from the old file's lines and the rendered section to the new file's text.

The external commands become parameters:

- The `git log` output is an `Option<string>`. `None` means one of the three git commands failed.
- The `git diff-tree` output is a map from commit hash to output. A hash missing from the map means the command failed.
- `CHANGELOG.md` is given as its scanned lines, or `None` when it cannot be opened.

## Behaviour of the code as written

The model follows the code in three places where the code does less than its own structure suggests:

- **The guard in `detectScope` never fires** (main.go:144). It is `len(pluginPath) < 3 && (...)`. Every match holds at least two `/`, so splitting it gives at least three parts, and the guard is always false. As a result:
  - a match whose second segment is `all` or empty is not skipped;
  - `plugins/outputs/all/...` gives the scope `outputs.all`;
  - a path with only one segment, such as `plugins/inputs/x.go`, gives `inputs.` with a trailing dot.
- **Ignored commits keep their slot** (main.go:69, 85-89). The result slice is allocated at full length, and an ignored record is skipped with `continue`. Its slot keeps the zero `Commit`, so the slice always has one entry per record. `CreateCommitGroups` then drops those entries, because their type is empty.
- **A changelog without a `# Changelog` line loses its content** (main.go:201-218). Lines are only copied after that marker. Without it, the new file is just the header and the new section.

## Model

| member | source | states |
|---|---|---|
| GoStrings.Split | scripts/generate_changelog/main.go:66 | Splitting with a non-empty separator gives at least one part. Joining the parts with the separator gives the text back, and no part contains the separator. Every cut is at the leftmost occurrence after the previous cut: a part followed by the separator holds the separator only at its end. This decides which occurrence is cut when the separator overlaps itself, as `@@__CHGLOG__@@` can. An empty separator gives one part per character. |
| GoStrings.Index | scripts/generate_changelog/main.go:100 | The result is -1 exactly when the pattern does not occur. Otherwise it is an occurrence with none earlier. |
| GoStrings.Contains | scripts/generate_changelog/main.go:79 | True exactly when the pattern occurs somewhere in the text. |
| GoStrings.TrimSpace | scripts/generate_changelog/main.go:102 | The trimmed text is no longer than the input, and it neither starts nor ends with a white-space character. Which text it is, is stated by `TrimSpaceExact`. |
| GoStrings.TrimSpaceExact | scripts/generate_changelog/main.go:102 | Trimming removes exactly the leading and trailing white space. A core that starts and ends with a non-space character is returned unchanged. |
| ConventionalHeader.ParseHeader | scripts/generate_changelog/main.go:110-116 | The captures of the subject pattern, or none when it does not match. `ParseHeaderComplete` and `ParseHeaderSound` state that the matched lines are exactly the pattern's language, with exactly these captures. |
| ConventionalHeader.ParseHeaderComplete | scripts/generate_changelog/main.go:110-116 | Every subject line built from a word-character type, an optional parenthesised scope, `:`, one white-space character and a newline-free rest is matched. The captures give back exactly the type, the scope (empty without parentheses) and the rest. |
| ConventionalHeader.ParseHeaderSound | scripts/generate_changelog/main.go:110-116 | Every match is such a line. The subject text equals its captures put back together with the consumed `:` and white space. |
| ConventionalHeader.ExampleWithScope | scripts/generate_changelog/main.go:110-116 | `fix(api.client): retry on timeout` is classified as type `fix`, scope `api.client`, subject `retry on timeout`. |
| ConventionalHeader.ExampleExtraSpaceKept | scripts/generate_changelog/main.go:110-116 | Only one white-space character after the colon is consumed. A second one stays in the subject. |
| ConventionalHeader.ExamplesNoMatch | scripts/generate_changelog/main.go:110-116 | A subject with no white space after the colon, or with no colon at all, is not classified. |
| Commits.FieldName | scripts/generate_changelog/main.go:100-101 | The field name is the text before the first colon, and it contains no colon. |
| Commits.TokenLayout | scripts/generate_changelog/main.go:100-102 | For a token written as name, colon, raw value, the name is read back exactly. The value is the raw value trimmed, including any later colons. |
| Commits.ApplyToken | scripts/generate_changelog/main.go:100-117 | One token changes at most the fields its name selects: a non-HASH token keeps the hash, a non-AUTHOR token keeps the author, and a non-SUBJECT token keeps type, scope and subject. |
| Commits.ApplyTokens | scripts/generate_changelog/main.go:99-118 | The field loop over all tokens in order. What it leaves in each field is stated by `ApplyTokensFields`. |
| Commits.ApplyTokensFields | scripts/generate_changelog/main.go:99-118 | After the field loop, hash and author hold the value of the last token with that name. Type, scope and subject come together from the last subject token that matched the pattern. They are untouched when no subject matched. |
| Commits.OtherFieldsIgnored | scripts/generate_changelog/main.go:104-117 | A token named anything but HASH, AUTHOR or SUBJECT, such as the BODY token, leaves the commit unchanged. |
| Commits.BodyIgnored | scripts/generate_changelog/main.go:104-117 | The BODY token the log format requests is read, but it never changes the commit, because the switch has no case for it. |
| Commits.ParseCommit | scripts/generate_changelog/main.go:95-125 | The field loop from the zero commit, then scope inference when no scope was given. Its fields are stated by `ParseCommitIdentity` (hash and author) and `ParseCommitFields` (type, subject and scope, inferred exactly when none was given). |
| Commits.ParseCommitIdentity | scripts/generate_changelog/main.go:95-108 | The parsed commit's hash and author are the values of the last HASH and AUTHOR tokens, or empty when there are none. |
| Commits.ParseCommitFields | scripts/generate_changelog/main.go:109-125 | The parsed commit's type, subject and explicit scope come from the last subject that matched, or are empty. The scope is inferred from the commit's changed files exactly when it would otherwise be empty. |
| Commits.IsIgnored | scripts/generate_changelog/main.go:77-83 | A subject is ignored exactly when some entry of the ignore list occurs in it. |
| Commits.UnparsedNeverIgnored | scripts/generate_changelog/main.go:25-28 | The empty subject of an unclassified commit contains no ignore-list entry. |
| Commits.RecordsCoverLog | scripts/generate_changelog/main.go:66-67 | The log is its leading text followed by every record, each behind one separator, in order. No record contains a separator. |
| Commits.UnparsedRecordKept | scripts/generate_changelog/main.go:85-89 | A record whose subject never matched stays in its slot as parsed, with an empty type. |
| Commits.FillSlots | scripts/generate_changelog/main.go:69-90 | For any parser and ignore test, the result has one slot per record. Each slot holds the record's commit, or the zero commit when that commit is ignored. No record moves to another slot. |
| Commits.ParseCommits | scripts/generate_changelog/main.go:66-92 | The result fails exactly when the git output is missing. Otherwise there is one slot per record, in log order. Each slot holds the parsed commit, or the zero commit when its subject is ignored. |
| Scope.FindFrom | scripts/generate_changelog/main.go:139-142 | The search finds the leftmost start of a `plugins/…/` match, and the longest match from that start. It reports nothing exactly when no match starts at or after the given position. |
| Scope.FindPluginPath | scripts/generate_changelog/main.go:142 | The match is empty exactly when the line contains no `plugins/…/` match. Otherwise it starts with `plugins/` and ends with `/`. Which substring it is, is stated by `ReportedMatch`. |
| Scope.ReportedMatch | scripts/generate_changelog/main.go:139-142 | A non-empty match is the substring `line[i..j]` of the leftmost-longest match: no match starts before `i`, and none from `i` ends after `j`. |
| Scope.LeftmostLongestUnique | scripts/generate_changelog/main.go:142 | A line has at most one leftmost-longest match, so the reported match is determined by the line. |
| Scope.PluginScope | scripts/generate_changelog/main.go:143-147 | The scope of one match, its first and second segment after `plugins/` joined by a dot. `SkipGuardNeverFires` states that both segments exist, and the two `ScopeOf…` lemmas give the scope of each path shape. |
| Scope.SkipGuardNeverFires | scripts/generate_changelog/main.go:143-146 | Every match splits at `/` into at least three parts, the first being `plugins`, so the skip guard is always false. |
| Scope.LocateMatch | scripts/generate_changelog/main.go:139-142 | On a line whose first `plugins/` is followed by the given path, the match is `plugins/`, the path, and the part `g` of the remaining text `f` up to and including its last `/`: `g` is a prefix of `f`, it is empty or ends with `/`, and no `/` of `f` comes after it. |
| Scope.ScopeOfCategoryAndComponent | scripts/generate_changelog/main.go:142-147 | A file under `plugins/<a>/<b>/` gives the scope `<a>.<b>`, whatever follows and whatever precedes the first `plugins/`. This includes `<b>` = `all`. |
| Scope.ScopeOfCategoryOnly | scripts/generate_changelog/main.go:142-147 | A file directly under `plugins/<a>/` gives the scope `<a>.`, with an empty component. |
| Scope.ScopeOfLines | scripts/generate_changelog/main.go:141-150 | The loop over the changed files. Which file decides is stated by `FirstMatchWins` and `NoMatchNoScope`. |
| Scope.FirstMatchWins | scripts/generate_changelog/main.go:141-150 | The first changed file with a match decides the scope, and later files are not looked at. |
| Scope.NoMatchNoScope | scripts/generate_changelog/main.go:141-152 | When no changed file matches, the scope is empty. |
| Scope.DetectScope | scripts/generate_changelog/main.go:127-137 | A failed `git diff-tree` or an empty output gives the empty scope. |
| Scope.NoMatchingFileNoScope | scripts/generate_changelog/main.go:135-152 | When no line of the `git diff-tree` output matches, `detectScope` gives the empty scope. |
| Scope.FirstMatchingFileDecides | scripts/generate_changelog/main.go:135-152 | The first line of the `git diff-tree` output with a match decides the scope `detectScope` gives. No earlier line matches, and later lines are not looked at. |
| Scope.FirstListedFileDecides | scripts/generate_changelog/main.go:139-150 | When the first listed file matches, its match alone decides the scope, whatever the other files are. |
| Groups.OfType | scripts/generate_changelog/main.go:177-184 | The commits of one type are no more than the input. A commit is in it exactly when it is in the input with that type, and with the same multiplicity. Input order is stated by `OfTypeAppend`. |
| Groups.OfTypeAppend | scripts/generate_changelog/main.go:177-184 | Filtering the concatenation of two inputs gives the filtered first input followed by the filtered second. So filtering keeps input order: it is a sub-list of the input. |
| Groups.CreateCommitGroups | scripts/generate_changelog/main.go:166-189 | There are always exactly two groups, Bugfixes then Features, even when they are empty. They hold the `fix` and the `feat` commits, in input order. |
| Groups.OtherTypesIgnored | scripts/generate_changelog/main.go:178-183 | A block of commits of any other type, including zero slots, changes neither group wherever it appears. |
| Changelog.MarkerIndex | scripts/generate_changelog/main.go:203 | The index of the first `# Changelog` line, or -1 exactly when there is none. |
| Changelog.Collect | scripts/generate_changelog/main.go:201-218 | The scanning loop with its `read` flag. What it copies is stated by `CollectReading` and `CollectIsTail`. |
| Changelog.CollectIsTail | scripts/generate_changelog/main.go:201-218 | The scanning loop copies exactly the lines after the first marker line, each followed by a newline. |
| Changelog.AppendToChangelog | scripts/generate_changelog/main.go:191-226 | The result fails exactly when the file cannot be opened. Otherwise the new text is the header, an empty line, the rendered section and the old lines after the first marker. |
| Changelog.SpliceAfterMarker | scripts/generate_changelog/main.go:201-226 | Everything up to and including the first marker is replaced. Every later line, including later marker lines, is kept verbatim. |
| Changelog.MissingMarkerDropsDocument | scripts/generate_changelog/main.go:201-226 | Without a marker line, the new file is only the header and the rendered section. |
| Changelog.ReadLines | scripts/generate_changelog/main.go:200-202 | The scanner's lines, none of which holds a newline. `ReadJoinedLines` and `JoinReadLines` state that scanning is the inverse of joining newline-terminated lines. |
| Changelog.ReadJoinedLines | scripts/generate_changelog/main.go:200-202 | Scanning text made of newline-terminated, newline-free lines gives those lines back. |
| Changelog.JoinReadLines | scripts/generate_changelog/main.go:200-202 | Re-joining the scanned lines of a text that is empty or ends in a newline gives the text back. |
| Changelog.HeaderText | scripts/generate_changelog/main.go:220-225 | The header plus the separating newline read as four lines: the lint directive, an empty line, `# Changelog`, an empty line. |
| Changelog.SpliceAsLines | scripts/generate_changelog/main.go:220-226 | When the rendered section is empty or ends with a newline, the new file read as lines is the header lines, the section's lines and the kept lines. |
| Changelog.RerunKeepsHistory | scripts/generate_changelog/main.go:191-226 | When the rendered section is empty or ends with a newline, splicing again finds the marker inside the header. After it come the empty line, the new section and the previously kept lines, so no earlier release is lost. |
| Changelog.UnterminatedSectionMerges | scripts/generate_changelog/main.go:220-226 | A section that does not end with a newline merges with the first kept line: section `a` before kept line `b` reads back as the header lines followed by the single line `ab`. |

## Left out

- Changelog.SpliceAsLines: states the line layout only for a section that is empty or ends with a newline. The section comes from the `CHANGELOG.go.tmpl` template, which is not part of this model; when it lacks the final newline, its last line and the first kept line become one line, as `UnterminatedSectionMerges` shows.
- Changelog.RerunKeepsHistory: holds under the same condition on the section, for the same reason.
- The git commands (main.go:40-48, 62-65 and 130) are left out because they are process execution. Their outputs are parameters: an option for the log, and a map from hash to output for `diff-tree`. The describe / rev-list lookup of the latest tag only feeds the log range, so it is not modelled.
- Commits.ParseCommit: requires that every token of a record holds a colon. Without one, `token[0:-1]` panics in the program. The log format guarantees the colon, and the panic is not modelled as a value.
- File I/O is not modelled: opening and writing `CHANGELOG.md`, `os.WriteFile` failure, and the buffer write errors that never occur. `AppendToChangelog` takes the scanned lines, or `None` when the open fails, and returns the text to write.
- Changelog.ReadLines: models `bufio.ScanLines` without its removal of a trailing carriage return, its 64 KiB line limit and `scanner.Err`. A longer line ends the scan early in the program.
- `main` (main.go:236-268) is left out because it only wires the other steps together with I/O, the clock and text templates:
  - reading `build_version.txt`;
  - the current date;
  - rendering the `CHANGELOG.go.tmpl` template.
- `ui/plugin_page.go` is not part of this model because it is unrelated to the changelog.
- Invalid UTF-8 is not modelled: strings are sequences of code points. The byte-level behaviour of Go strings on malformed input is outside the model.
- Scope.DetectScope: its own contract states only the two empty cases. For a non-empty output, `NoMatchingFileNoScope` and `FirstMatchingFileDecides` state the scope `DetectScope` gives. The two `ScopeOf…` lemmas give the scope of each path shape. Concrete paths are instances of these general lemmas rather than separate examples.
