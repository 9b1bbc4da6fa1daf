/** `detectScope`: the scope a commit gets from the files it changed, when its
    subject gave none. The output of `git diff-tree --name-only` is a
    parameter; the regular expression `plugins\/(.*){2}\/` is written out by
    hand. */
module Scope {
  import opened Maybe
  import opened GoStrings

  const PluginsPrefix := "plugins/"

  /** The pattern matches `line[i..j]`: `plugins/`, then any characters but
      a newline (the two greedy `(.*)` together), then a `/`. */
  predicate PatternAt(line: string, i: int, j: int) {
    && 0 <= i && i + 9 <= j <= |line|
    && OccursAt(line, PluginsPrefix, i)
    && line[j - 1] == '/'
    && '\n' !in line[i + 8..j - 1]
  }

  /** The index of the first newline at or after `lo`, or the length. */
  function LineEnd(line: string, lo: nat): (e: nat)
    requires lo <= |line|
    ensures lo <= e <= |line|
    ensures forall k :: lo <= k < e ==> line[k] != '\n'
    ensures e < |line| ==> line[e] == '\n'
    decreases |line| - lo
  {
    if lo == |line| || line[lo] == '\n' then lo else LineEnd(line, lo + 1)
  }

  /** The index of the last `/` in `line[lo..hi]`, or -1. */
  function LastSlash(line: string, lo: nat, hi: nat): (r: int)
    requires lo <= hi <= |line|
    ensures r == -1 || (lo <= r < hi && line[r] == '/')
    ensures forall k :: (if r == -1 then lo else r + 1) <= k < hi ==> line[k] != '/'
    decreases hi - lo
  {
    if hi == lo then -1
    else if line[hi - 1] == '/' then hi - 1
    else LastSlash(line, lo, hi - 1)
  }

  /** No match starting at `p` ends after `lo` when there is no `/` between
      `lo` and the end `e` of the current line. */
  lemma NoMatchEndingPast(line: string, p: nat, lo: nat, e: nat)
    requires p + 8 <= lo <= e <= |line|
    requires forall k :: lo <= k < e ==> line[k] != '/'
    requires e < |line| ==> line[e] == '\n'
    ensures forall j :: lo < j ==> !PatternAt(line, p, j)
  {
    forall j | lo < j && p + 9 <= j <= |line|
      ensures !PatternAt(line, p, j)
    {
      if j - 1 < e {
        assert line[j - 1] != '/';
      } else if j - 1 == e {
        assert line[j - 1] == '\n';
      } else {
        assert line[p + 8..j - 1][e - p - 8] == '\n';
      }
    }
  }

  /** Nothing matches from `start` up to, but not including, `q`, when no
      `plugins/` occurs before `p` and nothing matches from `p` or after `p`
      before `q`. */
  lemma NoMatchBetween(line: string, start: nat, p: nat, q: nat)
    requires start <= p < q
    requires forall j :: start <= j < p ==> !OccursAt(line, PluginsPrefix, j)
    requires forall j :: p + 8 < j ==> !PatternAt(line, p, j)
    requires forall i, j :: p + 1 <= i < q ==> !PatternAt(line, i, j)
    ensures forall i, j :: start <= i < q ==> !PatternAt(line, i, j)
  {
    forall i, j | start <= i < q
      ensures !PatternAt(line, i, j)
    {
      if i < p {
        assert !OccursAt(line, PluginsPrefix, i);
      } else if i == p && p + 8 < j {
        assert !PatternAt(line, p, j);
      }
    }
  }

  /** The match the engine reports among those starting at or after `start`:
      the leftmost start, and for it the longest end (both `(.*)` are greedy). */
  function FindFrom(line: string, start: nat): (r: Option<(nat, nat)>)
    requires start <= |line|
    ensures r.Some? ==> start <= r.value.0 && PatternAt(line, r.value.0, r.value.1)
    ensures r.Some? ==> forall i, j :: start <= i < r.value.0 ==> !PatternAt(line, i, j)
    ensures r.Some? ==> forall j :: r.value.1 < j ==> !PatternAt(line, r.value.0, j)
    ensures r.None? ==> forall i, j :: start <= i ==> !PatternAt(line, i, j)
    decreases |line| - start
  {
    var p := IndexFrom(line, PluginsPrefix, start);
    if p < 0 then None
    else
      var e := LineEnd(line, p + 8);
      var l := LastSlash(line, p + 8, e);
      if l >= 0 then
        NoMatchEndingPast(line, p, l + 1, e);
        SliceOfSlice(line, p + 8, l, e);
        Some((p, l + 1))
      else
        NoMatchEndingPast(line, p, p + 8, e);
        var r := FindFrom(line, p + 1);
        if r.Some? then
          NoMatchBetween(line, start, p, r.value.0);
          r
        else
          NoMatchBetween(line, start, p, |line| + 1);
          r
  }

  /** A prefix of a slice is a shorter slice. */
  lemma SliceOfSlice(s: string, a: nat, b: nat, c: nat)
    requires a <= b <= c <= |s|
    ensures s[a..b] == s[a..c][..b - a]
  {
  }

  /** What a match looks like: `plugins/`, something, and a final `/`. */
  predicate IsPluginMatch(m: string) {
    |m| >= 9 && m[..8] == PluginsPrefix && m[|m| - 1] == '/'
  }

  /** `line[i..j]` is the match the engine reports: no match starts before
      `i`, and none from `i` ends after `j`. */
  ghost predicate LeftmostLongest(line: string, i: int, j: int) {
    && PatternAt(line, i, j)
    && (forall i', j' :: 0 <= i' < i ==> !PatternAt(line, i', j'))
    && (forall j' :: j < j' ==> !PatternAt(line, i, j'))
  }

  /** At most one match is the leftmost-longest one. */
  lemma LeftmostLongestUnique(line: string, i: int, j: int, i2: int, j2: int)
    requires LeftmostLongest(line, i, j) && LeftmostLongest(line, i2, j2)
    ensures i == i2 && j == j2
  {
  }

  /** `r.FindString(line)`: the leftmost-longest match of the line, or ""
      when there is none (see `ReportedMatch`). */
  function FindPluginPath(line: string): (m: string)
    ensures m == "" <==> forall i, j :: !PatternAt(line, i, j)
    ensures m != "" ==> IsPluginMatch(m)
  {
    match FindFrom(line, 0)
    case None => ""
    case Some((i, j)) =>
      assert line[i..j][..8] == line[i..i + 8];
      line[i..j]
  }

  /** A non-empty result is the substring `line[i..j]` of the line's
      leftmost-longest match, which `LeftmostLongestUnique` shows is unique. */
  lemma ReportedMatch(line: string) returns (i: int, j: int)
    requires FindPluginPath(line) != ""
    ensures LeftmostLongest(line, i, j) && FindPluginPath(line) == line[i..j]
  {
    var r := FindFrom(line, 0);
    i, j := r.value.0, r.value.1;
  }

  /** The skip guard `len(pluginPath) < 3 && ...` can never fire: a match
      contains at least two slashes, so splitting it at `/` gives at least
      three parts — `plugins`, one or more segments, and the empty text
      after the final slash. */
  lemma SkipGuardNeverFires(m: string)
    requires IsPluginMatch(m)
    ensures |Split(m, "/")| >= 3
    ensures Split(m, "/")[0] == "plugins"
  {
    var x := m[8..];
    assert m == "plugins" + ['/'] + x;
    SplitCons("plugins", '/', x);
    assert x[|x| - 1] == '/';
    SplitAtLeastTwo(x, '/');
  }

  /** The scope of a match: its first and second segment after `plugins/`,
      joined by a dot. */
  function PluginScope(m: string): string
    requires IsPluginMatch(m)
  {
    SkipGuardNeverFires(m);
    var pluginPath := Split(m, "/");
    pluginPath[1] + "." + pluginPath[2]
  }

  /** The scan over the changed files: the first line with a match decides. */
  function ScopeOfLines(lines: seq<string>): string
  {
    if |lines| == 0 then ""
    else
      var m := FindPluginPath(lines[0]);
      if m != "" then PluginScope(m) else ScopeOfLines(lines[1..])
  }

  /** `detectScope`, given the output of `git diff-tree` for the commit (None
      when the command failed). */
  function DetectScope(changedFiles: Option<string>): (scope: string)
    ensures changedFiles.None? ==> scope == ""
    ensures changedFiles == Some("") ==> scope == ""
  {
    match changedFiles
    case None => ""
    case Some(out) =>
      if |out| == 0 then "" else ScopeOfLines(Split(out, "\n"))
  }

  /** With no matching changed file in a listing, `detectScope` gives the
      empty scope. */
  lemma NoMatchingFileNoScope(out: string)
    requires forall k :: 0 <= k < |Split(out, "\n")| ==> FindPluginPath(Split(out, "\n")[k]) == ""
    ensures DetectScope(Some(out)) == ""
  {
    NoMatchNoScope(Split(out, "\n"));
  }

  /** In a listing, the first changed file with a match decides the scope
      `detectScope` gives. */
  lemma FirstMatchingFileDecides(out: string, i: nat)
    requires i < |Split(out, "\n")| && FindPluginPath(Split(out, "\n")[i]) != ""
    requires forall k :: 0 <= k < i ==> FindPluginPath(Split(out, "\n")[k]) == ""
    ensures DetectScope(Some(out)) == PluginScope(FindPluginPath(Split(out, "\n")[i]))
  {
    FirstMatchWins(Split(out, "\n"), i);
  }

  /** The first line with a match decides the scope; later lines are not
      looked at. */
  lemma {:induction false} FirstMatchWins(lines: seq<string>, i: nat)
    requires i < |lines| && FindPluginPath(lines[i]) != ""
    requires forall k :: 0 <= k < i ==> FindPluginPath(lines[k]) == ""
    ensures ScopeOfLines(lines) == PluginScope(FindPluginPath(lines[i]))
  {
    if i > 0 {
      assert FindPluginPath(lines[0]) == "";
      FirstMatchWins(lines[1..], i - 1);
    }
  }

  /** Without any matching line the scope is empty. */
  lemma {:induction false} NoMatchNoScope(lines: seq<string>)
    requires forall k :: 0 <= k < |lines| ==> FindPluginPath(lines[k]) == ""
    ensures ScopeOfLines(lines) == ""
  {
    if |lines| > 0 {
      assert FindPluginPath(lines[0]) == "";
      NoMatchNoScope(lines[1..]);
    }
  }

  /** The first `plugins/` of a line built as `pre + "plugins/" + tail` is
      the one after `pre`, when `pre + "plugins/"` has no earlier one. */
  lemma PrefixIndex(pre: string, tail: string)
    requires Index(pre + PluginsPrefix, PluginsPrefix) == |pre|
    ensures OccursAt(pre + PluginsPrefix + tail, PluginsPrefix, |pre|)
    ensures forall j :: 0 <= j < |pre| ==> !OccursAt(pre + PluginsPrefix + tail, PluginsPrefix, j)
  {
    var s1 := pre + PluginsPrefix;
    OccursAtPrefix(s1, tail, PluginsPrefix, |pre|);
    forall j | 0 <= j < |pre|
      ensures !OccursAt(s1 + tail, PluginsPrefix, j)
    {
      OccursAtPrefix(s1, tail, PluginsPrefix, j);
    }
  }

  /** In a single line, the match runs from the first `plugins/` to the last `/`. */
  lemma FindInLine(line: string, p: nat, l: nat)
    requires OccursAt(line, PluginsPrefix, p)
    requires forall j :: 0 <= j < p ==> !OccursAt(line, PluginsPrefix, j)
    requires p + 8 <= l < |line| && line[l] == '/'
    requires forall k :: l < k < |line| ==> line[k] != '/'
    requires forall k :: 0 <= k < |line| ==> line[k] != '\n'
    ensures FindPluginPath(line) == line[p..l + 1]
  {
    assert IndexFrom(line, PluginsPrefix, 0) == p;
    var e := LineEnd(line, p + 8);
    assert LastSlash(line, p + 8, e) == l;
  }

  /** Splitting a match `plugins/<a>/<b>/<g>` at `/` yields `a` and `b` as
      the second and third part. */
  lemma SplitMatch(a: string, b: string, g: string)
    requires '/' !in a && '/' !in b
    ensures var parts := Split(PluginsPrefix + (a + "/" + b + "/") + g, "/");
      |parts| >= 3 && parts[1] == a && parts[2] == b
  {
    assert PluginsPrefix + (a + "/" + b + "/") + g == "plugins" + ['/'] + (a + ['/'] + (b + ['/'] + g));
    SplitCons("plugins", '/', a + ['/'] + (b + ['/'] + g));
    SplitCons(a, '/', b + ['/'] + g);
    SplitCons(b, '/', g);
  }

  /** How a match inside `pre + "plugins/" + rest + f` that ends at or after
      the end of `rest` is laid out. */
  lemma CutLine(pre: string, rest: string, f: string, l: nat)
    requires |pre| + 8 + |rest| <= l + 1 <= |pre + PluginsPrefix + rest + f|
    ensures var line := pre + PluginsPrefix + rest + f;
      line[|pre|..l + 1] == PluginsPrefix + rest + f[..l + 1 - |pre| - 8 - |rest|]
    ensures forall k :: |pre| + 8 + |rest| <= k < |pre + PluginsPrefix + rest + f| ==>
                (pre + PluginsPrefix + rest + f)[k] == f[k - |pre| - 8 - |rest|]
  {
  }

  /** In a line `pre + "plugins/" + rest + f` whose first `plugins/` is the
      one after `pre`, and where `rest` ends with `/`, the match runs from
      that `plugins/` to the last `/` of the line. */
  lemma LocateMatchEnd(pre: string, rest: string, f: string) returns (l: nat)
    requires Index(pre + PluginsPrefix, PluginsPrefix) == |pre|
    requires |rest| >= 1 && rest[|rest| - 1] == '/'
    requires '\n' !in pre && '\n' !in rest && '\n' !in f
    ensures var line := pre + PluginsPrefix + rest + f;
      && |pre| + 8 + |rest| <= l + 1 <= |line|
      && FindPluginPath(line) == line[|pre|..l + 1]
      && line[l] == '/'
      && forall k :: l < k < |line| ==> line[k] != '/'
  {
    var line := pre + PluginsPrefix + rest + f;
    assert line == pre + PluginsPrefix + (rest + f);
    PrefixIndex(pre, rest + f);
    var q := |pre| + 8 + |rest| - 1;
    assert line[q] == (pre + PluginsPrefix + rest)[q];
    l := LastSlash(line, q, |line|);
    assert '\n' !in line by {
      assert '\n' !in PluginsPrefix;
    }
    forall k | 0 <= k < |line|
      ensures line[k] != '\n'
    {
      assert line[k] in line;
    }
    FindInLine(line, |pre|, l);
  }

  /** The match in such a line, cut after the `plugins/` and `rest`: what
      follows is the part of `f` up to its last `/`. */
  lemma LocateMatch(pre: string, rest: string, f: string) returns (g: string)
    requires Index(pre + PluginsPrefix, PluginsPrefix) == |pre|
    requires |rest| >= 1 && rest[|rest| - 1] == '/'
    requires '\n' !in pre && '\n' !in rest && '\n' !in f
    ensures FindPluginPath(pre + PluginsPrefix + rest + f) == PluginsPrefix + rest + g
    ensures |g| <= |f| && g == f[..|g|]
    ensures '/' !in f ==> g == []
    ensures g == [] || (g[|g| - 1] == '/' && '/' !in f[|g|..])
  {
    var l := LocateMatchEnd(pre, rest, f);
    var line, off := pre + PluginsPrefix + rest + f, |pre| + 8 + |rest|;
    g := f[..l + 1 - off];
    assert FindPluginPath(line) == PluginsPrefix + rest + g by {
      CutLine(pre, rest, f, l);
    }
    assert g == [] || (g[|g| - 1] == '/' && '/' !in f[|g|..]) by {
      LastSlashOfSuffix(pre, rest, f, l);
    }
  }

  /** When the last `/` of the line `pre + "plugins/" + rest + f` is at `l`,
      inside `f` or at the end of `rest`, the part of `f` through `l` is empty
      or ends with that `/`, and the rest of `f` holds no `/`. */
  lemma LastSlashOfSuffix(pre: string, rest: string, f: string, l: nat)
    requires var line := pre + PluginsPrefix + rest + f;
      && |pre| + 8 + |rest| <= l + 1 <= |line|
      && line[l] == '/'
      && forall k :: l < k < |line| ==> line[k] != '/'
    ensures var g := f[..l + 1 - |pre| - 8 - |rest|];
      g == [] || (g[|g| - 1] == '/' && '/' !in f[|g|..])
  {
    var line, off := pre + PluginsPrefix + rest + f, |pre| + 8 + |rest|;
    CutLine(pre, rest, f, l);
    var n := l + 1 - off;
    if n > 0 {
      assert f[n - 1] == line[l];
      forall k | n <= k < |f|
        ensures f[k] != '/'
      {
        assert line[off + k] == f[k];
      }
    }
  }

  /** A changed file `plugins/<a>/<b>/...` gives the scope `a.b`. */
  lemma ScopeOfCategoryAndComponent(pre: string, a: string, b: string, f: string)
    requires Index(pre + PluginsPrefix, PluginsPrefix) == |pre|
    requires '\n' !in pre && '\n' !in a && '\n' !in b && '\n' !in f
    requires '/' !in a && '/' !in b
    ensures var line := pre + PluginsPrefix + (a + "/" + b + "/") + f;
      FindPluginPath(line) != "" && PluginScope(FindPluginPath(line)) == a + "." + b
  {
    var g := LocateMatch(pre, a + "/" + b + "/", f);
    SplitMatch(a, b, g);
  }

  /** A changed file `plugins/<a>/<file>` directly under a category gives
      the scope `a.` with an empty component. */
  lemma ScopeOfCategoryOnly(pre: string, a: string, f: string)
    requires Index(pre + PluginsPrefix, PluginsPrefix) == |pre|
    requires '\n' !in pre && '\n' !in a && '\n' !in f
    requires '/' !in a && '/' !in f
    ensures var line := pre + PluginsPrefix + (a + "/") + f;
      FindPluginPath(line) != "" && PluginScope(FindPluginPath(line)) == a + "."
  {
    var g := LocateMatch(pre, a + "/", f);
    SplitCategoryOnly(a);
  }

  /** Splitting a match `plugins/<a>/` at `/` yields `a` and the empty text
      as the second and third part. */
  lemma SplitCategoryOnly(a: string)
    requires '/' !in a
    ensures var parts := Split(PluginsPrefix + (a + "/") + [], "/");
      |parts| >= 3 && parts[1] == a && parts[2] == ""
  {
    assert PluginsPrefix + (a + "/") + [] == "plugins" + ['/'] + (a + ['/'] + "");
    SplitCons("plugins", '/', a + ['/'] + "");
    SplitCons(a, '/', "");
    SplitNone("", '/');
  }

  /** When the first listed file matches, it decides the scope of the whole
      listing, whatever follows it. */
  lemma FirstListedFileDecides(line: string, rest: string)
    requires '\n' !in line && FindPluginPath(line) != ""
    ensures DetectScope(Some(line + "\n" + rest)) == PluginScope(FindPluginPath(line))
  {
    SplitCons(line, '\n', rest);
    assert line + "\n" + rest == line + ['\n'] + rest;
    FirstMatchWins([line] + Split(rest, "\n"), 0);
  }
}
