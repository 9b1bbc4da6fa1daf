/** `CreateCommitGroups`: the commits split by type into the two groups of
    the changelog. */
module Groups {
  import opened Commits

  datatype CommitGroup = CommitGroup(title: string, commits: seq<Commit>)

  const FixType := "fix"
  const FeatType := "feat"

  /** The commits of one type, in input order. */
  function OfType(commits: seq<Commit>, kind: string): (r: seq<Commit>)
    ensures |r| <= |commits|
    ensures forall c :: c in r <==> c in commits && c.kind == kind
    ensures forall c :: multiset(r)[c] == if c.kind == kind then multiset(commits)[c] else 0
  {
    if |commits| == 0 then []
    else
      var last := commits[|commits| - 1];
      var init := commits[..|commits| - 1];
      assert commits == init + [last];
      if last.kind == kind then OfType(init, kind) + [last] else OfType(init, kind)
  }

  /** Filtering distributes over concatenation: order is kept across the cut. */
  lemma {:induction false} OfTypeAppend(a: seq<Commit>, b: seq<Commit>, kind: string)
    ensures OfType(a + b, kind) == OfType(a, kind) + OfType(b, kind)
    decreases |b|
  {
    if |b| > 0 {
      var init := b[..|b| - 1];
      assert (a + b)[..|a + b| - 1] == a + init;
      assert (a + b)[|a + b| - 1] == b[|b| - 1];
      OfTypeAppend(a, init, kind);
    } else {
      assert a + b == a;
    }
  }

  /** `CreateCommitGroups`: always Bugfixes then Features, holding exactly the
      `fix` and the `feat` commits, in input order; every other commit, the
      blank slots of ignored records included, is in neither. */
  method CreateCommitGroups(commits: seq<Commit>) returns (groups: seq<CommitGroup>)
    ensures |groups| == 2
    ensures groups[0].title == "Bugfixes" && groups[1].title == "Features"
    ensures groups[0].commits == OfType(commits, FixType)
    ensures groups[1].commits == OfType(commits, FeatType)
  {
    var featGroup := CommitGroup("Features", []);
    var bugGroup := CommitGroup("Bugfixes", []);
    var i := 0;
    while i < |commits|
      invariant 0 <= i <= |commits|
      invariant bugGroup == CommitGroup("Bugfixes", OfType(commits[..i], FixType))
      invariant featGroup == CommitGroup("Features", OfType(commits[..i], FeatType))
    {
      var c := commits[i];
      OfTypeStep(commits, i, FixType);
      OfTypeStep(commits, i, FeatType);
      if c.kind == FixType {
        bugGroup := bugGroup.(commits := bugGroup.commits + [c]);
      } else if c.kind == FeatType {
        featGroup := featGroup.(commits := featGroup.commits + [c]);
      }
      i := i + 1;
    }
    assert commits[..i] == commits;
    groups := [bugGroup, featGroup];
  }

  /** One more commit of the input: appended when it has the type. */
  lemma OfTypeStep(commits: seq<Commit>, i: nat, kind: string)
    requires i < |commits|
    ensures OfType(commits[..i + 1], kind)
         == if commits[i].kind == kind then OfType(commits[..i], kind) + [commits[i]] else OfType(commits[..i], kind)
  {
    var p := commits[..i + 1];
    assert p[..|p| - 1] == commits[..i];
    assert p[|p| - 1] == commits[i];
  }

  /** Commits of any other type change neither group, wherever they appear. */
  lemma OtherTypesIgnored(a: seq<Commit>, x: seq<Commit>, b: seq<Commit>)
    requires forall c :: c in x ==> c.kind != FixType && c.kind != FeatType
    ensures OfType(a + x + b, FixType) == OfType(a + b, FixType)
    ensures OfType(a + x + b, FeatType) == OfType(a + b, FeatType)
  {
    SkipOtherType(a, x, b, FixType);
    SkipOtherType(a, x, b, FeatType);
  }

  /** Filtering drops a block of commits of other types. */
  lemma SkipOtherType(a: seq<Commit>, x: seq<Commit>, b: seq<Commit>, kind: string)
    requires forall c :: c in x ==> c.kind != kind
    ensures OfType(a + x + b, kind) == OfType(a + b, kind)
  {
    OfTypeAppend(a + x, b, kind);
    OfTypeAppend(a, x, kind);
    OfTypeAppend(a, b, kind);
    NoneOfType(x, kind);
    assert OfType(a, kind) + [] == OfType(a, kind);
  }

  /** A sequence with no commit of the type filters to nothing. */
  lemma {:induction false} NoneOfType(x: seq<Commit>, kind: string)
    requires forall c :: c in x ==> c.kind != kind
    ensures OfType(x, kind) == []
  {
    if |x| > 0 {
      assert x[|x| - 1] in x;
      var init := x[..|x| - 1];
      assert forall c :: c in init ==> c in x;
      NoneOfType(init, kind);
    }
  }
}
