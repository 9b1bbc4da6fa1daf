/** The few functions of Go's `strings` package that the changelog generator
    relies on, over Dafny strings (sequences of Unicode scalar values). */
module GoStrings {

  /** `p` occurs in `s` starting at index `i`. */
  predicate OccursAt(s: string, p: string, i: int) {
    0 <= i && i + |p| <= |s| && s[i..i + |p|] == p
  }

  /** `p` occurs somewhere in `s`; the empty string occurs everywhere. */
  ghost predicate Occurs(s: string, p: string) {
    exists i :: OccursAt(s, p, i)
  }

  /** The first occurrence of `p` in `s` at or after `from`, or -1. */
  function IndexFrom(s: string, p: string, from: nat): (r: int)
    requires from <= |s|
    ensures r == -1 || (from <= r && OccursAt(s, p, r))
    ensures r == -1 ==> forall j :: from <= j ==> !OccursAt(s, p, j)
    ensures r != -1 ==> forall j :: from <= j < r ==> !OccursAt(s, p, j)
    decreases |s| - from
  {
    if from + |p| > |s| then -1
    else if s[from..from + |p|] == p then from
    else IndexFrom(s, p, from + 1)
  }

  /** `strings.Index`: the index of the first occurrence of `p` in `s`, or -1. */
  function Index(s: string, p: string): (r: int)
    ensures r == -1 <==> !Occurs(s, p)
    ensures r != -1 ==> OccursAt(s, p, r) && forall j :: 0 <= j < r ==> !OccursAt(s, p, j)
  {
    IndexFrom(s, p, 0)
  }

  /** `strings.Contains`. */
  function Contains(s: string, p: string): (b: bool)
    ensures b <==> Occurs(s, p)
  {
    Index(s, p) != -1
  }

  /** A one-character pattern occurs exactly when the character is an element. */
  lemma OccursChar(s: string, c: char)
    ensures Occurs(s, [c]) <==> c in s
  {
    if c in s {
      var i :| 0 <= i < |s| && s[i] == c;
      assert OccursAt(s, [c], i);
    }
    if Occurs(s, [c]) {
      var i :| OccursAt(s, [c], i);
      assert s[i..i + 1][0] == s[i];
    }
  }

  /** The first occurrence of a character: none when it is absent, and no
      earlier copy of it otherwise. */
  lemma IndexChar(s: string, c: char)
    ensures Index(s, [c]) == -1 <==> c !in s
    ensures Index(s, [c]) >= 0 ==> s[Index(s, [c])] == c && c !in s[..Index(s, [c])]
  {
    OccursChar(s, c);
    var i := Index(s, [c]);
    if i >= 0 {
      assert s[i..i + 1][0] == s[i];
      forall j | 0 <= j < i
        ensures s[..i][j] != c
      {
        assert !OccursAt(s, [c], j);
        assert s[j..j + 1] == [s[j]];
      }
    }
  }

  /** An occurrence inside a prefix is an occurrence in the whole, and back. */
  lemma OccursAtPrefix(s: string, t: string, p: string, j: int)
    requires j + |p| <= |s|
    ensures OccursAt(s + t, p, j) <==> OccursAt(s, p, j)
  {
    if 0 <= j {
      assert (s + t)[j..j + |p|] == s[j..j + |p|];
    }
  }

  /** An occurrence inside a suffix `s[k..]` is an occurrence in `s`, shifted by `k`. */
  lemma OccursAtSuffix(s: string, k: nat, p: string, j: nat)
    requires k <= |s|
    ensures OccursAt(s[k..], p, j) <==> OccursAt(s, p, j + k)
  {
    if j + |p| <= |s| - k {
      assert s[k..][j..j + |p|] == s[j + k..j + k + |p|];
    }
  }

  /** `strings.Join`: the parts with `sep` between each neighbouring pair. */
  function Join(parts: seq<string>, sep: string): string
  {
    if |parts| == 0 then ""
    else if |parts| == 1 then parts[0]
    else parts[0] + sep + Join(parts[1..], sep)
  }

  /** The text cut into one-character parts. */
  function Explode(s: string): (parts: seq<string>)
    ensures |parts| == |s| && forall k :: 0 <= k < |s| ==> parts[k] == [s[k]]
  {
    if s == [] then [] else [[s[0]]] + Explode(s[1..])
  }

  /** `strings.Split`. With a non-empty separator: the texts between the
      leftmost non-overlapping occurrences of `sep`, so one more part than
      there are occurrences, and `[""]` for the empty text. With the empty
      separator Go splits into single characters. */
  function Split(s: string, sep: string): (parts: seq<string>)
    ensures sep == [] ==> |parts| == |s| && forall k :: 0 <= k < |s| ==> parts[k] == [s[k]]
    ensures sep != [] ==> |parts| >= 1 && Join(parts, sep) == s
    ensures sep != [] ==> forall k :: 0 <= k < |parts| ==> !Occurs(parts[k], sep)
    ensures sep != [] ==> LeftmostCuts(parts, sep)
    decreases |s|
  {
    if sep == [] then Explode(s)
    else
      var i := Index(s, sep);
      if i < 0 then [s]
      else
        var head, rest := s[..i], Split(s[i + |sep|..], sep);
        assert !Occurs(head, sep) by {
          forall j | OccursAt(head, sep, j)
            ensures false
          {
            assert s == head + s[i..];
            OccursAtPrefix(head, s[i..], sep, j);
          }
        }
        assert s == head + sep + s[i + |sep|..];
        CutFirst(s, sep, i);
        LeftmostCutsCons(head, rest, sep);
        [head] + rest
  }

  /** Every cut but the last is at the first occurrence of `sep` in what
      follows the previous cut, so an occurrence overlapping a cut is never
      chosen: each part followed by `sep` contains `sep` only at its end. */
  predicate LeftmostCuts(parts: seq<string>, sep: string) {
    forall k :: 0 <= k < |parts| - 1 ==> Index(parts[k] + sep, sep) == |parts[k]|
  }

  lemma LeftmostCutsCons(head: string, rest: seq<string>, sep: string)
    requires Index(head + sep, sep) == |head|
    requires LeftmostCuts(rest, sep)
    ensures LeftmostCuts([head] + rest, sep)
  {
    assert forall k :: 1 <= k < |rest| + 1 ==> ([head] + rest)[k] == rest[k - 1];
  }

  /** The first occurrence of `sep` in `s` is also the first one in the text
      up to and including it: no occurrence straddles the cut. */
  lemma CutFirst(s: string, sep: string, i: int)
    requires i == Index(s, sep) && i >= 0
    ensures Index(s[..i] + sep, sep) == i
  {
    var h := s[..i] + sep;
    assert h == s[..i + |sep|];
    assert s == h + s[i + |sep|..];
    assert OccursAt(h, sep, i);
    var r := Index(h, sep);
    assert OccursAt(h, sep, r);
    OccursAtPrefix(h, s[i + |sep|..], sep, r);
    forall j | 0 <= j < i
      ensures !OccursAt(h, sep, j)
    {
      OccursAtPrefix(h, s[i + |sep|..], sep, j);
    }
  }

  /** Splitting at a single character that the first part does not contain
      peels that part off. */
  lemma SplitCons(x: string, c: char, y: string)
    requires c !in x
    ensures Split(x + [c] + y, [c]) == [x] + Split(y, [c])
  {
    var s := x + [c] + y;
    assert OccursAt(s, [c], |x|);
    forall j | 0 <= j < |x|
      ensures !OccursAt(s, [c], j)
    {
      assert s[j..j + 1] == [x[j]];
    }
    assert Index(s, [c]) == |x|;
    assert s[..|x|] == x;
    assert s[|x| + 1..] == y;
  }

  /** A text holding the separator character splits into at least two parts. */
  lemma SplitAtLeastTwo(x: string, c: char)
    requires c in x
    ensures |Split(x, [c])| >= 2
  {
    OccursChar(x, c);
    assert Index(x, [c]) != -1;
  }

  /** A text without the separator character splits into itself alone. */
  lemma SplitNone(x: string, c: char)
    requires c !in x
    ensures Split(x, [c]) == [x]
  {
    OccursChar(x, c);
  }

  /** `unicode.IsSpace`: the Latin-1 spaces plus the Unicode White_Space characters. */
  predicate IsSpace(c: char) {
    var n := c as int;
    n == 0x09 || n == 0x0A || n == 0x0B || n == 0x0C || n == 0x0D || n == 0x20
    || n == 0x85 || n == 0xA0 || n == 0x1680 || (0x2000 <= n <= 0x200A)
    || n == 0x2028 || n == 0x2029 || n == 0x202F || n == 0x205F || n == 0x3000
  }

  predicate AllSpace(s: string) {
    forall k :: 0 <= k < |s| ==> IsSpace(s[k])
  }

  /** Drops the leading white space: what is left is a suffix of `s` that
      does not start with a space, and everything dropped was a space. */
  function TrimLeft(s: string): (t: string)
    ensures |t| <= |s| && t == s[|s| - |t|..]
    ensures AllSpace(s[..|s| - |t|])
    ensures t == [] || !IsSpace(t[0])
  {
    if |s| > 0 && IsSpace(s[0]) then
      var t := TrimLeft(s[1..]);
      assert s[..|s| - |t|] == [s[0]] + s[1..][..|s| - 1 - |t|];
      t
    else s
  }

  /** Drops the trailing white space: a prefix of `s` that does not end with
      a space, and everything dropped was a space. */
  function TrimRight(s: string): (t: string)
    ensures |t| <= |s| && t == s[..|t|]
    ensures AllSpace(s[|t|..])
    ensures t == [] || !IsSpace(t[|t| - 1])
  {
    if |s| > 0 && IsSpace(s[|s| - 1]) then
      var t := TrimRight(s[..|s| - 1]);
      assert s[|t|..] == s[..|s| - 1][|t|..] + [s[|s| - 1]];
      t
    else s
  }

  /** `strings.TrimSpace`. */
  function TrimSpace(s: string): (t: string)
    ensures t == [] || (!IsSpace(t[0]) && !IsSpace(t[|t| - 1]))
    ensures |t| <= |s|
  {
    TrimRight(TrimLeft(s))
  }

  /** TrimLeft stops at the first non-space character. */
  lemma {:induction false} TrimLeftStops(s: string, n: nat)
    requires n <= |s| && AllSpace(s[..n])
    requires n == |s| || !IsSpace(s[n])
    ensures TrimLeft(s) == s[n..]
  {
    if n > 0 {
      assert IsSpace(s[..n][0]);
      assert s[1..][..n - 1] == s[1..n];
      TrimLeftStops(s[1..], n - 1);
      assert s[1..][n - 1..] == s[n..];
    }
  }

  /** TrimRight stops after the last non-space character. */
  lemma {:induction false} TrimRightStops(s: string, n: nat)
    requires n <= |s| && AllSpace(s[n..])
    requires n == 0 || !IsSpace(s[n - 1])
    ensures TrimRight(s) == s[..n]
  {
    if n < |s| {
      assert IsSpace(s[n..][|s| - 1 - n]);
      var s' := s[..|s| - 1];
      assert s'[n..] == s[n..|s| - 1];
      TrimRightStops(s', n);
      assert s'[..n] == s[..n];
    }
  }

  /** TrimSpace removes exactly the surrounding white space: for a text with
      non-space ends between runs of spaces, it gives back that text. */
  lemma TrimSpaceExact(pre: string, t: string, post: string)
    requires AllSpace(pre) && AllSpace(post)
    requires t == [] || (!IsSpace(t[0]) && !IsSpace(t[|t| - 1]))
    ensures TrimSpace(pre + t + post) == t
  {
    var s := pre + t + post;
    if t == [] {
      assert s[..|s|] == s;
      TrimLeftStops(s, |s|);
      TrimRightStops([], 0);
    } else {
      assert s[..|pre|] == pre;
      TrimLeftStops(s, |pre|);
      assert s[|pre|..] == t + post;
      assert (t + post)[|t|..] == post;
      TrimRightStops(t + post, |t|);
      assert (t + post)[..|t|] == t;
    }
  }
}
