/** `AppendToChangelog`: the rendered section spliced into CHANGELOG.md
    right after the `# Changelog` heading. The file is given as its lines
    (what the line scanner yields) and the rendered section as text. */
module Changelog {
  import opened Maybe
  import opened GoStrings

  /** The heading line the splice is anchored on. */
  const Marker := "# Changelog"

  /** The block written at the top of the new file. */
  const HeaderBlock := "<!-- markdownlint-disable MD024 -->\n\n# Changelog\n"

  /** The lines of the header block as a reader sees them, with the empty
      line that follows it. */
  const HeaderLines: seq<string> := ["<!-- markdownlint-disable MD024 -->", "", Marker, ""]

  /** Each line followed by a newline. */
  function JoinLines(lines: seq<string>): string {
    if |lines| == 0 then "" else lines[0] + "\n" + JoinLines(lines[1..])
  }

  /** The scanning loop: `read` turns on at the first line equal to the
      marker, which is itself skipped; every line after it is copied with a
      newline. */
  function Collect(lines: seq<string>, read: bool): string {
    if |lines| == 0 then ""
    else if !read && lines[0] == Marker then Collect(lines[1..], true)
    else if read then lines[0] + "\n" + Collect(lines[1..], true)
    else Collect(lines[1..], false)
  }

  /** The index of the first marker line, or -1. */
  function MarkerIndex(lines: seq<string>): (k: int)
    ensures k == -1 <==> Marker !in lines
    ensures k != -1 ==> 0 <= k < |lines| && lines[k] == Marker && Marker !in lines[..k]
    ensures k != -1 ==> forall j :: 0 <= j < k ==> lines[j] != Marker
  {
    if |lines| == 0 then -1
    else if lines[0] == Marker then 0
    else
      var k := MarkerIndex(lines[1..]);
      assert lines == [lines[0]] + lines[1..];
      if k == -1 then -1
      else
        assert lines[..k + 1] == [lines[0]] + lines[1..][..k];
        k + 1
  }

  /** The lines kept from the old file: those strictly after the first
      marker line, or none when there is no marker. */
  function TailLines(lines: seq<string>): seq<string> {
    var k := MarkerIndex(lines);
    if k == -1 then [] else lines[k + 1..]
  }

  /** Once reading, the loop copies every remaining line. */
  lemma {:induction false} CollectReading(lines: seq<string>)
    ensures Collect(lines, true) == JoinLines(lines)
  {
    if |lines| > 0 {
      CollectReading(lines[1..]);
    }
  }

  /** The loop yields exactly the lines after the first marker. */
  lemma {:induction false} CollectIsTail(lines: seq<string>)
    ensures Collect(lines, false) == JoinLines(TailLines(lines))
  {
    if |lines| > 0 {
      if lines[0] == Marker {
        CollectReading(lines[1..]);
      } else {
        CollectIsTail(lines[1..]);
      }
    }
  }

  /** `AppendToChangelog`: None when the file cannot be opened; otherwise the
      new content, which is the header, an empty line, the rendered section
      and the old lines after the first marker. */
  function AppendToChangelog(doc: Option<seq<string>>, change: string): (r: Option<string>)
    ensures r.None? <==> doc.None?
    ensures r.Some? ==> r.value == HeaderBlock + "\n" + change + JoinLines(TailLines(doc.value))
  {
    match doc
    case None => None
    case Some(lines) =>
      CollectIsTail(lines);
      Some(HeaderBlock + "\n" + change + Collect(lines, false))
  }

  /** Everything up to and including the first marker is replaced; every
      later line is kept verbatim, later marker lines included. */
  lemma SpliceAfterMarker(pre: seq<string>, post: seq<string>, change: string)
    requires Marker !in pre
    ensures AppendToChangelog(Some(pre + [Marker] + post), change) == Some(HeaderBlock + "\n" + change + JoinLines(post))
  {
    var lines := pre + [Marker] + post;
    var k := MarkerIndex(lines);
    assert lines[|pre|] == Marker;
    assert forall j :: 0 <= j < |pre| ==> lines[j] != Marker by {
      forall j | 0 <= j < |pre|
        ensures lines[j] != Marker
      {
        assert lines[j] == pre[j] && pre[j] in pre;
      }
    }
    assert k == |pre|;
    assert lines[k + 1..] == post;
  }

  /** Without a marker line the old content is not carried over. */
  lemma MissingMarkerDropsDocument(lines: seq<string>, change: string)
    requires Marker !in lines
    ensures AppendToChangelog(Some(lines), change) == Some(HeaderBlock + "\n" + change)
  {
    assert TailLines(lines) == [];
    assert HeaderBlock + "\n" + change + JoinLines([]) == HeaderBlock + "\n" + change;
  }

  /** The line scanner: the text cut at each newline; a last line without a
      newline still counts, and a final newline does not start a line. */
  function ReadLines(s: string): (lines: seq<string>)
    ensures SingleLines(lines)
    decreases |s|
  {
    if s == "" then []
    else
      var i := Index(s, "\n");
      IndexChar(s, '\n');
      if i == -1 then [s] else [s[..i]] + ReadLines(s[i + 1..])
  }

  /** Joining distributes over concatenation. */
  lemma {:induction false} JoinLinesAppend(a: seq<string>, b: seq<string>)
    ensures JoinLines(a + b) == JoinLines(a) + JoinLines(b)
  {
    if |a| > 0 {
      assert (a + b)[1..] == a[1..] + b;
      JoinLinesAppend(a[1..], b);
    } else {
      assert a + b == b;
    }
  }

  /** Reading one line and its newline off the front. */
  lemma ReadFirstLine(l: string, rest: string)
    requires '\n' !in l
    ensures ReadLines(l + "\n" + rest) == [l] + ReadLines(rest)
  {
    var s := l + "\n" + rest;
    IndexChar(s, '\n');
    var i := Index(s, "\n");
    assert s[|l|] == '\n';
    assert i == |l| by {
      assert forall j :: 0 <= j < |l| ==> s[j] == l[j];
      assert s[..i] == l[..i] || i > |l|;
    }
    assert s[..i] == l;
    assert s[i + 1..] == rest;
  }

  /** Reading back joined lines gives the lines, when none holds a newline. */
  lemma {:induction false} ReadJoinedLines(lines: seq<string>)
    requires SingleLines(lines)
    ensures ReadLines(JoinLines(lines)) == lines
  {
    if |lines| > 0 {
      ReadFirstLine(lines[0], JoinLines(lines[1..]));
      ReadJoinedLines(lines[1..]);
    }
  }

  /** Joining read lines gives the text back, when it is empty or ends with
      a newline. */
  lemma {:induction false} JoinReadLines(s: string)
    requires s == "" || s[|s| - 1] == '\n'
    ensures JoinLines(ReadLines(s)) == s
    decreases |s|
  {
    if s != "" {
      IndexChar(s, '\n');
      var i := Index(s, "\n");
      assert s == s[..i] + "\n" + s[i + 1..];
      JoinReadLines(s[i + 1..]);
    }
  }

  /** The header and the newline after it read as the header lines. */
  lemma HeaderText()
    ensures HeaderBlock + "\n" == JoinLines(HeaderLines)
  {
    var h := HeaderLines;
    assert JoinLines(h[3..]) == "\n";
    assert JoinLines(h[2..]) == "# Changelog\n\n";
    assert JoinLines(h[1..]) == "\n# Changelog\n\n";
  }

  /** The new file is the header lines, the section's lines and the kept
      lines, joined. */
  lemma SpliceAsLines(lines: seq<string>, change: string)
    requires change == "" || change[|change| - 1] == '\n'
    ensures AppendToChangelog(Some(lines), change).value
         == JoinLines(HeaderLines + (ReadLines(change) + TailLines(lines)))
  {
    var x, t := HeaderBlock + "\n", JoinLines(TailLines(lines));
    assert AppendToChangelog(Some(lines), change).value == x + change + t;
    HeaderText();
    JoinReadLines(change);
    JoinLinesAppend(ReadLines(change), TailLines(lines));
    JoinLinesAppend(HeaderLines, ReadLines(change) + TailLines(lines));
    ConcatAssoc(x, change, t);
  }

  lemma ConcatAssoc(a: string, b: string, c: string)
    ensures a + b + c == a + (b + c)
  {
  }

  /** Reading the new file finds the marker inside the header: what follows
      it is the empty line and then the rest. */
  lemma TailAfterHeader(rest: seq<string>)
    ensures TailLines(HeaderLines + rest) == [""] + rest
  {
    var all := HeaderLines + rest;
    assert all[0] != Marker && all[1] != Marker && all[2] == Marker;
    assert MarkerIndex(all) == 2;
    assert all[3..] == [""] + rest;
  }

  /** No line holds a newline. */
  predicate SingleLines(lines: seq<string>) {
    forall k :: 0 <= k < |lines| ==> '\n' !in lines[k]
  }

  lemma SingleLinesAppend(a: seq<string>, b: seq<string>)
    requires SingleLines(a) && SingleLines(b)
    ensures SingleLines(a + b)
  {
    forall k | 0 <= k < |a + b|
      ensures '\n' !in (a + b)[k]
    {
      if k >= |a| {
        assert (a + b)[k] == b[k - |a|];
      }
    }
  }

  lemma SingleLinesTail(lines: seq<string>)
    requires SingleLines(lines)
    ensures SingleLines(TailLines(lines))
  {
    var k := MarkerIndex(lines);
    if k != -1 {
      var t := lines[k + 1..];
      forall j | 0 <= j < |t|
        ensures '\n' !in t[j]
      {
        assert t[j] == lines[k + 1 + j];
      }
    }
  }

  lemma SingleHeaderLines()
    ensures SingleLines(HeaderLines)
  {
    assert '\n' !in HeaderLines[0] && '\n' !in HeaderLines[2];
  }

  /** Running the splice again keeps everything the previous run kept: in the
      new file, the lines after the first marker are an empty line, the new
      section and then the old tail, unchanged. */
  lemma RerunKeepsHistory(lines: seq<string>, change: string)
    requires SingleLines(lines)
    requires change == "" || change[|change| - 1] == '\n'
    ensures var out := AppendToChangelog(Some(lines), change).value;
      TailLines(ReadLines(out)) == [""] + (ReadLines(change) + TailLines(lines))
  {
    var body, tail := ReadLines(change), TailLines(lines);
    var all := HeaderLines + (body + tail);
    var out := AppendToChangelog(Some(lines), change).value;
    SpliceAsLines(lines, change);
    assert out == JoinLines(all);
    SingleLinesTail(lines);
    SingleLinesAppend(body, tail);
    SingleHeaderLines();
    SingleLinesAppend(HeaderLines, body + tail);
    ReadJoinedLines(all);
    assert ReadLines(out) == all;
    TailAfterHeader(body + tail);
  }

  /** A section that does not end with a newline runs into the first kept
      line: the section `a` before the kept line `b` reads back as `ab`. */
  lemma UnterminatedSectionMerges()
    ensures ReadLines(AppendToChangelog(Some([Marker, "b"]), "a").value) == HeaderLines + ["ab"]
  {
    var out := AppendToChangelog(Some([Marker, "b"]), "a").value;
    assert TailLines([Marker, "b"]) == ["b"];
    assert JoinLines(["b"]) == "b\n";
    HeaderText();
    assert JoinLines(["ab"]) == "ab\n";
    JoinLinesAppend(HeaderLines, ["ab"]);
    assert out == JoinLines(HeaderLines + ["ab"]);
    SingleHeaderLines();
    SingleLinesAppend(HeaderLines, ["ab"]);
    ReadJoinedLines(HeaderLines + ["ab"]);
  }
}
