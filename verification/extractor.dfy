/** `extractSection` of md2puml: cut one level-2 section out of a Markdown document.

    The document is split into lines on '\n'. The section starts at the first line
    that, trimmed, reads "## " followed by the title, and stops just before the
    first later line that starts (untrimmed) with "## ", or at the end of the
    document. Its lines are joined back with '\n'; a missing heading gives "". */
module Extractor {
  import opened Builtins

  const HeadingMarker := "## "

  /** The line is the section's heading once white space is trimmed from both ends. */
  predicate IsHeadingLine(line: string, title: string, ws: char -> bool)
  {
    Trim(line, ws) == HeadingMarker + title
  }

  /** The line opens some level-2 section; this test does not trim. */
  predicate IsSectionBreak(line: string)
  {
    StartsWith(line, HeadingMarker)
  }

  ghost predicate HasHeading(lines: seq<string>, title: string, ws: char -> bool)
  {
    exists i :: 0 <= i < |lines| && IsHeadingLine(lines[i], title, ws)
  }

  /** Reference definition: lines[s..e] is the section called `title`. */
  ghost predicate IsSection(lines: seq<string>, title: string, ws: char -> bool, s: int, e: int)
  {
    0 <= s < e <= |lines|
    && IsHeadingLine(lines[s], title, ws)
    && (forall j :: 0 <= j < s ==> !IsHeadingLine(lines[j], title, ws))
    && (forall j :: s < j < e ==> !IsSectionBreak(lines[j]))
    && (e == |lines| || IsSectionBreak(lines[e]))
  }

  /** The first `findIndex` of `extractSection`: the index of the first heading
      line, or -1 when there is none. */
  function HeadingIndex(lines: seq<string>, title: string, ws: char -> bool): (r: int)
    ensures r == -1 <==> !HasHeading(lines, title, ws)
    ensures r >= 0 ==> r < |lines| && IsHeadingLine(lines[r], title, ws)
                       && forall j :: 0 <= j < r ==> !IsHeadingLine(lines[j], title, ws)
  {
    FindIndex(lines, line => IsHeadingLine(line, title, ws))
  }

  /** The `slice`, second `findIndex` and `end` steps of `extractSection`: where the
      section that starts at `start` stops (exclusive): the first later line that
      starts with "## ", or the end of the document. */
  function SectionEnd(lines: seq<string>, start: int): (e: int)
    requires 0 <= start < |lines|
    ensures start < e <= |lines|
    ensures forall j :: start < j < e ==> !IsSectionBreak(lines[j])
    ensures e == |lines| || IsSectionBreak(lines[e])
  {
    var rest := lines[start + 1..];
    var endOffset := FindIndex(rest, IsSectionBreak);
    assert forall j :: start < j < start + 1 + |rest| ==> lines[j] == rest[j - start - 1];
    if endOffset >= 0 then start + 1 + endOffset else |lines|
  }

  /** The section's text, or "" exactly when no line is its heading. */
  function ExtractSection(markdown: string, title: string, ws: char -> bool): (r: string)
    ensures r == "" <==> !HasHeading(Split(markdown, '\n'), title, ws)
  {
    var lines := Split(markdown, '\n');
    var start := HeadingIndex(lines, title, ws);
    if start < 0 then ""
    else
      var section := lines[start..SectionEnd(lines, start)];
      JoinStartsWithFirst(section, "\n");
      Join(section, "\n")
  }

  /** When the heading is present, the result is the join of the section's lines
      lines[s..e] in the sense of IsSection, and splitting it gives those lines back. */
  lemma ExtractSectionBounds(markdown: string, title: string, ws: char -> bool) returns (s: nat, e: nat)
    requires HasHeading(Split(markdown, '\n'), title, ws)
    ensures IsSection(Split(markdown, '\n'), title, ws, s, e)
    ensures ExtractSection(markdown, title, ws) == Join(Split(markdown, '\n')[s..e], "\n")
    ensures Split(ExtractSection(markdown, title, ws), '\n') == Split(markdown, '\n')[s..e]
  {
    var lines := Split(markdown, '\n');
    s := HeadingIndex(lines, title, ws);
    e := SectionEnd(lines, s);
    SplitJoinSlice(lines, s, e);
  }

  /** A run of lines taken from a split document splits back into the same lines. */
  lemma SplitJoinSlice(lines: seq<string>, s: nat, e: nat)
    requires s < e <= |lines|
    requires forall i :: 0 <= i < |lines| ==> '\n' !in lines[i]
    ensures Split(Join(lines[s..e], "\n"), '\n') == lines[s..e]
  {
    var section := lines[s..e];
    forall i | 0 <= i < |section| ensures '\n' !in section[i] {
      assert section[i] == lines[s + i];
    }
    SplitJoin(section, '\n');
  }

  /** There is at most one section for a title: later duplicate headings never start one. */
  lemma SectionIsUnique(lines: seq<string>, title: string, ws: char -> bool,
                        s: int, e: int, s': int, e': int)
    requires IsSection(lines, title, ws, s, e) && IsSection(lines, title, ws, s', e')
    ensures s == s' && e == e'
  {
    assert IsHeadingLine(lines[s], title, ws) && IsHeadingLine(lines[s'], title, ws);
    assert e < |lines| ==> IsSectionBreak(lines[e]);
    assert e' < |lines| ==> IsSectionBreak(lines[e']);
  }

  /** The result begins with the first heading line of the document, and no later line
      of it starts with "## "; sub-headings and indented "## " lines stay inside. */
  lemma SectionShape(markdown: string, title: string, ws: char -> bool, first: nat)
    requires first < |Split(markdown, '\n')|
    requires IsHeadingLine(Split(markdown, '\n')[first], title, ws)
    requires forall j :: 0 <= j < first ==> !IsHeadingLine(Split(markdown, '\n')[j], title, ws)
    ensures var out := Split(ExtractSection(markdown, title, ws), '\n');
            out[0] == Split(markdown, '\n')[first]
            && forall k :: 0 < k < |out| ==> !IsSectionBreak(out[k])
  {
    var lines := Split(markdown, '\n');
    assert HasHeading(lines, title, ws);
    var s, e := ExtractSectionBounds(markdown, title, ws);
    assert IsHeadingLine(lines[s], title, ws) && IsHeadingLine(lines[first], title, ws);
  }

  /** The section ends just before the first "## " line after its heading, or at the
      end of the document when there is none. */
  lemma SectionEndsAtNextBreak(markdown: string, title: string, ws: char -> bool, first: nat)
    requires first < |Split(markdown, '\n')|
    requires IsHeadingLine(Split(markdown, '\n')[first], title, ws)
    requires forall j :: 0 <= j < first ==> !IsHeadingLine(Split(markdown, '\n')[j], title, ws)
    ensures var lines := Split(markdown, '\n');
            var n := |Split(ExtractSection(markdown, title, ws), '\n')|;
            first + n <= |lines|
            && (forall j :: first < j < first + n ==> !IsSectionBreak(lines[j]))
            && (first + n == |lines| || IsSectionBreak(lines[first + n]))
  {
    var lines := Split(markdown, '\n');
    assert HasHeading(lines, title, ws);
    var s, e := ExtractSectionBounds(markdown, title, ws);
    assert IsHeadingLine(lines[s], title, ws) && IsHeadingLine(lines[first], title, ws);
    assert s == first;
    assert |Split(ExtractSection(markdown, title, ws), '\n')| == e - s;
  }

  /** The extracted text is a substring of the document. */
  lemma SectionIsSubstring(markdown: string, title: string, ws: char -> bool)
    ensures exists i, j :: 0 <= i <= j <= |markdown|
                        && markdown[i..j] == ExtractSection(markdown, title, ws)
  {
    if HasHeading(Split(markdown, '\n'), title, ws) {
      var s, e := ExtractSectionBounds(markdown, title, ws);
      JoinSplit(markdown, '\n');
      JoinSliceIsInfix(Split(markdown, '\n'), s, e, "\n");
    } else {
      assert markdown[0..0] == "";
    }
  }

  /** A heading on the first line with no "## " line after it makes the section the
      whole document. */
  lemma WholeDocumentSection(markdown: string, title: string, ws: char -> bool)
    requires IsHeadingLine(Split(markdown, '\n')[0], title, ws)
    requires forall j :: 0 < j < |Split(markdown, '\n')| ==> !IsSectionBreak(Split(markdown, '\n')[j])
    ensures ExtractSection(markdown, title, ws) == markdown
  {
    var lines := Split(markdown, '\n');
    assert HasHeading(lines, title, ws);
    var s, e := ExtractSectionBounds(markdown, title, ws);
    assert s == 0 && e == |lines|;
    assert lines[s..e] == lines;
    JoinSplit(markdown, '\n');
  }

  /** The white-space set leaves visible ASCII characters alone, as JavaScript's does. */
  ghost predicate SparesVisibleAscii(ws: char -> bool)
  {
    forall c :: ws(c) ==> !('!' <= c <= '~')
  }

  /** Any section in the sense of IsSection is exactly what gets extracted. */
  lemma ExtractSectionIsTheSection(markdown: string, title: string, ws: char -> bool, s: nat, e: nat)
    requires IsSection(Split(markdown, '\n'), title, ws, s, e)
    ensures ExtractSection(markdown, title, ws) == Join(Split(markdown, '\n')[s..e], "\n")
  {
    var lines := Split(markdown, '\n');
    assert IsHeadingLine(lines[s], title, ws);
    var s', e' := ExtractSectionBounds(markdown, title, ws);
    SectionIsUnique(lines, title, ws, s, e, s', e');
  }

  /** A heading on the first line and the first "## " line after it at index e (or no
      such line, e being the line count) make the section lines[..e]. */
  lemma SectionFromFirstLine(markdown: string, title: string, ws: char -> bool, e: nat)
    requires 0 < e <= |Split(markdown, '\n')|
    requires IsHeadingLine(Split(markdown, '\n')[0], title, ws)
    requires forall j :: 0 < j < e ==> !IsSectionBreak(Split(markdown, '\n')[j])
    requires e == |Split(markdown, '\n')| || IsSectionBreak(Split(markdown, '\n')[e])
    ensures ExtractSection(markdown, title, ws) == Join(Split(markdown, '\n')[..e], "\n")
  {
    var lines := Split(markdown, '\n');
    assert lines[0..e] == lines[..e];
    ExtractSectionIsTheSection(markdown, title, ws, 0, e);
  }

  /** A line that reads exactly "## " and the title is that title's heading, provided
      '#' and the title's last character are not white space. */
  lemma ExactHeadingLine(title: string, ws: char -> bool)
    requires !ws('#')
    requires title != [] && !ws(title[|title| - 1])
    ensures IsHeadingLine(HeadingMarker + title, title, ws)
  {
    TrimUnchanged(HeadingMarker + title, ws);
  }

  /** Heading lines are matched after trimming, section breaks are not: an indented
      "  ## Flows " line opens the section called "Flows" but would not end one. */
  lemma IndentedHeadingMatches(ws: char -> bool, line: string)
    requires ws(' ') && SparesVisibleAscii(ws)
    requires line == "  " + "## Flows" + " "
    ensures IsHeadingLine(line, "Flows", ws) && !IsSectionBreak(line)
  {
    assert HeadingMarker + "Flows" == "## Flows";
    ExactHeadingLine("Flows", ws);
    var once, twice := line[1..], line[2..];
    assert once[1..] == twice == "## Flows" + " ";
    assert twice[..|twice| - 1] == "## Flows";
    assert twice[0] == '#';
    calc {
      Trim(line, ws);
      Trim(once, ws);
      Trim(twice, ws);
      Trim("## Flows", ws);
    }
    assert line[..3][0] == ' ';
  }

  /** The lines of the example below: a text line, then a "## " line. */
  lemma PrimaryFlowsBreaks(lines: seq<string>)
    requires lines == ["## Primary Flows", "User submits order", "## Other", "ignored"]
    ensures (forall j :: 0 < j < 2 ==> !IsSectionBreak(lines[j])) && IsSectionBreak(lines[2])
  {
    assert lines[1][..3][0] == 'U';
  }

  /** The document of the example below splits into the lines PrimaryFlowsBreaks is about. */
  lemma PrimaryFlowsDocument(md: string)
    requires md == "## Primary Flows" + "\n" + "User submits order" + "\n" + "## Other" + "\n" + "ignored"
    ensures Split(md, '\n') == ["## Primary Flows", "User submits order", "## Other", "ignored"]
  {
    var lines := ["## Primary Flows", "User submits order", "## Other", "ignored"];
    assert Join(lines, "\n") == md;
    SplitJoin(lines, '\n');
  }

  /** A heading, a line of text, the next heading: only the first two lines are kept. */
  lemma PrimaryFlowsExample(ws: char -> bool, md: string)
    requires SparesVisibleAscii(ws)
    requires md == "## Primary Flows" + "\n" + "User submits order" + "\n" + "## Other" + "\n" + "ignored"
    ensures ExtractSection(md, "Primary Flows", ws) == "## Primary Flows" + "\n" + "User submits order"
  {
    assert Join(["## Primary Flows", "User submits order"], "\n") == "## Primary Flows" + "\n" + "User submits order";
    assert HeadingMarker + "Primary Flows" == "## Primary Flows";
    ExactHeadingLine("Primary Flows", ws);
    PrimaryFlowsDocument(md);
    var lines := ["## Primary Flows", "User submits order", "## Other", "ignored"];
    assert lines[..2] == ["## Primary Flows", "User submits order"];
    PrimaryFlowsBreaks(Split(md, '\n'));
    SectionFromFirstLine(md, "Primary Flows", ws, 2);
  }

  /** The lines of the example below: "### Sub", "  ## X" and "# Top" are not "## "
      lines; "## Next" is. */
  lemma SubheadingBreaks(lines: seq<string>)
    requires lines == ["## Flows", "### Sub", "  ## X", "# Top", "## Next"]
    ensures (forall j :: 0 < j < 4 ==> !IsSectionBreak(lines[j])) && IsSectionBreak(lines[4])
  {
    assert lines[1][..3][2] == '#' && lines[2][..3][0] == ' ' && lines[3][..3][1] == ' ';
  }

  /** The document of the example below splits into the lines SubheadingBreaks is about. */
  lemma SubheadingDocument(md: string)
    requires md == "## Flows" + "\n" + "### Sub" + "\n" + "  ## X" + "\n" + "# Top" + "\n" + "## Next"
    ensures Split(md, '\n') == ["## Flows", "### Sub", "  ## X", "# Top", "## Next"]
  {
    var lines := ["## Flows", "### Sub", "  ## X", "# Top", "## Next"];
    assert Join(lines, "\n") == md;
    SplitJoin(lines, '\n');
  }

  /** Only a line starting with "## " ends a section: a deeper heading "### Sub", an
      indented "  ## X" and even a level-1 heading "# Top" stay inside it. */
  lemma SubheadingsStayInside(ws: char -> bool, md: string)
    requires SparesVisibleAscii(ws)
    requires md == "## Flows" + "\n" + "### Sub" + "\n" + "  ## X" + "\n" + "# Top" + "\n" + "## Next"
    ensures ExtractSection(md, "Flows", ws)
            == "## Flows" + "\n" + "### Sub" + "\n" + "  ## X" + "\n" + "# Top"
  {
    assert Join(["## Flows", "### Sub", "  ## X", "# Top"], "\n")
           == "## Flows" + "\n" + "### Sub" + "\n" + "  ## X" + "\n" + "# Top";
    assert HeadingMarker + "Flows" == "## Flows";
    ExactHeadingLine("Flows", ws);
    SubheadingDocument(md);
    var lines := ["## Flows", "### Sub", "  ## X", "# Top", "## Next"];
    assert lines[..4] == ["## Flows", "### Sub", "  ## X", "# Top"];
    SubheadingBreaks(Split(md, '\n'));
    SectionFromFirstLine(md, "Flows", ws, 4);
  }
}
