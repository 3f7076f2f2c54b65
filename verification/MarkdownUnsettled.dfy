// Files whose sections do not survive appended text, one for each way it goes,
// and one whose sections do, but not the texts of their chunks.
module MarkdownUnsettled {
  import opened Basics
  import opened Text
  import opened MarkdownLines
  import opened MarkdownFences
  import opened MarkdownScan
  import opened MarkdownSections
  import opened MarkdownAnchors
  import opened MarkdownTitle
  import opened MarkdownChunks
  import opened MarkdownStability
  import opened MarkdownSamples

  /** A one-line file turns from a preamble into a heading. */
  lemma UnderlineCanUnsettle()
    ensures LosesLastLine(["T"], ["="])
    ensures !Keeps(SectionsOf(["T"]), SectionsOf(["T"] + ["="]))
  {
    var lines, more := ["T"], ["="];
    assert !IsWhitespace('T') && !IsWhitespace('=');
    assert Trim("T") == "T" && Trim("=") == "=";
    assert FenceOpen("T") == None && AtxHeading("T") == None;
    assert SetextUnderline("T") == None by { assert "T"[0] == 'T'; }
    assert lines[0] == "T" && (lines + more)[0] == "T";
    assert ContentStart(lines) == 0 && ContentStart(lines + more) == 0;
    assert FenceBefore(lines, 0, 0) == None;
    assert IsParagraphLine(lines, 0, 0);
    assert UnderlinesLast(lines, more);
    assert ScanOf(lines).headings == [] by {
      assert HeadingAt(lines, 0, 0) == None;
      assert Headings(lines, 0, 0) == [];
    }
    AppendedTextKeepsSections(lines, more);
  }

  /** A file with two headings, the second with one line of 400 characters below it. */
  function TwoHeadings(): (lines: seq<string>)
    ensures |lines| == 3 && lines[2] == Letters(MERGE_UP_CHARS)
    ensures lines[0] == Hashes(1) + " " + "A" && lines[1] == Hashes(2) + " " + "B"
  {
    [Hashes(1) + " " + "A", Hashes(2) + " " + "B", Letters(MERGE_UP_CHARS)]
  }

  lemma LinesOfTwoHeadings()
    ensures var lines := TwoHeadings();
            && Trim(lines[0]) == lines[0] && FenceOpen(lines[0]) == None && AtxHeading(lines[0]) == Some((1, "A"))
            && Trim(lines[1]) == lines[1] && FenceOpen(lines[1]) == None && AtxHeading(lines[1]) == Some((2, "B"))
  {
    hide TwoHeadings, AtxHeading, FenceOpen;
    assert !IsWhitespace('A') && !IsWhitespace('B');
    assert Trim("A") == "A" && Trim("B") == "B";
    HeadingLine(1, "A");
    HeadingLine(2, "B");
  }

  lemma HeadingsOfTwoHeadings()
    ensures ContentStart(TwoHeadings()) == 0
    ensures Headings(TwoHeadings(), 0, 3) == [RawHeading(1, "A", 1), RawHeading(2, "B", 2)]
    ensures IsParagraphLine(TwoHeadings(), 0, 2)
  {
    hide Trim, AtxHeading, FenceOpen, SetextUnderline, Letters, TwoHeadings;
    var lines := TwoHeadings();
    LinesOfTwoHeadings();
    LettersArePlain(MERGE_UP_CHARS);
    assert FenceBefore(lines, 0, 0) == None && FenceBefore(lines, 0, 1) == None && FenceBefore(lines, 0, 2) == None;
    assert Headings(lines, 0, 0) == [];
    assert Headings(lines, 0, 1) == [RawHeading(1, "A", 1)];
    assert Headings(lines, 0, 2) == [RawHeading(1, "A", 1), RawHeading(2, "B", 2)];
    assert HeadingAt(lines, 0, 2) == None;
  }

  lemma TrailsOfTwo(hs: seq<RawHeading>)
    requires hs == [RawHeading(1, "A", 1), RawHeading(2, "B", 2)]
    ensures Trail(hs, 0) == ["A"] && Trail(hs, 1) == ["A", "B"]
  {
    assert ChainUpTo(hs, 0, 0) == [] && ChainUpTo(hs, 1, 0) == [];
    assert Governs(hs, 0, 0) && Governs(hs, 0, 1) && Governs(hs, 1, 1);
    assert ChainUpTo(hs, 1, 1) == [0] && Chain(hs, 1) == [0, 1] && Chain(hs, 0) == [0];
  }

  /** The first heading always begins a section of its own. */
  lemma FirstHeadingHasSection(lines: seq<string>, hs: seq<RawHeading>)
    requires hs != [] && HeadingsInOrder(hs, 0, |lines|) && hs[0].line == 1
    ensures SectionsUpTo(lines, hs, 0, 1) == [Section(Trail(hs, 0), 1, SectionEnd(hs, |lines|, 0), false)]
  {
    hide Trail, RawCharLen;
    assert SectionsUpTo(lines, hs, 0, 0) == [];
  }

  lemma LengthsOfTwoHeadings()
    ensures RawCharLen(TwoHeadings(), 3, 2) == 0 && RawCharLen(TwoHeadings(), 3, 3) == MERGE_UP_CHARS + 1
  {
    hide TwoHeadings;
    var lines := TwoHeadings();
    assert RawCharLen(lines, 3, 2) == 0;
  }

  /** Underlining that line leaves the second heading with no body, so it is merged into the first. */
  lemma UnderlineCanMerge()
    ensures LosesLastLine(TwoHeadings(), ["---"])
    ensures !Keeps(SectionsOf(TwoHeadings()), SectionsOf(TwoHeadings() + ["---"]))
  {
    hide Trim, SetextUnderline, TwoHeadings, ContentStart, Headings, IsParagraphLine, RawCharLen, Trail, SectionsUpTo;
    var lines, more := TwoHeadings(), ["---"];
    DashesUnderline();
    HeadingsOfTwoHeadings();
    LengthsOfTwoHeadings();
    var hs := ScanOf(lines).headings;
    HeadingsFitFile(lines);
    TrailsOfTwo(hs);
    FirstHeadingHasSection(lines, hs);
    assert more[0] == "---";
    AppendedTextKeepsSections(lines, more);
  }

  /** A second `---` turns all that was there into front matter. */
  lemma BlockCanClose()
    ensures ClosesLeadingBlock(["---", "x"], ["---"])
    ensures !Keeps(SectionsOf(["---", "x"]), SectionsOf(["---", "x"] + ["---"]))
  {
    var lines, more := ["---", "x"], ["---"];
    assert !IsWhitespace('-') && !IsWhitespace('x');
    assert Trim("---") == "---" && Trim("x") == "x";
    assert lines[0] == "---" && lines[1] == "x" && more[0] == "---";
    assert ContentStart(lines) == 0;
    LeadingBlockIsGone(lines, more);
  }

  /** A file without a title. */
  function Untitled(): (lines: seq<string>)
    ensures |lines| == 3 && lines[0] == Letters(1) && lines[1] == Hashes(2) + " " + "A" && lines[2] == Letters(1)
  {
    [Letters(1), Hashes(2) + " " + "A", Letters(1)]
  }

  function TopLine(): string { Hashes(1) + " " + "T" }

  lemma LinesOfUntitled()
    ensures var line := Untitled()[1];
            Trim(line) == line && FenceOpen(line) == None && AtxHeading(line) == Some((2, "A"))
    ensures Trim(TopLine()) == TopLine() && FenceOpen(TopLine()) == None && AtxHeading(TopLine()) == Some((1, "T"))
    ensures SetextUnderline(TopLine()) == None && !ClosesFrontMatter(TopLine()) && !ClosesFrontMatter(Letters(1))
  {
    hide Untitled, AtxHeading, FenceOpen;
    assert !IsWhitespace('A') && !IsWhitespace('T');
    assert Trim("A") == "A" && Trim("T") == "T";
    HeadingLine(2, "A");
    HeadingLine(1, "T");
    LettersArePlain(1);
    LineKindsAreExclusive(TopLine());
    assert TopLine()[0] == '#' && Letters(1)[0] == 'x';
  }

  lemma HeadingsOfUntitled()
    ensures ContentStart(Untitled()) == 0 && !ClosesLeadingBlock(Untitled(), [TopLine()])
    ensures Headings(Untitled(), 0, 3) == [RawHeading(2, "A", 2)]
    ensures IsFirstTop(Untitled() + [TopLine()], 0, 3, 3, "T")
  {
    hide Trim, AtxHeading, FenceOpen, SetextUnderline, Letters, Untitled, TopLine;
    var lines, all := Untitled(), Untitled() + [TopLine()];
    LinesOfUntitled();
    LettersArePlain(1);
    FenceStatesOfUntitled();
    assert all[3] == TopLine();
    assert Letters(1)[0] == 'x';
    assert Headings(lines, 0, 0) == [];
    assert Headings(lines, 0, 1) == [];
    assert Headings(lines, 0, 2) == [RawHeading(2, "A", 2)];
    assert HeadingAt(lines, 0, 2) == None;
  }

  lemma FenceStatesOfUntitled()
    ensures var all := Untitled() + [TopLine()];
            FenceBefore(all, 0, 3) == None && forall i :: 0 <= i <= 2 ==> FenceBefore(Untitled(), 0, i) == None
  {
    hide Trim, AtxHeading, FenceOpen, Letters, Untitled, TopLine;
    var lines, all := Untitled(), Untitled() + [TopLine()];
    LinesOfUntitled();
    LettersArePlain(1);
    assert FenceBefore(lines, 0, 0) == None && FenceBefore(lines, 0, 1) == None && FenceBefore(lines, 0, 2) == None;
    assert FenceBefore(all, 0, 0) == None && FenceBefore(all, 0, 1) == None && FenceBefore(all, 0, 2) == None;
    assert all[2] == lines[2];
  }

  lemma SectionsOfUntitled()
    ensures SectionsOf(Untitled()) == [Section([], 1, 1, true), Section(Trail([RawHeading(2, "A", 2)], 0), 2, 3, false)]
  {
    hide Trim, Letters, Untitled, ContentStart, Headings, Trail;
    var lines, hs := Untitled(), [RawHeading(2, "A", 2)];
    HeadingsOfUntitled();
    LettersArePlain(1);
    HeadingsFitFile(lines);
    assert !IsBlankLine(lines, 1);
    assert HasText(lines, 1, 1);
    assert SectionsUpTo(lines, hs, 0, 0) == [Section([], 1, 1, true)];
  }

  /** A heading of level 1 below changes the text of every earlier chunk, though it changes no section. */
  lemma TitleCanChange(alnum: Alphanumeric, file: File)
    requires file.stem != "T"
    ensures !Unsettles(Untitled(), [TopLine()])
    ensures 1 < |SectionsOf(Untitled())| && 1 < |SectionsOf(Untitled() + [TopLine()])|
    ensures FirstChunks(alnum, file, Untitled() + [TopLine()], 1) != FirstChunks(alnum, file, Untitled(), 1)
  {
    hide Trim, SetextUnderline, Untitled, TopLine, ContentStart, Headings, SectionsOf, FirstChunks, ClosesLeadingBlock,
         IsFirstTop;
    var lines, more := Untitled(), [TopLine()];
    LinesOfUntitled();
    HeadingsOfUntitled();
    SectionsOfUntitled();
    assert Trim(more[0]) == TopLine();
    assert !UnderlinesLast(lines, more);
    assert BringsTitle(lines, more, "T");
    assert TopHeading(ScanOf(lines).headings, 0) == None;
    AppendedTextKeepsChunks(alnum, file, lines, more, 1);
  }
}
