// The whole chunker: sections become chunks with distinct anchors that tile
// the document after its front matter.
module MarkdownChunks {
  import opened Basics
  import opened Text
  import opened MarkdownLines
  import opened MarkdownFences
  import opened MarkdownScan
  import opened MarkdownSections
  import opened MarkdownSplit
  import opened MarkdownPieces
  import opened MarkdownPieceLaws
  import opened MarkdownElide
  import opened MarkdownAnchors
  import opened MarkdownText
  import opened MarkdownTitle

  datatype Chunk = Chunk(anchor: string, lineStart: nat, lineEnd: nat, embedText: string)

  // What the header of every chunk of a file says.
  datatype Labels = Labels(title: string, path: string)

  function LabelsOf(file: File, lines: seq<string>): Labels {
    Labels(TitleOf(ScanOf(lines), file), file.path)
  }

  predicate SectionsFit(lines: seq<string>, sections: seq<Section>) {
    forall k :: 0 <= k < |sections| ==> 1 <= sections[k].lineStart <= sections[k].lineEnd <= |lines|
  }

  function BaseAnchor(alnum: Alphanumeric, section: Section): string {
    if section.isPreamble then PREAMBLE_ANCHOR else SlugTrail(alnum, section.trail)
  }

  function Bases(alnum: Alphanumeric, sections: seq<Section>): (r: seq<string>)
    ensures |r| == |sections| && forall k :: 0 <= k < |r| ==> r[k] == BaseAnchor(alnum, sections[k])
  {
    seq(|sections|, k requires 0 <= k < |sections| => BaseAnchor(alnum, sections[k]))
  }

  /** Anchor of section i, numbered among the sections with the same base. */
  function AnchorAt(alnum: Alphanumeric, sections: seq<Section>, i: nat): string
    requires i < |sections|
  {
    var bases := Bases(alnum, sections);
    SectionAnchor(bases[i], Ordinal(bases, i))
  }

  /** The body leaves out the section's own heading line. */
  function BodyFrom(section: Section): nat {
    if section.isPreamble then section.lineStart else section.lineStart + 1
  }

  function PiecesOf(lines: seq<string>, section: Section): (r: seq<Range>)
    requires 1 <= section.lineStart <= section.lineEnd <= |lines|
    ensures r != [] && forall k :: 0 <= k < |r| ==> 1 <= r[k].0 && r[k].1 <= |lines|
  {
    SplitStaysInside(lines, BodyFrom(section), section.lineEnd);
    SplitOf(lines, BodyFrom(section), section.lineEnd)
  }

  lemma SplitStaysInside(lines: seq<string>, first: nat, last: nat)
    requires 1 <= first <= last + 1 <= |lines| + 1
    ensures var r := SplitOf(lines, first, last);
            r != [] && forall k :: 0 <= k < |r| ==> first <= r[k].0 && r[k].1 <= last
  {
    hide RawCharLen, ParagraphBlocksOf, Cuts;
    if first <= last {
      SplitTiles(lines, first, last);
      TilesStayInside(SplitOf(lines, first, last), first, last);
    }
  }

  function ChunkOfPiece(labels: Labels, lines: seq<string>, section: Section, anchor: string, pieces: seq<Range>,
        p: nat): Chunk
    requires p < |pieces| && 1 <= pieces[p].0 && pieces[p].1 <= |lines|
  {
    Chunk(PieceAnchor(anchor, p), if p == 0 then section.lineStart else pieces[p].0, pieces[p].1,
          EmbedText(Header(labels.title, labels.path, section.trail), BodyOf(lines, pieces[p].0, pieces[p].1)))
  }

  function SectionChunks(labels: Labels, lines: seq<string>, section: Section, anchor: string): (r: seq<Chunk>)
    requires 1 <= section.lineStart <= section.lineEnd <= |lines|
    ensures r != []
  {
    var pieces := PiecesOf(lines, section);
    seq(|pieces|, p requires 0 <= p < |pieces| => ChunkOfPiece(labels, lines, section, anchor, pieces, p))
  }

  /** Chunks of the first n sections. */
  function ChunksUpTo(alnum: Alphanumeric, labels: Labels, lines: seq<string>, sections: seq<Section>,
        n: nat): (r: seq<Chunk>)
    requires n <= |sections| && SectionsFit(lines, sections)
    ensures 0 < n ==> r != []
  {
    if n == 0 then []
    else
      ChunksUpTo(alnum, labels, lines, sections, n - 1)
      + SectionChunks(labels, lines, sections[n - 1], AnchorAt(alnum, sections, n - 1))
  }

  lemma DocumentSectionsFit(lines: seq<string>)
    ensures SectionsFit(lines, SectionsOf(lines))
  {
    hide SectionsUpTo, Headings, ContentStart, FrontMatterTitle, IsFrontMatter;
    var doc := ScanOf(lines);
    HeadingsAreInOrder(lines, doc.contentStart, |lines|);
    if SectionsOf(lines) != [] {
      SectionsTile(lines, doc.headings, doc.contentStart, |doc.headings|);
      var first := FirstCovered(lines, doc.headings, doc.contentStart);
      TilesStayInside(Spans(SectionsOf(lines), SectionSpan), first, |lines|);
    }
  }

  function ChunksOf(alnum: Alphanumeric, file: File, lines: seq<string>): seq<Chunk> {
    DocumentSectionsFit(lines);
    ChunksUpTo(alnum, LabelsOf(file, lines), lines, SectionsOf(lines), |SectionsOf(lines)|)
  }

  /** Chunks of the first n sections of a file. */
  function FirstChunks(alnum: Alphanumeric, file: File, lines: seq<string>, n: nat): seq<Chunk>
    requires n <= |SectionsOf(lines)|
  {
    DocumentSectionsFit(lines);
    ChunksUpTo(alnum, LabelsOf(file, lines), lines, SectionsOf(lines), n)
  }

  // ----- the program -----

  method BuildChunks(alnum: Alphanumeric, labels: Labels, lines: seq<string>, sections: seq<Section>)
    returns (chunks: seq<Chunk>)
    requires SectionsFit(lines, sections)
    ensures chunks == ChunksUpTo(alnum, labels, lines, sections, |sections|)
  {
    hide SlugTrail, SectionChunks, Ordinal, Bases, CountsAre, SectionAnchor, ChunksUpTo, CountIn, Decimal;
    chunks := [];
    var anchorCounts: map<string, nat> := map[];
    ghost var bases := Bases(alnum, sections);
    var i := 0;
    NothingCounted();
    assert bases[..0] == [];
    NoChunksYet(alnum, labels, lines, sections);
    while i < |sections|
      invariant 0 <= i <= |sections|
      invariant CountsAre(anchorCounts, bases[..i])
      invariant chunks == ChunksUpTo(alnum, labels, lines, sections, i)
    {
      var section := sections[i];
      var baseAnchor := PREAMBLE_ANCHOR;
      if !section.isPreamble {
        baseAnchor := SlugifyTrail(alnum, section.trail);
      }
      var count := CountIn(anchorCounts, baseAnchor) + 1;
      OccurrenceStep(anchorCounts, bases, i);
      anchorCounts := anchorCounts[baseAnchor := count];
      var anchor := if count == 1 then baseAnchor else baseAnchor + "~" + Decimal(count);
      SuffixForms(baseAnchor, count, 0);
      var sectionChunks := EmitPieces(labels, lines, section, anchor);
      NextSection(alnum, labels, lines, sections, i);
      chunks := chunks + sectionChunks;
      i := i + 1;
    }
  }

  lemma NoChunksYet(alnum: Alphanumeric, labels: Labels, lines: seq<string>, sections: seq<Section>)
    requires SectionsFit(lines, sections)
    ensures ChunksUpTo(alnum, labels, lines, sections, 0) == []
  {
  }

  lemma NextSection(alnum: Alphanumeric, labels: Labels, lines: seq<string>, sections: seq<Section>, i: nat)
    requires SectionsFit(lines, sections) && i < |sections|
    ensures ChunksUpTo(alnum, labels, lines, sections, i + 1) ==
              ChunksUpTo(alnum, labels, lines, sections, i)
              + SectionChunks(labels, lines, sections[i], AnchorAt(alnum, sections, i))
  {
    hide SectionChunks, AnchorAt, SectionsFit;
  }

  function CountIn(counts: map<string, nat>, base: string): nat {
    if base in counts then counts[base] else 0
  }

  /** The counters hold how often each base was seen. */
  ghost predicate CountsAre(counts: map<string, nat>, bases: seq<string>) {
    forall b :: CountIn(counts, b) == Occurrences(bases, b)
  }

  lemma NothingCounted()
    ensures CountsAre(map[], [])
  {
  }

  lemma OccurrenceStep(counts: map<string, nat>, bases: seq<string>, i: nat)
    requires i < |bases| && CountsAre(counts, bases[..i])
    ensures Ordinal(bases, i) == CountIn(counts, bases[i]) + 1
    ensures CountsAre(counts[bases[i] := CountIn(counts, bases[i]) + 1], bases[..i + 1])
  {
    assert bases[..i + 1][..i] == bases[..i];
    var next := counts[bases[i] := CountIn(counts, bases[i]) + 1];
    forall b
      ensures CountIn(next, b) == Occurrences(bases[..i + 1], b)
    {
      assert CountIn(counts, b) == Occurrences(bases[..i], b);
    }
  }

  lemma SuffixForms(anchor: string, count: nat, p: nat)
    ensures SectionAnchor(anchor, count) == (if count == 1 then anchor else anchor + "~" + Decimal(count))
    ensures PieceAnchor(anchor, p) == (if p == 0 then anchor else anchor + "#" + Decimal(p + 1))
  {
    hide Decimal;
    assert anchor + "" == anchor;
    assert anchor + ("~" + Decimal(count)) == anchor + "~" + Decimal(count);
    assert anchor + ("#" + Decimal(p + 1)) == anchor + "#" + Decimal(p + 1);
  }

  lemma SectionChunkAt(labels: Labels, lines: seq<string>, section: Section, anchor: string)
    requires 1 <= section.lineStart <= section.lineEnd <= |lines|
    ensures var pieces, chunks := PiecesOf(lines, section), SectionChunks(labels, lines, section, anchor);
            && |chunks| == |pieces|
            && forall p :: 0 <= p < |pieces| ==> chunks[p] == ChunkOfPiece(labels, lines, section, anchor, pieces, p)
  {
    hide PiecesOf, ChunkOfPiece;
  }

  /** The pieces of one section, as chunks. */
  method EmitPieces(labels: Labels, lines: seq<string>, section: Section, anchor: string) returns (chunks: seq<Chunk>)
    requires 1 <= section.lineStart <= section.lineEnd <= |lines|
    ensures chunks == SectionChunks(labels, lines, section, anchor)
  {
    hide SplitOf, BodyOf, SectionChunks, PieceAnchor, Decimal, Join;
    var header := Header(labels.title, labels.path, section.trail);
    var bodyFrom := if section.isPreamble then section.lineStart else section.lineStart + 1;
    var pieces := SplitSection(lines, bodyFrom, section.lineEnd);
    assert pieces == PiecesOf(lines, section);
    hide PiecesOf;
    SectionChunkAt(labels, lines, section, anchor);
    ghost var all := SectionChunks(labels, lines, section, anchor);
    chunks := [];
    var p := 0;
    while p < |pieces|
      invariant 0 <= p <= |pieces|
      invariant chunks == all[..p]
    {
      var pieceAnchor := if p == 0 then anchor else anchor + "#" + Decimal(p + 1);
      SuffixForms(anchor, 1, p);
      var body := ElidedBody(lines, pieces[p].0, pieces[p].1);
      var embedText := if body == "" then header else header + "\n" + body;
      var nodeStart := if p == 0 then section.lineStart else pieces[p].0;
      chunks := chunks + [Chunk(pieceAnchor, nodeStart, pieces[p].1, embedText)];
      p := p + 1;
    }
  }

  function ChunksOfText(alnum: Alphanumeric, file: File, text: string): seq<Chunk> {
    ChunksOf(alnum, file, LinesOf(StripBom(text)))
  }

  /** A byte-order mark at the beginning of a file makes no difference. */
  lemma MarkIsIgnored(alnum: Alphanumeric, file: File, text: string)
    ensures ChunksOfText(alnum, file, "\U{FEFF}" + text) == ChunksOf(alnum, file, LinesOf(text))
    ensures text == "" || text[0] != '\U{FEFF}' ==>
              ChunksOfText(alnum, file, text) == ChunksOf(alnum, file, LinesOf(text))
  {
    hide ChunksOf, LinesOf;
    assert ("\U{FEFF}" + text)[1..] == text;
  }

  method ChunkMarkdown(alnum: Alphanumeric, file: File, text: string) returns (chunks: seq<Chunk>)
    ensures chunks == ChunksOfText(alnum, file, text)
  {
    hide SectionsUpTo, ChunksUpTo, LinesOf, TitleOf;
    var lines := LinesOf(StripBom(text));
    var doc := Scan(lines);
    if lines == [] {
      EmptyDocument(lines);
      return [];
    }
    HeadingsAreInOrder(lines, doc.contentStart, |lines|);
    var sections := BuildSections(doc, lines);
    if sections == [] {
      NoSectionsNoChunks(alnum, file, lines);
      return [];
    }
    DocumentSectionsFit(lines);
    chunks := BuildChunks(alnum, Labels(TitleOf(doc, file), file.path), lines, sections);
  }

  lemma EmptyDocument(lines: seq<string>)
    requires lines == []
    ensures SectionsOf(lines) == []
    ensures forall alnum, file :: ChunksOf(alnum, file, lines) == []
  {
  }

  // ----- chunk spans tile the document -----

  function ChunkSpan(c: Chunk): Range { (c.lineStart, c.lineEnd) }

  lemma SpansJoin(a: seq<Chunk>, b: seq<Chunk>, first: nat, mid: nat, last: nat)
    requires Tiles(Spans(a, ChunkSpan), first, mid) && Tiles(Spans(b, ChunkSpan), mid + 1, last)
    ensures Tiles(Spans(a + b, ChunkSpan), first, last)
  {
    TilesJoin(Spans(a, ChunkSpan), Spans(b, ChunkSpan), first, mid, last);
    assert Spans(a + b, ChunkSpan) == Spans(a, ChunkSpan) + Spans(b, ChunkSpan);
  }

  lemma SectionChunksTile(labels: Labels, lines: seq<string>, section: Section, anchor: string)
    requires 1 <= section.lineStart <= section.lineEnd <= |lines|
    ensures Tiles(Spans(SectionChunks(labels, lines, section, anchor), ChunkSpan), section.lineStart, section.lineEnd)
  {
    hide BodyOf, RawCharLen, ParagraphBlocksOf, Cuts;
    if BodyFrom(section) <= section.lineEnd {
      SplitTiles(lines, BodyFrom(section), section.lineEnd);
    }
  }

  lemma TilesMeet(sections: seq<Section>, first: nat, last: nat, k: nat)
    requires Tiles(Spans(sections, SectionSpan), first, last) && k < |sections|
    ensures sections[k].lineStart == if k == 0 then first else sections[k - 1].lineEnd + 1
  {
  }

  lemma {:induction false} ChunksTile(alnum: Alphanumeric, labels: Labels, lines: seq<string>,
        sections: seq<Section>, first: nat, last: nat, n: nat)
    requires SectionsFit(lines, sections) && Tiles(Spans(sections, SectionSpan), first, last) && 0 < n <= |sections|
    ensures Tiles(Spans(ChunksUpTo(alnum, labels, lines, sections, n), ChunkSpan), first, sections[n - 1].lineEnd)
  {
    hide SectionChunks, Spans, AnchorAt, SectionsFit, Tiles;
    SectionFits(lines, sections, n - 1);
    TilesMeet(sections, first, last, n - 1);
    var anchor := AnchorAt(alnum, sections, n - 1);
    SectionChunksTile(labels, lines, sections[n - 1], anchor);
    if n == 1 {
      assert ChunksUpTo(alnum, labels, lines, sections, 0) == [];
      var own := SectionChunks(labels, lines, sections[0], anchor);
      assert [] + own == own;
    } else {
      ChunksTile(alnum, labels, lines, sections, first, last, n - 1);
      SpansJoin(ChunksUpTo(alnum, labels, lines, sections, n - 1),
                SectionChunks(labels, lines, sections[n - 1], anchor),
                first, sections[n - 2].lineEnd, sections[n - 1].lineEnd);
    }
  }

  /** A line of text after the front matter. */
  predicate IsContent(lines: seq<string>, ln: nat)
    requires 1 <= ln <= |lines|
  {
    ContentStart(lines) < ln && !IsBlankLine(lines, ln)
  }

  /**
   * Where the chunks begin: at the first line after the front matter, unless
   * only blank lines stand between it and the first heading; then there.
   */
  function FirstLine(lines: seq<string>): (first: nat)
    ensures var hs, start := ScanOf(lines).headings, ContentStart(lines);
            && (hs == [] ==> first == start + 1)
            && (hs != [] ==>
                  && hs[0].line <= |lines|
                  && first == if HasText(lines, start + 1, SaturatingSub(hs[0].line, 1)) then start + 1 else hs[0].line)
  {
    HeadingsAreInOrder(lines, ContentStart(lines), |lines|);
    FirstCovered(lines, ScanOf(lines).headings, ContentStart(lines))
  }

  /** Lines before the first heading are left out exactly if all of them are blank. */
  lemma BlankLinesAreLeftOut(lines: seq<string>)
    requires ScanOf(lines).headings != []
    ensures var start, top := ContentStart(lines), ScanOf(lines).headings[0].line;
            && start < top <= |lines|
            && FirstLine(lines) ==
                 if forall i: nat :: start <= i < top - 1 ==> Trim(lines[i]) == "" then top else start + 1
  {
    hide Trim, ContentStart, FrontMatterTitle, Headings, HasText;
    var start, hs := ContentStart(lines), ScanOf(lines).headings;
    HeadingsAreInOrder(lines, start, |lines|);
    TextMeaning(lines, start + 1, hs[0].line - 1);
  }

  lemma TextMeaning(lines: seq<string>, first: nat, last: nat)
    requires 1 <= first && last <= |lines|
    ensures HasText(lines, first, last) <==> !(forall i: nat :: first - 1 <= i < last ==> Trim(lines[i]) == "")
  {
    hide Trim;
    if i: nat :| first - 1 <= i < last && Trim(lines[i]) != "" {
      assert !IsBlankLine(lines, i + 1);
    }
  }

  /**
   * The chunk spans follow each other without gap or overlap, from the first
   * line to the last line of the file; and there are no chunks exactly if there
   * is no text.
   */
  lemma ChunksTileDocument(alnum: Alphanumeric, file: File, lines: seq<string>)
    ensures ChunksOf(alnum, file, lines) == [] <==> forall ln :: 1 <= ln <= |lines| ==> !IsContent(lines, ln)
    ensures ChunksOf(alnum, file, lines) != [] ==>
              Tiles(Spans(ChunksOf(alnum, file, lines), ChunkSpan), FirstLine(lines), |lines|)
  {
    hide SectionsOf, ChunksUpTo, Headings, ContentStart, FrontMatterTitle, IsContent, Tiles, FirstLine;
    var sections := SectionsOf(lines);
    DocumentSectionsFit(lines);
    if sections == [] {
      NoSectionsNoText(lines);
      NoSectionsNoChunks(alnum, file, lines);
    } else {
      DocumentSectionsTile(lines);
      ChunksTile(alnum, LabelsOf(file, lines), lines, sections, FirstLine(lines), |lines|, |sections|);
      LastOfTiles(Spans(sections, SectionSpan), FirstLine(lines), |lines|);
      var ln := SomeText(lines);
    }
  }

  lemma DocumentSectionsTile(lines: seq<string>)
    requires SectionsOf(lines) != []
    ensures Tiles(Spans(SectionsOf(lines), SectionSpan), FirstLine(lines), |lines|)
  {
    hide Headings, ContentStart, FrontMatterTitle, IsFrontMatter, HasText, SectionsUpTo, Tiles;
    var doc := ScanOf(lines);
    HeadingsAreInOrder(lines, doc.contentStart, |lines|);
    SectionsTile(lines, doc.headings, doc.contentStart, |doc.headings|);
  }

  /** A heading's line is text. */
  lemma HeadingIsText(lines: seq<string>, k: nat)
    requires k < |ScanOf(lines).headings|
    ensures var line := ScanOf(lines).headings[k].line;
            1 <= line <= |lines| && IsContent(lines, line)
  {
    hide Trim, FenceOpen, IsFenced, AtxHeading, SetextUnderline, ContentStart, FrontMatterTitle, IsFrontMatter,
         Headings;
    var from, h := ContentStart(lines), ScanOf(lines).headings[k];
    HeadingsAreInOrder(lines, from, |lines|);
    HeadingsAreExactly(lines, from, |lines|, h);
    var j :| from <= j < |lines| && HeadingAt(lines, from, j) == Some(h);
    HeadingAtPosition(lines, from, j);
  }

  /** A document with sections has text: in its preamble, or a heading. */
  lemma SomeText(lines: seq<string>) returns (ln: nat)
    requires SectionsOf(lines) != []
    ensures 1 <= ln <= |lines| && IsContent(lines, ln)
  {
    hide Headings, ContentStart, FrontMatterTitle, IsFrontMatter, IsBlankLine;
    var hs := ScanOf(lines).headings;
    if hs != [] {
      HeadingIsText(lines, 0);
      ln := hs[0].line;
    } else {
      ln :| ContentStart(lines) < ln <= |lines| && !IsBlankLine(lines, ln);
    }
  }

  lemma NoSectionsNoChunks(alnum: Alphanumeric, file: File, lines: seq<string>)
    requires SectionsOf(lines) == []
    ensures ChunksOf(alnum, file, lines) == []
  {
    hide SectionsOf;
  }

  lemma NoSectionsNoText(lines: seq<string>)
    requires SectionsOf(lines) == []
    ensures forall ln :: 1 <= ln <= |lines| ==> !IsContent(lines, ln)
  {
    hide Headings, ContentStart, FrontMatterTitle, IsFrontMatter, IsBlankLine;
    var doc := ScanOf(lines);
    HeadingsAreInOrder(lines, doc.contentStart, |lines|);
  }

  /** Every line of text after the front matter is in exactly one chunk. */
  lemma EveryTextLineInOneChunk(alnum: Alphanumeric, file: File, lines: seq<string>, ln: nat) returns (k: nat)
    requires 1 <= ln <= |lines| && IsContent(lines, ln)
    ensures var chunks := ChunksOf(alnum, file, lines);
            && k < |chunks| && chunks[k].lineStart <= ln <= chunks[k].lineEnd
            && forall j :: 0 <= j < |chunks| && chunks[j].lineStart <= ln <= chunks[j].lineEnd ==> j == k
  {
    hide ChunksOf, IsBlankLine, Headings, Tiles, ContentStart, FrontMatterTitle, FirstLine;
    ChunksTileDocument(alnum, file, lines);
    var spans := Spans(ChunksOf(alnum, file, lines), ChunkSpan);
    k := TilesCover(spans, FirstLine(lines), |lines|, ln);
  }

  // ----- anchors are distinct -----

  lemma BasesAreUnmarked(alnum: Alphanumeric, sections: seq<Section>)
    ensures forall k :: 0 <= k < |sections| ==> Unmarked(Bases(alnum, sections)[k])
  {
    hide SlugTrail;
    forall k | 0 <= k < |sections|
      ensures Unmarked(Bases(alnum, sections)[k])
    {
      TrailIsUnmarked(alnum, sections[k].trail);
    }
  }

  /** Chunk x comes from some section and piece, and its anchor names both. */
  ghost predicate NamedBy(alnum: Alphanumeric, sections: seq<Section>, anchor: string, i: nat, p: nat)
    requires i < |sections|
  {
    anchor == PieceAnchor(AnchorAt(alnum, sections, i), p)
  }

  /** Where chunk x comes from: its section, and its place among that section's chunks. */
  lemma {:induction false} ChunkOrigin(alnum: Alphanumeric, labels: Labels, lines: seq<string>,
        sections: seq<Section>, n: nat, x: nat)
    returns (i: nat, p: nat)
    requires SectionsFit(lines, sections) && n <= |sections| && x < |ChunksUpTo(alnum, labels, lines, sections, n)|
    ensures i < n && x == |ChunksUpTo(alnum, labels, lines, sections, i)| + p
    ensures NamedBy(alnum, sections, ChunksUpTo(alnum, labels, lines, sections, n)[x].anchor, i, p)
  {
    hide SectionChunks, PieceAnchor, AnchorAt;
    if x < |ChunksUpTo(alnum, labels, lines, sections, n - 1)| {
      i, p := ChunkOrigin(alnum, labels, lines, sections, n - 1, x);
    } else {
      i, p := n - 1, x - |ChunksUpTo(alnum, labels, lines, sections, n - 1)|;
      SectionFits(lines, sections, i);
      AnchorOfPiece(labels, lines, sections[i], AnchorAt(alnum, sections, i), p);
    }
  }

  lemma AnchorOfPiece(labels: Labels, lines: seq<string>, section: Section, anchor: string, p: nat)
    requires 1 <= section.lineStart <= section.lineEnd <= |lines| && p < |SectionChunks(labels, lines, section, anchor)|
    ensures SectionChunks(labels, lines, section, anchor)[p].anchor == PieceAnchor(anchor, p)
  {
    hide PiecesOf, BodyOf, PieceAnchor;
  }

  /** No two chunks of a document share an anchor. */
  lemma AnchorsAreDistinct(alnum: Alphanumeric, file: File, lines: seq<string>, x: nat, y: nat)
    requires x < y < |ChunksOf(alnum, file, lines)|
    ensures ChunksOf(alnum, file, lines)[x].anchor != ChunksOf(alnum, file, lines)[y].anchor
  {
    hide ChunksUpTo, SectionsOf, Ordinal, SectionAnchor, PieceAnchor, BaseAnchor, Unmarked, LabelsOf;
    var sections := SectionsOf(lines);
    DocumentSectionsFit(lines);
    var bases := Bases(alnum, sections);
    var i, p := ChunkOrigin(alnum, LabelsOf(file, lines), lines, sections, |sections|, x);
    var j, q := ChunkOrigin(alnum, LabelsOf(file, lines), lines, sections, |sections|, y);
    BasesAreUnmarked(alnum, sections);
    if ChunksOf(alnum, file, lines)[x].anchor == ChunksOf(alnum, file, lines)[y].anchor {
      AnchorDecodes(bases[i], Ordinal(bases, i), p, bases[j], Ordinal(bases, j), q);
      if i < j {
        OrdinalsDiffer(bases, i, j);
      } else if j < i {
        OrdinalsDiffer(bases, j, i);
      }
      assert false;
    }
  }

  /** Sections added at the end leave every earlier chunk as it was, anchor included. */
  lemma {:induction false} AppendingKeepsChunks(alnum: Alphanumeric, labels: Labels, lines: seq<string>,
        sections: seq<Section>, more: seq<Section>, n: nat)
    requires SectionsFit(lines, sections) && SectionsFit(lines, sections + more) && n <= |sections|
    ensures ChunksUpTo(alnum, labels, lines, sections + more, n) == ChunksUpTo(alnum, labels, lines, sections, n)
  {
    hide SectionChunks, Ordinal, Bases, SectionAnchor, SectionsFit;
    if 0 < n {
      AppendingKeepsChunks(alnum, labels, lines, sections, more, n - 1);
      BasesJoin(alnum, sections, more);
      OrdinalsStay(Bases(alnum, sections), Bases(alnum, more), n - 1);
      assert (sections + more)[n - 1] == sections[n - 1];
      assert 1 <= sections[n - 1].lineStart <= sections[n - 1].lineEnd <= |lines| by {
        SectionFits(lines, sections, n - 1);
      }
    }
  }

  lemma SectionFits(lines: seq<string>, sections: seq<Section>, k: nat)
    requires SectionsFit(lines, sections) && k < |sections|
    ensures 1 <= sections[k].lineStart <= sections[k].lineEnd <= |lines|
  {
  }

  lemma BasesJoin(alnum: Alphanumeric, a: seq<Section>, b: seq<Section>)
    ensures Bases(alnum, a + b) == Bases(alnum, a) + Bases(alnum, b)
  {
    hide BaseAnchor;
  }

  // ----- what the title changes -----

  lemma {:induction false} FirstChunkOfAll(alnum: Alphanumeric, labels: Labels, lines: seq<string>,
        sections: seq<Section>, n: nat)
    requires SectionsFit(lines, sections) && 0 < n <= |sections|
    ensures 1 <= sections[0].lineStart <= sections[0].lineEnd <= |lines|
    ensures ChunksUpTo(alnum, labels, lines, sections, n)[0] ==
              ChunkOfPiece(labels, lines, sections[0], AnchorAt(alnum, sections, 0), PiecesOf(lines, sections[0]), 0)
  {
    hide SectionChunks, AnchorAt, ChunkOfPiece, PiecesOf, SectionsFit;
    SectionFits(lines, sections, 0);
    if n == 1 {
      SectionChunkAt(labels, lines, sections[0], AnchorAt(alnum, sections, 0));
      assert ChunksUpTo(alnum, labels, lines, sections, 0) == [];
    } else {
      FirstChunkOfAll(alnum, labels, lines, sections, n - 1);
    }
  }

  /** The title can be told from the text of the first chunk, so chunks are the same exactly under the same title. */
  lemma TitleShows(alnum: Alphanumeric, a: Labels, b: Labels, lines: seq<string>, sections: seq<Section>, n: nat)
    requires SectionsFit(lines, sections) && 0 < n <= |sections| && a.path == b.path
    ensures ChunksUpTo(alnum, a, lines, sections, n) == ChunksUpTo(alnum, b, lines, sections, n) <==> a.title == b.title
  {
    hide ChunksUpTo, AnchorAt, PiecesOf, SectionsFit, BodyOf, Header, EmbedText;
    FirstChunkOfAll(alnum, a, lines, sections, n);
    FirstChunkOfAll(alnum, b, lines, sections, n);
    var p := PiecesOf(lines, sections[0])[0];
    TextsDiffer(a.title, b.title, a.path, sections[0].trail, BodyOf(lines, p.0, p.1));
  }

  predicate SameAnchorsAndSpans(a: seq<Chunk>, b: seq<Chunk>) {
    && |a| == |b|
    && forall k :: 0 <= k < |a| ==>
         a[k].anchor == b[k].anchor && a[k].lineStart == b[k].lineStart && a[k].lineEnd == b[k].lineEnd
  }

  /** Whatever the labels, anchors and spans are the same. */
  lemma {:induction false} LabelsOnlyInText(alnum: Alphanumeric, a: Labels, b: Labels, lines: seq<string>,
        sections: seq<Section>, n: nat)
    requires SectionsFit(lines, sections) && n <= |sections|
    ensures SameAnchorsAndSpans(ChunksUpTo(alnum, a, lines, sections, n), ChunksUpTo(alnum, b, lines, sections, n))
  {
    hide SectionChunks, AnchorAt, SectionsFit, SameAnchorsAndSpans;
    if n == 0 {
      SameNothing();
    } else {
      LabelsOnlyInText(alnum, a, b, lines, sections, n - 1);
      SectionFits(lines, sections, n - 1);
      var anchor := AnchorAt(alnum, sections, n - 1);
      LabelsOnlyInSection(a, b, lines, sections[n - 1], anchor);
      SameJoins(ChunksUpTo(alnum, a, lines, sections, n - 1), ChunksUpTo(alnum, b, lines, sections, n - 1),
                SectionChunks(a, lines, sections[n - 1], anchor), SectionChunks(b, lines, sections[n - 1], anchor));
    }
  }

  lemma SameNothing()
    ensures SameAnchorsAndSpans([], [])
  {
  }

  lemma SameJoins(a: seq<Chunk>, b: seq<Chunk>, c: seq<Chunk>, d: seq<Chunk>)
    requires SameAnchorsAndSpans(a, b) && SameAnchorsAndSpans(c, d)
    ensures SameAnchorsAndSpans(a + c, b + d)
  {
  }

  lemma LabelsOnlyInSection(a: Labels, b: Labels, lines: seq<string>, section: Section, anchor: string)
    requires 1 <= section.lineStart <= section.lineEnd <= |lines|
    ensures SameAnchorsAndSpans(SectionChunks(a, lines, section, anchor), SectionChunks(b, lines, section, anchor))
  {
    hide PiecesOf, PieceAnchor, BodyOf, Header, EmbedText;
  }

  // ----- fences -----

  lemma NoFenceAtStart(lines: seq<string>, from: nat)
    requires from <= |lines|
    ensures FenceBefore(lines, from, from) == None
  {
  }

  /** A section that is headed begins outside every fence, and so does its body. */
  lemma HeadedOutsideFences(lines: seq<string>, s: Section, k: nat)
    requires 1 <= s.lineStart <= s.lineEnd <= |lines|
    requires IsHeadedBy(ScanOf(lines).headings, ContentStart(lines), s, k)
    ensures ContentStart(lines) < s.lineStart
    ensures FenceBefore(lines, ContentStart(lines), s.lineStart - 1) == None
    ensures FenceBefore(lines, ContentStart(lines), BodyFrom(s) - 1) == None
  {
    hide Headings, ContentStart, FrontMatterTitle, IsFrontMatter, FenceBefore, Trail, IsFenced;
    if s.isPreamble {
      NoFenceAtStart(lines, ContentStart(lines));
    } else {
      HeadingsStandOutsideFences(lines, ContentStart(lines), |lines|, k);
    }
  }

  /** A section and its body both begin outside every fence of the document. */
  lemma SectionsBeginOutsideFences(lines: seq<string>, s: Section)
    requires s in SectionsOf(lines)
    ensures ContentStart(lines) < s.lineStart <= s.lineEnd <= |lines|
    ensures FenceBefore(lines, ContentStart(lines), s.lineStart - 1) == None
    ensures FenceBefore(lines, ContentStart(lines), BodyFrom(s) - 1) == None
  {
    hide Headings, ContentStart, FrontMatterTitle, IsFrontMatter, FenceBefore, SectionsUpTo, IsHeadedBy, SectionsFit;
    var doc := ScanOf(lines);
    var x :| 0 <= x < |SectionsOf(lines)| && SectionsOf(lines)[x] == s;
    HeadingsAreInOrder(lines, doc.contentStart, |lines|);
    DocumentSectionsFit(lines);
    SectionFits(lines, SectionsOf(lines), x);
    var k := SectionsAreHeaded(lines, doc.headings, doc.contentStart, |doc.headings|, x);
    HeadedOutsideFences(lines, s, k);
  }

  /** Restarted outside a fence, the state machine and the look-ahead both agree with the reader of the whole file. */
  lemma ReadersAgreeFrom(lines: seq<string>, start: nat, m: nat, last: nat, n: nat)
    requires start < m <= n <= last <= |lines| && FenceBefore(lines, start, m - 1) == None
    ensures IsFenced(lines, m - 1, n - 1) <==> IsFenced(lines, start, n - 1)
    ensures InSpans(SpansOf(lines, m, last), n) <==> IsFenced(lines, start, n - 1)
  {
    hide FenceOpen, Trim, SpansOf, InSpans;
    FenceRestart(lines, start, m - 1, n - 1);
    LookAheadAgrees(lines, m, last, n);
  }

  /** In every section body the reader that finds paragraph blocks agrees with the one that finds headings. */
  lemma BlockFinderAgrees(lines: seq<string>, s: Section, n: nat)
    requires s in SectionsOf(lines) && 1 <= BodyFrom(s) <= n <= s.lineEnd <= |lines|
    ensures ContentStart(lines) < n
    ensures IsFenced(lines, ContentStart(lines), n - 1) <==> IsFenced(lines, BodyFrom(s) - 1, n - 1)
  {
    hide SectionsOf, ContentStart, FrontMatterTitle, IsFenced, IsFrontMatter, FenceBefore, InSpans, SpansOf;
    SectionsBeginOutsideFences(lines, s);
    ReadersAgreeFrom(lines, ContentStart(lines), BodyFrom(s), s.lineEnd, n);
  }

  /**
   * Line n of a piece is fenced for the elider, which reads the piece alone, just as
   * it is for the whole file's reader.
   */
  predicate EliderAgrees(lines: seq<string>, p: Range, n: nat)
    requires ContentStart(lines) < p.0 <= n <= p.1 <= |lines|
  {
    InSpans(SpansOf(lines, p.0, p.1), n) <==> IsFenced(lines, ContentStart(lines), n - 1)
  }

  /** A fence is open where the piece begins. */
  predicate BeginsInFence(lines: seq<string>, p: Range)
    requires ContentStart(lines) < p.0 <= |lines|
  {
    FenceBefore(lines, ContentStart(lines), p.0 - 1).Some?
  }

  lemma PieceInBody(lines: seq<string>, s: Section, i: nat)
    requires s in SectionsOf(lines) && BodyFrom(s) <= s.lineEnd <= |lines| && 1 <= s.lineStart
    requires i < |PiecesOf(lines, s)|
    ensures var p := PiecesOf(lines, s)[i];
            ContentStart(lines) < BodyFrom(s) <= p.0 <= p.1 <= s.lineEnd
  {
    hide SectionsOf, ContentStart, FrontMatterTitle, IsFrontMatter, SplitOf;
    SectionsBeginOutsideFences(lines, s);
    SplitTiles(lines, BodyFrom(s), s.lineEnd);
    TilesStayInside(PiecesOf(lines, s), BodyFrom(s), s.lineEnd);
  }

  /** Only a piece cut out of a giant block can begin inside a fence. */
  lemma OnlyGiantBlocksAreCutInFences(lines: seq<string>, s: Section, i: nat)
    requires s in SectionsOf(lines) && 1 <= s.lineStart && BodyFrom(s) <= s.lineEnd <= |lines|
    requires i < |PiecesOf(lines, s)|
    ensures var p := PiecesOf(lines, s)[i];
            && ContentStart(lines) < p.0 <= |lines|
            && (BeginsInFence(lines, p) ==>
                  exists b: Range :: IsGiantBlock(lines, BodyFrom(s), s.lineEnd, b) && b.0 < p.0 <= b.1)
  {
    hide SectionsOf, ContentStart, FrontMatterTitle, IsFrontMatter, SplitOf, FenceBefore, IsGiantBlock, IsBlankLine;
    PieceInBody(lines, s, i);
    SectionsBeginOutsideFences(lines, s);
    var p := PiecesOf(lines, s)[i];
    FenceRestart(lines, ContentStart(lines), BodyFrom(s) - 1, p.0 - 1);
    if i == 0 {
      SplitTiles(lines, BodyFrom(s), s.lineEnd);
    } else {
      BoundariesAvoidFences(lines, BodyFrom(s), s.lineEnd, i);
    }
  }

  /**
   * On any line of any piece the elider agrees with the whole file's reader
   * exactly when the line looks like an opener, or a reader that starts afresh
   * at the piece is inside a fence there just when the whole file's reader is.
   */
  lemma EliderAgreesOnLine(lines: seq<string>, p: Range, n: nat)
    requires ContentStart(lines) < p.0 <= n <= p.1 <= |lines|
    ensures EliderAgrees(lines, p, n) <==>
              || LooksLikeOpener(lines, n)
              || (FenceBefore(lines, p.0 - 1, n - 1).Some? <==> FenceBefore(lines, ContentStart(lines), n - 1).Some?)
  {
    hide ContentStart, FrontMatterTitle, IsFrontMatter, SpansOf, InSpans, FenceOpen, Trim, FenceBefore;
    LookAheadAgrees(lines, p.0, p.1, n);
  }

  /**
   * In each piece that is embedded, the look-ahead that shortens fences agrees
   * with the whole file's reader on every line, provided no fence is open where
   * the piece begins.  If one is, they disagree on the piece's first line, unless
   * that line looks like an opener.
   */
  lemma EliderAgreesInPiece(lines: seq<string>, s: Section, i: nat)
    requires s in SectionsOf(lines) && 1 <= s.lineStart && BodyFrom(s) <= s.lineEnd <= |lines|
    requires i < |PiecesOf(lines, s)|
    ensures var p := PiecesOf(lines, s)[i];
            && ContentStart(lines) < p.0 <= p.1 <= |lines|
            && (!BeginsInFence(lines, p) ==> forall n :: p.0 <= n <= p.1 ==> EliderAgrees(lines, p, n))
            && (EliderAgrees(lines, p, p.0) <==> !BeginsInFence(lines, p) || LooksLikeOpener(lines, p.0))
  {
    hide SectionsOf, ContentStart, FrontMatterTitle, IsFrontMatter, PiecesOf, SpansOf, InSpans, FenceOpen, Trim;
    PieceInBody(lines, s, i);
    var p := PiecesOf(lines, s)[i];
    if !BeginsInFence(lines, p) {
      forall n | p.0 <= n <= p.1
        ensures EliderAgrees(lines, p, n)
      {
        ReadersAgreeFrom(lines, ContentStart(lines), p.0, p.1, n);
      }
    }
    EliderAgreesOnLine(lines, p, p.0);
    assert FenceBefore(lines, p.0 - 1, p.0 - 1) == None;
  }

  /** So where the first line of a piece opens no fence, they agree throughout exactly when no fence is open there. */
  lemma EliderAgreesExactlyWhen(lines: seq<string>, s: Section, i: nat)
    requires s in SectionsOf(lines) && 1 <= s.lineStart && BodyFrom(s) <= s.lineEnd <= |lines|
    requires i < |PiecesOf(lines, s)|
    ensures var p := PiecesOf(lines, s)[i];
            && ContentStart(lines) < p.0 <= p.1 <= |lines|
            && (!LooksLikeOpener(lines, p.0) ==>
                  ((forall n :: p.0 <= n <= p.1 ==> EliderAgrees(lines, p, n)) <==> !BeginsInFence(lines, p)))
  {
    hide SectionsOf, ContentStart, FrontMatterTitle, IsFrontMatter, PiecesOf, EliderAgrees, BeginsInFence,
         LooksLikeOpener;
    EliderAgreesInPiece(lines, s, i);
  }

  /**
   * One case in which a piece that begins inside a fence does no harm: its first
   * line looks like the opener of that very fence and does not close it.
   */
  lemma SameOpenerAgrees(lines: seq<string>, p: Range, n: nat)
    requires ContentStart(lines) < p.0 <= n <= p.1 <= |lines| && BeginsInFence(lines, p)
    requires FenceOpen(Trim(lines[p.0 - 1])) == FenceBefore(lines, ContentStart(lines), p.0 - 1)
    requires !IsFenceClose(Trim(lines[p.0 - 1]), FenceOpen(Trim(lines[p.0 - 1])).value)
    ensures EliderAgrees(lines, p, n)
  {
    hide ContentStart, FrontMatterTitle, IsFrontMatter, FenceOpen, Trim, IsFenceClose, EliderAgrees, FenceBefore;
    NoFenceAtStart(lines, p.0 - 1);
    EliderAgreesOnLine(lines, p, n);
    if p.0 < n {
      FenceStep(lines, ContentStart(lines), p.0 - 1);
      FenceStep(lines, p.0 - 1, p.0 - 1);
      FenceMeet(lines, ContentStart(lines), p.0 - 1, p.0, n - 1);
    }
  }

  /**
   * How it goes wrong: in a piece that begins inside a fence, the line that
   * closes it is taken for an opener, so from there to the next line that could
   * close it everything counts as code.
   */
  lemma ClosingLineReopens(lines: seq<string>, p: Range, c: nat)
    requires ContentStart(lines) < p.0 <= c <= p.1 <= |lines|
    requires forall x :: p.0 <= x < c ==> !LooksLikeOpener(lines, x)
    requires FenceBefore(lines, ContentStart(lines), c - 1).Some? && FenceBefore(lines, ContentStart(lines), c) == None
    ensures var opener := FenceOpen(Trim(lines[c - 1]));
            && opener.Some?
            && forall n :: c <= n <= FenceEnd(lines, opener.value, c + 1, p.1) ==> InSpans(SpansOf(lines, p.0, p.1), n)
  {
    hide ContentStart, FrontMatterTitle, IsFrontMatter, Trim, FenceOpen, SpansOf, FenceEnd, FenceAfter;
    CloseLooksLikeOpen(lines, ContentStart(lines), c - 1);
    SpansSkipText(lines, p.0, c, p.1);
    SpanFirst(lines, c, p.1);
    var opener := FenceOpen(Trim(lines[c - 1]));
    var span := (c, FenceEnd(lines, opener.value, c + 1, p.1));
    assert SpanAt(lines, c, p.1) == [span];
    assert span in SpansOf(lines, p.0, p.1);
  }
}
