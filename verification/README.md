# Verified model of travsr's analysis core

This project models the parts of `travsr-analysis` whose correctness rests on
several loops agreeing with each other, and proves what they promise for every
input.

**Markdown chunker.** `MarkdownText` cuts a text into lines.  The scanner finds
front matter and the headings outside fenced code (`MarkdownFences`,
`MarkdownScan`); sections are built from a heading stack and short leaves are
merged upwards (`MarkdownSections`); oversized bodies are split at paragraph
boundaries, or by lines when a block is too large (`MarkdownSplit`,
`MarkdownPieces`, `MarkdownPieceLaws`); long fences are shortened
(`MarkdownElide`); anchors are allocated (`MarkdownAnchors`); each chunk's text
gets a header line (`MarkdownTitle`); and `MarkdownChunks` puts it all together.
`MarkdownFenceLaws`, `MarkdownHeadingLaws` and `MarkdownEmbedText` say what comes
out in terms of the characters of the lines that go in.  The end results: chunk
spans tile the document, anchors are distinct, every chunk's text holds the
lines of its span, and merging follows the heading tree although it compares
texts only.
`MarkdownStability` says exactly when appended text leaves earlier sections as
they were, and then exactly when it leaves the chunks of those before the last:
anchors and spans always stay, texts as long as the title does, which is part of
each.  `MarkdownUnsettled` has a file for each way it does not.

Of the three loops that track fences, the scanner and the block finder always
agree.  The elider reads one piece at a time and agrees with them in every piece
that begins outside a fence.  A piece cut out of a giant block may begin inside
one; then the elider may take prose for code and code for prose, as
`MarkdownCutFence` shows on a document.

**Positions.** `FormatCaptures` is the scan for inline captures of format
strings and their positions; `Utf16Columns` converts UTF-16 columns to bytes.

**Receivers.** `NearestBinding` is the choice of the nearest binding over a
small syntax tree (`SyntaxTree`); `ReceiverPython`, `ReceiverTypeScript` and
`ReceiverRust` are the three resolvers.

**Smaller parts.** `ObjcSelector`, `RepoPath`, `NodeDedup`, `MergeOutputs`.

Every loop that is modelled is a method here, proved equal to a specification
function; lemmas then say what that function means.  Line numbers of documents
are counted from 1 and ranges are inclusive, as in the source; state before a
line is indexed from 0.  A heading j *governs* a heading i when j is i or every
heading after j, up to i, is deeper than j.  A *separator* is a blank line
outside every fence; a block of at least 3900 characters is *giant*.

The model follows the code where that departs from CommonMark (a title that
ends in `#` loses it, `AtxRoundTrip`) and where a promise does not hold for
every input (the path of an absolute file loses its root,
`MeaningKeptExactlyWhenRelative`).  A lemma then has the exact condition, or an
input that fails, or both.

Given as parameters: `char::is_alphanumeric` (any test that rejects `-`, `/`,
`_`, `~` and `#`), `char::is_uppercase`, and the type of the enclosing `impl`.

## Model

| member | source | states |
|---|---|---|
| MarkdownText.WrittenLinesReadBack | crates/travsr-analysis/src/markdown.rs:244-245 | lines written out with either line ending are read back, where no line holds a line feed or ends in a carriage return |
| MarkdownText.AppendedLines | crates/travsr-analysis/src/markdown.rs:219-245 | text appended to a file that ends with a line feed appends lines, byte-order mark or not |
| MarkdownChunks.MarkIsIgnored | crates/travsr-analysis/src/markdown.rs:109-113 | a byte-order mark at the beginning makes no difference to any chunk |
| MarkdownFences.FenceOpenIsMarkerRun | crates/travsr-analysis/src/markdown.rs:350-361 | a trimmed line opens a fence iff it begins with three equal fence markers |
| MarkdownFences.FenceOpenExactly | crates/travsr-analysis/src/markdown.rs:350-361 | which fence a trimmed line opens: the marker and the length of the maximal run it begins with, three or more |
| MarkdownFences.FenceCloseIsPureRun | crates/travsr-analysis/src/markdown.rs:363-369 | a line closes a fence iff, trimmed, it is nothing but the marker, at least as often as in the opener |
| MarkdownFences.FenceRestart | crates/travsr-analysis/src/markdown.rs:265-278 | a reader restarted at any point outside a fence is in the same state ever after |
| MarkdownFences.CloseLooksLikeOpen | crates/travsr-analysis/src/markdown.rs:350-369 | every line that closes a fence would open one if read outside it |
| MarkdownFenceLaws.SpansAreFences | crates/travsr-analysis/src/markdown.rs:766-775 | the fences found reach from a line that begins with n marks to the next line of nothing but that mark, n times at least, or to the last line; they do not overlap, and no line outside them begins with marks |
| MarkdownFenceLaws.FencedIsInFence | crates/travsr-analysis/src/markdown.rs:265-278 | in a document a line is fenced for the scanner iff it is in one of these fences |
| MarkdownFenceLaws.NoHeadingInFence | crates/travsr-analysis/src/markdown.rs:265-278 | no heading is listed on any line of a fence |
| MarkdownFenceLaws.NoHeadingBeforeClose | crates/travsr-analysis/src/markdown.rs:260-278 | from a line that opens a fence with n marks, where none is open, no heading is listed up to and on the first line of nothing but that mark, n times at least |
| MarkdownFenceLaws.SeparatorExactly | crates/travsr-analysis/src/markdown.rs:685-704 | a line parts paragraphs iff it is white space alone and in none of the fences found from the first line of the body on |
| MarkdownScan.ScanFrontMatter | crates/travsr-analysis/src/markdown.rs:325-348 | returns the end of the front matter, the earliest closing delimiter within the bound or 0 when the block is never closed (the `ContentStart` contract), and the title given in it |
| MarkdownScan.LastTitleIsLast | crates/travsr-analysis/src/markdown.rs:331-344 | of several non-empty titles in front matter the last one holds |
| MarkdownScan.ContentStartExactly | crates/travsr-analysis/src/markdown.rs:325-348 | front matter is n lines long iff the first line is `---`, line n is `---` or `...`, no line between is, and n is at most 201 |
| MarkdownHeadingLaws.TitleLineReads | crates/travsr-analysis/src/markdown.rs:335-344 | a title after `title:` or `Title:` is read with or without quotes of either kind and with any white space around it |
| MarkdownHeadingLaws.NoOtherTitle | crates/travsr-analysis/src/markdown.rs:335-338 | a line that begins otherwise gives no title |
| MarkdownScan.AtxRoundTrip | crates/travsr-analysis/src/markdown.rs:374-387 | writing a title after 1-6 hashes and a space and reading it back gives level and title iff the title does not itself end in `#` |
| MarkdownScan.ClosedAtxRoundTrip | crates/travsr-analysis/src/markdown.rs:382-386 | a closing run of `#` after white space is never part of the title |
| MarkdownHeadingLaws.AtxHeadingExactly | crates/travsr-analysis/src/markdown.rs:374-387 | a line is a heading of that level and title iff it is 1-6 hashes, then a blank, a tab or nothing, then the title in white space and any closing hashes |
| MarkdownHeadingLaws.UnderlinesAlternate | crates/travsr-analysis/src/markdown.rs:289-303 | of lines in a row that look like underlines every other one is, beginning with the first iff a line of text stands above |
| MarkdownHeadingLaws.SetextHeadingIs | crates/travsr-analysis/src/markdown.rs:289-303 | an underline of `=` gives the line above level 1, one of `-` level 2 |
| MarkdownHeadingLaws.WrittenHeadingsReadBack | crates/travsr-analysis/src/markdown.rs:243-309 | documents written as headings of both kinds, in any order, are read back: levels, titles and lines |
| MarkdownScan.Scan | crates/travsr-analysis/src/markdown.rs:243-309 | the one-pass scan finds exactly the headings of the line-by-line definition `HeadingAt`, with no state carried over |
| MarkdownScan.HeadingsAreExactly | crates/travsr-analysis/src/markdown.rs:260-302 | a heading is listed iff some line of the content completes it |
| MarkdownScan.HeadingsAreInOrder | crates/travsr-analysis/src/markdown.rs:284-301 | headings lie after the front matter, on strictly increasing lines, with levels 1 to 6, though a Setext heading is found a line late |
| MarkdownScan.HeadingsStandOutsideFences | crates/travsr-analysis/src/markdown.rs:265-278 | no heading is on a fenced line, and no fence is open on either side of its line |
| MarkdownSections.PushHeading | crates/travsr-analysis/src/markdown.rs:544-549 | popping and pushing leaves the stack equal to the chain of headings that govern the new one, and the trail is that chain's titles |
| MarkdownSections.ChainMeaning | crates/travsr-analysis/src/markdown.rs:542-549 | the chain holds exactly the headings j whose level is below everything after j, in order, with increasing levels |
| MarkdownSections.LeafHasNoDescendant | crates/travsr-analysis/src/markdown.rs:551-555 | the one-step look-ahead holds iff no later heading at all is a descendant |
| MarkdownSections.PrefixMeansAncestor | crates/travsr-analysis/src/markdown.rs:512-517 | when everything between two headings is below the first, the text-only strict-prefix test holds iff the first is a structural ancestor, duplicate titles included |
| MarkdownSections.BuildSections | crates/travsr-analysis/src/markdown.rs:519-597 | the loop with its stack and in-place extension computes the section list |
| MarkdownSections.OwnerGoverns | crates/travsr-analysis/src/markdown.rs:571-586 | the last section always belongs to a heading that governs every heading folded into it |
| MarkdownSections.AbsorptionIsStructural | crates/travsr-analysis/src/markdown.rs:568-586 | a heading is absorbed iff it has no descendant, its body is short, and the owner of the last section is a true ancestor |
| MarkdownSections.HeadingsLieUnderAncestors | crates/travsr-analysis/src/markdown.rs:571-586 | every heading lies in the section of itself or of an ancestor |
| MarkdownSections.SectionsAreHeaded | crates/travsr-analysis/src/markdown.rs:522-593 | each section is the preamble or starts at a heading and carries its chain of titles |
| MarkdownSections.SectionsTile | crates/travsr-analysis/src/markdown.rs:519-597 | sections follow each other without gap or overlap, through merging, to the last line |
| MarkdownSplit.HardSplitBlock | crates/travsr-analysis/src/markdown.rs:727-742 | the loop cuts each piece as far as the limit allows |
| MarkdownSplit.HardSplitTiles | crates/travsr-analysis/src/markdown.rs:722-742 | the pieces partition the block; each is within the limit or a single line |
| MarkdownSplit.HardSplitIsOptimal | crates/travsr-analysis/src/markdown.rs:722-742 | no cutting at line boundaries into pieces within the limit or of one line has fewer pieces |
| MarkdownSplit.ParagraphBlocks | crates/travsr-analysis/src/markdown.rs:678-720 | the loop with its own fence state lists the blocks |
| MarkdownSplit.BlocksAreExactly | crates/travsr-analysis/src/markdown.rs:674-720 | the list holds exactly the maximal runs without a separator (a blank line outside every fence) |
| MarkdownPieces.StitchRanges | crates/travsr-analysis/src/markdown.rs:661-672 | starts are kept but the first, each end is stretched to the next start, the last to the end |
| MarkdownPieces.SplitSection | crates/travsr-analysis/src/markdown.rs:609-656 | binning, hard splitting and stitching together give the cuts of the range specification `SplitOf` |
| MarkdownPieces.SplitTiles | crates/travsr-analysis/src/markdown.rs:653-672 | the pieces of a body partition it exactly |
| MarkdownPieceLaws.PiecesAreLawful | crates/travsr-analysis/src/markdown.rs:600-656 | text of each piece is within the split limit, or from one block that is not giant, or one line, and below the hard limit unless it is one line; each boundary is just below a separator or inside a giant block; no piece could have taken in the block after it, nor inside a giant block the next line |
| MarkdownPieceLaws.BlankBodySplits | crates/travsr-analysis/src/markdown.rs:609-656 | a body of separators alone stays whole below the hard limit and is cut by lines from there on |
| MarkdownPieceLaws.BoundariesAvoidFences | crates/travsr-analysis/src/markdown.rs:609-704 | every piece but the first begins just below a blank line and outside every fence, or inside a giant block |
| MarkdownElide.ElidedItems | crates/travsr-analysis/src/markdown.rs:759-806 | the two-branch loop with its index arithmetic computes the kept lines and markers |
| MarkdownElide.FenceItemsAccount | crates/travsr-analysis/src/markdown.rs:776-798 | a fence of 40 or more lines becomes 13 items whose marker counts exactly the lines dropped; a shorter one is kept whole |
| MarkdownElide.ItemsAccountForRange | crates/travsr-analysis/src/markdown.rs:759-806 | the output accounts for every line of the range, in order, once |
| MarkdownElide.KeptUnlessDropped | crates/travsr-analysis/src/markdown.rs:776-798 | a line is kept iff it is not past the first ten lines of a long fence and short of its end |
| MarkdownElide.SpanAppears | crates/travsr-analysis/src/markdown.rs:776-799 | every fence found by the look-ahead is in the output as one stretch |
| MarkdownElide.LookAheadAgrees | crates/travsr-analysis/src/markdown.rs:768-775 | the look-ahead puts the same lines in fences as the line-by-line state machine |
| MarkdownEmbedText.ItemsShow | crates/travsr-analysis/src/markdown.rs:759-806 | line by line: a line that no long fence drops is written as it is, the first line dropped of each as the count of all dropped, the others not at all |
| MarkdownEmbedText.BodyShows | crates/travsr-analysis/src/markdown.rs:759-806 | the body is what is shown of its lines, trimmed as a whole |
| MarkdownAnchors.SlugifySegment | crates/travsr-analysis/src/markdown.rs:828-852 | the character loop yields the alphanumeric words joined by single dashes, cut to length, or `section` |
| MarkdownAnchors.SlugIsSlug | crates/travsr-analysis/src/markdown.rs:828-852 | every slug is non-empty, at most 48 long, has no dash at an end or next to another, and nothing else that is reserved |
| MarkdownAnchors.LowerMeaning | crates/travsr-analysis/src/markdown.rs:833-838 | capital letters of ASCII become small ones and nothing else changes |
| MarkdownAnchors.WordsAreRuns | crates/travsr-analysis/src/markdown.rs:828-845 | the words are exactly the maximal alphanumeric runs of the text, in order, in lower case |
| MarkdownAnchors.SlugIsCut | crates/travsr-analysis/src/markdown.rs:828-852 | the slug is the words joined by dashes, or `section`, or else the first 48 characters of that, 47 when the last is a dash |
| MarkdownAnchors.SlugifyTrail | crates/travsr-analysis/src/markdown.rs:815-826 | segments are slugged, joined and cut to length |
| MarkdownAnchors.TrailIsUnmarked | crates/travsr-analysis/src/markdown.rs:815-826 | no trail slug contains `_`, `~` or `#`, whatever the headings say; so none is `_preamble` |
| MarkdownAnchors.TrailIsCut | crates/travsr-analysis/src/markdown.rs:815-826 | the trail slug is the first 160 characters of the segment slugs joined by slashes |
| MarkdownAnchors.AnchorDecodes | crates/travsr-analysis/src/markdown.rs:460-485 | base slug, occurrence number and piece number can be read back from an anchor |
| MarkdownAnchors.OrdinalsDiffer | crates/travsr-analysis/src/markdown.rs:457-465 | sections with the same base get different numbers |
| MarkdownAnchors.OrdinalCounts | crates/travsr-analysis/src/markdown.rs:457-459 | the number of a section is how many sections up to it have its base |
| MarkdownAnchors.OrdinalsStay | crates/travsr-analysis/src/markdown.rs:457-459 | sections added later change no number given earlier |
| MarkdownChunks.BuildChunks | crates/travsr-analysis/src/markdown.rs:446-506 | the loop with its hash map of counters computes the chunks |
| MarkdownTitle.TopHeadingIsFirst | crates/travsr-analysis/src/markdown.rs:423-440 | without a title in front matter the first heading of level 1 gives it, and no other |
| MarkdownTitle.TitleMeaning | crates/travsr-analysis/src/markdown.rs:423-440 | the title is that of the front matter, else the first heading of level 1, else the stem |
| MarkdownChunks.EmitPieces | crates/travsr-analysis/src/markdown.rs:461-505 | piece anchors, spans and embedded texts of one section, header line and body |
| MarkdownEmbedText.ChunkIs | crates/travsr-analysis/src/markdown.rs:446-506 | every field of every chunk of a document: anchor, first and last line, and the text, which is the header line and what is shown of the lines of its piece |
| MarkdownEmbedText.ChunkHoldsItsLines | crates/travsr-analysis/src/markdown.rs:480-491 | every chunk's text begins with its header line, after which each non-blank line of its piece that no long fence drops occurs, trimmed, and so does the decimal count of lines dropped from each long fence, all in order |
| MarkdownChunks.ChunkMarkdown | crates/travsr-analysis/src/markdown.rs:109-113 | byte-order mark, lines, scan, sectioning and chunking composed |
| MarkdownChunks.ChunksTileDocument | crates/travsr-analysis/src/markdown.rs:412-506 | chunk spans are contiguous to the last line of the file, from the line after the front matter or, exactly when only blank lines stand before it, from the first heading; there are no chunks iff there is no text |
| MarkdownChunks.BlankLinesAreLeftOut | crates/travsr-analysis/src/markdown.rs:522-535 | lines before the first heading are left out iff all of them are blank |
| MarkdownChunks.EveryTextLineInOneChunk | crates/travsr-analysis/src/markdown.rs:412-506 | each non-blank line after the front matter is in exactly one chunk |
| MarkdownChunks.AnchorsAreDistinct | crates/travsr-analysis/src/markdown.rs:122-126 | no two chunks of any document share an anchor |
| MarkdownChunks.AppendingKeepsChunks | crates/travsr-analysis/src/markdown.rs:457-459 | sections added at the end leave all earlier chunks unchanged, anchors included |
| MarkdownChunks.SectionsBeginOutsideFences | crates/travsr-analysis/src/markdown.rs:260-302 | every section and every section body begins outside a fence |
| MarkdownChunks.BlockFinderAgrees | crates/travsr-analysis/src/markdown.rs:685-704 | in every section body the reader that finds blocks puts the same lines in fences as the scanner |
| MarkdownChunks.EliderAgreesOnLine | crates/travsr-analysis/src/markdown.rs:766-775 | on any line of any piece the elider agrees with the scanner iff the line looks like an opener, or a reader started afresh at the piece is inside a fence there just when the scanner is |
| MarkdownChunks.EliderAgreesInPiece | crates/travsr-analysis/src/markdown.rs:480-486 | in every piece that is embedded the elider agrees with the scanner on every line if no fence is open where the piece begins; otherwise they disagree on its first line, unless that line looks like an opener |
| MarkdownChunks.EliderAgreesExactlyWhen | crates/travsr-analysis/src/markdown.rs:766-775 | where the first line of a piece looks like no opener they agree on all its lines iff no fence is open there |
| MarkdownChunks.OnlyGiantBlocksAreCutInFences | crates/travsr-analysis/src/markdown.rs:722-742 | a piece begins inside a fence only if it was cut out of a giant block |
| MarkdownChunks.SameOpenerAgrees | crates/travsr-analysis/src/markdown.rs:766-775 | a piece that begins inside a fence is read right throughout if its first line looks like the opener of that very fence and does not close it |
| MarkdownChunks.ClosingLineReopens | crates/travsr-analysis/src/markdown.rs:766-775 | otherwise the closing line is taken for an opener, when no line before it looks like one, and what follows for code up to the next line that could close it |
| MarkdownCutFence.ProseIsLeftOut | crates/travsr-analysis/src/markdown.rs:722-742 | a document where it goes wrong: its second piece begins inside a fence and leaves out 34 lines of prose that are in none |
| MarkdownCutFence.OpenerLikeLineAgrees | crates/travsr-analysis/src/markdown.rs:766-775 | the same document with another line 44: its second piece begins inside the same fence and is read right throughout |
| MarkdownStability.ContentStartMovesExactlyWhen | crates/travsr-analysis/src/markdown.rs:325-348 | appended text moves the start of the content iff it closes, within the bound, a block that `---` on the first line of the file opens and that was not closed so far |
| MarkdownStability.AppendedTextKeepsSections | crates/travsr-analysis/src/markdown.rs:522-597 | appended text leaves all sections but the last, and the last one's trail and start, exactly unless `Unsettles`: it closes a leading block, or its first line underlines the last old line and so empties the only section or shortens the last heading's body below the merge limit |
| MarkdownStability.AppendedTextKeepsChunks | crates/travsr-analysis/src/markdown.rs:446-506 | when sections are kept, the chunks of all but the last keep anchors and spans; they are the same chunks, texts included, iff there are none or the title stays (`KeepsTitle`) |
| MarkdownChunks.TitleShows | crates/travsr-analysis/src/markdown.rs:461-491 | the title can be told from the text of the first chunk: with another title the chunks are others |
| MarkdownStability.TitleFoundAfter | crates/travsr-analysis/src/markdown.rs:423-440 | while the appended text closes no leading block, a title that is found stays; where none is, the one found is the text of the first heading of level 1 that an appended line completes |
| MarkdownStability.TitleStaysExactlyWhen | crates/travsr-analysis/src/markdown.rs:423-440 | while the appended text closes no leading block, the title in every header stays iff the file names one already, or the first appended line to complete a heading of level 1, if any, completes one that reads like the file's stem |
| MarkdownUnsettled.UnderlineCanUnsettle | crates/travsr-analysis/src/markdown.rs:289-299 | a file whose only section an appended underline empties |
| MarkdownUnsettled.UnderlineCanMerge | crates/travsr-analysis/src/markdown.rs:568-586 | a file whose last section an appended underline merges away |
| MarkdownUnsettled.BlockCanClose | crates/travsr-analysis/src/markdown.rs:325-348 | a file that appended text turns into front matter |
| MarkdownUnsettled.TitleCanChange | crates/travsr-analysis/src/markdown.rs:423-440 | a file whose sections an appended heading keeps, but not the text of its first chunk |
| FormatCaptures.FormatCaptures | crates/travsr-analysis/src/phase_b_rust.rs:741-773 | the index scan returns exactly the captures of the declarative definition, in order |
| FormatCaptures.CapturesAreExactly | crates/travsr-analysis/src/phase_b_rust.rs:741-773 | a capture is listed iff it follows the last brace of a maximal odd run and its maximal identifier qualifies |
| FormatCaptures.CapturesInOrder | crates/travsr-analysis/src/phase_b_rust.rs:741-773 | captures come at strictly increasing offsets |
| FormatCaptures.CaptureIsSpelled | crates/travsr-analysis/src/phase_b_rust.rs:741-773 | said of the bytes: a name is captured iff it is letters, digits and `_`, not first a digit, one letter upper-case, after a maximal odd run of `{` and before `}` or `:` |
| FormatCaptures.NewlinesAreCounted | crates/travsr-analysis/src/phase_b_rust.rs:785-796 | rows are counted as the positions that hold a line feed |
| FormatCaptures.TailIsLastLine | crates/travsr-analysis/src/phase_b_rust.rs:785-796 | columns are counted from just after the last line feed, or from the start |
| FormatCaptures.CapturePositionIsExact | crates/travsr-analysis/src/phase_b_rust.rs:785-796 | the reported position is the one counted from the start of the file iff line and column fit in 32 bits |
| Utf16Columns.Utf16ColToByte | crates/travsr-analysis/src/phase_b_dart.rs:324-337 | the loop finds the byte column of the boundary at the given UTF-16 column |
| Utf16Columns.Utf16ReadsBack | crates/travsr-analysis/src/phase_b_dart.rs:324-337 | by RFC 2781 a character of each UTF-16 length is read back from so many units, surrogates in pairs and only there |
| Utf16Columns.Utf8ReadsBack | crates/travsr-analysis/src/phase_b_dart.rs:324-337 | by RFC 3629 a character is read back from its UTF-8 bytes, and the first tells how many there are |
| Utf16Columns.NoColumnExactlyWhen | crates/travsr-analysis/src/phase_b_dart.rs:318-337 | there is no column exactly for negative, past-end and mid-surrogate positions |
| Utf16Columns.ConversionInverts | crates/travsr-analysis/src/phase_b_dart.rs:324-337 | the UTF-16 length of a prefix maps back to its byte length iff that fits in 32 bits; of all prefixes iff the line's does |
| Utf16Columns.ConversionIncreases | crates/travsr-analysis/src/phase_b_dart.rs:324-337 | strictly increasing where defined, iff the byte length of the line fits in 32 bits |
| Utf16Columns.AgnosticColAgrees | crates/travsr-analysis/src/phase_b_dart.rs:351-358 | whenever the cautious ASCII rule gives a column the conversion gives the same |
| Utf16Columns.AgnosticColExactly | crates/travsr-analysis/src/phase_b_dart.rs:351-358 | the cautious rule gives a column iff that many characters from the start of the line are all ASCII |
| NearestBinding.NearestIsNearest | crates/travsr-analysis/src/phase_b_python.rs:494-503 | the strict best-so-far update keeps exactly the candidate with the greatest start, the first on a tie |
| NearestBinding.TypeIsNearest | crates/travsr-analysis/src/phase_b_python.rs:421-426 | a type is returned iff the nearest candidate itself has it |
| NearestBinding.UntypedRebindingWins | crates/travsr-analysis/src/phase_b_python.rs:421-426 | an untyped candidate after all typed ones gives no type |
| SyntaxTree.VisibleAreReached | crates/travsr-analysis/src/phase_b_python.rs:504-510 | the walk meets exactly the nodes reached without entering a closed kind |
| SyntaxTree.ChildByFieldMeaning | crates/travsr-analysis/src/phase_b_python.rs:517-529 | the child in a field is the first that has it |
| SyntaxTree.FirstNamedMeaning | crates/travsr-analysis/src/phase_b_typescript.rs:510-516 | the first named child is just that |
| ReceiverPython.CollectNearestAssign | crates/travsr-analysis/src/phase_b_python.rs:486-511 | the recursive walk folds the assignments it may see into the best so far |
| ReceiverPython.NearestPrecedingBindingType | crates/travsr-analysis/src/phase_b_python.rs:415-465 | parameters then body: the type of the nearest candidate |
| ReceiverPython.CandidatesAreExactly | crates/travsr-analysis/src/phase_b_python.rs:429-462 | said of the tree: candidates are the typed parameters of the name, with the name in the annotation, and all assignments to it outside nested functions, before the call, with the upper-case name they call or none |
| ReceiverPython.NeverStale | crates/travsr-analysis/src/phase_b_python.rs:421-426 | a type that is returned is given by a binding after which the name is not bound again before the call |
| ReceiverPython.LastBindingDecides | crates/travsr-analysis/src/phase_b_python.rs:415-465 | where one binding is the last before the call, the answer is what it gives |
| ReceiverPython.LastAssignmentDecides | crates/travsr-analysis/src/phase_b_python.rs:517-529 | where the last binding is an assignment, the receiver has type t iff its right side is a call of the plain name t and t begins in upper case |
| ReceiverPython.UntypedAssignmentFailsClosed | crates/travsr-analysis/src/phase_b_python.rs:478-485 | where the last binding is an assignment that calls no plain upper-case name, such as `x = make()`, there is no type |
| ReceiverTypeScript.CollectNearestVar | crates/travsr-analysis/src/phase_b_typescript.rs:542-589 | the recursive walk folds declarators and assignments into the best so far |
| ReceiverTypeScript.BoundTypeMeaning | crates/travsr-analysis/src/phase_b_typescript.rs:556-583 | a declarator gives its annotation, or else the plain name it constructs by `new`; an assignment only the latter |
| ReceiverTypeScript.NearestPrecedingBindingType | crates/travsr-analysis/src/phase_b_typescript.rs:461-505 | parameters then body: the type of the nearest candidate |
| ReceiverTypeScript.CandidatesAreExactly | crates/travsr-analysis/src/phase_b_typescript.rs:474-502 | said of the tree: candidates are the typed parameters, and all declarators of and assignments to the name outside nested functions, before the call, with the type they give or none |
| ReceiverTypeScript.NeverStale | crates/travsr-analysis/src/phase_b_typescript.rs:467-472 | a type that is returned is given by a binding after which the name is not bound again before the call |
| ReceiverTypeScript.LastBindingDecides | crates/travsr-analysis/src/phase_b_typescript.rs:461-505 | where one binding is the last before the call, the answer is what it gives |
| ReceiverTypeScript.UntypedBindingFailsClosed | crates/travsr-analysis/src/phase_b_typescript.rs:534-541 | a last binding with neither annotation nor `new` leaves no type |
| ReceiverRust.CollectNearestLet | crates/travsr-analysis/src/phase_b_rust.rs:995-1020 | the recursive walk folds `let` bindings into the best so far |
| ReceiverRust.CollectGenericNames | crates/travsr-analysis/src/phase_b_rust.rs:966-986 | the loop finds the names of the function's own generic parameters |
| ReceiverRust.GenericNamesMeaning | crates/travsr-analysis/src/phase_b_rust.rs:966-986 | a name is among them iff a type parameter of the function has it |
| ReceiverRust.NearestPrecedingBindingType | crates/travsr-analysis/src/phase_b_rust.rs:908-958 | the guarded type of the nearest candidate, and of no other |
| ReceiverRust.CandidatesAreExactly | crates/travsr-analysis/src/phase_b_rust.rs:916-937 | candidates are the parameters and the `let` bindings of the name outside nested functions and closures, before the call |
| ReceiverRust.LastBindingDecides | crates/travsr-analysis/src/phase_b_rust.rs:939-957 | where one binding is the last before the call it alone decides: the implementing type for `Self`, none for a generic parameter of the function or a binding that gives nothing, else the type it gives |
| ReceiverRust.NeverStale | crates/travsr-analysis/src/phase_b_rust.rs:908-958 | any answer comes from a binding after which the name is not bound again before the call; a generic parameter's name only by way of `Self` |
| ReceiverRust.BindingMeaning | crates/travsr-analysis/src/phase_b_rust.rs:939-942 | what a parameter or a `let` gives, said of the tree |
| ReceiverRust.LetMeaning | crates/travsr-analysis/src/phase_b_rust.rs:1094-1130 | a `let` gives its annotation, or without one what its initializer constructs under the adapters: a path call whose last segment begins in upper case and is no wrapper, or a struct literal |
| ReceiverRust.ReceiverTypeMeaning | crates/travsr-analysis/src/phase_b_rust.rs:1142-1155 | a type gives its last name under references, and what is in an `Arc`, `Box` or `Rc` the name of that |
| ReceiverRust.PeelReferences | crates/travsr-analysis/src/phase_b_rust.rs:1158-1166 | the loop strips reference wrappers |
| ReceiverRust.PeeledReferencesMeaning | crates/travsr-analysis/src/phase_b_rust.rs:1158-1166 | it ends at the one node that is reached through the types of references alone and is itself no reference with a type |
| ReceiverRust.PeelResultAdapters | crates/travsr-analysis/src/phase_b_rust.rs:1050-1083 | the loop strips `?` and the transparent adapters |
| ReceiverRust.AdaptedMeaning | crates/travsr-analysis/src/phase_b_rust.rs:1050-1083 | an adapter is `?`, or a call of one of four methods on the expression under it |
| ReceiverRust.PeelingIsFinal | crates/travsr-analysis/src/phase_b_rust.rs:1042-1083 | peeling ends at the one expression that is reached by stripping adapters and bears none |
| ReceiverRust.AdaptersAreTransparent | crates/travsr-analysis/src/phase_b_rust.rs:1042-1049 | any number of adapters around an initializer leaves the type of the binding as it is |
| ReceiverRust.LastSegmentMeaning | crates/travsr-analysis/src/phase_b_rust.rs:1105-1107 | the segment is what follows the last `::`, or the whole path if there is none |
| ObjcSelector.FullSelector | crates/travsr-analysis/src/objc.rs:141-192 | the sibling walk equals cut, filter and emit on lists |
| ObjcSelector.SelectorIsSpelled | crates/travsr-analysis/src/objc.rs:141-192 | the selector is the captured name, then the given text of the keyword before each kept parameter, trimmed, each with its colon; a colon alone where there is none |
| ObjcSelector.GroupsOf | crates/travsr-analysis/src/objc.rs:152-187 | any siblings that are kept can be read as such keywords and parameters, so every selector is spelled like that |
| ObjcSelector.KeptExactly | crates/travsr-analysis/src/objc.rs:152-187 | what is kept is the longest run of comments, and of `ERROR` nodes, parameters and identifiers with no `{` since the end of the node before |
| ObjcSelector.NoSelectorExactlyWhen | crates/travsr-analysis/src/objc.rs:141-192 | there is no selector iff the symbol is no function, its parent no method, its name blank or unreadable, or a kept identifier unreadable |
| ObjcSelector.ColonsEqualParameters | crates/travsr-analysis/src/objc.rs:133-137 | a selector has as many colons as parameters are kept iff no colon is part of a keyword |
| ObjcSelector.TrailingSiblingsVanish | crates/travsr-analysis/src/objc.rs:98-107 | siblings that no parameter follows, such as macros, leave no trace in the selector, as long as their text can be read |
| ObjcSelector.AlikeExactlyWhen | crates/travsr-analysis/src/objc.rs:141-192 | two methods get the same selector iff their words match, the first keyword being glued to the captured one |
| ObjcSelector.AlikeOnlyIfKeywordsMatch | crates/travsr-analysis/src/objc.rs:141-192 | methods whose captured keyword is directly followed by a parameter get the same selector iff all keywords match |
| RepoPath.NormaliseRepoPath | crates/travsr-analysis/src/data_format.rs:106-127 | the loop over components folds them into parts |
| RepoPath.JoinedComponents | crates/travsr-analysis/src/data_format.rs:106-127 | `..` and plain names joined by slashes are read as just those components |
| RepoPath.DotsVanish | crates/travsr-analysis/src/data_format.rs:100-127 | a `.` or a doubled slash anywhere makes no difference |
| RepoPath.NameAndBack | crates/travsr-analysis/src/data_format.rs:100-127 | a name followed by `..` makes no difference |
| RepoPath.NormalPathsStay | crates/travsr-analysis/src/data_format.rs:100-127 | parent steps followed by plain names stay as they are |
| RepoPath.ResultIsNormal | crates/travsr-analysis/src/data_format.rs:100-105 | the result is some number of `..` followed by plain names |
| RepoPath.Idempotent | crates/travsr-analysis/src/data_format.rs:106-127 | normalising twice is normalising once, on strings |
| RepoPath.JoinAfterNormalising | crates/travsr-analysis/src/data_format.rs:106-127 | normalising the first half before a join makes no difference |
| RepoPath.MeaningKeptExactlyWhenRelative | crates/travsr-analysis/src/data_format.rs:106-127 | result and path lead from every directory to the same place iff the path is relative |
| NodeDedup.Dedup | crates/travsr-analysis/src/generic.rs:382-402 | map loop and filter keep exactly the best node of each id |
| NodeDedup.SurvivorsAreBest | crates/travsr-analysis/src/generic.rs:368-381 | a node survives iff it is the earliest of the widest with its id |
| NodeDedup.BestInLines | crates/travsr-analysis/src/generic.rs:368-402 | a survivor has more lines than every earlier node with its id and no fewer than every later one |
| NodeDedup.SecondStaysIfLonger | crates/travsr-analysis/src/generic.rs:368-402 | of two nodes with one id the second stays iff its span is known and longer than the first one's |
| NodeDedup.OnePerId | crates/travsr-analysis/src/generic.rs:366-402 | one node per id, no id lost |
| NodeDedup.OrderIsKept | crates/travsr-analysis/src/generic.rs:396-401 | survivors keep their relative order |
| NodeDedup.DedupIsIdempotent | crates/travsr-analysis/src/generic.rs:382-402 | a second pass changes nothing |
| MergeOutputs.ParseOutput.MergeDeduped | crates/travsr-analysis/src/lib.rs:77-96 | the method leaves the merged output in the receiver, with nodes and markers of both, in order |
| MergeOutputs.MergedKeys | crates/travsr-analysis/src/lib.rs:79-92 | edge keys are the union of both |
| MergeOutputs.FirstOccurrenceWins | crates/travsr-analysis/src/lib.rs:79-92 | of each new key exactly the first edge is taken over |
| MergeOutputs.FirstMeansNoneAgrees | crates/travsr-analysis/src/lib.rs:79-92 | an edge is taken over iff no edge before it, in either list, has its source, target and kind |
| MergeOutputs.DuplicateFreeIffReceiver | crates/travsr-analysis/src/lib.rs:79-92 | the result is free of duplicate keys iff the receiver was |
| MergeOutputs.MergeAssociates | crates/travsr-analysis/src/lib.rs:75-96 | merging is associative on whole outputs |

## Left out

- Taking the stem out of a file's path: the file is given as its path and its stem.
- Path exclusions, file reading, nodes, `VName`s and their hashes: input and output around the chunker, not part of this model.
- The 32-bit occurrence counter of anchors: counted without bound, so a file of four billion equal trails is not modelled.
- `usize` overflow in character counts: sums are unbounded.
- Tree-sitter itself: trees are given, with kind, text, start byte, fields and children; walking up to the enclosing function or `impl` is not modelled.
- Attribute receivers (`self.x` in Python) and `this`/`self` receivers: direct look-ups.
- Path components that are not UTF-8, and Windows prefixes: paths are Unix strings.
- Manifest extractors, sorting of edges in other extractors, indexing, storage and retrieval.
- FormatCaptures.CapturePositionIsExact: assumes a file no longer than the largest slice of a 64-bit machine, as every Rust slice is, so the saturating addition never saturates.
