// What happens to existing chunks when text is appended to a file.
module MarkdownStability {
  import opened Basics
  import opened Text
  import opened MarkdownLines
  import opened MarkdownFences
  import opened MarkdownScan
  import opened MarkdownSections
  import opened MarkdownSplit
  import opened MarkdownPieces
  import opened MarkdownElide
  import opened MarkdownAnchors
  import opened MarkdownTitle
  import opened MarkdownChunks

  // ----- every stage looks only at the lines it is given -----

  lemma {:induction false} FenceLocal(lines: seq<string>, more: seq<string>, from: nat, i: nat)
    requires from <= i <= |lines|
    ensures FenceBefore(lines + more, from, i) == FenceBefore(lines, from, i)
    decreases i
  {
    hide FenceAfter;
    if from < i {
      FenceLocal(lines, more, from, i - 1);
    }
  }

  lemma PlainLocal(lines: seq<string>, more: seq<string>, from: nat, i: nat)
    requires from <= i < |lines|
    ensures IsFenced(lines + more, from, i) == IsFenced(lines, from, i)
    ensures IsPlain(lines + more, from, i) == IsPlain(lines, from, i)
  {
    hide FenceOpen, Trim, AtxHeading;
    FenceLocal(lines, more, from, i);
  }

  lemma {:induction false} ParagraphLocal(lines: seq<string>, more: seq<string>, from: nat, i: nat)
    requires from <= i < |lines|
    ensures IsParagraphLine(lines + more, from, i) == IsParagraphLine(lines, from, i)
    decreases i
  {
    hide Trim, SetextUnderline, IsPlain;
    PlainLocal(lines, more, from, i);
    if from < i {
      ParagraphLocal(lines, more, from, i - 1);
    }
  }

  lemma HeadingLocal(lines: seq<string>, more: seq<string>, from: nat, i: nat)
    requires from <= i < |lines|
    ensures HeadingAt(lines + more, from, i) == HeadingAt(lines, from, i)
  {
    hide Trim, SetextUnderline, AtxHeading, IsPlain, IsFenced, IsParagraphLine;
    PlainLocal(lines, more, from, i);
    if from < i {
      ParagraphLocal(lines, more, from, i - 1);
    }
  }

  lemma {:induction false} HeadingsLocal(lines: seq<string>, more: seq<string>, from: nat, i: nat)
    requires from <= i <= |lines|
    ensures Headings(lines + more, from, i) == Headings(lines, from, i)
    decreases i
  {
    hide HeadingAt;
    if from < i {
      HeadingLocal(lines, more, from, i - 1);
      HeadingsLocal(lines, more, from, i - 1);
    }
  }

  lemma {:induction false} RawCharLenLocal(lines: seq<string>, more: seq<string>, first: nat, last: nat)
    requires 1 <= first && last <= |lines|
    ensures RawCharLen(lines + more, first, last) == RawCharLen(lines, first, last)
    decreases last
  {
    if first <= last {
      RawCharLenLocal(lines, more, first, last - 1);
    }
  }

  lemma SeparatorLocal(lines: seq<string>, more: seq<string>, first: nat, ln: nat)
    requires 1 <= first <= ln <= |lines|
    ensures IsSeparator(lines + more, first, ln) == IsSeparator(lines, first, ln)
  {
    hide Trim, IsFenced, IsPlain;
    PlainLocal(lines, more, first - 1, ln - 1);
  }

  lemma {:induction false} RunEndLocal(lines: seq<string>, more: seq<string>, first: nat, ln: nat, last: nat)
    requires 1 <= first <= ln <= last <= |lines|
    ensures RunEnd(lines + more, first, ln, last) == RunEnd(lines, first, ln, last)
    decreases last - ln
  {
    hide IsSeparator;
    if ln < last {
      SeparatorLocal(lines, more, first, ln + 1);
      RunEndLocal(lines, more, first, ln + 1, last);
    }
  }

  lemma {:induction false} BlocksLocal(lines: seq<string>, more: seq<string>, first: nat, ln: nat, last: nat)
    requires 1 <= first <= ln <= last + 1 <= |lines| + 1
    ensures Blocks(lines + more, first, ln, last) == Blocks(lines, first, ln, last)
    decreases last + 1 - ln
  {
    hide IsSeparator, RunEnd;
    if ln <= last {
      SeparatorLocal(lines, more, first, ln);
      RunEndLocal(lines, more, first, ln, last);
      var next := if IsSeparator(lines, first, ln) then ln + 1 else RunEnd(lines, first, ln, last) + 1;
      BlocksLocal(lines, more, first, next, last);
    }
  }

  lemma {:induction false} GreedyEndLocal(lines: seq<string>, more: seq<string>, first: nat, to: nat, last: nat)
    requires 1 <= first <= to <= last <= |lines|
    ensures GreedyEnd(lines + more, first, to, last) == GreedyEnd(lines, first, to, last)
    decreases last - to
  {
    hide RawCharLen;
    if to < last {
      RawCharLenLocal(lines, more, first, to + 1);
      GreedyEndLocal(lines, more, first, to + 1, last);
    }
  }

  lemma {:induction false} HardSplitLocal(lines: seq<string>, more: seq<string>, first: nat, last: nat)
    requires 1 <= first <= last <= |lines|
    ensures HardSplit(lines + more, first, last) == HardSplit(lines, first, last)
    decreases last - first
  {
    hide GreedyEnd;
    GreedyEndLocal(lines, more, first, first, last);
    var t := GreedyEnd(lines, first, first, last);
    if t < last {
      HardSplitLocal(lines, more, t + 1, last);
    }
  }

  lemma {:induction false} CutsLocal(lines: seq<string>, more: seq<string>, blocks: seq<Range>, k: nat,
        open: Option<nat>)
    requires InLines(lines, blocks) && k <= |blocks|
    ensures InLines(lines + more, blocks)
    ensures Cuts(lines + more, blocks, k, open) == Cuts(lines, blocks, k, open)
    decreases |blocks| - k
  {
    hide RawCharLen, HardSplit, Starts;
    if k < |blocks| {
      var b := blocks[k];
      RawCharLenLocal(lines, more, b.0, b.1);
      HardSplitLocal(lines, more, b.0, b.1);
      var blen := RawCharLen(lines, b.0, b.1);
      if IsGiant(lines, b) {
        CutsLocal(lines, more, blocks, k + 1, None);
      } else if open.Some? && open.value + blen <= SPLIT_CHARS {
        CutsLocal(lines, more, blocks, k + 1, Some(open.value + blen));
      } else {
        CutsLocal(lines, more, blocks, k + 1, Some(blen));
      }
    }
  }

  lemma SplitLocal(lines: seq<string>, more: seq<string>, first: nat, last: nat)
    requires 1 <= first && last <= |lines|
    ensures SplitOf(lines + more, first, last) == SplitOf(lines, first, last)
  {
    hide RawCharLen, Blocks, Cuts, Ranges;
    if first <= last {
      RawCharLenLocal(lines, more, first, last);
      BlocksLocal(lines, more, first, first, last);
      CutsLocal(lines, more, ParagraphBlocksOf(lines, first, last), 0, None);
    }
  }

  lemma {:induction false} FenceEndLocal(lines: seq<string>, more: seq<string>, fence: Fence, j: nat, last: nat)
    requires 1 <= j <= last + 1 <= |lines| + 1
    ensures FenceEnd(lines + more, fence, j, last) == FenceEnd(lines, fence, j, last)
    decreases last + 1 - j
  {
    hide Trim, IsFenceClose;
    if j <= last {
      FenceEndLocal(lines, more, fence, j + 1, last);
    }
  }

  lemma HeadLocal(lines: seq<string>, more: seq<string>, i: nat, last: nat)
    requires 1 <= i <= last <= |lines|
    ensures HeadOf(lines + more, i, last) == HeadOf(lines, i, last)
  {
    hide Trim, FenceOpen, FenceEnd, ClosesAt, FenceItems;
    var opener := FenceOpen(Trim(lines[i - 1]));
    if opener.Some? {
      FenceEndLocal(lines, more, opener.value, i + 1, last);
    }
  }

  lemma {:induction false} ItemsLocal(lines: seq<string>, more: seq<string>, i: nat, last: nat)
    requires 1 <= i <= last + 1 <= |lines| + 1
    ensures ItemsOf(lines + more, i, last) == ItemsOf(lines, i, last)
    decreases last + 1 - i
  {
    hide ItemsOf, HeadOf, Renderable;
    if last < i {
      NoItemsPastEnd(lines, last);
      NoItemsPastEnd(lines + more, last);
    } else {
      HeadFirst(lines, i, last);
      HeadFirst(lines + more, i, last);
      HeadLocal(lines, more, i, last);
      ItemsLocal(lines, more, HeadOf(lines, i, last).1, last);
    }
  }

  lemma BodyLocal(lines: seq<string>, more: seq<string>, first: nat, last: nat)
    requires 1 <= first && last <= |lines|
    ensures BodyOf(lines + more, first, last) == BodyOf(lines, first, last)
  {
    hide Trim, Join, ItemsOf;
    if first <= last {
      ItemsLocal(lines, more, first, last);
      ItemsRenderable(lines, first, last);
      var items := ItemsOf(lines, first, last);
      RenderLocal(lines, more, items);
    }
  }

  lemma RenderLocal(lines: seq<string>, more: seq<string>, items: seq<Item>)
    requires Renderable(lines, items)
    ensures Renderable(lines + more, items) && RenderAll(lines + more, items) == RenderAll(lines, items)
  {
    hide Decimal;
  }

  lemma SectionChunksLocal(labels: Labels, lines: seq<string>, more: seq<string>, s: Section, anchor: string)
    requires 1 <= s.lineStart <= s.lineEnd <= |lines|
    ensures SectionChunks(labels, lines + more, s, anchor) == SectionChunks(labels, lines, s, anchor)
  {
    hide SplitOf, BodyOf, PieceAnchor;
    SplitLocal(lines, more, BodyFrom(s), s.lineEnd);
    var pieces := PiecesOf(lines, s);
    forall p | 0 <= p < |pieces|
      ensures ChunkOfPiece(labels, lines + more, s, anchor, pieces, p)
           == ChunkOfPiece(labels, lines, s, anchor, pieces, p)
    {
      BodyLocal(lines, more, pieces[p].0, pieces[p].1);
    }
  }

  // ----- where the content starts -----

  /**
   * The appended text closes a block that `---` on the first line opens and
   * that is open so far; in an empty file it may hold all of the block.
   */
  predicate ClosesLeadingBlock(lines: seq<string>, more: seq<string>) {
    && OpensFrontMatter(lines + more)
    && ContentStart(lines) == 0
    && exists k :: 0 <= k < |more| && 1 <= |lines| + k <= FRONT_MATTER_MAX_SCAN && ClosesFrontMatter(more[k])
  }

  lemma FrontMatterIsUnique(lines: seq<string>, m: nat, n: nat)
    requires IsFrontMatter(lines, m) && IsFrontMatter(lines, n)
    ensures m == n
  {
    hide ClosesFrontMatter;
    assert !(m < n) && !(n < m);
  }

  lemma FrontMatterLocal(lines: seq<string>, more: seq<string>, n: nat)
    requires lines != [] && n <= |lines|
    ensures IsFrontMatter(lines + more, n) <==> IsFrontMatter(lines, n)
  {
    hide ClosesFrontMatter, Trim;
    assert forall k :: 0 <= k < |lines| ==> (lines + more)[k] == lines[k];
  }

  /** If some line within the bound could close the block, one does. */
  lemma {:induction false} SomeFrontMatter(lines: seq<string>, k: nat) returns (n: nat)
    requires OpensFrontMatter(lines) && 1 <= k < |lines| && k <= FRONT_MATTER_MAX_SCAN && ClosesFrontMatter(lines[k])
    ensures IsFrontMatter(lines, n)
    decreases k
  {
    hide ClosesFrontMatter, OpensFrontMatter;
    if j: nat :| 1 <= j < k && ClosesFrontMatter(lines[j]) {
      n := SomeFrontMatter(lines, j);
    } else {
      n := k + 1;
    }
  }

  /** Appended text moves the start of the content exactly when it closes a leading block. */
  lemma ContentStartMovesExactlyWhen(lines: seq<string>, more: seq<string>)
    ensures ContentStart(lines + more) != ContentStart(lines) <==> ClosesLeadingBlock(lines, more)
    ensures ClosesLeadingBlock(lines, more) ==> |lines| < ContentStart(lines + more)
  {
    hide ContentStart, FrontMatterTitle, IsFrontMatter, ClosesFrontMatter, OpensFrontMatter;
    var all, start := lines + more, ContentStart(lines);
    if start != 0 {
      NotEmpty(lines, start);
      FrontMatterLocal(lines, more, start);
      FrontMatterIsUnique(all, start, ContentStart(all));
    } else if ContentStart(all) != 0 {
      MovedStart(lines, more);
    } else if ClosesLeadingBlock(lines, more) {
      var k :| 0 <= k < |more| && 1 <= |lines| + k <= FRONT_MATTER_MAX_SCAN && ClosesFrontMatter(more[k]);
      assert all[|lines| + k] == more[k];
      var n := SomeFrontMatter(all, |lines| + k);
    }
  }

  lemma NotEmpty(lines: seq<string>, n: nat)
    requires IsFrontMatter(lines, n)
    ensures lines != []
  {
  }

  lemma MovedStart(lines: seq<string>, more: seq<string>)
    requires ContentStart(lines) == 0 && ContentStart(lines + more) != 0
    ensures ClosesLeadingBlock(lines, more) && |lines| < ContentStart(lines + more)
  {
    hide ContentStart, FrontMatterTitle, ClosesFrontMatter;
    var all, n := lines + more, ContentStart(lines + more);
    if lines != [] && n <= |lines| {
      FrontMatterLocal(lines, more, n);
      assert false;
    }
    assert more[n - 1 - |lines|] == all[n - 1];
  }

  // ----- headings: the old ones stay, new ones come below -----

  /** The first new line is a Setext underline, and the last old line is a paragraph it would underline. */
  predicate UnderlinesLast(lines: seq<string>, more: seq<string>) {
    && more != []
    && SetextUnderline(Trim(more[0])).Some?
    && PendingBefore(lines, ContentStart(lines), |lines|).Some?
  }

  lemma {:induction false} HeadingsExtend(all: seq<string>, from: nat, m: nat, n: nat)
    requires from <= m <= n <= |all|
    requires m < |all| ==> !IsUnderline(all, from, m)
    ensures Headings(all, from, m) <= Headings(all, from, n)
    ensures forall k :: |Headings(all, from, m)| <= k < |Headings(all, from, n)| ==> m < Headings(all, from, n)[k].line
    decreases n
  {
    hide HeadingAt, IsUnderline, IsParagraphLine;
    if m < n {
      HeadingsExtend(all, from, m, n - 1);
      HeadingAtPosition(all, from, n - 1);
      if m == n - 1 {
        NoUnderlineNoTextLine(all, from, m);
      }
    }
  }

  lemma NoUnderlineNoTextLine(all: seq<string>, from: nat, m: nat)
    requires from <= m < |all|
    ensures !IsUnderline(all, from, m) && HeadingAt(all, from, m).Some? ==> HeadingAt(all, from, m).value.line == m + 1
    ensures IsUnderline(all, from, m) ==>
              && HeadingAt(all, from, m) ==
                 Some(RawHeading(SetextUnderline(Trim(all[m])).value, Trim(all[m - 1]), m))
              && !IsParagraphLine(all, from, m)
  {
    hide Trim, AtxHeading, IsFenced;
  }

  /** A Setext underline is ordinary text for fences and ATX headings. */
  lemma UnderlineIsPlain(all: seq<string>, from: nat, m: nat)
    requires from <= m < |all| && SetextUnderline(Trim(all[m])).Some?
    requires from < m && IsParagraphLine(all, from, m - 1)
    ensures IsUnderline(all, from, m)
  {
    hide Trim, AtxHeading, SetextUnderline, FenceOpen, IsFenceClose;
    LineKindsAreExclusive(Trim(all[m]));
    UnderlineIsText(Trim(all[m]));
    assert FenceBefore(all, from, m - 1) == None && FenceOpen(Trim(all[m - 1])) == None;
  }

  lemma UnderlineIsText(trimmed: string)
    ensures SetextUnderline(trimmed).Some? ==> trimmed != ""
  {
  }

  /** The old headings stay; the new ones stand below, but for one whose text is the last old line. */
  lemma DocumentHeadingsExtend(lines: seq<string>, more: seq<string>) returns (extra: seq<RawHeading>)
    requires ContentStart(lines + more) == ContentStart(lines)
    ensures ScanOf(lines + more).headings == ScanOf(lines).headings + extra
    ensures !UnderlinesLast(lines, more) ==> forall k :: 0 <= k < |extra| ==> |lines| < extra[k].line
    ensures UnderlinesLast(lines, more) ==>
              && extra != [] && extra[0].level == SetextUnderline(Trim(more[0])).value
              && extra[0].line == |lines|
              && forall k :: 0 <= k < |ScanOf(lines).headings| ==> ScanOf(lines).headings[k].line < |lines|
  {
    hide IsFrontMatter, ContentStart, HeadingAt, IsParagraphLine, Trim, SetextUnderline, IsPlain, Headings, IsUnderline;
    var from, all, m := ContentStart(lines), lines + more, |lines|;
    HeadingsLocal(lines, more, from, m);
    HeadingsAreInOrder(lines, from, m);
    if more != [] {
      assert all[m] == more[0];
      if from < m {
        ParagraphLocal(lines, more, from, m - 1);
      }
      NoUnderlineNoTextLine(all, from, m);
      UnderlineIff(all, from, m);
    }
    if UnderlinesLast(lines, more) {
      NextIsNoUnderline(all, from, m);
      HeadingsExtend(all, from, m + 1, |all|);
      OneMoreLine(all, from, m);
    } else {
      HeadingsExtend(all, from, m, |all|);
    }
    var longer := Headings(all, from, |all|);
    extra := longer[|Headings(lines, from, m)|..];
    assert longer == Headings(lines, from, m) + extra;
  }

  lemma UnderlineIff(all: seq<string>, from: nat, m: nat)
    requires from <= m < |all|
    ensures IsUnderline(all, from, m) <==>
              SetextUnderline(Trim(all[m])).Some? && from < m && IsParagraphLine(all, from, m - 1)
  {
    hide Trim, SetextUnderline, IsPlain, IsParagraphLine;
    if SetextUnderline(Trim(all[m])).Some? && from < m && IsParagraphLine(all, from, m - 1) {
      UnderlineIsPlain(all, from, m);
    }
  }

  lemma NextIsNoUnderline(all: seq<string>, from: nat, m: nat)
    requires from <= m < |all| && IsUnderline(all, from, m)
    ensures m + 1 < |all| ==> !IsUnderline(all, from, m + 1)
  {
    hide Trim, SetextUnderline, IsPlain;
  }

  lemma OneMoreLine(all: seq<string>, from: nat, m: nat)
    requires from <= m < |all| && HeadingAt(all, from, m).Some?
    ensures Headings(all, from, m + 1) == Headings(all, from, m) + [HeadingAt(all, from, m).value]
  {
    hide HeadingAt;
  }

  // ----- chains and trails depend on earlier headings only -----

  lemma {:induction false} ChainLocal(hs: seq<RawHeading>, extra: seq<RawHeading>, i: nat, n: nat)
    requires i < |hs| && n <= i + 1
    ensures ChainUpTo(hs + extra, i, n) == ChainUpTo(hs, i, n)
  {
    if 0 < n {
      ChainLocal(hs, extra, i, n - 1);
      GovernsLocal(hs, extra, n - 1, i);
    }
  }

  lemma GovernsLocal(hs: seq<RawHeading>, extra: seq<RawHeading>, j: nat, i: nat)
    requires j <= i < |hs|
    ensures Governs(hs + extra, j, i) == Governs(hs, j, i)
  {
    assert forall k :: 0 <= k < |hs| ==> (hs + extra)[k] == hs[k];
  }

  lemma TrailLocal(hs: seq<RawHeading>, extra: seq<RawHeading>, i: nat)
    requires i < |hs|
    ensures Trail(hs + extra, i) == Trail(hs, i)
  {
    hide ChainUpTo;
    ChainLocal(hs, extra, i, i + 1);
  }

  // ----- sections -----

  /** All sections but the last are the same; the last may have grown or been followed by others. */
  predicate Keeps(before: seq<Section>, after: seq<Section>) {
    && |before| <= |after|
    && forall k :: 0 <= k < |before| ==>
         after[k] == if k + 1 < |before| then before[k] else before[k].(lineEnd := after[k].lineEnd)
  }

  lemma {:induction false} LaterHeadingsKeep(lines: seq<string>, hs: seq<RawHeading>, start: nat, m: nat, n: nat,
        sections: seq<Section>)
    requires m <= n <= |hs| && HeadingsInOrder(hs, 0, |lines|)
    requires Keeps(sections, SectionsUpTo(lines, hs, start, m))
    ensures Keeps(sections, SectionsUpTo(lines, hs, start, n))
    decreases n
  {
    hide Trail, IsAbsorbed, HeadingsInOrder;
    if m < n {
      LaterHeadingsKeep(lines, hs, start, m, n - 1, sections);
    }
  }

  lemma {:induction false} RawCharLenGrows(lines: seq<string>, first: nat, mid: nat, last: nat)
    requires 1 <= first && mid <= last <= |lines|
    ensures RawCharLen(lines, first, mid) <= RawCharLen(lines, first, last)
    decreases last
  {
    if mid < last {
      RawCharLenGrows(lines, first, mid, last - 1);
    }
  }

  /** Before the last old heading, absorption is decided as before. */
  lemma AbsorbedLocal(lines: seq<string>, more: seq<string>, hs: seq<RawHeading>, extra: seq<RawHeading>,
        output: seq<Section>, i: nat)
    requires i + 1 < |hs| && HeadingsInOrder(hs, 0, |lines|) && HeadingsInOrder(hs + extra, 0, |lines + more|)
    ensures IsAbsorbed(lines + more, hs + extra, output, i) == IsAbsorbed(lines, hs, output, i)
    ensures SectionEnd(hs + extra, |lines + more|, i) == SectionEnd(hs, |lines|, i)
  {
    hide Trail, RawCharLen, IsStrictPrefix;
    TrailLocal(hs, extra, i);
    assert (hs + extra)[i] == hs[i] && (hs + extra)[i + 1] == hs[i + 1];
    if hs[i].line < SectionEnd(hs, |lines|, i) {
      RawCharLenLocal(lines, more, hs[i].line + 1, SectionEnd(hs, |lines|, i));
    }
  }

  /** The last section built so far could take in heading i. */
  predicate MayTakeIn(hs: seq<RawHeading>, output: seq<Section>, i: nat)
    requires i < |hs|
  {
    output != [] && !output[|output| - 1].isPreamble && IsStrictPrefix(output[|output| - 1].trail, Trail(hs, i))
  }

  /** How the last old heading fares now: with the underlined line gone from its body its body is shorter, else not. */
  lemma LastAbsorbed(lines: seq<string>, more: seq<string>, hs: seq<RawHeading>, extra: seq<RawHeading>,
        output: seq<Section>)
    requires hs != [] && HeadingsInOrder(hs, 0, |lines|) && HeadingsInOrder(hs + extra, 0, |lines + more|)
    requires forall k :: 0 <= k < |extra| ==> |lines| <= extra[k].line
    ensures var i := |hs| - 1;
            var now := IsAbsorbed(lines + more, hs + extra, output, i);
            && (now ==> MayTakeIn(hs, output, i))
            && (IsAbsorbed(lines, hs, output, i) <==>
                  MayTakeIn(hs, output, i) && RawCharLen(lines, hs[i].line + 1, |lines|) < MERGE_UP_CHARS)
            && ((extra != [] ==> |lines| < extra[0].line) ==> now ==> IsAbsorbed(lines, hs, output, i))
            && (extra != [] && extra[0].line == |lines| && hs[i].line < |lines| ==>
                  (now <==>
                    && MayTakeIn(hs, output, i)
                    && extra[0].level <= hs[i].level
                    && RawCharLen(lines, hs[i].line + 1, |lines| - 1) < MERGE_UP_CHARS))
  {
    hide Trail, RawCharLen, IsStrictPrefix;
    var i := |hs| - 1;
    TrailLocal(hs, extra, i);
    assert (hs + extra)[i] == hs[i];
    if extra != [] {
      assert (hs + extra)[i + 1] == extra[0];
    }
    var end := SectionEnd(hs + extra, |lines + more|, i);
    if hs[i].line < end {
      if |lines| <= end {
        RawCharLenGrows(lines + more, hs[i].line + 1, |lines|, end);
        RawCharLenLocal(lines, more, hs[i].line + 1, |lines|);
      } else {
        RawCharLenLocal(lines, more, hs[i].line + 1, end);
      }
    }
  }

  lemma HasTextLocal(lines: seq<string>, more: seq<string>, first: nat, last: nat, longer: nat)
    requires 1 <= first && last <= |lines| && last <= longer <= |lines + more|
    ensures HasText(lines, first, last) ==> HasText(lines + more, first, longer)
    ensures last == longer ==> HasText(lines + more, first, longer) == HasText(lines, first, last)
  {
    hide Trim;
    assert forall ln: nat :: 1 <= ln <= last ==> IsBlankLine(lines + more, ln) == IsBlankLine(lines, ln);
  }

  /** Up to the last old heading, the sections are the same. */
  lemma {:induction false} EarlierSectionsSame(lines: seq<string>, more: seq<string>, hs: seq<RawHeading>,
        extra: seq<RawHeading>, start: nat, n: nat)
    requires n < |hs| && HeadingsInOrder(hs, 0, |lines|) && HeadingsInOrder(hs + extra, 0, |lines + more|)
    ensures SectionsUpTo(lines + more, hs + extra, start, n) == SectionsUpTo(lines, hs, start, n)
  {
    hide Trail, IsAbsorbed, HasText, HeadingsInOrder, SectionEnd;
    assert (hs + extra)[0] == hs[0];
    if n == 0 {
      FirstLineInFile(lines, hs);
      HasTextLocal(lines, more, start + 1, PreambleEnd(hs, |lines|), PreambleEnd(hs, |lines|));
    } else {
      EarlierSectionsSame(lines, more, hs, extra, start, n - 1);
      AbsorbedLocal(lines, more, hs, extra, SectionsUpTo(lines, hs, start, n - 1), n - 1);
      TrailLocal(hs, extra, n - 1);
      assert (hs + extra)[n - 1] == hs[n - 1];
    }
  }

  lemma FirstLineInFile(lines: seq<string>, hs: seq<RawHeading>)
    requires hs != [] && HeadingsInOrder(hs, 0, |lines|)
    ensures PreambleEnd(hs, |lines|) <= |lines|
  {
  }

  /** The ways the last old heading can go before and after: only one does not keep the sections. */
  lemma LastStep(output: seq<Section>, last: Section, end: nat)
    ensures output != [] ==> Keeps(output[|output| - 1 := output[|output| - 1].(lineEnd := last.lineEnd)],
                                   output[|output| - 1 := output[|output| - 1].(lineEnd := end)])
    ensures output != [] ==> Keeps(output[|output| - 1 := output[|output| - 1].(lineEnd := last.lineEnd)],
                                   output + [last.(lineEnd := end)])
    ensures Keeps(output + [last], output + [last.(lineEnd := end)])
  {
  }

  // ----- exactly when sections are kept -----

  /**
   * The appended underline takes the last line away from the file's only
   * section with nothing left, or from a last heading that its own length had
   * kept from being merged and no longer does.
   */
  predicate LosesLastLine(lines: seq<string>, more: seq<string>) {
    UnderlinesLast(lines, more) &&
    var hs, start := ScanOf(lines).headings, ContentStart(lines);
    HeadingsFitFile(lines);
    if hs == [] then !HasText(lines, start + 1, |lines| - 1)
    else
      var i := |hs| - 1;
      && MayTakeIn(hs, SectionsUpTo(lines, hs, start, i), i)
      && SetextUnderline(Trim(more[0])).value <= hs[i].level
      && MERGE_UP_CHARS <= RawCharLen(lines, hs[i].line + 1, |lines|)
      && RawCharLen(lines, hs[i].line + 1, |lines| - 1) < MERGE_UP_CHARS
  }

  lemma HeadingsFitFile(lines: seq<string>)
    ensures HeadingsInOrder(ScanOf(lines).headings, 0, |lines|)
    ensures |lines| == 0 ==> PendingBefore(lines, ContentStart(lines), |lines|) == None
  {
    hide IsFrontMatter, ContentStart, FrontMatterTitle, Headings;
    HeadingsAreInOrder(lines, ContentStart(lines), |lines|);
  }

  /** Sections up to the last old heading, before and after. */
  lemma StepAtLastHeading(lines: seq<string>, more: seq<string>, hs: seq<RawHeading>, extra: seq<RawHeading>,
        start: nat)
    requires hs != [] && HeadingsInOrder(hs, 0, |lines|) && HeadingsInOrder(hs + extra, 0, |lines + more|)
    ensures var i := |hs| - 1;
            var output := SectionsUpTo(lines, hs, start, i);
            var was, now := IsAbsorbed(lines, hs, output, i), IsAbsorbed(lines + more, hs + extra, output, i);
            var before := SectionsUpTo(lines, hs, start, |hs|);
            var after := SectionsUpTo(lines + more, hs + extra, start, |hs|);
            && ((now ==> was) ==> Keeps(before, after))
            && (now && !was ==>
                  && output != [] && |after| == |output| == |before| - 1
                  && before[|output| - 1] == output[|output| - 1]
                  && after[|output| - 1].lineEnd == SectionEnd(hs + extra, |lines + more|, i))
  {
    hide Trail, IsAbsorbed, HeadingsInOrder, SectionsUpTo, SectionEnd;
    var i, longer := |hs| - 1, hs + extra;
    assert longer[i] == hs[i];
    var output := SectionsUpTo(lines, hs, start, i);
    EarlierSectionsSame(lines, more, hs, extra, start, i);
    TrailLocal(hs, extra, i);
    OneMoreHeading(lines, hs, start, i);
    OneMoreHeading(lines + more, longer, start, i);
    LastStep(output, Section(Trail(hs, i), hs[i].line, SectionEnd(hs, |lines|, i), false),
             SectionEnd(longer, |lines + more|, i));
  }

  lemma PreambleInFile(lines: seq<string>, hs: seq<RawHeading>, low: nat)
    requires HeadingsInOrder(hs, 0, |lines|) && low <= |lines|
    requires forall k :: 0 <= k < |hs| ==> low < hs[k].line
    ensures low <= PreambleEnd(hs, |lines|) <= |lines|
  {
  }

  lemma PreambleKept(lines: seq<string>, more: seq<string>, extra: seq<RawHeading>, start: nat)
    requires HeadingsInOrder([], 0, |lines|) && HeadingsInOrder(extra, 0, |lines + more|)
    requires (forall k :: 0 <= k < |extra| ==> |lines| < extra[k].line)
          || (extra != [] && extra[0].line == |lines| && HasText(lines, start + 1, |lines| - 1))
    ensures Keeps(Preamble(lines, [], start), Preamble(lines + more, extra, start))
  {
    hide HasText;
    if forall k :: 0 <= k < |extra| ==> |lines| < extra[k].line {
      PreambleInFile(lines + more, extra, |lines|);
      HasTextLocal(lines, more, start + 1, |lines|, PreambleEnd(extra, |lines + more|));
    } else {
      HasTextLocal(lines, more, start + 1, |lines| - 1, |lines| - 1);
    }
  }

  lemma {:induction false} LineEndsGrow(lines: seq<string>, hs: seq<RawHeading>, start: nat, m: nat, n: nat, x: nat)
    requires 0 < m <= n <= |hs| && HeadingsInOrder(hs, 0, |lines|)
    requires x < |SectionsUpTo(lines, hs, start, m)|
    ensures x < |SectionsUpTo(lines, hs, start, n)|
    ensures SectionsUpTo(lines, hs, start, m)[x].lineEnd <= SectionsUpTo(lines, hs, start, n)[x].lineEnd
    decreases n
  {
    hide Trail, IsAbsorbed, Governs, SectionsUpTo;
    if m < n {
      LineEndsGrow(lines, hs, start, m, n - 1, x);
      OneMoreHeading(lines, hs, start, n - 1);
      OwnerGoverns(lines, hs, start, n - 1);
    }
  }

  lemma {:induction false} NoLaterPreamble(lines: seq<string>, hs: seq<RawHeading>, start: nat, n: nat)
    requires 0 < n <= |hs| && HeadingsInOrder(hs, 0, |lines|) && Preamble(lines, hs, start) == []
    ensures SectionsUpTo(lines, hs, start, n) != [] && !SectionsUpTo(lines, hs, start, n)[0].isPreamble
    decreases n
  {
    hide Trail, IsLeaf, BodyLen, IsStrictPrefix, Preamble;
    if 1 < n {
      NoLaterPreamble(lines, hs, start, n - 1);
    }
  }

  /** When the last heading loses its section, the one before it has grown for good. */
  lemma MergedAwayIsSeen(lines: seq<string>, more: seq<string>, hs: seq<RawHeading>, extra: seq<RawHeading>, start: nat)
    requires hs != [] && HeadingsInOrder(hs, 0, |lines|) && HeadingsInOrder(hs + extra, 0, |lines + more|)
    requires extra != [] && extra[0].line == |lines| && hs[|hs| - 1].line < |lines|
    requires var output := SectionsUpTo(lines, hs, start, |hs| - 1);
             && MayTakeIn(hs, output, |hs| - 1)
             && IsAbsorbed(lines + more, hs + extra, output, |hs| - 1)
             && !IsAbsorbed(lines, hs, output, |hs| - 1)
    ensures !Keeps(SectionsUpTo(lines, hs, start, |hs|), SectionsUpTo(lines + more, hs + extra, start, |hs + extra|))
  {
    hide Trail, IsAbsorbed, Governs, SectionsUpTo, IsStrictPrefix;
    var i, longer := |hs| - 1, hs + extra;
    var output := SectionsUpTo(lines, hs, start, i);
    StepAtLastHeading(lines, more, hs, extra, start);
    assert longer[i + 1] == extra[0];
    var x := |output| - 1;
    if i == 0 {
      NoHeadingsYet(lines, hs, start);
    } else {
      OwnerGoverns(lines, hs, start, i);
    }
    LineEndsGrow(lines + more, longer, start, |hs|, |longer|, x);
  }

  lemma NoHeadingsCase(lines: seq<string>, more: seq<string>, extra: seq<RawHeading>)
    requires ContentStart(lines + more) == ContentStart(lines)
    requires ScanOf(lines).headings == [] && ScanOf(lines + more).headings == extra
    requires !UnderlinesLast(lines, more) ==> forall k :: 0 <= k < |extra| ==> |lines| < extra[k].line
    requires UnderlinesLast(lines, more) ==> extra != [] && extra[0].line == |lines|
    ensures Keeps(SectionsOf(lines), SectionsOf(lines + more)) <==> !LosesLastLine(lines, more)
  {
    hide IsFrontMatter, ContentStart, FrontMatterTitle, Headings, HeadingsInOrder, SectionsUpTo, UnderlinesLast,
         HasText, Preamble;
    var start, all := ContentStart(lines), lines + more;
    HeadingsFitFile(lines);
    HeadingsFitFile(all);
    NoHeadingsYet(lines, [], start);
    NoHeadingsYet(all, extra, start);
    if LosesLastLine(lines, more) {
      OnlyPreambleGone(lines, more, extra);
      NoLaterPreamble(all, extra, start, |extra|);
    } else {
      PreambleKept(lines, more, extra, start);
      LaterHeadingsKeep(all, extra, start, 0, |extra|, SectionsOf(lines));
    }
  }

  /** The file's only section was a preamble, and its only text has become a heading. */
  lemma OnlyPreambleGone(lines: seq<string>, more: seq<string>, extra: seq<RawHeading>)
    requires UnderlinesLast(lines, more) && extra != [] && extra[0].line == |lines|
    requires HeadingsInOrder([], 0, |lines|) && HeadingsInOrder(extra, 0, |lines + more|)
    requires !HasText(lines, ContentStart(lines) + 1, |lines| - 1)
    ensures var start := ContentStart(lines);
            && Preamble(lines, [], start) != []
            && Preamble(lines + more, extra, start) == []
  {
    hide IsFrontMatter, ContentStart, FrontMatterTitle, Trim, SetextUnderline, IsFenced, AtxHeading;
    var start := ContentStart(lines);
    HasTextLocal(lines, more, start + 1, |lines| - 1, |lines| - 1);
    assert !IsBlankLine(lines, |lines|);
  }

  /** What losing the last line means to a file with headings. */
  lemma LosesLastHeading(lines: seq<string>, more: seq<string>)
    requires ScanOf(lines).headings != []
    ensures HeadingsInOrder(ScanOf(lines).headings, 0, |lines|)
    ensures LosesLastLine(lines, more) <==>
              var hs, start := ScanOf(lines).headings, ContentStart(lines);
              var i := |hs| - 1;
              && UnderlinesLast(lines, more)
              && MayTakeIn(hs, SectionsUpTo(lines, hs, start, i), i)
              && SetextUnderline(Trim(more[0])).value <= hs[i].level
              && MERGE_UP_CHARS <= RawCharLen(lines, hs[i].line + 1, |lines|)
              && RawCharLen(lines, hs[i].line + 1, |lines| - 1) < MERGE_UP_CHARS
  {
    hide IsFrontMatter, ContentStart, FrontMatterTitle, Headings, HeadingsInOrder, SectionsUpTo, MayTakeIn, RawCharLen,
         Trim, SetextUnderline;
    HeadingsFitFile(lines);
  }

  lemma SomeHeadingsCase(lines: seq<string>, more: seq<string>, extra: seq<RawHeading>)
    requires ContentStart(lines + more) == ContentStart(lines)
    requires var hs := ScanOf(lines).headings;
             hs != [] && ScanOf(lines + more).headings == hs + extra
    requires !UnderlinesLast(lines, more) ==> forall k :: 0 <= k < |extra| ==> |lines| < extra[k].line
    requires UnderlinesLast(lines, more) ==>
               && more != [] && SetextUnderline(Trim(more[0])).Some?
               && extra != [] && extra[0].level == SetextUnderline(Trim(more[0])).value
               && extra[0].line == |lines|
               && ScanOf(lines).headings[|ScanOf(lines).headings| - 1].line < |lines|
    ensures Keeps(SectionsOf(lines), SectionsOf(lines + more)) <==> !LosesLastLine(lines, more)
  {
    hide IsFrontMatter, ContentStart, FrontMatterTitle, Headings, SectionsUpTo, Keeps, UnderlinesLast, IsAbsorbed,
         MayTakeIn, RawCharLen, HeadingsInOrder, LosesLastLine, Trim, SetextUnderline;
    var hs, start, all := ScanOf(lines).headings, ContentStart(lines), lines + more;
    HeadingsFitFile(lines);
    HeadingsFitFile(all);
    LosesLastHeading(lines, more);
    NewHeadingsBelow(lines, more, hs, extra);
    LastAbsorbed(lines, more, hs, extra, SectionsUpTo(lines, hs, start, |hs| - 1));
    StepAtLastHeading(lines, more, hs, extra, start);
    if LosesLastLine(lines, more) {
      MergedAwayIsSeen(lines, more, hs, extra, start);
    } else {
      LaterHeadingsKeep(all, hs + extra, start, |hs|, |hs + extra|, SectionsOf(lines));
    }
  }

  lemma SameStartKeepsSections(lines: seq<string>, more: seq<string>)
    requires ContentStart(lines + more) == ContentStart(lines)
    ensures Keeps(SectionsOf(lines), SectionsOf(lines + more)) <==> !LosesLastLine(lines, more)
  {
    hide IsFrontMatter, ContentStart, SectionsOf, Keeps, LosesLastLine, Trim, SetextUnderline, ScanOf;
    var extra := DocumentHeadingsExtend(lines, more);
    if ScanOf(lines).headings == [] {
      assert [] + extra == extra;
      NoHeadingsCase(lines, more, extra);
    } else {
      SomeHeadingsCase(lines, more, extra);
    }
  }

  lemma NewHeadingsBelow(lines: seq<string>, more: seq<string>, hs: seq<RawHeading>, extra: seq<RawHeading>)
    requires HeadingsInOrder(hs + extra, 0, |lines + more|)
    requires (forall k :: 0 <= k < |extra| ==> |lines| < extra[k].line) || (extra != [] && extra[0].line == |lines|)
    ensures forall k :: 0 <= k < |extra| ==> |lines| <= extra[k].line
  {
    assert forall k :: 0 <= k < |extra| ==> (hs + extra)[|hs| + k] == extra[k];
    forall k | 0 <= k < |extra|
      ensures |lines| <= extra[k].line
    {
      if 0 < k {
        assert (hs + extra)[|hs|].line < (hs + extra)[|hs| + k].line;
      }
    }
  }

  /**
   * The first new line unsettles the end of the file, or some new line turns the whole
   * file so far into front matter.
   */
  predicate Unsettles(lines: seq<string>, more: seq<string>) {
    (lines != [] && ClosesLeadingBlock(lines, more)) || LosesLastLine(lines, more)
  }

  /**
   * A file that begins with `---` has a section as long as that line is content; it
   * does not once it is front matter.
   */
  lemma LeadingBlockIsGone(lines: seq<string>, more: seq<string>)
    requires lines != [] && ClosesLeadingBlock(lines, more)
    ensures !Keeps(SectionsOf(lines), SectionsOf(lines + more))
  {
    hide SectionsOf, ContentStart, FrontMatterTitle, IsFrontMatter, Trim, ClosesFrontMatter, FenceBefore, SectionsFit;
    ContentStartMovesExactlyWhen(lines, more);
    var before, after := SectionsOf(lines), SectionsOf(lines + more);
    assert (lines + more)[0] == lines[0] && IsContent(lines, 1);
    if before == [] {
      NoSectionsNoText(lines);
      assert false;
    }
    DocumentSectionsFit(lines);
    SectionFits(lines, before, 0);
    if after != [] {
      assert after[0] in after;
      SectionsBeginOutsideFences(lines + more, after[0]);
    }
  }

  lemma NoLinesNoSections(more: seq<string>)
    ensures SectionsOf([]) == [] && !Unsettles([], more) && Keeps([], SectionsOf([] + more))
  {
    hide IsFrontMatter;
  }

  /**
   * Appended text leaves every section but the last as it was, and the last
   * with its trail and first line, exactly unless it closes a leading block or
   * its first line unsettles the end of the file.
   */
  lemma AppendedTextKeepsSections(lines: seq<string>, more: seq<string>)
    ensures Keeps(SectionsOf(lines), SectionsOf(lines + more)) <==> !Unsettles(lines, more)
  {
    hide SectionsOf, ContentStart, FrontMatterTitle, IsFrontMatter, LosesLastLine, ClosesLeadingBlock, Keeps;
    if lines == [] {
      NoLinesNoSections(more);
    } else {
      ContentStartMovesExactlyWhen(lines, more);
      if ClosesLeadingBlock(lines, more) {
        LeadingBlockIsGone(lines, more);
      } else {
        SameStartKeepsSections(lines, more);
      }
    }
  }

  lemma {:induction false} ChunksLocal(alnum: Alphanumeric, labels: Labels, lines: seq<string>, more: seq<string>,
        before: seq<Section>, after: seq<Section>, n: nat)
    requires SectionsFit(lines, before) && SectionsFit(lines + more, after) && n <= |before| && n <= |after|
    requires before[..n] == after[..n]
    ensures ChunksUpTo(alnum, labels, lines + more, after, n) == ChunksUpTo(alnum, labels, lines, before, n)
  {
    hide SectionChunks, Ordinal, Bases, SectionAnchor, SectionsFit;
    if 0 < n {
      assert before[..n - 1] == before[..n][..n - 1] && after[..n - 1] == after[..n][..n - 1];
      assert before[n - 1] == before[..n][n - 1] == after[n - 1];
      ChunksLocal(alnum, labels, lines, more, before, after, n - 1);
      SectionFits(lines, before, n - 1);
      SameOrdinal(alnum, before, after, n);
      SectionChunksLocal(labels, lines, more, before[n - 1], AnchorAt(alnum, before, n - 1));
    }
  }

  lemma SameOrdinal(alnum: Alphanumeric, before: seq<Section>, after: seq<Section>, n: nat)
    requires 0 < n <= |before| && n <= |after| && before[..n] == after[..n]
    ensures Bases(alnum, before)[n - 1] == Bases(alnum, after)[n - 1]
    ensures Ordinal(Bases(alnum, before), n - 1) == Ordinal(Bases(alnum, after), n - 1)
  {
    hide BaseAnchor, Occurrences;
    assert forall k :: 0 <= k < n ==> before[k] == before[..n][k] == after[k];
    assert Bases(alnum, before)[..n - 1] == Bases(alnum, after)[..n - 1];
  }

  // ----- the title -----

  lemma {:induction false} LastTitleLocal(lines: seq<string>, more: seq<string>, n: nat)
    requires n <= |lines|
    ensures LastTitle(lines + more, n) == LastTitle(lines, n)
  {
    hide TitleLine;
    if 1 < n {
      LastTitleLocal(lines, more, n - 1);
    }
  }

  /** The first heading of level 1 that the appended lines complete has this text. */
  predicate BringsTitle(lines: seq<string>, more: seq<string>, text: string) {
    exists j :: |lines| <= j < |lines + more| &&
                IsFirstTop(lines + more, ContentStart(lines), |lines|, j, text)
  }

  /** The file names a title already, or the appended lines bring none but the file's stem. */
  ghost predicate KeepsTitle(lines: seq<string>, more: seq<string>, file: File) {
    FoundTitle(ScanOf(lines)).Some? || forall text :: BringsTitle(lines, more, text) ==> text == file.stem
  }

  /** A title that is found stays; where none is, the appended lines may bring one. */
  lemma TitleFoundAfter(lines: seq<string>, more: seq<string>, text: string)
    requires !ClosesLeadingBlock(lines, more)
    ensures var before, after := FoundTitle(ScanOf(lines)), FoundTitle(ScanOf(lines + more));
            && (before.Some? ==> after == before)
            && (before == None ==> (after == Some(text) <==> BringsTitle(lines, more, text)))
  {
    hide ContentStart, IsFrontMatter, Headings, ClosesLeadingBlock, LastTitle, TopHeading, IsFirstTop;
    ContentStartMovesExactlyWhen(lines, more);
    var from, all := ContentStart(lines), lines + more;
    if from != 0 {
      LastTitleLocal(lines, more, from - 1);
    }
    HeadingsLocal(lines, more, from, |lines|);
    TopFrom(all, from, |lines|, |all|, text);
  }

  /** While the content starts at the same line, the title in every header stays exactly when `KeepsTitle` holds. */
  lemma TitleStaysExactlyWhen(lines: seq<string>, more: seq<string>, file: File)
    requires !ClosesLeadingBlock(lines, more)
    ensures TitleOf(ScanOf(lines + more), file) == TitleOf(ScanOf(lines), file) <==> KeepsTitle(lines, more, file)
  {
    hide FoundTitle, BringsTitle, ClosesLeadingBlock;
    var before, after := FoundTitle(ScanOf(lines)), FoundTitle(ScanOf(lines + more));
    forall text
      ensures before.Some? ==> after == before
      ensures before == None ==> (after == Some(text) <==> BringsTitle(lines, more, text))
    {
      TitleFoundAfter(lines, more, text);
    }
    if before == None && after.Some? {
      assert BringsTitle(lines, more, after.value);
    }
  }

  // ----- chunks -----

  lemma SameLabelsSameChunks(alnum: Alphanumeric, labels: Labels, lines: seq<string>, more: seq<string>, n: nat)
    requires !Unsettles(lines, more) && n < |SectionsOf(lines)|
    ensures SectionsFit(lines, SectionsOf(lines)) && SectionsFit(lines + more, SectionsOf(lines + more))
    ensures n < |SectionsOf(lines + more)|
    ensures ChunksUpTo(alnum, labels, lines + more, SectionsOf(lines + more), n)
         == ChunksUpTo(alnum, labels, lines, SectionsOf(lines), n)
  {
    hide SectionsOf, ChunksUpTo, ContentStart, FrontMatterTitle, IsFrontMatter, Unsettles, SectionsFit;
    var before, after := SectionsOf(lines), SectionsOf(lines + more);
    AppendedTextKeepsSections(lines, more);
    DocumentSectionsFit(lines);
    DocumentSectionsFit(lines + more);
    ChunksLocal(alnum, labels, lines, more, before, after, n);
  }

  /**
   * When the sections are kept, all chunks of the sections before the last keep
   * their anchors and spans.  They keep their texts too exactly if the title
   * stays, which is part of each.
   */
  lemma AppendedTextKeepsChunks(alnum: Alphanumeric, file: File, lines: seq<string>, more: seq<string>, n: nat)
    requires !Unsettles(lines, more) && n < |SectionsOf(lines)|
    ensures n < |SectionsOf(lines + more)|
    ensures SameAnchorsAndSpans(FirstChunks(alnum, file, lines + more, n), FirstChunks(alnum, file, lines, n))
    ensures FirstChunks(alnum, file, lines + more, n) == FirstChunks(alnum, file, lines, n) <==>
              n == 0 || KeepsTitle(lines, more, file)
  {
    hide SectionsOf, ChunksUpTo, KeepsTitle, ClosesLeadingBlock, LosesLastLine, SectionsFit, TitleOf,
         SameAnchorsAndSpans;
    var sections := SectionsOf(lines);
    var was, now := LabelsOf(file, lines), LabelsOf(file, lines + more);
    FirstChunksAre(alnum, file, lines, n);
    SameLabelsSameChunks(alnum, now, lines, more, n);
    FirstChunksAre(alnum, file, lines + more, n);
    LabelsOnlyInText(alnum, now, was, lines, sections, n);
    SomeLines(lines);
    TitleStaysExactlyWhen(lines, more, file);
    if n == 0 {
      NoChunksYet(alnum, now, lines, sections);
      NoChunksYet(alnum, was, lines, sections);
    } else {
      TitleShows(alnum, now, was, lines, sections, n);
    }
  }

  lemma FirstChunksAre(alnum: Alphanumeric, file: File, lines: seq<string>, n: nat)
    requires n <= |SectionsOf(lines)|
    ensures SectionsFit(lines, SectionsOf(lines))
    ensures FirstChunks(alnum, file, lines, n) ==
              ChunksUpTo(alnum, LabelsOf(file, lines), lines, SectionsOf(lines), n)
  {
    hide SectionsOf, ChunksUpTo, SectionsFit, LabelsOf;
    DocumentSectionsFit(lines);
  }

  lemma SomeLines(lines: seq<string>)
    requires SectionsOf(lines) != []
    ensures lines != []
  {
    hide IsFrontMatter;
  }
}
