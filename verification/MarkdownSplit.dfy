// Splitting an oversized section body: paragraph blocks, greedy bins, the
// line-by-line fallback for a giant block, and stitching.
module MarkdownSplit {
  import opened Basics
  import opened Text
  import opened MarkdownLines
  import opened MarkdownFences

  const SPLIT_CHARS: nat := 2600
  const HARD_SPLIT_CHARS: nat := SPLIT_CHARS + SPLIT_CHARS / 2

  function Starts(ranges: seq<Range>): (r: seq<nat>)
    ensures |r| == |ranges| && forall k :: 0 <= k < |r| ==> r[k] == ranges[k].0
  {
    seq(|ranges|, k requires 0 <= k < |ranges| => ranges[k].0)
  }

  /** The ranges that begin at the given lines, each ending just before the next, the last at `end`. */
  function Ranges(starts: seq<nat>, end: nat): (r: seq<Range>)
    ensures |r| == |starts|
    ensures forall k :: 0 <= k < |r| ==>
              r[k] == (starts[k], if k + 1 < |r| then SaturatingSub(starts[k + 1], 1) else end)
  {
    seq(|starts|, k requires 0 <= k < |starts| =>
      (starts[k], if k + 1 < |starts| then SaturatingSub(starts[k + 1], 1) else end))
  }

  // ----- hard split -----

  /** The furthest line to which a piece that starts at `first` and reaches `to` can still be extended. */
  function GreedyEnd(lines: seq<string>, first: nat, to: nat, last: nat): (t: nat)
    requires 1 <= first <= to <= last <= |lines|
    ensures to <= t <= last
    decreases last - to
  {
    if to == last || SPLIT_CHARS < RawCharLen(lines, first, to + 1) then to
    else GreedyEnd(lines, first, to + 1, last)
  }

  /** Pieces of `first..last`, each reaching as far as the limit allows. */
  function HardSplit(lines: seq<string>, first: nat, last: nat): (r: seq<Range>)
    requires 1 <= first <= last <= |lines|
    ensures r != [] && r[0].0 == first
    decreases last - first
  {
    var t := GreedyEnd(lines, first, first, last);
    if t == last then [(first, last)] else [(first, t)] + HardSplit(lines, t + 1, last)
  }

  lemma CutAfterGreedyEnd(lines: seq<string>, first: nat, t: nat, last: nat)
    requires 1 <= first <= t < last <= |lines| && GreedyEnd(lines, first, first, last) == t
    ensures HardSplit(lines, first, last) == [(first, t)] + HardSplit(lines, t + 1, last)
  {
    hide GreedyEnd;
  }

  method HardSplitBlock(lines: seq<string>, first: nat, last: nat) returns (pieces: seq<Range>)
    requires 1 <= first <= last <= |lines|
    ensures pieces == HardSplit(lines, first, last)
  {
    hide HardSplit;
    pieces := [];
    var curStart, curChars := first, 0;
    var ln := first;
    while ln <= last
      invariant first <= curStart <= ln <= last + 1 && curStart <= last
      invariant curChars == RawCharLen(lines, curStart, ln - 1)
      invariant GreedyEnd(lines, curStart, curStart, last) == GreedyEnd(lines, curStart, Max(curStart, ln - 1), last)
      invariant pieces + HardSplit(lines, curStart, last) == HardSplit(lines, first, last)
    {
      var llen := |lines[ln - 1]| + 1;
      if curChars + llen > SPLIT_CHARS && ln > curStart {
        CutAfterGreedyEnd(lines, curStart, ln - 1, last);
        assert pieces + ([(curStart, ln - 1)] + HardSplit(lines, ln, last))
            == pieces + [(curStart, ln - 1)] + HardSplit(lines, ln, last);
        pieces := pieces + [(curStart, ln - 1)];
        curStart := ln;
        curChars := 0;
      }
      curChars := curChars + llen;
      ln := ln + 1;
    }
    LastPiece(lines, curStart, last);
    pieces := pieces + [(curStart, last)];
  }

  lemma LastPiece(lines: seq<string>, first: nat, last: nat)
    requires 1 <= first <= last <= |lines| && GreedyEnd(lines, first, first, last) == last
    ensures HardSplit(lines, first, last) == [(first, last)]
  {
    hide GreedyEnd;
  }

  /** A piece is admissible when it keeps to the limit or cannot be cut any further. */
  predicate Admissible(lines: seq<string>, r: Range)
    requires 1 <= r.0 && r.1 <= |lines|
  {
    RawCharLen(lines, r.0, r.1) <= SPLIT_CHARS || r.0 == r.1
  }

  predicate AllAdmissible(lines: seq<string>, ranges: seq<Range>) {
    forall k :: 0 <= k < |ranges| ==> 1 <= ranges[k].0 && ranges[k].1 <= |lines| && Admissible(lines, ranges[k])
  }

  lemma {:induction false} GreedyEndAdmissible(lines: seq<string>, first: nat, to: nat, last: nat)
    requires 1 <= first <= to <= last <= |lines| && Admissible(lines, (first, to))
    ensures Admissible(lines, (first, GreedyEnd(lines, first, to, last)))
    decreases last - to
  {
    if to != last && RawCharLen(lines, first, to + 1) <= SPLIT_CHARS {
      GreedyEndAdmissible(lines, first, to + 1, last);
    }
  }

  lemma OneLineIsAdmissible(lines: seq<string>, ln: nat)
    requires 1 <= ln <= |lines|
    ensures Admissible(lines, (ln, ln))
  {
  }

  /** The pieces tile the block, and each keeps to the limit or is a single line. */
  lemma {:induction false} HardSplitTiles(lines: seq<string>, first: nat, last: nat)
    requires 1 <= first <= last <= |lines|
    ensures Tiles(HardSplit(lines, first, last), first, last)
    ensures AllAdmissible(lines, HardSplit(lines, first, last))
    decreases last - first
  {
    hide GreedyEnd, HardSplit, Tiles, Admissible;
    var t := GreedyEnd(lines, first, first, last);
    assert Admissible(lines, (first, first)) by { OneLineIsAdmissible(lines, first); }
    GreedyEndAdmissible(lines, first, first, last);
    if t == last {
      LastPiece(lines, first, last);
      TilesOfOne((first, last));
    } else {
      HardSplitTiles(lines, t + 1, last);
      CutAfterGreedyEnd(lines, first, t, last);
      TilesCons((first, t), HardSplit(lines, t + 1, last), last);
    }
  }

  lemma {:induction false} GreedyEndIsFurthest(lines: seq<string>, first: nat, to: nat, t: nat, last: nat)
    requires 1 <= first <= to <= t <= last <= |lines|
    requires RawCharLen(lines, first, t) <= SPLIT_CHARS
    ensures t <= GreedyEnd(lines, first, to, last)
    decreases t - to
  {
    if to < t {
      RawCharLenSplits(lines, first, to + 1, t);
      GreedyEndIsFurthest(lines, first, to + 1, t, last);
    }
  }

  /** Cutting greedily from a later line never needs more pieces than any admissible cutting from an earlier one. */
  lemma {:induction false} GreedyStaysAhead(lines: seq<string>, first: nat, from: nat, last: nat, cutting: seq<Range>)
    requires 1 <= first <= from <= last <= |lines|
    requires Tiles(cutting, first, last) && AllAdmissible(lines, cutting)
    ensures |HardSplit(lines, from, last)| <= |cutting|
    decreases |cutting|
  {
    hide RawCharLen, GreedyEnd;
    var c := cutting[0];
    TilesStayInside(cutting, first, last);
    if c.1 < from {
      assert Tiles(cutting[1..], c.1 + 1, last);
      GreedyStaysAhead(lines, c.1 + 1, from, last, cutting[1..]);
    } else {
      var t := GreedyEnd(lines, from, from, last);
      if from < c.1 {
        RawCharLenSplits(lines, first, from - 1, c.1);
        GreedyEndIsFurthest(lines, from, from, c.1, last);
      }
      if t < last {
        assert Tiles(cutting[1..], c.1 + 1, last);
        GreedyStaysAhead(lines, c.1 + 1, t + 1, last, cutting[1..]);
      }
    }
  }

  /** No admissible cutting of the block at line boundaries has fewer pieces. */
  lemma HardSplitIsOptimal(lines: seq<string>, first: nat, last: nat, cutting: seq<Range>)
    requires 1 <= first <= last <= |lines|
    requires Tiles(cutting, first, last) && AllAdmissible(lines, cutting)
    ensures |HardSplit(lines, first, last)| <= |cutting|
  {
    GreedyStaysAhead(lines, first, first, last, cutting);
  }

  // ----- paragraph blocks -----

  /** Line ln parts paragraphs: blank, and outside every fence for a reader that starts at line `first`. */
  predicate IsSeparator(lines: seq<string>, first: nat, ln: nat)
    requires 1 <= first <= ln <= |lines|
  {
    IsBlankLine(lines, ln) && !IsFenced(lines, first - 1, ln - 1)
  }

  /** Last line of the run of non-separators that reaches line ln. */
  function RunEnd(lines: seq<string>, first: nat, ln: nat, last: nat): (t: nat)
    requires 1 <= first <= ln <= last <= |lines|
    ensures ln <= t <= last
    decreases last - ln
  {
    if ln == last || IsSeparator(lines, first, ln + 1) then ln else RunEnd(lines, first, ln + 1, last)
  }

  /** Maximal runs of non-separators in `ln..last`. */
  function Blocks(lines: seq<string>, first: nat, ln: nat, last: nat): (r: seq<Range>)
    requires 1 <= first <= ln <= last + 1 <= |lines| + 1
    ensures forall k :: 0 <= k < |r| ==> ln <= r[k].0 <= r[k].1 <= last
    ensures last < ln ==> r == []
    decreases last + 1 - ln
  {
    if last < ln then []
    else if IsSeparator(lines, first, ln) then Blocks(lines, first, ln + 1, last)
    else
      var t := RunEnd(lines, first, ln, last);
      [(ln, t)] + Blocks(lines, first, t + 1, last)
  }

  function ParagraphBlocksOf(lines: seq<string>, first: nat, last: nat): (r: seq<Range>)
    requires 1 <= first <= last <= |lines|
    ensures r != [] && forall k :: 0 <= k < |r| ==> first <= r[k].0 <= r[k].1 <= last
  {
    var blocks := Blocks(lines, first, first, last);
    if blocks == [] then [(first, last)] else blocks
  }

  lemma {:induction false} RunEndIs(lines: seq<string>, first: nat, ln: nat, t: nat, last: nat)
    requires 1 <= first <= ln <= t <= last <= |lines|
    requires forall x :: ln < x <= t ==> !IsSeparator(lines, first, x)
    requires t == last || IsSeparator(lines, first, t + 1)
    ensures RunEnd(lines, first, ln, last) == t
    decreases t - ln
  {
    if ln < t {
      RunEndIs(lines, first, ln + 1, t, last);
    }
  }

  lemma BlocksAtText(lines: seq<string>, first: nat, ln: nat, last: nat)
    requires 1 <= first <= ln <= last <= |lines| && !IsSeparator(lines, first, ln)
    ensures var t := RunEnd(lines, first, ln, last);
            Blocks(lines, first, ln, last) == [(ln, t)] + Blocks(lines, first, t + 1, last)
  {
    hide IsSeparator, RunEnd;
  }

  /** None of the lines `a..b` is a separator. */
  predicate IsTextRun(lines: seq<string>, first: nat, a: nat, b: nat)
    requires 1 <= first <= a && b <= |lines|
  {
    forall x :: a <= x <= b ==> !IsSeparator(lines, first, x)
  }

  lemma TextRunGrows(lines: seq<string>, first: nat, a: nat, b: nat)
    requires 1 <= first <= a && b < |lines|
    requires a <= b ==> IsTextRun(lines, first, a, b)
    requires a <= b + 1 ==> !IsSeparator(lines, first, b + 1)
    ensures IsTextRun(lines, first, a, b + 1)
  {
    hide IsSeparator;
  }

  lemma BlocksOfRun(lines: seq<string>, first: nat, ln: nat, t: nat, last: nat)
    requires 1 <= first <= ln <= t <= last <= |lines| && IsTextRun(lines, first, ln, t)
    requires t == last || IsSeparator(lines, first, t + 1)
    ensures Blocks(lines, first, ln, last) == [(ln, t)] + Blocks(lines, first, t + 1, last)
  {
    hide IsSeparator, Blocks, RunEnd;
    RunEndIs(lines, first, ln, t, last);
    BlocksAtText(lines, first, ln, last);
  }

  lemma BlocksAtSeparator(lines: seq<string>, first: nat, ln: nat, last: nat)
    requires 1 <= first <= ln <= last <= |lines| && IsSeparator(lines, first, ln)
    ensures Blocks(lines, first, ln, last) == Blocks(lines, first, ln + 1, last)
  {
    hide IsSeparator;
  }

  lemma SeparatorStep(lines: seq<string>, first: nat, ln: nat)
    requires 1 <= first <= ln <= |lines|
    ensures var fence, t := FenceBefore(lines, first - 1, ln - 1), Trim(lines[ln - 1]);
            && FenceBefore(lines, first - 1, ln) == FenceAfter(fence, lines[ln - 1])
            && (IsSeparator(lines, first, ln) <==> fence == None && FenceOpen(t) == None && t == "")
    ensures first == ln ==> FenceBefore(lines, first - 1, ln - 1) == None
  {
    hide Trim, FenceAfter, FenceOpen;
  }

  lemma ConsMoves(a: seq<Range>, r: Range, b: seq<Range>)
    ensures a + ([r] + b) == a + [r] + b
  {
  }

  method ParagraphBlocks(lines: seq<string>, first: nat, last: nat) returns (blocks: seq<Range>)
    requires 1 <= first <= last <= |lines|
    ensures blocks == ParagraphBlocksOf(lines, first, last)
  {
    hide Trim, FenceOpen, IsFenceClose, RunEnd, IsSeparator, FenceBefore, Blocks, IsTextRun;
    blocks := [];
    var fence: Option<Fence> := None;
    var blockStart: Option<nat> := None;
    var ln := first;
    SeparatorStep(lines, first, first);
    while ln <= last
      invariant first <= ln <= last + 1
      invariant fence == FenceBefore(lines, first - 1, ln - 1)
      invariant blockStart.Some? ==> first <= blockStart.value < ln
      invariant blockStart.Some? ==> IsTextRun(lines, first, blockStart.value, ln - 1)
      invariant blocks + Blocks(lines, first, if blockStart.Some? then blockStart.value else ln, last)
             == Blocks(lines, first, first, last)
    {
      var trimmed := Trim(lines[ln - 1]);
      SeparatorStep(lines, first, ln);
      if IsSeparator(lines, first, ln) {
        BlocksAtSeparator(lines, first, ln, last);
      } else {
        TextRunGrows(lines, first, if blockStart.Some? then blockStart.value else ln, ln - 1);
      }
      var opener := FenceOpen(trimmed);
      if fence.Some? {
        if IsFenceClose(trimmed, fence.value) {
          fence := None;
        }
        if blockStart == None {
          blockStart := Some(ln);
        }
      } else if opener.Some? {
        fence := opener;
        if blockStart == None {
          blockStart := Some(ln);
        }
      } else if trimmed == "" {
        if blockStart.Some? {
          BlocksOfRun(lines, first, blockStart.value, ln - 1, last);
          ConsMoves(blocks, (blockStart.value, ln - 1), Blocks(lines, first, ln, last));
          blocks := blocks + [(blockStart.value, SaturatingSub(ln, 1))];
          blockStart := None;
        }
      } else if blockStart == None {
        blockStart := Some(ln);
      }
      ln := ln + 1;
    }
    if blockStart.Some? {
      BlocksOfRun(lines, first, blockStart.value, last, last);
      ConsMoves(blocks, (blockStart.value, last), Blocks(lines, first, last + 1, last));
      blocks := blocks + [(blockStart.value, last)];
    }
    if blocks == [] {
      blocks := [(first, last)];
    }
  }

  /** A block, declaratively: separators on both sides or the end of the range, none inside. */
  predicate IsBlock(lines: seq<string>, first: nat, last: nat, b: Range)
    requires 1 <= first && last <= |lines|
  {
    && first <= b.0 <= b.1 <= last
    && (forall x :: b.0 <= x <= b.1 ==> !IsSeparator(lines, first, x))
    && (b.0 == first || IsSeparator(lines, first, b.0 - 1))
    && (b.1 == last || IsSeparator(lines, first, b.1 + 1))
  }

  lemma {:induction false} RunIsBlock(lines: seq<string>, first: nat, ln: nat, last: nat)
    requires 1 <= first <= ln <= last <= |lines| && !IsSeparator(lines, first, ln)
    ensures var t := RunEnd(lines, first, ln, last);
            && (forall x :: ln <= x <= t ==> !IsSeparator(lines, first, x))
            && (t == last || IsSeparator(lines, first, t + 1))
    decreases last - ln
  {
    if ln != last && !IsSeparator(lines, first, ln + 1) {
      RunIsBlock(lines, first, ln + 1, last);
    }
  }

  /** A block that begins at ln is the run from there. */
  lemma BlockIsRun(lines: seq<string>, first: nat, last: nat, b: Range)
    requires 1 <= first && last <= |lines| && IsBlock(lines, first, last, b)
    ensures first <= b.0 <= last && b.1 == RunEnd(lines, first, b.0, last)
  {
    hide IsSeparator, RunEnd;
    RunEndIs(lines, first, b.0, b.1, last);
  }

  /** No block begins inside a run. */
  lemma NoBlockInRun(lines: seq<string>, first: nat, ln: nat, last: nat, b: Range)
    requires 1 <= first <= ln <= last <= |lines| && !IsSeparator(lines, first, ln)
    requires ln < b.0 <= RunEnd(lines, first, ln, last)
    ensures !IsBlock(lines, first, last, b)
  {
    hide IsSeparator, RunEnd;
    RunIsBlock(lines, first, ln, last);
    assert !IsSeparator(lines, first, b.0 - 1);
  }

  /** `Blocks` lists exactly the blocks. */
  lemma {:induction false} BlocksAreExactly(lines: seq<string>, first: nat, ln: nat, last: nat, b: Range)
    requires 1 <= first <= ln <= last + 1 <= |lines| + 1
    requires || ln == first
             || IsSeparator(lines, first, ln - 1)
             || (ln <= last && IsSeparator(lines, first, ln))
             || ln == last + 1
    ensures b in Blocks(lines, first, ln, last) <==> ln <= b.0 && IsBlock(lines, first, last, b)
    decreases last + 1 - ln
  {
    hide IsSeparator, Blocks, RunEnd, IsBlock;
    if ln == last + 1 {
      NoBlockPastEnd(lines, first, last, b);
    } else if IsSeparator(lines, first, ln) {
      BlocksAtSeparator(lines, first, ln, last);
      BlocksAreExactly(lines, first, ln + 1, last, b);
      NoBlockAtSeparator(lines, first, ln, last, b);
    } else {
      var t := RunEnd(lines, first, ln, last);
      BlocksAtText(lines, first, ln, last);
      RunIsBlock(lines, first, ln, last);
      BlocksAreExactly(lines, first, t + 1, last, b);
      BlockOfRun(lines, first, ln, last);
      if ln < b.0 <= t {
        NoBlockInRun(lines, first, ln, last, b);
      } else if b.0 == ln && IsBlock(lines, first, last, b) {
        BlockIsRun(lines, first, last, b);
      }
    }
  }

  lemma NoBlockPastEnd(lines: seq<string>, first: nat, last: nat, b: Range)
    requires 1 <= first <= last + 1 <= |lines| + 1
    ensures Blocks(lines, first, last + 1, last) == [] && (IsBlock(lines, first, last, b) ==> b.0 <= last)
  {
    hide IsSeparator;
  }

  lemma NoBlockAtSeparator(lines: seq<string>, first: nat, ln: nat, last: nat, b: Range)
    requires 1 <= first <= ln <= last <= |lines| && IsSeparator(lines, first, ln)
    ensures IsBlock(lines, first, last, b) ==> b.0 != ln
  {
    hide IsSeparator;
  }

  lemma BlockOfRun(lines: seq<string>, first: nat, ln: nat, last: nat)
    requires 1 <= first <= ln <= last <= |lines| && !IsSeparator(lines, first, ln)
    requires ln == first || IsSeparator(lines, first, ln - 1)
    ensures IsBlock(lines, first, last, (ln, RunEnd(lines, first, ln, last)))
  {
    hide IsSeparator, RunEnd;
    RunIsBlock(lines, first, ln, last);
  }
}
